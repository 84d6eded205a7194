/**
 One notification of a window's handlers (Libs/Input/os_window.cpp): handlers are held weakly, called
 in order, and removed when they are found expired. A callback may itself bind handlers and
 release some.
 */
module Notification {
  import opened HandlerMap

  // ---------- One notification ----------

  /** What a callback does to the window: handlers bound, and handlers whose last owner lets go. */
  datatype Effect = Effect(binds: seq<Handler>, releases: set<Handler>)

  /** The effects of the callbacks of one notification, in the order of the calls; later ones have none. */
  type Effects = seq<Effect>

  function Head(effects: Effects): Effect {
    if effects == [] then Effect([], {}) else effects[0]
  }

  function Tail(effects: Effects): Effects {
    if effects == [] then [] else effects[1..]
  }

  /** Only live handlers can be bound: the caller is one of their owners. */
  predicate Allowed(dead: set<Handler>, effects: Effects)
    decreases |effects|
  {
    effects == [] || ((forall h <- effects[0].binds :: h !in dead) && Allowed(dead + effects[0].releases, effects[1..]))
  }

  /**
   A notification on its way: the entries behind and before the iterator, the expired handlers, the
   bindings made so far, what the callbacks still have in store, the entries called, and those
   bound by a callback too late to be called.
   */
  datatype Walk = Walk(done: seq<Entry>, rest: seq<Entry>, dead: set<Handler>, bound: seq<Handler>, effects: Effects,
                       called: seq<Entry>, late: seq<Entry>)

  /** A handler bound while `e` is being called: it is in front of the iterator unless its number is lower. */
  function BindOne(w: Walk, e: Entry, h: Handler): Walk {
    var n := Entry(h, |w.bound|);
    if h.priority < e.handler.priority then w.(done := Insert(w.done, n), bound := w.bound + [h], late := w.late + [n])
    else w.(rest := Insert(w.rest, n), bound := w.bound + [h])
  }

  function BindAll(w: Walk, e: Entry, hs: seq<Handler>): Walk
    decreases |hs|
  {
    if hs == [] then w else BindAll(BindOne(w, e, hs[0]), e, hs[1..])
  }

  function Call(w: Walk): Walk
    requires w.rest != []
  {
    var e, effect := w.rest[0], Head(w.effects);
    var t := w.(done := w.done + [e], rest := w.rest[1..], called := w.called + [e], effects := Tail(w.effects));
    var u := BindAll(t, e, effect.binds);
    u.(dead := u.dead + effect.releases)
  }

  /** Past an expired entry, which is erased, or kept in the window that never removes any. */
  function Pass(w: Walk, keep: bool): Walk
    requires w.rest != []
  {
    w.(done := if keep then w.done + [w.rest[0]] else w.done, rest := w.rest[1..])
  }

  lemma {:induction false} BindAllCounts(w: Walk, e: Entry, hs: seq<Handler>)
    ensures var u := BindAll(w, e, hs);
            && |u.rest| <= |w.rest| + |hs| && u.effects == w.effects && u.dead == w.dead && u.called == w.called
            && u.bound == w.bound + hs
    decreases |hs|
  {
    if hs == [] {
      assert w.bound + [] == w.bound;
    } else {
      InsertLength(w.rest, Entry(hs[0], |w.bound|));
      BindAllCounts(BindOne(w, e, hs[0]), e, hs[1..]);
      assert (w.bound + [hs[0]]) + hs[1..] == w.bound + hs;
    }
  }

  /** The rest of a notification. It ends because only finitely many callbacks bind handlers. */
  function Finish(w: Walk, keep: bool): (u: Walk)
    ensures u.rest == []
    decreases |w.effects|, |w.rest|
  {
    if w.rest == [] then w
    else if w.rest[0].handler in w.dead then Finish(Pass(w, keep), keep)
    else
      CallSizes(w);
      Finish(Call(w), keep)
  }

  // ---------- Order ----------

  /** Everything is in order, and everything called comes before everything that is still to come. */
  ghost predicate WellWalked(w: Walk) {
    && InOrder(w.done + w.rest) && Recorded(w.done + w.rest, w.bound)
    && InOrder(w.called) && Recorded(w.called, w.bound)
    && forall c <- w.called, r <- w.rest :: Before(c, r)
  }

  /** The entry `e` is being called: the iterator stands behind it, and it was called last. */
  ghost predicate Calling(w: Walk, e: Entry) {
    && WellWalked(w)
    && w.done != [] && w.done[|w.done| - 1] == e
    && w.called != [] && w.called[|w.called| - 1] == e
  }

  /** The whole list, and the entries still to come, after one more binding. */
  lemma BindOneInserts(w: Walk, e: Entry, h: Handler)
    requires Calling(w, e)
    ensures var t := BindOne(w, e, h);
            && t.done + t.rest == Insert(w.done + w.rest, Entry(h, |w.bound|))
            && InOrder(t.done + t.rest) && Recorded(t.done + t.rest, t.bound)
            && t.done != [] && t.done[|t.done| - 1] == e
            && forall r <- t.rest :: r in w.rest || (r == Entry(h, |w.bound|) && h.priority >= e.handler.priority)
  {
    hide InOrder, Insert;
    var n := Entry(h, |w.bound|);
    InOrderParts(w.done, w.rest);
    InsertSplit(w.done, w.rest, n);
    InsertInOrder(w.done + w.rest, n);
    if h.priority < e.handler.priority {
      InsertKeepsLast(w.done, n);
    } else {
      InsertInOrder(w.rest, n);
    }
  }

  lemma BindOneKeeps(w: Walk, e: Entry, h: Handler)
    requires Calling(w, e)
    ensures Calling(BindOne(w, e, h), e)
  {
    hide InOrder;
    BindOneInserts(w, e, h);
    var t := BindOne(w, e, h);
    forall c <- t.called, r <- t.rest
      ensures Before(c, r)
    {
      CalledBefore(w, e, c);
    }
  }

  lemma CalledBefore(w: Walk, e: Entry, c: Entry)
    requires Calling(w, e) && c in w.called
    ensures c == e || Before(c, e)
    ensures c.serial < |w.bound|
  {
    var i :| 0 <= i < |w.called| && w.called[i] == c;
  }

  lemma {:induction false} BindAllKeeps(w: Walk, e: Entry, hs: seq<Handler>)
    requires Calling(w, e)
    ensures Calling(BindAll(w, e, hs), e)
    decreases |hs|
  {
    hide Calling, BindOne;
    if hs != [] {
      BindOneKeeps(w, e, hs[0]);
      BindAllKeeps(BindOne(w, e, hs[0]), e, hs[1..]);
    }
  }

  /** The state right before the callback runs. */
  function Reached(w: Walk): Walk
    requires w.rest != []
  {
    w.(done := w.done + [w.rest[0]], rest := w.rest[1..], called := w.called + [w.rest[0]], effects := Tail(w.effects))
  }

  lemma ReachedIsCalling(w: Walk)
    requires WellWalked(w) && w.rest != []
    ensures Calling(Reached(w), w.rest[0])
    ensures Reached(w).done + Reached(w).rest == w.done + w.rest
  {
    var r := Reached(w);
    assert r.done + r.rest == w.done + w.rest;
    forall c <- r.called, x <- r.rest
      ensures Before(c, x)
    {
      if c == w.rest[0] {
        assert x in w.rest[1..];
        var i :| 0 <= i < |w.rest[1..]| && w.rest[1..][i] == x;
        assert (w.done + w.rest)[|w.done|] == c && (w.done + w.rest)[|w.done| + 1 + i] == x;
      } else {
        assert c in w.called && x in w.rest;
      }
    }
  }

  lemma CallKeeps(w: Walk)
    requires WellWalked(w) && w.rest != []
    ensures WellWalked(Call(w))
  {
    ReachedIsCalling(w);
    BindAllKeeps(Reached(w), w.rest[0], Head(w.effects).binds);
  }

  lemma PassKeeps(w: Walk, keep: bool)
    requires WellWalked(w) && w.rest != []
    ensures WellWalked(Pass(w, keep))
  {
    var p := Pass(w, keep);
    if keep {
      assert p.done + p.rest == w.done + w.rest;
    } else {
      forall i, j | 0 <= i < j < |p.done + p.rest|
        ensures Before((p.done + p.rest)[i], (p.done + p.rest)[j])
      {
        var k, m := if i < |w.done| then i else i + 1, if j < |w.done| then j else j + 1;
        assert Before((w.done + w.rest)[k], (w.done + w.rest)[m]);
      }
    }
  }

  lemma {:induction false} FinishKeeps(w: Walk, keep: bool)
    requires WellWalked(w)
    ensures WellWalked(Finish(w, keep))
    decreases |w.effects|, |w.rest|
  {
    hide WellWalked, Call, Pass;
    if w.rest == [] {
    } else if w.rest[0].handler in w.dead {
      PassKeeps(w, keep);
      PassSizes(w, keep);
      FinishKeeps(Pass(w, keep), keep);
    } else {
      CallKeeps(w);
      CallSizes(w);
      FinishKeeps(Call(w), keep);
    }
  }

  lemma PassSizes(w: Walk, keep: bool)
    requires w.rest != []
    ensures Pass(w, keep).effects == w.effects && |Pass(w, keep).rest| == |w.rest| - 1
  {
  }

  lemma CallSizes(w: Walk)
    requires w.rest != []
    ensures |Call(w).effects| < |w.effects| || (Call(w).effects == w.effects && |Call(w).rest| < |w.rest|)
  {
    BindAllCounts(Reached(w), w.rest[0], Head(w.effects).binds);
  }

  // ---------- Who is called ----------

  /** The window holds what was called, and what was bound too late to be called. */
  ghost predicate Accounted(w: Walk) {
    multiset(w.done) == multiset(w.called) + multiset(w.late)
  }

  lemma {:induction false} BindAllAccounts(w: Walk, e: Entry, hs: seq<Handler>)
    requires Accounted(w)
    ensures var u := BindAll(w, e, hs); Accounted(u) && forall x <- w.rest :: x in u.rest
    decreases |hs|
  {
    if hs != [] {
      var n := Entry(hs[0], |w.bound|);
      InsertContents(w.done, n);
      InsertContents(w.rest, n);
      forall x <- w.rest
        ensures x in Insert(w.rest, n)
      {
        assert x in multiset(w.rest) && x in multiset(Insert(w.rest, n));
      }
      BindAllAccounts(BindOne(w, e, hs[0]), e, hs[1..]);
    }
  }

  lemma CallAccounts(w: Walk)
    requires Accounted(w) && w.rest != []
    ensures var u := Call(w);
            && Accounted(u) && u.called == w.called + [w.rest[0]] && w.dead <= u.dead
            && forall x <- w.rest :: x == w.rest[0] || x in u.rest
  {
    BindAllAccounts(Reached(w), w.rest[0], Head(w.effects).binds);
    BindAllCounts(Reached(w), w.rest[0], Head(w.effects).binds);
    assert w.rest == [w.rest[0]] + w.rest[1..];
  }

  /**
   Who is dead when the notification starts is not called. Every entry whose handler lives through
   the notification is called; with `WellWalked`, exactly once. What remains in the window is what
   was called and what a callback bound too late.
   */
  lemma {:induction false} FinishCalls(w: Walk)
    requires Accounted(w)
    ensures var u := Finish(w, false);
            && Accounted(u) && w.dead <= u.dead && w.called <= u.called
            && (forall x <- w.rest | x.handler !in u.dead :: x in u.called)
            && forall x <- u.called :: x in w.called || x.handler !in w.dead
    decreases |w.effects|, |w.rest|
  {
    hide Call;
    if w.rest == [] {
    } else if w.rest[0].handler in w.dead {
      assert w.rest == [w.rest[0]] + w.rest[1..];
      FinishCalls(Pass(w, false));
    } else {
      CallAccounts(w);
      CallSizes(w);
      FinishCalls(Call(w));
      var u := Finish(Call(w), false);
      assert u.called[|w.called|] == (w.called + [w.rest[0]])[|w.called|] == w.rest[0];
    }
  }

  /** Whatever is late was bound by a callback, to a handler with a lower number than one called. */
  ghost predicate LateIsLower(w: Walk, base: nat) {
    && base <= |w.bound|
    && forall x <- w.late :: base <= x.serial && exists c <- w.called :: x.handler.priority < c.handler.priority
  }

  lemma {:induction false} BindAllLate(w: Walk, e: Entry, hs: seq<Handler>, base: nat)
    requires LateIsLower(w, base) && e in w.called
    ensures LateIsLower(BindAll(w, e, hs), base)
    decreases |hs|
  {
    if hs != [] {
      BindAllLate(BindOne(w, e, hs[0]), e, hs[1..], base);
    }
  }

  lemma {:induction false} FinishLate(w: Walk, keep: bool, base: nat)
    requires LateIsLower(w, base)
    ensures LateIsLower(Finish(w, keep), base)
    decreases |w.effects|, |w.rest|
  {
    if w.rest == [] {
    } else if w.rest[0].handler in w.dead {
      FinishLate(Pass(w, keep), keep, base);
    } else {
      var r := Reached(w);
      assert r.called[|w.called|] == w.rest[0];
      assert forall c <- w.called :: c in r.called;
      BindAllLate(r, w.rest[0], Head(w.effects).binds, base);
      CallSizes(w);
      FinishLate(Call(w), keep, base);
    }
  }

  lemma {:induction false} BindAllComplete(w: Walk, e: Entry, hs: seq<Handler>)
    requires Calling(w, e) && Complete(w.done + w.rest, w.bound)
    ensures var u := BindAll(w, e, hs); Complete(u.done + u.rest, u.bound)
    decreases |hs|
  {
    hide Calling;
    if hs != [] {
      BindOneInserts(w, e, hs[0]);
      BindOneKeeps(w, e, hs[0]);
      InsertInWalk(w, e, Entry(hs[0], |w.bound|));
      BindAllComplete(BindOne(w, e, hs[0]), e, hs[1..]);
    }
  }

  lemma InsertInWalk(w: Walk, e: Entry, n: Entry)
    requires Calling(w, e) && n.serial == |w.bound|
    ensures forall x :: x in Insert(w.done + w.rest, n) <==> x == n || x in w.done + w.rest
  {
    InsertInOrder(w.done + w.rest, n);
  }

  lemma {:induction false} FinishComplete(w: Walk)
    requires WellWalked(w) && Complete(w.done + w.rest, w.bound)
    ensures var u := Finish(w, true); Complete(u.done, u.bound)
    decreases |w.effects|, |w.rest|
  {
    hide WellWalked, Complete, Pass, Call;
    if w.rest == [] {
      assert w.done + w.rest == w.done;
    } else if w.rest[0].handler in w.dead {
      PassKeeps(w, true);
      PassWhole(w);
      FinishComplete(Pass(w, true));
    } else {
      CallKeeps(w);
      ReachedIsCalling(w);
      BindAllComplete(Reached(w), w.rest[0], Head(w.effects).binds);
      CallWhole(w);
      CallSizes(w);
      FinishComplete(Call(w));
    }
  }

  lemma PassWhole(w: Walk)
    requires w.rest != []
    ensures var p := Pass(w, true); p.done + p.rest == w.done + w.rest && p.bound == w.bound && PassesOne(w, p)
  {
  }

  ghost predicate PassesOne(w: Walk, p: Walk) {
    p.effects == w.effects && |p.rest| < |w.rest|
  }

  lemma CallWhole(w: Walk)
    requires w.rest != []
    ensures var u, c := BindAll(Reached(w), w.rest[0], Head(w.effects).binds), Call(w);
            c.done == u.done && c.rest == u.rest && c.bound == u.bound
  {
  }

  // ---------- Removal makes no difference ----------

  /** Two walks that differ only in dead entries. */
  ghost predicate WalksAlike(w: Walk, k: Walk) {
    && w.dead == k.dead && w.bound == k.bound && w.effects == k.effects && w.called == k.called && w.late == k.late
    && Live(w.done, w.dead) == Live(k.done, w.dead) && Live(w.rest, w.dead) == Live(k.rest, w.dead)
  }

  lemma {:induction false} BindAllAlike(w: Walk, k: Walk, e: Entry, hs: seq<Handler>)
    requires WalksAlike(w, k) && Calling(w, e) && Calling(k, e) && forall h <- hs :: h !in w.dead
    ensures WalksAlike(BindAll(w, e, hs), BindAll(k, e, hs))
    decreases |hs|
  {
    if hs != [] {
      var n := Entry(hs[0], |w.bound|);
      InOrderParts(w.done, w.rest);
      InOrderParts(k.done, k.rest);
      LiveInsert(w.done, w.dead, n);
      LiveInsert(k.done, w.dead, n);
      LiveInsert(w.rest, w.dead, n);
      LiveInsert(k.rest, w.dead, n);
      BindOneKeeps(w, e, hs[0]);
      BindOneKeeps(k, e, hs[0]);
      BindAllAlike(BindOne(w, e, hs[0]), BindOne(k, e, hs[0]), e, hs[1..]);
    }
  }

  lemma ReleaseAlike(w: Walk, k: Walk, more: set<Handler>)
    requires WalksAlike(w, k) && w.dead <= more
    ensures WalksAlike(w.(dead := more), k.(dead := more))
  {
    LiveTwice(w.done, w.dead, more);
    LiveTwice(k.done, w.dead, more);
    LiveTwice(w.rest, w.dead, more);
    LiveTwice(k.rest, w.dead, more);
  }

  lemma CallAlike(w: Walk, k: Walk)
    requires WalksAlike(w, k) && WellWalked(w) && WellWalked(k) && Allowed(w.dead, w.effects)
    requires w.rest != [] && w.rest[0].handler !in w.dead && k.rest != [] && k.rest[0].handler !in k.dead
    ensures WalksAlike(Call(w), Call(k)) && Allowed(Call(w).dead, Call(w).effects)
  {
    var e, effect := w.rest[0], Head(w.effects);
    assert Live(w.rest, w.dead)[0] == e && Live(k.rest, w.dead)[0] == k.rest[0];
    assert Live(w.rest, w.dead)[1..] == Live(w.rest[1..], w.dead);
    assert Live(k.rest, w.dead)[1..] == Live(k.rest[1..], w.dead);
    LiveConcat(w.done, [e], w.dead);
    LiveConcat(k.done, [e], w.dead);
    ReachedIsCalling(w);
    ReachedIsCalling(k);
    BindAllAlike(Reached(w), Reached(k), e, effect.binds);
    BindAllCounts(Reached(w), e, effect.binds);
    BindAllCounts(Reached(k), e, effect.binds);
    ReleaseAlike(BindAll(Reached(w), e, effect.binds), BindAll(Reached(k), e, effect.binds), w.dead + effect.releases);
  }

  lemma PassAlike(w: Walk, keep: bool)
    requires w.rest != [] && w.rest[0].handler in w.dead
    ensures Live(Pass(w, keep).done, w.dead) == Live(w.done, w.dead)
    ensures Live(Pass(w, keep).rest, w.dead) == Live(w.rest, w.dead)
  {
    LiveConcat(w.done, [w.rest[0]], w.dead);
  }

  /** A notification that removes expired entries makes the calls of one that does not. */
  lemma {:induction false} FinishAlike(w: Walk, k: Walk)
    requires WalksAlike(w, k) && WellWalked(w) && WellWalked(k) && Allowed(w.dead, w.effects)
    ensures WalksAlike(Finish(w, false), Finish(k, true))
    decreases |w.effects|, |w.rest| + |k.rest|, |w.rest|
  {
    hide WellWalked, Call, Allowed, Pass;
    if w.rest != [] && w.rest[0].handler in w.dead {
      PassKeeps(w, false);
      PassAlike(w, false);
      PassRest(w, false);
      FinishAlike(Pass(w, false), k);
    } else if k.rest != [] && k.rest[0].handler in k.dead {
      PassKeeps(k, true);
      PassAlike(k, true);
      PassRest(k, true);
      FinishAlike(w, Pass(k, true));
    } else if w.rest != [] {
      CallKeeps(w);
      CallKeeps(k);
      CallAlike(w, k);
      CallRest(w, k);
      FinishAlike(Call(w), Call(k));
    }
  }

  lemma PassRest(w: Walk, keep: bool)
    requires w.rest != []
    ensures var p := Pass(w, keep); p == w.(done := p.done, rest := w.rest[1..])
  {
  }

  lemma CallRest(w: Walk, k: Walk)
    requires w.rest != [] && k.rest != [] && w.effects == k.effects
    ensures Call(w).effects == Tail(w.effects)
    ensures w.effects == [] ==> |Call(w).rest| < |w.rest| && |Call(k).rest| < |k.rest|
  {
    BindAllCounts(Reached(w), w.rest[0], Head(w.effects).binds);
    BindAllCounts(Reached(k), k.rest[0], Head(k.effects).binds);
  }
}
