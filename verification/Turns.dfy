/**
 Who is called in one notification (Libs/Input/os_window.cpp), said without walking: every binding has
 its turn, and what the callbacks before that have bound and released decides.
 */
module Turns {
  import opened HandlerMap
  import opened Notification

  /** The handlers bound by the first `n` callbacks. */
  function Binds(effects: Effects, n: nat): seq<Handler> {
    if n == 0 then [] else Head(effects).binds + Binds(Tail(effects), n - 1)
  }

  /** The handlers released by the first `n` callbacks. */
  function Releases(effects: Effects, n: nat): set<Handler> {
    if n == 0 then {} else Head(effects).releases + Releases(Tail(effects), n - 1)
  }

  /** What is in store for the callbacks after the first `n`. */
  function Later(effects: Effects, n: nat): Effects {
    if n == 0 then effects else Later(Tail(effects), n - 1)
  }

  lemma FirstOf(effects: Effects, n: nat)
    ensures Binds(effects, n + 1) == Head(effects).binds + Binds(Tail(effects), n)
    ensures Releases(effects, n + 1) == Head(effects).releases + Releases(Tail(effects), n)
    ensures Later(effects, n + 1) == Later(Tail(effects), n)
  {
  }

  lemma NoneOf(effects: Effects)
    ensures Binds(effects, 0) == [] && Releases(effects, 0) == {} && Later(effects, 0) == effects
  {
  }

  lemma {:induction false} OneMore(effects: Effects, n: nat)
    ensures var effect := Head(Later(effects, n));
            && Binds(effects, n + 1) == Binds(effects, n) + effect.binds
            && Releases(effects, n + 1) == Releases(effects, n) + effect.releases
            && Later(effects, n + 1) == Tail(Later(effects, n))
    decreases n
  {
    hide *;
    FirstOf(effects, n);
    if n == 0 {
      NoneOf(effects);
      NoneOf(Tail(effects));
    } else {
      FirstOf(effects, n - 1);
      OneMore(Tail(effects), n - 1);
    }
  }

  lemma {:induction false} MoreBinds(effects: Effects, k: nat, n: nat)
    requires k <= n
    ensures |Binds(effects, k)| <= |Binds(effects, n)|
    decreases n
  {
    if k < n {
      OneMore(effects, n - 1);
      MoreBinds(effects, k, n - 1);
    }
  }

  /** A notification is allowed if no callback binds a handler that has expired by then, and only then. */
  lemma {:induction false} AllowedExactly(dead: set<Handler>, effects: Effects)
    ensures Allowed(dead, effects) <==>
            forall n, h | 0 <= n < |effects| && h in effects[n].binds :: h !in dead + Releases(effects, n)
    decreases |effects|
  {
    if effects != [] {
      var next, tail := dead + effects[0].releases, effects[1..];
      AllowedExactly(next, tail);
      forall n, h | 0 < n < |effects| && h in effects[n].binds
        ensures h in dead + Releases(effects, n) <==> h in next + Releases(tail, n - 1)
      {
      }
      if Allowed(dead, effects) {
        forall n, h | 0 <= n < |effects| && h in effects[n].binds
          ensures h !in dead + Releases(effects, n)
        {
          assert n > 0 ==> tail[n - 1] == effects[n];
        }
      } else if forall h <- effects[0].binds :: h !in dead {
        var n, h :| 0 <= n < |tail| && h in tail[n].binds && h in next + Releases(tail, n);
        assert effects[n + 1] == tail[n];
      }
    }
  }

  /** The number of calls in front of the turn of `x`. */
  function Turn(called: seq<Entry>, x: Entry): (k: nat)
    ensures k <= |called|
  {
    if called == [] || !Before(called[0], x) then 0 else 1 + Turn(called[1..], x)
  }

  /** In a list in order, the turn separates what comes before `x` from what does not. */
  lemma {:induction false} TurnSeparates(called: seq<Entry>, x: Entry, i: nat)
    requires InOrder(called) && i < |called|
    ensures Before(called[i], x) <==> i < Turn(called, x)
  {
    if Before(called[0], x) {
      if i > 0 {
        InOrderParts([called[0]], called[1..]);
        assert called == [called[0]] + called[1..];
        TurnSeparates(called[1..], x, i - 1);
      }
    } else if i > 0 {
      assert Before(called[0], called[i]);
    }
  }

  lemma {:induction false} TurnOfNext(called: seq<Entry>, x: Entry)
    requires forall c <- called :: Before(c, x)
    ensures Turn(called, x) == |called|
  {
    if called != [] {
      TurnOfNext(called[1..], x);
    }
  }

  lemma {:induction false} TurnStays(called: seq<Entry>, x: Entry, e: Entry)
    requires !Before(e, x)
    ensures Turn(called + [e], x) == Turn(called, x)
  {
    if called == [] {
      assert [] + [e] == [e];
    } else {
      assert (called + [e])[1..] == called[1..] + [e];
      TurnStays(called[1..], x, e);
    }
  }

  /** The window when the notification starts. */
  datatype Beginning = Beginning(entries: seq<Entry>, dead: set<Handler>, bound: seq<Handler>, effects: Effects)

  /** A binding made before the notification, or in it. */
  predicate Known(b: Beginning, bound: seq<Handler>, x: Entry) {
    x in b.entries || (|b.bound| <= x.serial < |bound| && bound[x.serial] == x.handler)
  }

  /** At its turn the binding has been made, and by then the handler lives. */
  predicate Due(b: Beginning, k: nat, x: Entry) {
    x.serial < |b.bound + Binds(b.effects, k)| && x.handler !in b.dead + Releases(b.effects, k)
  }

  /** Called exactly if due, and kept exactly if called or bound too late for its turn. */
  ghost predicate Decided(b: Beginning, called: seq<Entry>, kept: seq<Entry>, x: Entry) {
    var k := Turn(called, x);
    && (x in called <==> Due(b, k, x))
    && (x in kept <==> x in called || x.serial >= |b.bound + Binds(b.effects, k)|)
  }

  /** Everything known that is not still to come is decided, and comes before that. */
  ghost predicate Sorted(b: Beginning, w: Walk) {
    forall x | Known(b, w.bound, x) && x !in w.rest ::
      Decided(b, w.called, w.done, x) && forall r <- w.rest :: Before(x, r)
  }

  ghost predicate AllKnown(b: Beginning, w: Walk) {
    && (forall x <- w.rest :: Known(b, w.bound, x))
    && (forall x <- w.called :: Known(b, w.bound, x))
    && (forall x <- w.done :: Known(b, w.bound, x))
  }

  ghost predicate OnTime(b: Beginning, w: Walk) {
    var n := |w.called|;
    && WellWalked(w) && Sorted(b, w)
    && w.dead == b.dead + Releases(b.effects, n)
    && w.bound == b.bound + Binds(b.effects, n)
    && w.effects == Later(b.effects, n)
    && AllKnown(b, w)
  }

  lemma NextIsApart(w: Walk)
    requires WellWalked(w) && w.rest != []
    ensures var x := w.rest[0];
            && x !in w.called && x !in w.done && x.serial < |w.bound|
            && Turn(w.called, x) == |w.called|
            && forall r <- w.rest[1..] :: Before(x, r)
  {
    var x, whole := w.rest[0], w.done + w.rest;
    TurnOfNext(w.called, x);
    assert whole[|w.done|] == x;
    forall y <- w.done
      ensures y != x
    {
      var i :| 0 <= i < |w.done| && w.done[i] == y;
      assert whole[i] == y && Before(whole[i], whole[|w.done|]);
    }
    forall r <- w.rest[1..]
      ensures Before(x, r)
    {
      var i :| 0 <= i < |w.rest[1..]| && w.rest[1..][i] == r;
      assert whole[|w.done| + 1 + i] == r;
    }
  }

  lemma PassDecides(b: Beginning, w: Walk)
    requires OnTime(b, w) && w.rest != [] && w.rest[0].handler in w.dead
    ensures OnTime(b, Pass(w, false))
  {
    hide WellWalked;
    NextIsApart(w);
    PassKeeps(w, false);
    assert w.rest == [w.rest[0]] + w.rest[1..];
  }

  /** The entry `e` is the call after the first `n`, and its callback is at work. */
  ghost predicate AtWork(b: Beginning, w: Walk, e: Entry, n: nat) {
    && Calling(w, e) && Sorted(b, w)
    && |w.called| == n + 1 && |b.bound + Binds(b.effects, n)| <= |w.bound|
    && (forall x | Known(b, w.bound, x) && x !in w.rest :: x == e || Before(x, e))
    && AllKnown(b, w)
  }

  lemma DecidedStays(b: Beginning, called: seq<Entry>, kept: seq<Entry>, x: Entry, e: Entry)
    requires Decided(b, called, kept, x) && Before(x, e)
    ensures Decided(b, called + [e], kept + [e], x)
  {
    TurnStays(called, x, e);
  }

  lemma CalledIsDecided(b: Beginning, w: Walk)
    requires OnTime(b, w) && w.rest != [] && w.rest[0].handler !in w.dead
    ensures Decided(b, w.called + [w.rest[0]], w.done + [w.rest[0]], w.rest[0])
  {
    hide Sorted, AllKnown;
    NextIsApart(w);
    TurnStays(w.called, w.rest[0], w.rest[0]);
  }

  lemma ReachedIsAtWork(b: Beginning, w: Walk)
    requires OnTime(b, w) && w.rest != [] && w.rest[0].handler !in w.dead
    ensures AtWork(b, Reached(w), w.rest[0], |w.called|)
  {
    hide WellWalked, Calling, Decided, Known, Later, Releases;
    NextIsApart(w);
    ReachedIsCalling(w);
    CalledIsDecided(b, w);
    var e, r := w.rest[0], Reached(w);
    assert w.rest == [e] + w.rest[1..];
    forall x | Known(b, w.bound, x) && x !in r.rest
      ensures Decided(b, r.called, r.done, x) && (x == e || Before(x, e)) && forall y <- r.rest :: Before(x, y)
    {
      if x != e {
        assert Decided(b, w.called, w.done, x) && Before(x, e);
        DecidedStays(b, w.called, w.done, x, e);
      }
    }
  }

  /** Where the binding went, and that it is no other. */
  lemma BindOneContents(w: Walk, e: Entry, h: Handler)
    requires Calling(w, e)
    ensures var t, y := BindOne(w, e, h), Entry(h, |w.bound|);
            && (forall x :: x in t.done <==> x in w.done || (x == y && h.priority < e.handler.priority))
            && (forall x :: x in t.rest <==> x in w.rest || (x == y && h.priority >= e.handler.priority))
            && y !in w.done && y !in w.rest && y !in w.called
            && (forall r <- t.rest :: Before(e, r))
  {
    var y := Entry(h, |w.bound|);
    BindOneKeeps(w, e, h);
    assert forall x <- w.done :: x in w.done + w.rest;
    assert forall x <- w.rest :: x in w.done + w.rest;
    InOrderParts(w.done, w.rest);
    InsertInOrder(w.done, y);
    InsertInOrder(w.rest, y);
  }

  lemma LateIsDecided(b: Beginning, w: Walk, e: Entry, n: nat, h: Handler)
    requires AtWork(b, w, e, n) && h.priority < e.handler.priority
    ensures var t, y := BindOne(w, e, h), Entry(h, |w.bound|);
            Decided(b, t.called, t.done, y) && Before(y, e) && forall r <- t.rest :: Before(y, r)
  {
    hide Insert, InOrder;
    var y := Entry(h, |w.bound|);
    BindOneContents(w, e, h);
    TurnSeparates(w.called, y, n);
    MoreBinds(b.effects, Turn(w.called, y), n);
  }

  /** A binding made by a callback: in front of the iterator it has its turn, behind it is too late. */
  lemma BindDecides(b: Beginning, w: Walk, e: Entry, n: nat, h: Handler)
    requires AtWork(b, w, e, n)
    ensures AtWork(b, BindOne(w, e, h), e, n)
  {
    hide WellWalked, Insert, InOrder;
    var t, y := BindOne(w, e, h), Entry(h, |w.bound|);
    BindOneInserts(w, e, h);
    BindOneKeeps(w, e, h);
    BindOneContents(w, e, h);
    forall x | Known(b, t.bound, x) && x !in t.rest
      ensures Decided(b, t.called, t.done, x) && (x == e || Before(x, e)) && forall r <- t.rest :: Before(x, r)
    {
      if x == y {
        LateIsDecided(b, w, e, n, h);
      } else {
        assert Known(b, w.bound, x) && x !in w.rest;
      }
    }
  }

  lemma {:induction false} BindAllDecides(b: Beginning, w: Walk, e: Entry, n: nat, hs: seq<Handler>)
    requires AtWork(b, w, e, n)
    ensures AtWork(b, BindAll(w, e, hs), e, n)
    decreases |hs|
  {
    hide AtWork, BindOne;
    if hs != [] {
      BindDecides(b, w, e, n, hs[0]);
      BindAllDecides(b, BindOne(w, e, hs[0]), e, n, hs[1..]);
    }
  }

  lemma CallDecides(b: Beginning, w: Walk)
    requires OnTime(b, w) && w.rest != [] && w.rest[0].handler !in w.dead
    ensures OnTime(b, Call(w))
  {
    hide WellWalked, Calling, Decided, Known, Binds, Releases, Later, BindAll;
    var e, hs := w.rest[0], Head(w.effects).binds;
    ReachedIsAtWork(b, w);
    BindAllDecides(b, Reached(w), e, |w.called|, hs);
    BindAllCounts(Reached(w), e, hs);
    CallKeeps(w);
    OneMore(b.effects, |w.called|);
    assert b.bound + Binds(b.effects, |w.called|) + hs == b.bound + Binds(b.effects, |w.called| + 1);
  }

  lemma {:induction false} FinishDecides(b: Beginning, w: Walk)
    requires OnTime(b, w)
    ensures OnTime(b, Finish(w, false))
    decreases |w.effects|, |w.rest|
  {
    hide OnTime, Call, Pass;
    if w.rest != [] {
      if w.rest[0].handler in w.dead {
        PassDecides(b, w);
        PassSizes(w, false);
        FinishDecides(b, Pass(w, false));
      } else {
        CallDecides(b, w);
        CallSizes(w);
        FinishDecides(b, Call(w));
      }
    }
  }
}
