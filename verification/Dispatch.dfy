/**
 A window over many events (Libs/Input/os_window.cpp): bindings, handlers that expire, and
 notifications with whatever their callbacks do.
 */
module Dispatch {
  import opened HandlerMap
  import opened Notification
  import opened Turns

  // ---------- Runs ----------

  /** The window's bindings, the expired handlers, the bindings made so far and the calls of every notification. */
  datatype State = State(entries: seq<Entry>, dead: set<Handler>, bound: seq<Handler>, calls: seq<seq<Entry>>)

  const START := State([], {}, [], [])

  datatype Event = Bind(handler: Handler) | Expire(handlers: set<Handler>) | Notify(effects: Effects)

  predicate Enabled(s: State, e: Event) {
    match e
    case Bind(h) => h !in s.dead
    case Expire(_) => true
    case Notify(effects) => Allowed(s.dead, effects)
  }

  /** A notification about to start. */
  function Begin(s: State, effects: Effects): Walk {
    Walk([], s.entries, s.dead, s.bound, effects, [], [])
  }

  /** One event, in a window that removes expired entries or in one that keeps them. */
  function Step(s: State, e: Event, keep: bool): State {
    match e
    case Bind(h) => s.(entries := Insert(s.entries, Entry(h, |s.bound|)), bound := s.bound + [h])
    case Expire(hs) => s.(dead := s.dead + hs)
    case Notify(effects) =>
      var u := Finish(Begin(s, effects), keep);
      State(u.done, u.dead, u.bound, s.calls + [u.called])
  }

  predicate Feasible(s: State, es: seq<Event>, keep: bool)
    decreases |es|
  {
    es == [] || (Enabled(s, es[0]) && Feasible(Step(s, es[0], keep), es[1..], keep))
  }

  function Run(s: State, es: seq<Event>, keep: bool): State
    decreases |es|
  {
    if es == [] then s else Run(Step(s, es[0], keep), es[1..], keep)
  }

  ghost predicate WellBound(s: State) {
    InOrder(s.entries) && Recorded(s.entries, s.bound) && forall i | 0 <= i < |s.calls| :: InOrder(s.calls[i])
  }

  lemma BeginsWell(s: State, effects: Effects)
    requires WellBound(s)
    ensures WellWalked(Begin(s, effects))
  {
    assert [] + s.entries == s.entries;
  }

  lemma StepKeepsOrder(s: State, e: Event, keep: bool)
    requires WellBound(s)
    ensures WellBound(Step(s, e, keep))
  {
    hide Finish;
    match e
    case Bind(h) => InsertInOrder(s.entries, Entry(h, |s.bound|));
    case Expire(_) =>
    case Notify(effects) =>
      BeginsWell(s, effects);
      FinishKeeps(Begin(s, effects), keep);
      var u := Finish(Begin(s, effects), keep);
      assert u.done + u.rest == u.done;
  }

  ghost predicate SameButDead(s: State, k: State) {
    && WellBound(s) && WellBound(k)
    && s.dead == k.dead && s.bound == k.bound && s.calls == k.calls
    && Live(s.entries, s.dead) == Live(k.entries, s.dead)
  }

  lemma StepsAgree(s: State, k: State, e: Event)
    requires SameButDead(s, k) && Enabled(s, e)
    ensures SameButDead(Step(s, e, false), Step(k, e, true))
  {
    hide Finish, Allowed;
    StepKeepsOrder(s, e, false);
    StepKeepsOrder(k, e, true);
    match e
    case Bind(h) =>
      LiveInsert(s.entries, s.dead, Entry(h, |s.bound|));
      LiveInsert(k.entries, s.dead, Entry(h, |s.bound|));
    case Expire(hs) =>
      LiveTwice(s.entries, s.dead, s.dead + hs);
      LiveTwice(k.entries, s.dead, s.dead + hs);
    case Notify(effects) =>
      BeginsWell(s, effects);
      BeginsWell(k, effects);
      FinishAlike(Begin(s, effects), Begin(k, effects));
  }

  lemma {:induction false} RunsAgree(s: State, k: State, es: seq<Event>)
    requires SameButDead(s, k) && Feasible(s, es, false)
    ensures Feasible(k, es, true) && SameButDead(Run(s, es, false), Run(k, es, true))
    decreases |es|
  {
    hide SameButDead, Step;
    if es != [] {
      assert Enabled(k, es[0]) by { SameEnabled(s, k, es[0]); }
      StepsAgree(s, k, es[0]);
      RunsAgree(Step(s, es[0], false), Step(k, es[0], true), es[1..]);
    }
  }

  lemma SameEnabled(s: State, k: State, e: Event)
    requires SameButDead(s, k)
    ensures Enabled(s, e) <==> Enabled(k, e)
  {
  }

  /** In the window that keeps its entries stand exactly the bindings made. */
  lemma {:induction false} KeepsAllBindings(s: State, es: seq<Event>)
    requires WellBound(s) && Complete(s.entries, s.bound)
    ensures var t := Run(s, es, true); WellBound(t) && Complete(t.entries, t.bound)
    decreases |es|
  {
    hide Finish;
    if es != [] {
      StepKeepsOrder(s, es[0], true);
      match es[0] {
        case Bind(h) => InsertInOrder(s.entries, Entry(h, |s.bound|));
        case Expire(_) =>
        case Notify(effects) =>
          BeginsWell(s, effects);
          assert [] + s.entries == s.entries;
          FinishComplete(Begin(s, effects));
      }
      KeepsAllBindings(Step(s, es[0], true), es[1..]);
    }
  }

  /**
   Removing expired handlers while dispatching is invisible: over any run of bindings, expiries and
   notifications, callbacks included, the window makes the calls of a window that keeps every
   binding ever made. Each call list is strictly ordered by priority and time of binding, so no
   binding is called twice for one event.
   */
  lemma RemovalIsInvisible(es: seq<Event>)
    requires Feasible(START, es, false)
    ensures Feasible(START, es, true)
    ensures var s, k := Run(START, es, false), Run(START, es, true);
            && s.calls == k.calls && s.bound == k.bound && s.dead == k.dead
            && InOrder(k.entries)
            && (forall x :: x in k.entries <==> x.serial < |k.bound| && k.bound[x.serial] == x.handler)
            && forall i | 0 <= i < |s.calls| :: InOrder(s.calls[i])
  {
    hide Run, Feasible;
    assert SameButDead(START, START);
    RunsAgree(START, START, es);
    KeepsAllBindings(START, es);
  }

  /** One notification at any point of a run: who is called, and what remains in the window. */
  lemma NotificationCalls(s: State, effects: Effects)
    requires WellBound(s)
    ensures var t := Step(s, Notify(effects), false);
            var called := t.calls[|s.calls|];
            && InOrder(called)
            && (forall x <- s.entries | x.handler in s.dead :: x !in called)
            && (forall x <- s.entries | x.handler !in t.dead :: x in called)
            && (forall x <- called :: x in t.entries)
            && forall x <- t.entries ::
                 x in called || (|s.bound| <= x.serial && exists c <- called :: x.handler.priority < c.handler.priority)
  {
    hide Finish;
    StepKeepsOrder(s, Notify(effects), false);
    FinishLate(Begin(s, effects), false, |s.bound|);
    FinishCalls(Begin(s, effects));
    var u := Finish(Begin(s, effects), false);
    forall x <- u.called
      ensures x in u.done
    {
      assert x in multiset(u.called) && x in multiset(u.done);
    }
    forall x <- u.done
      ensures x in u.called || x in u.late
    {
      assert x in multiset(u.done) && x in multiset(u.called) + multiset(u.late);
    }
  }

  /**
   One notification at any point of a run, exactly: which handlers are dead afterwards and which
   bindings were made, and for every binding, made before or in it, that it is called if and only if
   at its turn it has been made and its handler lives, and kept if and only if it was called or
   made too late for its turn.
   */
  lemma NotificationExactly(s: State, effects: Effects)
    requires WellBound(s)
    ensures var t := Step(s, Notify(effects), false);
            var called, b := t.calls[|s.calls|], Beginning(s.entries, s.dead, s.bound, effects);
            && t.dead == s.dead + Releases(effects, |called|)
            && t.bound == s.bound + Binds(effects, |called|)
            && InOrder(called)
            && (forall x :: x in called ==> Known(b, t.bound, x))
            && (forall x :: x in t.entries ==> Known(b, t.bound, x))
            && (forall x | Known(b, t.bound, x) :: x in called <==> Due(b, Turn(called, x), x))
            && (forall x | Known(b, t.bound, x) ::
                  x in t.entries <==> x in called || x.serial >= |s.bound + Binds(effects, Turn(called, x))|)
  {
    hide Finish;
    var b, w := Beginning(s.entries, s.dead, s.bound, effects), Begin(s, effects);
    BeginsWell(s, effects);
    assert w.bound == s.bound + [] && s.dead == s.dead + {};
    assert Sorted(b, w) && AllKnown(b, w);
    FinishDecides(b, w);
  }

  /** A handler that has expired is never called again. */
  lemma {:induction false} DeadIsSilent(s: State, es: seq<Event>, h: Handler)
    requires WellBound(s) && h in s.dead
    ensures var t := Run(s, es, false);
            && h in t.dead && |s.calls| <= |t.calls|
            && forall i, x | |s.calls| <= i < |t.calls| && x in t.calls[i] :: x.handler != h
    decreases |es|
  {
    hide Finish, Insert;
    if es != [] {
      var u := Step(s, es[0], false);
      StepKeepsOrder(s, es[0], false);
      if es[0].Notify? {
        FinishCalls(Begin(s, es[0].effects));
      }
      DeadIsSilent(u, es[1..], h);
      RunExtends(u, es[1..]);
    }
  }

  lemma {:induction false} RunExtends(s: State, es: seq<Event>)
    ensures s.calls <= Run(s, es, false).calls
    decreases |es|
  {
    hide Finish, Insert;
    if es != [] {
      RunExtends(Step(s, es[0], false), es[1..]);
    }
  }

  /** After `Expire` none of the handlers is called, whatever happens next. */
  lemma ExpiredIsSilent(s: State, hs: set<Handler>, es: seq<Event>)
    requires WellBound(s)
    ensures var t := Run(Step(s, Expire(hs), false), es, false);
            forall i, x | |s.calls| <= i < |t.calls| && x in t.calls[i] :: x.handler !in hs
  {
    hide Run;
    StepKeepsOrder(s, Expire(hs), false);
    var u := Step(s, Expire(hs), false);
    forall h <- hs {
      DeadIsSilent(u, es, h);
    }
  }

  /** An event in which the handler `h` can expire. */
  predicate Kills(e: Event, h: Handler) {
    match e
    case Bind(_) => false
    case Expire(hs) => h in hs
    case Notify(effects) => exists effect <- effects :: h in effect.releases
  }

  function Notifications(es: seq<Event>): nat {
    if es == [] then 0 else (if es[0].Notify? then 1 else 0) + Notifications(es[1..])
  }

  lemma {:induction false} ReleasesAreEffects(effects: Effects, n: nat, h: Handler)
    requires forall effect <- effects :: h !in effect.releases
    ensures h !in Releases(effects, n)
    decreases n
  {
    if n > 0 {
      ReleasesAreEffects(Tail(effects), n - 1, h);
    }
  }

  lemma {:induction false} LivingIsCalled(s: State, x: Entry, es: seq<Event>)
    requires WellBound(s) && x in s.entries && x.handler !in s.dead
    requires forall e <- es :: !Kills(e, x.handler)
    ensures var t := Run(s, es, false);
            && x in t.entries && x.handler !in t.dead
            && |t.calls| == |s.calls| + Notifications(es)
            && forall i | |s.calls| <= i < |t.calls| :: x in t.calls[i]
    decreases |es|
  {
    hide Finish, Insert;
    if es != [] {
      var u := Step(s, es[0], false);
      StepKeepsOrder(s, es[0], false);
      LivingStep(s, x, es[0]);
      LivingIsCalled(u, x, es[1..]);
      RunExtends(u, es[1..]);
    }
  }

  lemma LivingStep(s: State, x: Entry, e: Event)
    requires WellBound(s) && x in s.entries && x.handler !in s.dead && !Kills(e, x.handler)
    ensures var t := Step(s, e, false);
            && x in t.entries && x.handler !in t.dead
            && |t.calls| == |s.calls| + (if e.Notify? then 1 else 0)
            && (e.Notify? ==> x in t.calls[|s.calls|])
  {
    hide Finish, Insert;
    match e
    case Bind(h) => InsertInOrder(s.entries, Entry(h, |s.bound|));
    case Expire(_) =>
    case Notify(effects) =>
      var t := Step(s, e, false);
      NotificationExactly(s, effects);
      ReleasesAreEffects(effects, |t.calls[|s.calls|]|, x.handler);
      NotificationCalls(s, effects);
  }

  /** A binding is called in every notification from then on in which its handler cannot have expired. */
  lemma BoundIsCalled(s: State, h: Handler, es: seq<Event>)
    requires WellBound(s) && h !in s.dead && forall e <- es :: !Kills(e, h)
    ensures var t := Run(Step(s, Event.Bind(h), false), es, false);
            && |t.calls| == |s.calls| + Notifications(es)
            && forall i | |s.calls| <= i < |t.calls| :: Entry(h, |s.bound|) in t.calls[i]
  {
    hide Run, Insert;
    StepKeepsOrder(s, Event.Bind(h), false);
    InsertInOrder(s.entries, Entry(h, |s.bound|));
    LivingIsCalled(Step(s, Event.Bind(h), false), Entry(h, |s.bound|), es);
  }

  lemma {:induction false} FinishQuietly(w: Walk)
    requires w.effects == []
    ensures var u := Finish(w, false);
            && u.called == w.called + Live(w.rest, w.dead)
            && u.done == w.done + Live(w.rest, w.dead)
            && u.dead == w.dead && u.bound == w.bound
    decreases |w.rest|
  {
    if w.rest != [] {
      var e, rest := w.rest[0], Live(w.rest[1..], w.dead);
      if e.handler in w.dead {
        FinishQuietly(Pass(w, false));
      } else {
        assert Call(w) == Reached(w);
        FinishQuietly(Call(w));
        assert (w.called + [e]) + rest == w.called + ([e] + rest);
        assert (w.done + [e]) + rest == w.done + ([e] + rest);
      }
    }
  }

  /** When the callbacks do nothing to the window, exactly the live entries are called, in order, and remain. */
  lemma QuietNotification(s: State)
    ensures var t := Step(s, Notify([]), false);
            t.calls == s.calls + [Live(s.entries, s.dead)] && t.entries == Live(s.entries, s.dead)
  {
    FinishQuietly(Begin(s, []));
    assert [] + Live(s.entries, s.dead) == Live(s.entries, s.dead);
  }

  function Count(entries: seq<Entry>, h: Handler): nat {
    if entries == [] then 0 else (if entries[0].handler == h then 1 else 0) + Count(entries[1..], h)
  }

  /** No callback binds or releases `h`. */
  predicate LeaveAlone(effects: Effects, h: Handler) {
    forall effect <- effects :: h !in effect.binds && h !in effect.releases
  }

  lemma {:induction false} InsertOther(entries: seq<Entry>, e: Entry, h: Handler)
    requires e.handler != h
    ensures Count(Insert(entries, e), h) == Count(entries, h)
  {
    if entries == [] || e.handler.priority < entries[0].handler.priority {
      assert ([e] + entries)[1..] == entries;
    } else {
      var rest := Insert(entries[1..], e);
      assert ([entries[0]] + rest)[1..] == rest;
      InsertOther(entries[1..], e, h);
    }
  }

  lemma {:induction false} BindOthers(w: Walk, e: Entry, hs: seq<Handler>, h: Handler)
    requires h !in hs
    ensures Count(BindAll(w, e, hs).rest, h) == Count(w.rest, h)
    decreases |hs|
  {
    hide Insert, Count;
    if hs != [] {
      InsertOther(w.rest, Entry(hs[0], |w.bound|), h);
      BindOthers(BindOne(w, e, hs[0]), e, hs[1..], h);
    }
  }

  lemma {:induction false} CountSnoc(entries: seq<Entry>, e: Entry, h: Handler)
    ensures Count(entries + [e], h) == Count(entries, h) + if e.handler == h then 1 else 0
  {
    if entries == [] {
      assert [] + [e] == [e] && [e][1..] == [];
    } else {
      assert (entries + [e])[1..] == entries[1..] + [e];
      CountSnoc(entries[1..], e, h);
    }
  }

  /** What one callback leaves of the calls of `h`: none is lost and none is added. */
  lemma CallCounts(w: Walk, h: Handler)
    requires w.rest != [] && w.rest[0].handler !in w.dead && LeaveAlone(w.effects, h)
    ensures var t := Call(w);
            && LeaveAlone(t.effects, h) && (h in t.dead <==> h in w.dead)
            && Count(t.rest, h) == Count(w.rest[1..], h)
            && Count(t.called, h) == Count(w.called, h) + if w.rest[0].handler == h then 1 else 0
  {
    hide Count;
    BindAllCounts(Reached(w), w.rest[0], Head(w.effects).binds);
    BindOthers(Reached(w), w.rest[0], Head(w.effects).binds, h);
    CountSnoc(w.called, w.rest[0], h);
  }

  lemma {:induction false} FinishCounts(w: Walk, h: Handler)
    requires LeaveAlone(w.effects, h)
    ensures Count(Finish(w, false).called, h) == Count(w.called, h) + if h in w.dead then 0 else Count(w.rest, h)
    decreases |w.effects|, |w.rest|
  {
    hide LeaveAlone, Call;
    if w.rest == [] {
    } else if w.rest[0].handler in w.dead {
      FinishCounts(Pass(w, false), h);
    } else {
      CallCounts(w, h);
      CallSizes(w);
      FinishCounts(Call(w), h);
    }
  }

  /**
   Unless a callback binds or releases it, a handler is called once for each time it was bound, so
   at most once exactly if it was bound at most once or has expired.
   */
  lemma CalledOncePerBinding(s: State, effects: Effects, h: Handler)
    requires LeaveAlone(effects, h)
    ensures var t := Step(s, Notify(effects), false);
            && Count(t.calls[|s.calls|], h) == (if h in s.dead then 0 else Count(s.entries, h))
            && (Count(t.calls[|s.calls|], h) <= 1 <==> h in s.dead || Count(s.entries, h) <= 1)
  {
    hide Finish;
    FinishCounts(Begin(s, effects), h);
  }

  // ---------- The program ----------

  class Window {
    var p_handlers: seq<Entry>

    // The lifetimes of the handlers, the number of bindings, and the log.
    var expired: set<Handler>
    var binds: nat
    ghost var bound: seq<Handler>
    ghost var calls: seq<seq<Entry>>

    ghost predicate Valid()
      reads this
    {
      binds == |bound| && WellBound(Abs())
    }

    ghost function Abs(): State
      reads this
    {
      State(p_handlers, expired, bound, calls)
    }

    constructor ()
      ensures Valid() && Abs() == START
    {
      p_handlers, expired, binds := [], {}, 0;
      bound, calls := [], [];
    }

    /** `Bind` and `Add`. */
    method Bind(h: Handler)
      requires Valid() && h !in expired
      modifies this
      ensures Valid() && Abs() == Step(old(Abs()), Event.Bind(h), false)
    {
      StepKeepsOrder(Abs(), Event.Bind(h), false);
      p_handlers := Insert(p_handlers, Entry(h, binds));
      bound := bound + [h];
      binds := binds + 1;
    }

    /** The last owner of some handlers lets them go. */
    method Expire(hs: set<Handler>)
      requires Valid()
      modifies this
      ensures Valid() && Abs() == Step(old(Abs()), Event.Expire(hs), false)
    {
      expired := expired + hs;
    }

    /** `NotifyHandlers`: an expired entry is erased where the iterator stands; a live one is called. */
    method NotifyHandlers(effects: Effects)
      requires Valid() && Allowed(expired, effects)
      modifies this
      ensures Valid() && Abs() == Step(old(Abs()), Notify(effects), false)
    {
      hide Finish, WellWalked, Calling, Allowed;
      ghost var start := Begin(Abs(), effects);
      ghost var w := start;
      BeginsWell(Abs(), effects);
      StepKeepsOrder(Abs(), Notify(effects), false);
      var it, pending := 0, effects;
      while it != |p_handlers|
        invariant 0 <= it <= |p_handlers| && Standing(w, it) && w.effects == pending
        invariant WellWalked(w) && Finish(w, false) == Finish(start, false)
        invariant calls == old(calls)
        decreases |pending|, |p_handlers| - it
      {
        FinishStep(w, false);
        if p_handlers[it].handler !in expired {
          CallKeeps(w);
          CallSizes(w);
          CallRest(w, w);
          it, w := RunCallback(it, Head(pending), w);
          pending := Tail(pending);
        } else {
          PassKeeps(w, false);
          p_handlers := p_handlers[..it] + p_handlers[it + 1..];
          w := Pass(w, false);
        }
      }
      assert p_handlers[..it] == p_handlers;
      FinishStep(w, false);
      calls := calls + [w.called];
    }

    /** The iterator stands between the two parts of the list. */
    ghost predicate Standing(w: Walk, it: int)
      reads this
    {
      && 0 <= it <= |p_handlers| && binds == |bound|
      && w.done == p_handlers[..it] && w.rest == p_handlers[it..]
      && w.dead == expired && w.bound == bound
    }

    /** `Bind` from within a callback: the iterator keeps standing behind the entry being called. */
    method BindDuring(at: int, e: Entry, h: Handler, ghost w: Walk) returns (it: int, ghost u: Walk)
      requires Standing(w, at) && Calling(w, e)
      modifies this
      ensures u == BindOne(w, e, h) && Standing(u, it) && Calling(u, e) && calls == old(calls)
    {
      hide WellWalked, Calling, Insert, InOrder, Recorded;
      BindOneInserts(w, e, h);
      BindOneKeeps(w, e, h);
      BindOneLength(w, e, h);
      assert w.done + w.rest == p_handlers;
      u := BindOne(w, e, h);
      p_handlers := Insert(p_handlers, Entry(h, binds));
      bound := bound + [h];
      binds := binds + 1;
      it := if h.priority < e.handler.priority then at + 1 else at;
    }

    /** The handler at the iterator is called, and the iterator moves on. It stays valid when the callback binds. */
    method RunCallback(at: int, effect: Effect, ghost w: Walk) returns (it: int, ghost u: Walk)
      requires Standing(w, at) && at < |p_handlers| && WellWalked(w) && effect == Head(w.effects)
      modifies this
      ensures u == Call(w) && Standing(u, it) && calls == old(calls)
    {
      hide WellWalked, Calling;
      var e := p_handlers[at];
      it := at + 1;
      u := Reached(w);
      ReachedIsCalling(w);
      assert p_handlers[..it] == p_handlers[..at] + [e];
      for i := 0 to |effect.binds|
        invariant Standing(u, it) && Calling(u, e) && calls == old(calls)
        invariant BindAll(u, e, effect.binds[i..]) == BindAll(Reached(w), e, effect.binds)
      {
        assert effect.binds[i..][1..] == effect.binds[i + 1..];
        it, u := BindDuring(it, e, effect.binds[i], u);
      }
      assert effect.binds[|effect.binds|..] == [];
      expired := expired + effect.releases;
      u := u.(dead := expired);
    }
  }

  lemma BindOneLength(w: Walk, e: Entry, h: Handler)
    ensures |BindOne(w, e, h).done| == if h.priority < e.handler.priority then |w.done| + 1 else |w.done|
  {
    InsertLength(w.done, Entry(h, |w.bound|));
  }

  lemma FinishStep(w: Walk, keep: bool)
    ensures Finish(w, keep) ==
            if w.rest == [] then w
            else if w.rest[0].handler in w.dead then Finish(Pass(w, keep), keep)
            else Finish(Call(w), keep)
  {
  }
}
