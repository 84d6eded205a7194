/**
 The multimap of a window (Libs/Input/os_window.h): handlers by priority, equal ones in the order in
 which they were bound.
 */
module HandlerMap {

  /** A handler object; the lower the number, the earlier it is called. */
  datatype Handler = Handler(id: nat, priority: nat)

  /** One binding, the `serial`-th of its window. A handler may be bound more than once. */
  datatype Entry = Entry(handler: Handler, serial: nat)

  /** `multimap::insert`: behind all entries with the same or a lower number. */
  function Insert(entries: seq<Entry>, e: Entry): seq<Entry> {
    if entries == [] || e.handler.priority < entries[0].handler.priority then [e] + entries
    else [entries[0]] + Insert(entries[1..], e)
  }

  predicate Before(a: Entry, b: Entry) {
    a.handler.priority < b.handler.priority || (a.handler.priority == b.handler.priority && a.serial < b.serial)
  }

  /** By priority, and among equals by the time they were bound. */
  ghost predicate InOrder(entries: seq<Entry>) {
    forall i, j | 0 <= i < j < |entries| :: Before(entries[i], entries[j])
  }

  ghost predicate Recorded(entries: seq<Entry>, bound: seq<Handler>) {
    forall x <- entries :: x.serial < |bound| && bound[x.serial] == x.handler
  }

  /** Every binding made so far stands somewhere in the list. */
  ghost predicate Complete(entries: seq<Entry>, bound: seq<Handler>) {
    forall i | 0 <= i < |bound| :: Entry(bound[i], i) in entries
  }

  lemma ConsInOrder(e: Entry, rest: seq<Entry>)
    requires InOrder(rest) && forall x <- rest :: Before(e, x)
    ensures InOrder([e] + rest)
  {
  }

  lemma {:induction false} InsertInOrder(entries: seq<Entry>, e: Entry)
    requires InOrder(entries) && forall x <- entries :: x.serial < e.serial
    ensures InOrder(Insert(entries, e))
    ensures forall x :: x in Insert(entries, e) <==> x == e || x in entries
  {
    if entries == [] || e.handler.priority < entries[0].handler.priority {
      ConsInOrder(e, entries);
    } else {
      InsertInOrder(entries[1..], e);
      ConsInOrder(entries[0], Insert(entries[1..], e));
      assert entries == [entries[0]] + entries[1..];
    }
  }

  lemma {:induction false} InsertLength(entries: seq<Entry>, e: Entry)
    ensures |Insert(entries, e)| == |entries| + 1
  {
    if entries != [] {
      InsertLength(entries[1..], e);
    }
  }

  lemma InsertStep(entries: seq<Entry>, e: Entry)
    ensures Insert(entries, e) ==
            if entries == [] || e.handler.priority < entries[0].handler.priority then [e] + entries
            else [entries[0]] + Insert(entries[1..], e)
  {
  }

  lemma {:induction false} InsertContents(entries: seq<Entry>, e: Entry)
    ensures multiset(Insert(entries, e)) == multiset(entries) + multiset{e}
  {
    hide *;
    InsertStep(entries, e);
    if entries != [] && e.handler.priority >= entries[0].handler.priority {
      InsertContents(entries[1..], e);
      assert entries == [entries[0]] + entries[1..];
    }
  }

  lemma InOrderParts(front: seq<Entry>, back: seq<Entry>)
    requires InOrder(front + back)
    ensures InOrder(front) && InOrder(back)
  {
    forall i, j | 0 <= i < j < |front|
      ensures Before(front[i], front[j])
    {
      assert Before((front + back)[i], (front + back)[j]);
    }
    forall i, j | 0 <= i < j < |back|
      ensures Before(back[i], back[j])
    {
      assert Before((front + back)[|front| + i], (front + back)[|front| + j]);
    }
  }

  lemma {:induction false} InsertKeepsLast(entries: seq<Entry>, e: Entry)
    requires InOrder(entries) && entries != [] && e.handler.priority < entries[|entries| - 1].handler.priority
    ensures var r := Insert(entries, e); |r| == |entries| + 1 && r[|r| - 1] == entries[|entries| - 1]
  {
    InsertLength(entries, e);
    if e.handler.priority >= entries[0].handler.priority {
      InsertKeepsLast(entries[1..], e);
    }
  }

  /** In a list in order, the first entry has the lowest number. */
  lemma FirstIsLowest(front: seq<Entry>, back: seq<Entry>)
    requires InOrder(front + back) && front != []
    ensures front[0].handler.priority <= front[|front| - 1].handler.priority
    ensures InOrder(front[1..] + back)
  {
    var whole := front + back;
    assert whole[0] == front[0] && whole[|front| - 1] == front[|front| - 1];
    assert |front| > 1 ==> Before(whole[0], whole[|front| - 1]);
    assert whole == [front[0]] + (front[1..] + back);
    InOrderParts([front[0]], front[1..] + back);
  }

  /** Where an entry lands relative to the entry that ends the first part of the list. */
  lemma {:induction false} InsertSplit(front: seq<Entry>, back: seq<Entry>, e: Entry)
    requires InOrder(front + back) && front != []
    ensures Insert(front + back, e) ==
            if e.handler.priority < front[|front| - 1].handler.priority then Insert(front, e) + back
            else front + Insert(back, e)
  {
    hide *;
    FirstIsLowest(front, back);
    InsertStep(front + back, e);
    InsertStep(front, e);
    assert (front + back)[0] == front[0] && (front + back)[1..] == front[1..] + back;
    assert front == [front[0]] + front[1..];
    if e.handler.priority < front[0].handler.priority {
      assert [e] + (front + back) == ([e] + front) + back;
    } else if |front| == 1 {
      assert front[1..] + back == back;
    } else {
      InsertSplit(front[1..], back, e);
      assert front[1..][|front| - 2] == front[|front| - 1];
    }
  }

  /** The entries whose handler lives. */
  function Live(entries: seq<Entry>, dead: set<Handler>): seq<Entry> {
    if entries == [] then []
    else if entries[0].handler in dead then Live(entries[1..], dead)
    else [entries[0]] + Live(entries[1..], dead)
  }

  lemma {:induction false} LiveWithin(entries: seq<Entry>, dead: set<Handler>)
    ensures forall e :: e in Live(entries, dead) <==> e in entries && e.handler !in dead
  {
    if entries != [] {
      LiveWithin(entries[1..], dead);
      assert entries == [entries[0]] + entries[1..];
    }
  }

  lemma LiveNothing(dead: set<Handler>)
    ensures Live([], dead) == []
  {
  }

  lemma LiveStep(entries: seq<Entry>, dead: set<Handler>)
    requires entries != []
    ensures Live(entries, dead) == (if entries[0].handler in dead then [] else [entries[0]]) + Live(entries[1..], dead)
  {
  }

  lemma {:induction false} LiveConcat(entries: seq<Entry>, more: seq<Entry>, dead: set<Handler>)
    ensures Live(entries + more, dead) == Live(entries, dead) + Live(more, dead)
  {
    hide *;
    if entries == [] {
      LiveNothing(dead);
      assert entries + more == more;
    } else {
      LiveConcat(entries[1..], more, dead);
      assert (entries + more)[1..] == entries[1..] + more;
      LiveStep(entries + more, dead);
      LiveStep(entries, dead);
    }
  }

  lemma {:induction false} LiveTwice(entries: seq<Entry>, dead: set<Handler>, more: set<Handler>)
    requires dead <= more
    ensures Live(Live(entries, dead), more) == Live(entries, more)
  {
    if entries != [] {
      var rest := Live(entries[1..], dead);
      assert ([entries[0]] + rest)[1..] == rest;
      LiveTwice(entries[1..], dead, more);
    }
  }

  lemma {:induction false} LiveInsert(entries: seq<Entry>, dead: set<Handler>, e: Entry)
    requires InOrder(entries) && e.handler !in dead
    ensures Live(Insert(entries, e), dead) == Insert(Live(entries, dead), e)
  {
    if entries == [] {
      assert [e][1..] == [];
    } else if e.handler.priority < entries[0].handler.priority {
      LiveWithin(entries, dead);
      assert ([e] + entries)[1..] == entries;
      assert Live(entries, dead) == [] || Live(entries, dead)[0] in Live(entries, dead);
    } else {
      LiveInsert(entries[1..], dead, e);
      assert ([entries[0]] + Insert(entries[1..], e))[1..] == Insert(entries[1..], e);
      assert ([entries[0]] + Live(entries[1..], dead))[1..] == Live(entries[1..], dead);
    }
  }
}
