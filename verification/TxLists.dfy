/** The two transaction lists: the wallet's merged history and the newest hundred Nexus events. */
module TxLists {
  import opened Options
  import opened Sequences
  import opened StableSort

  // ----- the wallet's history -----

  /** A transfer; a missing height is 0, which marks it unconfirmed. */
  datatype Tx = Tx(txid: string, height: nat)

  function CompareTx(a: Tx, b: Tx): int {
    if a.height == 0 && b.height != 0 then -1
    else if b.height == 0 && a.height != 0 then 1
    else b.height - a.height
  }

  lemma TxComparatorConsistent()
    ensures Consistent(CompareTx)
  {
  }

  /** The four reply lists in the order they are merged. */
  function Merged(incoming: seq<Tx>, outgoing: seq<Tx>, pool: seq<Tx>, pending: seq<Tx>): seq<Tx> {
    incoming + outgoing + pool + pending
  }

  /** The transfers of one height, in the order they have. */
  function OfHeight(s: seq<Tx>, height: nat): seq<Tx> {
    if s == [] then [] else (if s[0].height == height then [s[0]] else []) + OfHeight(s[1..], height)
  }

  lemma {:induction false} TiesAreHeights(s: seq<Tx>, x: Tx)
    ensures Ties(CompareTx, s, x) == OfHeight(s, x.height)
  {
    if s != [] { TiesAreHeights(s[1..], x); }
  }

  lemma OfHeightStep(s: seq<Tx>, height: nat)
    ensures s == [] ==> OfHeight(s, height) == []
    ensures s != [] ==> OfHeight(s, height) == (if s[0].height == height then [s[0]] else []) + OfHeight(s[1..], height)
  {
  }

  lemma {:induction false} OfHeightAppend(a: seq<Tx>, b: seq<Tx>, height: nat)
    ensures OfHeight(a + b, height) == OfHeight(a, height) + OfHeight(b, height)
  {
    hide OfHeight;
    OfHeightStep(a, height);
    OfHeightStep(a + b, height);
    if a == [] {
      assert a + b == b;
    } else {
      assert (a + b)[0] == a[0] && (a + b)[1..] == a[1..] + b;
      OfHeightAppend(a[1..], b, height);
      var head := if a[0].height == height then [a[0]] else [];
      var rest, other := OfHeight(a[1..], height), OfHeight(b, height);
      assert head + (rest + other) == head + rest + other;
    }
  }

  /**
   The displayed list is any stable sort of the merged one, and so the only one: a permutation, every unconfirmed
   transfer before every confirmed one, confirmed heights never rising, and transfers of one height in merge order.
   */
  lemma {:induction false} HistoryOrder(
    incoming: seq<Tx>, outgoing: seq<Tx>, pool: seq<Tx>, pending: seq<Tx>, shown: seq<Tx>)
    requires IsStableSort(CompareTx, Merged(incoming, outgoing, pool, pending), shown)
    ensures multiset(shown) == multiset(incoming) + multiset(outgoing) + multiset(pool) + multiset(pending)
    ensures forall i, j :: 0 <= i < j < |shown| && shown[j].height == 0 ==> shown[i].height == 0
    ensures forall i, j :: 0 <= i < j < |shown| && shown[i].height != 0 ==> shown[i].height >= shown[j].height > 0
    ensures forall height ::
              OfHeight(shown, height) == OfHeight(incoming, height) + OfHeight(outgoing, height)
                                       + OfHeight(pool, height) + OfHeight(pending, height)
    ensures shown == Sort(CompareTx, Merged(incoming, outgoing, pool, pending))
  {
    var merged := Merged(incoming, outgoing, pool, pending);
    TxComparatorConsistent();
    StableIsPermutation(CompareTx, merged, shown);
    SortIsStable(CompareTx, merged);
    StableSortUnique(CompareTx, shown, Sort(CompareTx, merged));
    forall height: nat
      ensures OfHeight(shown, height) == OfHeight(incoming, height) + OfHeight(outgoing, height)
                                       + OfHeight(pool, height) + OfHeight(pending, height)
    {
      OfHeightAppend(incoming, outgoing, height);
      OfHeightAppend(incoming + outgoing, pool, height);
      OfHeightAppend(incoming + outgoing + pool, pending, height);
      var x := Tx("", height);
      TiesAreHeights(shown, x);
      TiesAreHeights(merged, x);
      assert Ties(CompareTx, shown, x) == Ties(CompareTx, merged, x);
    }
    assert forall i, j :: 0 <= i < j < |shown| ==> CompareTx(shown[i], shown[j]) <= 0;
  }

  // ----- the Nexus history -----

  datatype Event = Event(hash: string, blockNumber: nat, source: string)

  /** One log query: it fails as a whole, or each of its logs parses or not. */
  type Query = Option<seq<Option<Event>>>

  function Parsed(got: seq<Option<Event>>): seq<Event> {
    if got == [] then [] else (if got[0].Some? then [got[0].value] else []) + Parsed(got[1..])
  }

  function Answer(query: Query): seq<Event> {
    if query.Some? then Parsed(query.value) else []
  }

  function Collected(queries: seq<Query>): seq<Event> {
    if queries == [] then [] else Answer(queries[0]) + Collected(queries[1..])
  }

  /** safeLogs: a failed query adds nothing, an unparsable log is skipped, the rest is appended in order. */
  method SafeLogs(before: seq<Event>, query: Query) returns (logs: seq<Event>)
    ensures logs == before + Answer(query)
  {
    hide Parsed;
    logs := before;
    if query.Some? {
      var got := query.value;
      assert got[0..] == got;
      for k := 0 to |got|
        invariant logs + Parsed(got[k..]) == before + Parsed(got)
      {
        ParsedFrom(got, k);
        if got[k].Some? {
          assert logs + [got[k].value] + Parsed(got[k + 1..]) == logs + ([got[k].value] + Parsed(got[k + 1..]));
          logs := logs + [got[k].value];
        } else {
          assert [] + Parsed(got[k + 1..]) == Parsed(got[k + 1..]);
        }
      }
      ParsedNone(got[|got|..]);
    }
  }

  lemma {:induction false} ParsedFrom(got: seq<Option<Event>>, k: nat)
    requires k < |got|
    ensures Parsed(got[k..]) == (if got[k].Some? then [got[k].value] else []) + Parsed(got[k + 1..])
  {
    assert got[k..][1..] == got[k + 1..];
  }

  lemma ParsedNone(got: seq<Option<Event>>)
    requires got == []
    ensures Parsed(got) == []
  {
  }

  method CollectLogs(queries: seq<Query>) returns (logs: seq<Event>)
    ensures logs == Collected(queries)
  {
    hide Answer;
    logs := [];
    for q := 0 to |queries|
      invariant logs + Collected(queries[q..]) == Collected(queries)
    {
      assert queries[q..][1..] == queries[q + 1..];
      logs := SafeLogs(logs, queries[q]);
    }
    assert queries[|queries|..] == [];
  }

  /** The query was answered and one of its logs was parsed as the event. */
  ghost predicate Gives(query: Query, event: Event) {
    query.Some? && Some(event) in query.value
  }

  lemma {:induction false} ParsedMembers(got: seq<Option<Event>>, event: Event)
    ensures event in Parsed(got) <==> Some(event) in got
  {
    if got != [] {
      ParsedMembers(got[1..], event);
      assert Some(event) in got <==> Some(event) == got[0] || Some(event) in got[1..];
    }
  }

  /** An event is collected exactly when some answered query parsed it. */
  lemma {:induction false} CollectedMembers(queries: seq<Query>, event: Event)
    ensures event in Collected(queries) <==> exists q :: 0 <= q < |queries| && Gives(queries[q], event)
  {
    if queries != [] {
      CollectedMembers(queries[1..], event);
      if queries[0].Some? { ParsedMembers(queries[0].value, event); }
      assert event in Answer(queries[0]) <==> Gives(queries[0], event);
      hide Gives, Answer, Collected;
      assert forall q :: 0 < q < |queries| ==> queries[q] == queries[1..][q - 1];
      assert forall q :: 0 <= q < |queries| - 1 ==> queries[1..][q] == queries[q + 1];
      CollectedSplit(queries);
    }
  }

  lemma {:induction false} ParsedCount(got: seq<Option<Event>>, event: Event)
    ensures multiset(Parsed(got))[event] == multiset(got)[Some(event)]
  {
    hide Parsed;
    if got == [] {
      ParsedNone(got);
    } else {
      ParsedCount(got[1..], event);
      assert got[0..] == got == [got[0]] + got[1..];
      ParsedFrom(got, 0);
    }
  }

  /** How often the answered queries gave an event. */
  function TimesGiven(queries: seq<Query>, event: Event): nat {
    if queries == [] then 0
    else (if queries[0].Some? then multiset(queries[0].value)[Some(event)] else 0) + TimesGiven(queries[1..], event)
  }

  /** An event is collected as often as it was given. */
  lemma {:induction false} CollectedCount(queries: seq<Query>, event: Event)
    ensures multiset(Collected(queries))[event] == TimesGiven(queries, event)
  {
    if queries != [] {
      CollectedCount(queries[1..], event);
      CollectedSplit(queries);
      hide Collected;
      if queries[0].Some? { ParsedCount(queries[0].value, event); }
    }
  }

  /** Events keep the order of the queries and of the logs in them: what comes first is collected first. */
  lemma {:induction false} CollectedInOrder(before: seq<Query>, got: seq<Option<Event>>, event: Event,
                                            rest: seq<Option<Event>>, after: seq<Query>)
    ensures Collected(before + [Some(got + [Some(event)] + rest)] + after)
         == Collected(before) + Parsed(got) + [event] + Parsed(rest) + Collected(after)
  {
    var query: Query := Some(got + [Some(event)] + rest);
    hide Collected, Parsed;
    CollectedAppend(before + [query], after);
    CollectedAppend(before, [query]);
    CollectedOne(query);
    ParsedAppend(got + [Some(event)], rest);
    ParsedAppend(got, [Some(event)]);
    ParsedOne(event);
    var a, b, c, d := Collected(before), Parsed(got), Parsed(rest), Collected(after);
    assert a + (b + [event] + c) + d == a + b + [event] + c + d;
  }

  lemma {:induction false} CollectedAppend(a: seq<Query>, b: seq<Query>)
    ensures Collected(a + b) == Collected(a) + Collected(b)
  {
    hide Collected, Answer;
    if a == [] {
      assert a + b == b;
      CollectedNone();
    } else {
      CollectedAppend(a[1..], b);
      CollectedSplit(a);
      CollectedSplit(a + b);
      assert (a + b)[0] == a[0] && (a + b)[1..] == a[1..] + b;
      Join(Answer(a[0]), Collected(a[1..]), Collected(b));
    }
  }

  lemma CollectedNone()
    ensures Collected([]) == []
  {
  }

  lemma {:induction false} ParsedAppend(a: seq<Option<Event>>, b: seq<Option<Event>>)
    ensures Parsed(a + b) == Parsed(a) + Parsed(b)
  {
    hide Parsed;
    if a == [] {
      assert a + b == b;
      ParsedNone(a);
    } else {
      ParsedAppend(a[1..], b);
      assert (a + b)[0] == a[0] && (a + b)[1..] == a[1..] + b;
      assert a[0..] == a && (a + b)[0..] == a + b;
      ParsedFrom(a, 0);
      ParsedFrom(a + b, 0);
      Join(if a[0].Some? then [a[0].value] else [], Parsed(a[1..]), Parsed(b));
    }
  }

  lemma CollectedOne(query: Query)
    requires query.Some?
    ensures Collected([query]) == Parsed(query.value)
  {
    assert [query][1..] == [];
  }

  lemma ParsedOne(event: Event)
    ensures Parsed([Some(event)]) == [event]
  {
    assert [Some(event)][1..] == [];
  }

  lemma CollectedSplit(queries: seq<Query>)
    requires queries != []
    ensures Collected(queries) == Answer(queries[0]) + Collected(queries[1..])
  {
  }

  function CompareBlock(a: Event, b: Event): int {
    b.blockNumber - a.blockNumber
  }

  lemma BlockComparatorConsistent()
    ensures Consistent(CompareBlock)
  {
  }

  const SHOWN_EVENTS: nat := 100

  function Newest(sorted: seq<Event>): seq<Event> {
    if |sorted| <= SHOWN_EVENTS then sorted else sorted[..SHOWN_EVENTS]
  }

  /** What slicing drops. */
  function Dropped(sorted: seq<Event>): seq<Event> {
    if |sorted| <= SHOWN_EVENTS then [] else sorted[SHOWN_EVENTS..]
  }

  /**
   The returned list holds min(100, n) of the collected events, newest block first; with the dropped ones it makes up
   all of them, and no dropped event is from a later block than a kept one.
   */
  lemma {:induction false} NewestHundred(logs: seq<Event>, sorted: seq<Event>)
    requires IsStableSort(CompareBlock, logs, sorted)
    ensures |Newest(sorted)| == if |logs| < SHOWN_EVENTS then |logs| else SHOWN_EVENTS
    ensures multiset(Newest(sorted)) + multiset(Dropped(sorted)) == multiset(logs)
    ensures forall i, j :: 0 <= i < j < |Newest(sorted)| ==>
              Newest(sorted)[i].blockNumber >= Newest(sorted)[j].blockNumber
    ensures forall kept, gone :: kept in Newest(sorted) && gone in Dropped(sorted) ==>
              kept.blockNumber >= gone.blockNumber
    ensures sorted == Sort(CompareBlock, logs)
  {
    BlockComparatorConsistent();
    StableIsPermutation(CompareBlock, logs, sorted);
    SortIsStable(CompareBlock, logs);
    StableSortUnique(CompareBlock, sorted, Sort(CompareBlock, logs));
    assert NewestFirst(sorted) by {
      assert forall i, j :: 0 <= i < j < |sorted| ==> CompareBlock(sorted[i], sorted[j]) <= 0;
    }
    hide *;
    NewestKeepsOrder(sorted);
  }

  ghost predicate NewestFirst(s: seq<Event>) {
    forall i, j :: 0 <= i < j < |s| ==> s[i].blockNumber >= s[j].blockNumber
  }

  lemma {:induction false} NewestKeepsOrder(sorted: seq<Event>)
    requires NewestFirst(sorted)
    ensures |Newest(sorted)| == if |sorted| < SHOWN_EVENTS then |sorted| else SHOWN_EVENTS
    ensures multiset(Newest(sorted)) + multiset(Dropped(sorted)) == multiset(sorted)
    ensures forall i, j :: 0 <= i < j < |Newest(sorted)| ==>
              Newest(sorted)[i].blockNumber >= Newest(sorted)[j].blockNumber
    ensures forall kept, gone :: kept in Newest(sorted) && gone in Dropped(sorted) ==>
              kept.blockNumber >= gone.blockNumber
  {
    var kept, gone := Newest(sorted), Dropped(sorted);
    assert kept + gone == sorted;
    assert forall i :: 0 <= i < |kept| ==> kept[i] == sorted[i];
    assert forall j :: 0 <= j < |gone| ==> gone[j] == sorted[|kept| + j];
  }

  /**
   The whole Nexus history: every shown event was parsed from an answered query, newest block first, and an event that
   some query gave is left out only when a hundred are shown, none of them from an earlier block.
   */
  method NexusHistory(queries: seq<Query>) returns (shown: seq<Event>)
    ensures |shown| == if |Collected(queries)| < 100 then |Collected(queries)| else 100
    ensures forall i, j :: 0 <= i < j < |shown| ==> shown[i].blockNumber >= shown[j].blockNumber
    ensures forall event :: event in shown ==> exists q :: 0 <= q < |queries| && Gives(queries[q], event)
    ensures forall q, event :: 0 <= q < |queries| && Gives(queries[q], event) && event !in shown ==>
              |shown| == 100 && forall kept :: kept in shown ==> kept.blockNumber >= event.blockNumber
  {
    var logs := CollectLogs(queries);
    var sorted := Sort(CompareBlock, logs);
    BlockComparatorConsistent();
    SortIsStable(CompareBlock, logs);
    NewestHundred(logs, sorted);
    shown := Newest(sorted);
    ghost var gone := Dropped(sorted);
    hide Newest, Dropped, Collected, Sort, Gives, IsStableSort;
    SplitMembers(shown, gone, logs);
    forall event
      ensures event in logs <==> exists q :: 0 <= q < |queries| && Gives(queries[q], event)
    {
      CollectedMembers(queries, event);
    }
  }

  lemma SplitMembers(kept: seq<Event>, gone: seq<Event>, all: seq<Event>)
    requires multiset(kept) + multiset(gone) == multiset(all)
    ensures forall event :: event in all <==> event in kept || event in gone
  {
    forall event
      ensures event in all <==> event in kept || event in gone
    {
      assert event in all <==> event in multiset(all);
      assert event in kept <==> event in multiset(kept);
      assert event in gone <==> event in multiset(gone);
    }
  }
}
