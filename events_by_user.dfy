/** The events-by-user report: the flat rows of the report query are grouped by their
    `gamer_id`. Rows are taken as the query returns them (the query selects the game creator's
    id as `gamer_id` and joins the `gamer` alias before binding it; grouping does not depend
    on either). */
module EventsByUser {

  /** One row of the report query. */
  datatype Row = Row(eventId: int, dateOfEvent: string, startTime: string,
                     gamerId: int, gameName: string, fullName: string)

  /** The per-row event record of the report. */
  datatype EventEntry = EventEntry(eventId: int, date: string, time: string, gameName: string)

  /** One group of the report: a gamer and the events of its rows. */
  datatype UserEvents = UserEvents(gamerId: int, fullName: string, events: seq<EventEntry>)

  function EntryOf(r: Row): EventEntry {
    EventEntry(r.eventId, r.dateOfEvent, r.startTime, r.gameName)
  }

  /** The event records of the rows whose `gamer_id` is `id`, in row order. */
  function EntriesOf(rows: seq<Row>, id: int): seq<EventEntry> {
    if rows == [] then []
    else
      var last := rows[|rows| - 1];
      EntriesOf(rows[..|rows| - 1], id) + (if last.gamerId == id then [EntryOf(last)] else [])
  }

  /** The index of the first row with `gamer_id` `id`, or `|rows|` when there is none. */
  function FirstIndex(rows: seq<Row>, id: int): (k: nat)
    ensures k <= |rows|
    ensures k < |rows| ==> rows[k].gamerId == id
    ensures forall j :: 0 <= j < k ==> rows[j].gamerId != id
  {
    if rows == [] then 0
    else if rows[0].gamerId == id then 0
    else 1 + FirstIndex(rows[1..], id)
  }

  /** The number of event records over all groups. */
  function TotalEvents(groups: seq<UserEvents>): nat {
    if groups == [] then 0
    else TotalEvents(groups[..|groups| - 1]) + |groups[|groups| - 1].events|
  }

  /** A gamer none of whose rows is among `rows` has no event records in them. */
  lemma {:induction false} EntriesOfAbsent(rows: seq<Row>, id: int)
    requires forall j :: 0 <= j < |rows| ==> rows[j].gamerId != id
    ensures EntriesOf(rows, id) == []
  {
    if rows != [] {
      EntriesOfAbsent(rows[..|rows| - 1], id);
    }
  }

  /** Replacing one group changes the total by the difference of the two groups' sizes. */
  lemma {:induction false} TotalEventsUpdate(groups: seq<UserEvents>, m: nat, g: UserEvents)
    requires m < |groups|
    ensures TotalEvents(groups[m := g]) + |groups[m].events| == TotalEvents(groups) + |g.events|
    decreases |groups|
  {
    var n := |groups| - 1;
    assert groups[m := g][..n] == if m == n then groups[..n] else groups[..n][m := g];
    if m < n {
      TotalEventsUpdate(groups[..n], m, g);
    }
  }

  /** The inner loop: the index of the last group whose `gamer_id` is `id`, or -1. */
  method FindGroup(groups: seq<UserEvents>, id: int) returns (found: int)
    ensures -1 <= found < |groups|
    ensures found == -1 <==> forall k :: 0 <= k < |groups| ==> groups[k].gamerId != id
    ensures found >= 0 ==> groups[found].gamerId == id
    ensures found >= 0 ==> forall k :: found < k < |groups| ==> groups[k].gamerId != id
  {
    found := -1;
    var k := 0;
    while k < |groups|
      invariant 0 <= k <= |groups|
      invariant -1 <= found < k
      invariant found == -1 ==> forall j :: 0 <= j < k ==> groups[j].gamerId != id
      invariant found >= 0 ==> groups[found].gamerId == id
      invariant found >= 0 ==> forall j :: found < j < k ==> groups[j].gamerId != id
    {
      if groups[k].gamerId == id {
        found := k;
      }
      k := k + 1;
    }
  }

  /** Some group has gamer id `id`. */
  predicate HasGroup(groups: seq<UserEvents>, id: int) {
    exists k :: 0 <= k < |groups| && groups[k].gamerId == id
  }

  /** No two groups share a gamer id. */
  ghost predicate Distinct(groups: seq<UserEvents>) {
    forall k, l :: 0 <= k < l < |groups| ==> groups[k].gamerId != groups[l].gamerId
  }

  /** Each of the first `i` rows has a group. */
  ghost predicate Covers(rows: seq<Row>, i: nat, groups: seq<UserEvents>)
    requires i <= |rows|
  {
    forall j :: 0 <= j < i ==> HasGroup(groups, rows[j].gamerId)
  }

  /** Each group's gamer has a row among the first `i`. */
  ghost predicate SeenBefore(rows: seq<Row>, i: nat, groups: seq<UserEvents>) {
    forall k :: 0 <= k < |groups| ==> FirstIndex(rows, groups[k].gamerId) < i
  }

  /** Groups come in the order of their gamers' first rows. */
  ghost predicate InFirstRowOrder(rows: seq<Row>, groups: seq<UserEvents>) {
    forall k, l :: 0 <= k < l < |groups| ==>
      FirstIndex(rows, groups[k].gamerId) < FirstIndex(rows, groups[l].gamerId)
  }

  /** Each group carries the full name of its gamer's first row. */
  ghost predicate NamedByFirstRow(rows: seq<Row>, groups: seq<UserEvents>) {
    forall k :: 0 <= k < |groups| ==>
      FirstIndex(rows, groups[k].gamerId) < |rows| &&
      groups[k].fullName == rows[FirstIndex(rows, groups[k].gamerId)].fullName
  }

  /** Each group holds the records of its gamer's rows among the first `i`, in row order. */
  ghost predicate Collected(rows: seq<Row>, i: nat, groups: seq<UserEvents>)
    requires i <= |rows|
  {
    forall k :: 0 <= k < |groups| ==> groups[k].events == EntriesOf(rows[..i], groups[k].gamerId)
  }

  /** `groups` is the report built from the first `i` rows. */
  ghost predicate GroupedUpTo(rows: seq<Row>, i: nat, groups: seq<UserEvents>)
    requires i <= |rows|
  {
    && Distinct(groups)
    && Covers(rows, i, groups)
    && SeenBefore(rows, i, groups)
    && InFirstRowOrder(rows, groups)
    && NamedByFirstRow(rows, groups)
    && Collected(rows, i, groups)
  }

  /** One more row adds its record to the records of its own gamer only. */
  lemma EntriesOfSnoc(rows: seq<Row>, i: nat, id: int)
    requires i < |rows|
    ensures EntriesOf(rows[..i + 1], id) ==
            EntriesOf(rows[..i], id) + (if rows[i].gamerId == id then [EntryOf(rows[i])] else [])
  {
    assert rows[..i + 1][..i] == rows[..i];
  }

  /** Two reports with the same gamer ids and names, group by group. */
  ghost predicate SameHeads(a: seq<UserEvents>, b: seq<UserEvents>) {
    |a| == |b| &&
    forall k :: 0 <= k < |a| ==> a[k].gamerId == b[k].gamerId && a[k].fullName == b[k].fullName
  }

  /** The properties that only look at gamer ids and names carry over between reports with
      the same heads. */
  lemma HeadsCarryOver(rows: seq<Row>, i: nat, groups: seq<UserEvents>, after: seq<UserEvents>)
    requires i < |rows| && SameHeads(groups, after)
    requires Distinct(groups) && SeenBefore(rows, i, groups)
    requires InFirstRowOrder(rows, groups) && NamedByFirstRow(rows, groups)
    ensures Distinct(after) && SeenBefore(rows, i + 1, after)
    ensures InFirstRowOrder(rows, after) && NamedByFirstRow(rows, after)
  {
  }

  lemma AppendCovers(rows: seq<Row>, i: nat, groups: seq<UserEvents>, m: nat, after: seq<UserEvents>)
    requires i < |rows| && Covers(rows, i, groups) && SameHeads(groups, after)
    requires m < |groups| && groups[m].gamerId == rows[i].gamerId
    ensures Covers(rows, i + 1, after)
  {
    forall j | 0 <= j < i + 1
      ensures HasGroup(after, rows[j].gamerId)
    {
      if j == i {
        assert after[m].gamerId == rows[j].gamerId;
      } else {
        assert HasGroup(groups, rows[j].gamerId);
        var k :| 0 <= k < |groups| && groups[k].gamerId == rows[j].gamerId;
        assert after[k].gamerId == rows[j].gamerId;
      }
    }
  }

  lemma AppendCollected(rows: seq<Row>, i: nat, groups: seq<UserEvents>, m: nat)
    requires i < |rows| && Distinct(groups) && Collected(rows, i, groups)
    requires m < |groups| && groups[m].gamerId == rows[i].gamerId
    ensures Collected(rows, i + 1,
              groups[m := groups[m].(events := groups[m].events + [EntryOf(rows[i])])])
  {
    var after := groups[m := groups[m].(events := groups[m].events + [EntryOf(rows[i])])];
    forall k | 0 <= k < |after|
      ensures after[k].events == EntriesOf(rows[..i + 1], after[k].gamerId)
    {
      EntriesOfSnoc(rows, i, groups[k].gamerId);
    }
  }

  /** Row `i` whose gamer already has group `m`: appending its record to that group keeps the
      report right for one more row. */
  lemma AppendStep(rows: seq<Row>, i: nat, groups: seq<UserEvents>, m: nat)
    requires i < |rows| && GroupedUpTo(rows, i, groups)
    requires m < |groups| && groups[m].gamerId == rows[i].gamerId
    ensures GroupedUpTo(rows, i + 1,
              groups[m := groups[m].(events := groups[m].events + [EntryOf(rows[i])])])
  {
    var after := groups[m := groups[m].(events := groups[m].events + [EntryOf(rows[i])])];
    assert SameHeads(groups, after);
    HeadsCarryOver(rows, i, groups, after);
    AppendCovers(rows, i, groups, m, after);
    AppendCollected(rows, i, groups, m);
  }

  /** A row whose gamer has no group among those of the earlier rows is its gamer's first. */
  lemma FirstRowOfNewGamer(rows: seq<Row>, i: nat, groups: seq<UserEvents>)
    requires i < |rows| && Covers(rows, i, groups)
    requires forall k :: 0 <= k < |groups| ==> groups[k].gamerId != rows[i].gamerId
    ensures FirstIndex(rows, rows[i].gamerId) == i
    ensures forall j :: 0 <= j < i ==> rows[j].gamerId != rows[i].gamerId
  {
    forall j | 0 <= j < i
      ensures rows[j].gamerId != rows[i].gamerId
    {
      assert HasGroup(groups, rows[j].gamerId);
    }
  }

  /** Row `i` whose gamer has no group yet: opening a group for it, named after this row,
      keeps the report right for one more row. */
  lemma OpenStep(rows: seq<Row>, i: nat, groups: seq<UserEvents>)
    requires i < |rows| && GroupedUpTo(rows, i, groups)
    requires forall k :: 0 <= k < |groups| ==> groups[k].gamerId != rows[i].gamerId
    ensures GroupedUpTo(rows, i + 1,
              groups + [UserEvents(rows[i].gamerId, rows[i].fullName, [EntryOf(rows[i])])])
  {
    var row := rows[i];
    var after := groups + [UserEvents(row.gamerId, row.fullName, [EntryOf(row)])];
    var n := |groups|;
    FirstRowOfNewGamer(rows, i, groups);
    assert Distinct(after) && SeenBefore(rows, i + 1, after);
    assert InFirstRowOrder(rows, after) by {
      forall k, l | 0 <= k < l < |after|
        ensures FirstIndex(rows, after[k].gamerId) < FirstIndex(rows, after[l].gamerId)
      {
        if l == n {
          assert FirstIndex(rows, groups[k].gamerId) < i;
        }
      }
    }
    assert NamedByFirstRow(rows, after);
    assert Covers(rows, i + 1, after) by {
      forall j | 0 <= j < i + 1
        ensures HasGroup(after, rows[j].gamerId)
      {
        if j == i {
          assert after[n].gamerId == rows[j].gamerId;
        } else {
          assert HasGroup(groups, rows[j].gamerId);
          var k :| 0 <= k < n && groups[k].gamerId == rows[j].gamerId;
          assert after[k].gamerId == rows[j].gamerId;
        }
      }
    }
    assert Collected(rows, i + 1, after) by {
      forall k | 0 <= k < |after|
        ensures after[k].events == EntriesOf(rows[..i + 1], after[k].gamerId)
      {
        EntriesOfSnoc(rows, i, after[k].gamerId);
        if k == n {
          EntriesOfAbsent(rows[..i], row.gamerId);
        }
      }
    }
  }

  /** The report built from all the rows, stated without the loop's predicates. */
  lemma GroupedAll(rows: seq<Row>, groups: seq<UserEvents>)
    requires GroupedUpTo(rows, |rows|, groups)
    ensures forall k, l :: 0 <= k < l < |groups| ==> groups[k].gamerId != groups[l].gamerId
    ensures forall j :: 0 <= j < |rows| ==> HasGroup(groups, rows[j].gamerId)
    ensures forall k :: 0 <= k < |groups| ==> FirstIndex(rows, groups[k].gamerId) < |rows|
    ensures forall k, l :: 0 <= k < l < |groups| ==>
              FirstIndex(rows, groups[k].gamerId) < FirstIndex(rows, groups[l].gamerId)
    ensures forall k :: 0 <= k < |groups| ==>
              groups[k].fullName == rows[FirstIndex(rows, groups[k].gamerId)].fullName
    ensures forall k :: 0 <= k < |groups| ==> groups[k].events == EntriesOf(rows, groups[k].gamerId)
  {
    assert rows[..|rows|] == rows;
  }

  /** One pass of the loop body: row `i` goes to its gamer's group, which is opened (named
      after this row) when the gamer has none yet. */
  method AddRow(rows: seq<Row>, i: nat, groups: seq<UserEvents>) returns (after: seq<UserEvents>)
    requires i < |rows| && GroupedUpTo(rows, i, groups)
    ensures GroupedUpTo(rows, i + 1, after)
    ensures TotalEvents(after) == TotalEvents(groups) + 1
  {
    var row := rows[i];
    var entry := EntryOf(row);
    var m := FindGroup(groups, row.gamerId);
    if m >= 0 {
      // The row's gamer already has a group: append the event to it.
      var updated := groups[m].(events := groups[m].events + [entry]);
      TotalEventsUpdate(groups, m, updated);
      AppendStep(rows, i, groups, m);
      after := groups[m := updated];
    } else {
      // First row of this gamer: open a new group named after it.
      var newGroup := UserEvents(row.gamerId, row.fullName, [entry]);
      OpenStep(rows, i, groups);
      assert (groups + [newGroup])[..|groups|] == groups;
      after := groups + [newGroup];
    }
  }

  /** The grouping loop of the report. Every row lands in exactly one group; the groups have
      distinct gamer ids, exactly the ids of the rows, in the order of their first row; a group
      is named after its first row and holds the event records of its rows in row order. */
  method GroupByGamer(rows: seq<Row>) returns (groups: seq<UserEvents>)
    ensures forall k, l :: 0 <= k < l < |groups| ==> groups[k].gamerId != groups[l].gamerId
    ensures forall j :: 0 <= j < |rows| ==> HasGroup(groups, rows[j].gamerId)
    ensures forall k :: 0 <= k < |groups| ==> FirstIndex(rows, groups[k].gamerId) < |rows|
    ensures forall k, l :: 0 <= k < l < |groups| ==>
              FirstIndex(rows, groups[k].gamerId) < FirstIndex(rows, groups[l].gamerId)
    ensures forall k :: 0 <= k < |groups| ==>
              groups[k].fullName == rows[FirstIndex(rows, groups[k].gamerId)].fullName
    ensures forall k :: 0 <= k < |groups| ==> groups[k].events == EntriesOf(rows, groups[k].gamerId)
    ensures TotalEvents(groups) == |rows|
  {
    groups := [];
    var i := 0;
    while i < |rows|
      invariant 0 <= i <= |rows|
      invariant GroupedUpTo(rows, i, groups)
      invariant TotalEvents(groups) == i
    {
      groups := AddRow(rows, i, groups);
      i := i + 1;
    }
    GroupedAll(rows, groups);
  }
}
