/** Which parts of a row depend on the order of delivery, exactly; and what never goes back. */
module Order {
  import opened Common
  import opened Hlc
  import opened Values
  import opened Model
  import opened Grouping
  import opened Selection
  import opened RowWrite
  import opened Deletes
  import opened RowMerge
  import opened Engine
  import opened ApplyBatch
  import opened RowInvariant
  import opened Convergence
  import opened Runs

  /** `later` is nowhere older than `earlier`: not in its row HLC, not in any column. */
  predicate NotOlder(earlier: Row, later: Row) {
    && (earlier.hlc.Some? ==> later.hlc.Some? && Rank(earlier.hlc.value) <= Rank(later.hlc.value))
    && forall column | column in earlier.hlcs ::
        column in later.hlcs && Rank(earlier.hlcs[column]) <= Rank(later.hlcs[column])
  }

  lemma GroupNeverGoesBack(env: Env, rows0: Rows, rows: Rows, group: seq<Indexed>, id: RowId)
    requires Uniform(group) && id in rows
    ensures id in GroupEffect(env, rows0, rows, group) && NotOlder(rows[id], GroupEffect(env, rows0, rows, group)[id])
  {
    hide Rank, Identify, GroupHits, IsComplete, Classify, Shadowed, HasSigs, PutValues, PutSigs, RowHlcAfter;
    if !Names(env, group, id) {
      OtherGroup(env, rows0, rows, group, id);
    } else {
      var prior := Lookup(rows, id);
      var staged := Winners(GroupCands(env, group, id), PriorHlcs(prior));
      WinnersBeatHits(env, group, id, PriorHlcs(prior));
      GroupCandsAre(env, group, id);
      if staged != [] {
        RowHlcBounds(prior, staged);
        PutCells(map[], prior.value.hlcs, staged);
        MergeNeverGoesBack(prior.value, staged);
      }
    }
  }

  lemma MergeNeverGoesBack(prior: Row, staged: seq<Cand>)
    requires staged != [] && DistinctColumns(staged)
    requires forall i | 0 <= i < |staged| :: Rank(staged[i].change.hlc) > Rank(StoredHlc(prior.hlcs, staged[i].change.column))
    ensures forall column | column in prior.hlcs ::
              column in PutHlcs(prior.hlcs, staged) && Rank(prior.hlcs[column]) <= Rank(PutHlcs(prior.hlcs, staged)[column])
  {
    hide Rank, PutHlcs;
    PutCells(map[], prior.hlcs, staged);
    forall column | column in prior.hlcs
      ensures column in PutHlcs(prior.hlcs, staged) && Rank(prior.hlcs[column]) <= Rank(PutHlcs(prior.hlcs, staged)[column])
    {
      if Stages(staged, column) {
        var i :| 0 <= i < |staged| && staged[i].change.column == column;
        assert CellOf(PutHlcs(prior.hlcs, staged), staged[i].change.column) == Some(staged[i].change.hlc);
      } else {
        assert CellOf(PutHlcs(prior.hlcs, staged), column) == CellOf(prior.hlcs, column);
      }
    }
  }

  lemma {:induction false} GroupsNeverGoBack(env: Env, rows0: Rows, groups: seq<seq<Indexed>>, id: RowId, n: nat)
    requires n <= |groups| && id in rows0
    requires forall i | 0 <= i < |groups| :: groups[i] != [] && Uniform(groups[i])
    ensures id in RowsAfter(env, rows0, groups, n) && NotOlder(rows0[id], RowsAfter(env, rows0, groups, n)[id])
  {
    hide Rank, GroupEffect, Uniform;
    if n > 0 {
      GroupsNeverGoBack(env, rows0, groups, id, n - 1);
      GroupNeverGoesBack(env, rows0, RowsAfter(env, rows0, groups, n - 1), groups[n - 1], id);
    }
  }

  /** While a row survives a batch, neither its row HLC nor any column HLC decreases, whatever the state. */
  lemma SurvivorsNeverGoBack(env: Env, rows: Rows, d: Delivery, id: RowId)
    requires WellDelivered(env, d) && id in rows && id in Next(env, rows, d)
    ensures NotOlder(rows[id], Next(env, rows, d)[id])
  {
    hide Rank, RowsAfter, Uniform, IsGrouping, Killed, NamesLogId;
    GroupingShape(d.changes, d.groups);
    GroupsNeverGoBack(env, rows, d.groups, id, |d.groups|);
  }

  /** What a replica stores for one column of one row. */
  datatype Cell = Cell(value: Option<SqlValue>, hlc: Option<string>, sig: Option<Json>)

  function CellAt(rows: Rows, id: RowId, column: string): Cell {
    if id in rows then
      Cell(CellOf(rows[id].values, column), CellOf(rows[id].hlcs, column), CellOf(rows[id].sigs, column))
    else Cell(None, None, None)
  }

  /** Every run that received exactly `recv` stores the same cell. */
  ghost predicate OrderIndependent(env: Env, recv: set<Change>, id: RowId, column: string) {
    forall a, b | WellRun(env, a) && WellRun(env, b) && Received(a) == recv && Received(b) == recv ::
      CellAt(StateAfter(env, a), id, column) == CellAt(StateAfter(env, b), id, column)
  }

  /** The row is dead, the column was never touched, or its newest change is above every tombstone. */
  predicate Settled(env: Env, recv: set<Change>, id: RowId, column: string) {
    || !Alive(HitsOf(env, recv, id), TombsOf(env, recv, id))
    || (forall c | c in HitsOf(env, recv, id) :: c.column != column)
    || (exists c :: c in HitsOf(env, recv, id) && c.column == column && AboveAll(c, TombsOf(env, recv, id)))
  }

  lemma SettledIsIndependent(env: Env, a: seq<Delivery>, b: seq<Delivery>, id: RowId, column: string)
    requires WellRun(env, a) && WellRun(env, b) && Received(a) == Received(b) && Coherent(env, Received(a))
    requires Settled(env, Received(a), id, column)
    ensures CellAt(StateAfter(env, a), id, column) == CellAt(StateAfter(env, b), id, column)
  {
    hide Rank, Hits, TombsOf, Coherent, StateAfter, Received, WellRun, FromChange, Provenance, RowHlcIsMax, AboveAll, HitsOf;
    var recv := Received(a);
    SameRowsEverywhere(env, a, b);
    if id in StateAfter(env, a) {
      RunInvariant(env, a);
      assert RowOk(env, id, HitsOf(env, recv, id), TombsOf(env, recv, id), Lookup(StateAfter(env, a), id));
      if c :| c in HitsOf(env, recv, id) && c.column == column && AboveAll(c, TombsOf(env, recv, id)) {
        var n := NewestFrom(env, recv, id, c);
        AboveIsUpward(c, n, TombsOf(env, recv, id));
        ColumnConvergence(env, a, id, n);
        ColumnConvergence(env, b, id, n);
        TwoFromOne(env, id, StateAfter(env, a)[id], StateAfter(env, b)[id], column, n);
      } else {
        UntouchedColumn(env, a, id, column);
        UntouchedColumn(env, b, id, column);
      }
    }
  }

  lemma AboveIsUpward(c: Change, n: Change, tombs: set<nat>)
    requires AboveAll(c, tombs) && Rank(c.hlc) <= Rank(n.hlc)
    ensures AboveAll(n, tombs)
  {
    hide Rank;
  }

  lemma UntouchedColumn(env: Env, ds: seq<Delivery>, id: RowId, column: string)
    requires WellRun(env, ds) && Coherent(env, Received(ds)) && id in StateAfter(env, ds)
    requires forall c | c in HitsOf(env, Received(ds), id) :: c.column != column
    ensures CellAt(StateAfter(env, ds), id, column) == Cell(None, None, None)
  {
    hide Rank, Hits, TombsOf, Coherent, StateAfter, Received, WellRun, RowHlcIsMax, HasSigs, Decoded, HitsOf;
    ReachableRows(env, ds, id);
    NoCell(env, id, Received(ds), StateAfter(env, ds)[id], column);
  }

  /** Any set of changes can be delivered as one batch. */
  lemma OneBatch(env: Env, changes: set<Change>) returns (d: Delivery)
    ensures WellDelivered(env, d) && AsSet(d.changes) == changes
  {
    hide NamesLogId, Having, IsGrouping;
    var list := Listed(changes);
    var items := Tagged(list);
    var keys := DistinctKeys(items);
    var groups := seq(|keys|, i requires 0 <= i < |keys| => Having(items, TextOf, keys[i]));
    GroupsFit(list, keys, groups);
    var ids := set c, s | c in list && s in PossibleIds(env, c) && NamesLogId(env, c, s) :: s;
    forall s
      ensures s in ids <==> exists c :: c in list && NamesLogId(env, c, s)
    {
      forall c | c in list && NamesLogId(env, c, s)
        ensures s in PossibleIds(env, c)
      {
        NamesLogIdMeans(env, c, s);
      }
    }
    d := Delivery(list, groups, ids);
  }

  function PossibleIds(env: Env, c: Change): set<string> {
    match NamedId(env, c)
    case Some(s) => {s}
    case None => {}
  }

  lemma Listed(changes: set<Change>) returns (list: seq<Change>)
    ensures AsSet(list) == changes
  {
    list := [];
    var todo := changes;
    while todo != {}
      invariant AsSet(list) + todo == changes
      decreases |todo|
    {
      var c :| c in todo;
      list, todo := list + [c], todo - {c};
    }
  }

  lemma DistinctKeys(items: seq<Indexed>) returns (keys: seq<RowText>)
    ensures Distinct(keys)
    ensures forall k :: k in keys <==> exists x :: x in items && TextOf(x) == k
  {
    keys := [];
    for n := 0 to |items|
      invariant Distinct(keys)
      invariant forall k :: k in keys <==> exists m :: 0 <= m < n && TextOf(items[m]) == k
    {
      if TextOf(items[n]) !in keys {
        keys := keys + [TextOf(items[n])];
      }
    }
  }

  lemma GroupsFit(list: seq<Change>, keys: seq<RowText>, groups: seq<seq<Indexed>>)
    requires Distinct(keys) && forall k :: k in keys <==> exists x :: x in Tagged(list) && TextOf(x) == k
    requires |groups| == |keys| && forall i | 0 <= i < |keys| :: groups[i] == Having(Tagged(list), TextOf, keys[i])
    ensures IsGrouping(list, groups) && forall i | 0 <= i < |groups| :: groups[i] != []
  {
    hide HavingUpTo;
    var items := Tagged(list);
    forall i | 0 <= i < |groups|
      ensures groups[i] != [] && Uniform(groups[i]) && TextOf(groups[i][0]) == keys[i]
      ensures forall x | x in groups[i] :: x in items
    {
      HavingMembers(items, TextOf, keys[i], |items|);
      assert keys[i] in keys;
      var x :| x in items && TextOf(x) == keys[i];
      var m :| 0 <= m < |items| && items[m] == x;
      assert items[m] in groups[i];
      assert groups[i][0] in groups[i];
      assert forall y | y in groups[i] :: TextOf(y) == keys[i];
    }
    forall x | x in items
      ensures exists g :: g in groups && x in g
    {
      assert TextOf(x) in keys;
      var i :| 0 <= i < |keys| && keys[i] == TextOf(x);
      HavingMembers(items, TextOf, keys[i], |items|);
      assert groups[i] in groups;
    }
  }

  /** The received changes to the delete log. */
  function LogPart(recv: set<Change>): set<Change> {
    set c | c in recv && c.table == LOG_TABLE
  }

  /** Tombstones are a matter of the delete-log changes alone. */
  lemma TombsAreLogOnly(env: Env, recv: set<Change>, some: set<Change>, id: RowId)
    requires LogPart(recv) == LogPart(some)
    ensures TombsOf(env, recv, id) == TombsOf(env, some, id)
  {
    hide Rank, Identify, IsComplete, Eligible, Decoded;
    forall p
      ensures p in recv && IsTombstone(env, recv, p, id) <==> p in some && IsTombstone(env, some, p, id)
    {
      forall t, l | Declares(env, p, t, l, id)
        ensures p in recv <==> p in some
        ensures t in recv <==> t in some
      {
        assert p in recv <==> p in LogPart(recv);
        assert p in some <==> p in LogPart(some);
        assert t in recv <==> t in LogPart(recv);
        assert t in some <==> t in LogPart(some);
      }
    }
  }

  lemma NoLogNoTombs(env: Env, recv: set<Change>, id: RowId)
    requires LogPart(recv) == {}
    ensures TombsOf(env, recv, id) == {}
  {
    hide Rank, Identify, IsComplete, Eligible, Decoded;
    forall p | p in recv
      ensures !IsTombstone(env, recv, p, id)
    {
      assert p !in LogPart(recv);
    }
  }

  lemma {:induction false} JoinedRuns(env: Env, a: seq<Delivery>, b: seq<Delivery>)
    requires WellRun(env, a) && WellRun(env, b)
    ensures WellRun(env, a + b) && Received(a + b) == Received(a) + Received(b)
  {
    hide WellDelivered;
    if b == [] {
      assert a + b == a;
    } else {
      var n := |b| - 1;
      JoinedRuns(env, a, b[..n]);
      assert (a + b)[..|a + b| - 1] == a + b[..n];
    }
  }

  lemma OneMore(env: Env, a: seq<Delivery>, b: seq<Delivery>)
    requires WellRun(env, a) && WellRun(env, b) && b != []
    ensures WellRun(env, a + b) && WellRun(env, a + b[..|b| - 1])
    ensures StateAfter(env, a + b) == Next(env, StateAfter(env, a + b[..|b| - 1]), b[|b| - 1])
  {
    hide WellDelivered, Next;
    assert (a + b)[..|a + b| - 1] == a + b[..|b| - 1];
  }

  /** A column that is there stays while more arrives, as long as the row outlives every tombstone there is. */
  lemma {:induction false} ColumnStays(
      env: Env, recv: set<Change>, id: RowId, column: string, first: seq<Delivery>, more: seq<Delivery>)
    requires WellRun(env, first) && WellRun(env, more) && Coherent(env, recv)
    requires Received(first) <= recv && Received(more) <= recv
    requires Alive(HitsOf(env, Received(first), id), TombsOf(env, recv, id))
    requires CellAt(StateAfter(env, first), id, column).hlc.Some?
    ensures WellRun(env, first + more) && CellAt(StateAfter(env, first + more), id, column).hlc.Some?
  {
    hide Rank, Coherent, TombsOf, HitsOf, Alive, Next, WellDelivered, Received, WellRun, StateAfter;
    JoinedRuns(env, first, more);
    if more == [] {
      assert first + more == first;
    } else {
      var n := |more| - 1;
      FrontOfRun(env, more);
      ColumnStays(env, recv, id, column, first, more[..n]);
      JoinedRuns(env, first, more[..n]);
      OneMore(env, first, more);
      LivesThroughout(env, recv, id, first, more[..n]);
      LivesThroughout(env, recv, id, first, more);
      SurvivorsNeverGoBack(env, StateAfter(env, first + more[..n]), more[n], id);
    }
  }

  lemma FrontOfRun(env: Env, ds: seq<Delivery>)
    requires WellRun(env, ds) && ds != []
    ensures WellRun(env, ds[..|ds| - 1]) && WellDelivered(env, ds[|ds| - 1])
    ensures Received(ds) == Received(ds[..|ds| - 1]) + AsSet(ds[|ds| - 1].changes)
  {
    hide WellDelivered;
  }

  lemma LivesThroughout(env: Env, recv: set<Change>, id: RowId, first: seq<Delivery>, more: seq<Delivery>)
    requires WellRun(env, first) && WellRun(env, more) && Coherent(env, recv)
    requires Received(first) <= recv && Received(more) <= recv
    requires Alive(HitsOf(env, Received(first), id), TombsOf(env, recv, id))
    ensures WellRun(env, first + more) && id in StateAfter(env, first + more)
  {
    hide Rank, Coherent, TombsOf, Hits, Next, WellDelivered, Received, WellRun, StateAfter, Provenance, RowHlcIsMax, Covers, AboveAll;
    JoinedRuns(env, first, more);
    var got := Received(first + more);
    assert got + recv == recv;
    CoherentSubset(env, got, recv);
    RunInvariant(env, first + more);
    MoreTombs(env, got, recv, id);
    assert RowOk(env, id, HitsOf(env, got, id), TombsOf(env, got, id), Lookup(StateAfter(env, first + more), id));
    var c :| c in HitsOf(env, Received(first), id) && AboveAll(c, TombsOf(env, recv, id));
    AboveFewer(c, TombsOf(env, got, id), TombsOf(env, recv, id));
    assert c in HitsOf(env, got, id);
  }

  lemma AboveFewer(c: Change, fewer: set<nat>, tombs: set<nat>)
    requires fewer <= tombs && AboveAll(c, tombs)
    ensures AboveAll(c, fewer)
  {
    hide Rank;
  }

  /**
   * However the data is split, as long as it is all there before the first
   * delete-log change, a row that lives keeps every column it was sent.
   */
  lemma DeletesLast(env: Env, recv: set<Change>, id: RowId, c: Change, data: seq<Delivery>, deletes: seq<Delivery>)
    requires Coherent(env, recv) && Alive(HitsOf(env, recv, id), TombsOf(env, recv, id)) && id.table != LOG_TABLE
    requires c in HitsOf(env, recv, id)
    requires WellRun(env, data) && Received(data) == recv - LogPart(recv)
    requires WellRun(env, deletes) && LogPart(recv) <= Received(deletes) <= recv
    ensures WellRun(env, data + deletes) && Received(data + deletes) == recv
    ensures CellAt(StateAfter(env, data + deletes), id, c.column).hlc.Some?
  {
    hide Rank, Coherent, TombsOf, Next, WellDelivered, Identify, Eligible, IsComplete, Provenance, RowHlcIsMax, Received, StateAfter,
         WellRun, AboveAll;
    var rest := recv - LogPart(recv);
    JoinedRuns(env, data, deletes);
    assert rest + recv == recv;
    CoherentSubset(env, rest, recv);
    RunInvariant(env, data);
    NoLogNoTombs(env, rest, id);
    assert RowOk(env, id, HitsOf(env, rest, id), TombsOf(env, rest, id), Lookup(StateAfter(env, data), id));
    AboveNothing(c);
    assert c in HitsOf(env, rest, id);
    assert Covers(StateAfter(env, data)[id], c);
    assert HitsOf(env, rest, id) == HitsOf(env, recv, id);
    ColumnStays(env, recv, id, c.column, data, deletes);
  }

  lemma AboveNothing(c: Change)
    ensures AboveAll(c, {})
  {
  }

  /** A group stores no column that it has no change for. */
  lemma GroupAddsOnlyItsColumns(env: Env, rows0: Rows, rows: Rows, group: seq<Indexed>, id: RowId, column: string)
    requires Uniform(group) && forall c | c in GroupHits(env, group, id) :: c.column != column
    requires CellAt(rows, id, column).hlc.None?
    ensures CellAt(GroupEffect(env, rows0, rows, group), id, column).hlc.None?
  {
    hide Rank, Identify, GroupHits, GroupCands, GroupEffect, Winners, HasSigs, PutValues, PutSigs, PutHlcs, RowHlcAfter, Decoded;
    if Names(env, group, id) {
      var prior := Lookup(rows, id);
      var staged := Winners(GroupCands(env, group, id), PriorHlcs(prior));
      WinnersBeatHits(env, group, id, PriorHlcs(prior));
      RowAfterGroup(env, rows0, rows, group, id);
      PutCells(map[], PriorHlcs(prior), staged);
      assert !Stages(staged, column);
    } else {
      OtherGroup(env, rows0, rows, group, id);
    }
  }

  lemma {:induction false} GroupsAddOnlyTheirColumns(
      env: Env, rows: Rows, groups: seq<seq<Indexed>>, id: RowId, column: string, n: nat)
    requires n <= |groups| && forall i | 0 <= i < |groups| :: groups[i] != [] && Uniform(groups[i])
    requires forall c | c in GroupedHits(env, groups, id, n) :: c.column != column
    requires CellAt(rows, id, column).hlc.None?
    ensures CellAt(RowsAfter(env, rows, groups, n), id, column).hlc.None?
  {
    hide GroupEffect, Uniform, GroupHits, CellAt;
    if n > 0 {
      GroupsAddOnlyTheirColumns(env, rows, groups, id, column, n - 1);
      GroupAddsOnlyItsColumns(env, rows, RowsAfter(env, rows, groups, n - 1), groups[n - 1], id, column);
    }
  }

  /** A delivery stores no column that it has no change for, whatever the state it meets. */
  lemma DeliveryAddsOnlyItsColumns(env: Env, rows: Rows, d: Delivery, id: RowId, column: string)
    requires WellDelivered(env, d) && forall c | c in HitsOf(env, AsSet(d.changes), id) :: c.column != column
    requires CellAt(rows, id, column).hlc.None?
    ensures CellAt(Next(env, rows, d), id, column).hlc.None?
  {
    hide IsGrouping, NamesLogId, RowsAfter, Hits, Killed, GroupedHits, Uniform;
    GroupingShape(d.changes, d.groups);
    GroupedHitsAreHits(env, d.changes, d.groups, id);
    GroupsAddOnlyTheirColumns(env, rows, d.groups, id, column, |d.groups|);
  }

  lemma {:induction false} RunAddsOnlyItsColumns(env: Env, first: seq<Delivery>, more: seq<Delivery>, id: RowId, column: string)
    requires WellRun(env, first) && WellRun(env, more)
    requires forall c | c in HitsOf(env, Received(more), id) :: c.column != column
    requires CellAt(StateAfter(env, first), id, column).hlc.None?
    ensures WellRun(env, first + more) && CellAt(StateAfter(env, first + more), id, column).hlc.None?
  {
    hide Hits, Next, WellDelivered, Received, WellRun, StateAfter, CellAt;
    JoinedRuns(env, first, more);
    if more == [] {
      assert first + more == first;
    } else {
      var n := |more| - 1;
      FrontOfRun(env, more);
      RunAddsOnlyItsColumns(env, first, more[..n], id, column);
      OneMore(env, first, more);
      DeliveryAddsOnlyItsColumns(env, StateAfter(env, first + more[..n]), more[n], id, column);
    }
  }

  function ColumnPart(env: Env, recv: set<Change>, id: RowId, column: string): set<Change> {
    set c | c in HitsOf(env, recv, id) && c.column == column
  }

  /**
   * However it is split, once the column and the deletes have arrived, in
   * whatever order, and only then the rest, the column is gone for good.
   */
  lemma DeletesBetween(
      env: Env, recv: set<Change>, id: RowId, column: string, early: seq<Delivery>, late: seq<Delivery>)
    requires Coherent(env, recv) && id.table != LOG_TABLE
    requires forall c | c in ColumnPart(env, recv, id, column) :: !AboveAll(c, TombsOf(env, recv, id))
    requires WellRun(env, early) && Received(early) == ColumnPart(env, recv, id, column) + LogPart(recv)
    requires WellRun(env, late) && Received(late) == recv - LogPart(recv) - ColumnPart(env, recv, id, column)
    ensures WellRun(env, early + late) && Received(early + late) == recv
    ensures CellAt(StateAfter(env, early + late), id, column).hlc.None?
  {
    hide Rank, Coherent, TombsOf, Next, WellDelivered, Identify, Eligible, IsComplete, Received, StateAfter, WellRun, RowOk;
    var log, part := LogPart(recv), ColumnPart(env, recv, id, column);
    JoinedRuns(env, early, late);
    assert part + log + (recv - log - part) == recv;
    CoherentSubset(env, part + log, recv - log - part);
    RunInvariant(env, early);
    TombsAreLogOnly(env, recv, part + log, id);
    AbsentAfterDeletes(env, recv, part, log, id, column, StateAfter(env, early));
    RunAddsOnlyItsColumns(env, early, late, id, column);
  }

  lemma AbsentAfterDeletes(
      env: Env, recv: set<Change>, part: set<Change>, log: set<Change>, id: RowId, column: string, rows: Rows)
    requires Inv(env, part + log, rows) && id.table != LOG_TABLE
    requires part == ColumnPart(env, recv, id, column) && log == LogPart(recv)
    requires TombsOf(env, recv, id) == TombsOf(env, part + log, id)
    requires forall c | c in part :: !AboveAll(c, TombsOf(env, recv, id))
    ensures id !in rows
  {
    hide Rank, TombsOf, Identify, Eligible, IsComplete, AboveAll, Provenance, RowHlcIsMax, Covers;
    assert RowOk(env, id, HitsOf(env, part + log, id), TombsOf(env, part + log, id), Lookup(rows, id));
    assert HitsOf(env, part + log, id) <= part;
  }

  /**
   * A stored column is independent of the order and split of delivery if and
   * only if it is settled.
   */
  lemma OrderIndependenceIff(env: Env, recv: set<Change>, id: RowId, column: string)
    requires Coherent(env, recv)
    ensures OrderIndependent(env, recv, id, column) <==> Settled(env, recv, id, column)
  {
    hide Coherent, TombsOf, HitsOf, Received, StateAfter, WellRun, AboveAll, CellAt;
    if Settled(env, recv, id, column) {
      forall a, b | WellRun(env, a) && WellRun(env, b) && Received(a) == recv && Received(b) == recv
        ensures CellAt(StateAfter(env, a), id, column) == CellAt(StateAfter(env, b), id, column)
      {
        SettledIsIndependent(env, a, b, id, column);
      }
    } else {
      UnsettledIsNoLogRow(env, recv, id, column);
      var c :| c in HitsOf(env, recv, id) && c.column == column;
      var log, part := LogPart(recv), ColumnPart(env, recv, id, column);
      var dLog := OneBatch(env, log);
      var dData := OneBatch(env, recv - log);
      var dPart := OneBatch(env, part);
      var dRest := OneBatch(env, recv - log - part);
      OneRun(env, dData);
      OneRun(env, dLog);
      OneRun(env, dPart);
      OneRun(env, dRest);
      JoinedRuns(env, [dPart], [dLog]);
      DeletesLast(env, recv, id, c, [dData], [dLog]);
      DeletesBetween(env, recv, id, column, [dPart] + [dLog], [dRest]);
    }
  }

  lemma OneRun(env: Env, d: Delivery)
    requires WellDelivered(env, d)
    ensures WellRun(env, [d]) && Received([d]) == AsSet(d.changes)
  {
    hide WellDelivered;
    assert [d][..0] == [];
    assert Received([]) == {};
  }

  lemma UnsettledIsNoLogRow(env: Env, recv: set<Change>, id: RowId, column: string)
    requires Coherent(env, recv) && !Settled(env, recv, id, column)
    ensures id.table != LOG_TABLE
  {
    hide TombsOf, HitsOf, Unambiguous, LogCoherent, Vetted, Rank;
    if id.table == LOG_TABLE {
      NoTombsForLog(env, recv, id);
    }
  }
}
