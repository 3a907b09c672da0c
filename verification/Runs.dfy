/** What holds of a replica after any run of accepted batches, in any order and any split. */
module Runs {
  import opened Common
  import opened Hlc
  import opened Values
  import opened Model
  import opened RowWrite
  import opened RowInvariant
  import opened Convergence

  function Received(ds: seq<Delivery>): set<Change> {
    if ds == [] then {} else Received(ds[..|ds| - 1]) + AsSet(ds[|ds| - 1].changes)
  }

  ghost predicate WellRun(env: Env, ds: seq<Delivery>) {
    forall i | 0 <= i < |ds| :: WellDelivered(env, ds[i])
  }

  /** The replica that started empty and applied the deliveries in order. */
  ghost function StateAfter(env: Env, ds: seq<Delivery>): Rows
    requires WellRun(env, ds)
  {
    if ds == [] then map[] else Next(env, StateAfter(env, ds[..|ds| - 1]), ds[|ds| - 1])
  }

  lemma EmptyInv(env: Env)
    ensures Inv(env, {}, map[])
  {
    hide Rank;
  }

  /** Every reachable replica satisfies the invariant of what it received. */
  lemma {:induction false} RunInvariant(env: Env, ds: seq<Delivery>)
    requires WellRun(env, ds) && Coherent(env, Received(ds))
    ensures Inv(env, Received(ds), StateAfter(env, ds))
  {
    hide Inv, Coherent, WellDelivered, Next;
    if ds == [] {
      EmptyInv(env);
    } else {
      var front, last := ds[..|ds| - 1], ds[|ds| - 1];
      CoherentSubset(env, Received(front), AsSet(last.changes));
      RunInvariant(env, front);
      StepKeepsInv(env, Received(front), StateAfter(env, front), last);
    }
  }

  /**
   * A row exists exactly when some received change to it is strictly newer
   * than every received tombstone of it.
   */
  lemma RowExistence(env: Env, ds: seq<Delivery>, id: RowId)
    requires WellRun(env, ds) && Coherent(env, Received(ds))
    ensures id in StateAfter(env, ds) <==>
            exists c :: c in Received(ds) && Hits(env, c, id) && OutlivesTombstones(env, Received(ds), id, c)
  {
    hide Rank, Hits, IsTombstone, Coherent, StateAfter, Received, WellRun, OutlivesTombstones, AboveAll, TombsOf;
    RunInvariant(env, ds);
    var recv, rows := Received(ds), StateAfter(env, ds);
    assert RowOk(env, id, HitsOf(env, recv, id), TombsOf(env, recv, id), Lookup(rows, id));
    forall c
      ensures AboveAll(c, TombsOf(env, recv, id)) <==> OutlivesTombstones(env, recv, id, c)
    {
      AboveTombs(env, recv, id, c);
    }
    if id in rows {
      var c :| c in HitsOf(env, recv, id) && AboveAll(c, TombsOf(env, recv, id));
      assert OutlivesTombstones(env, recv, id, c);
    }
    if c :| c in recv && Hits(env, c, id) && OutlivesTombstones(env, recv, id, c) {
      assert c in HitsOf(env, recv, id) && AboveAll(c, TombsOf(env, recv, id));
    }
  }

  /** Strictly newer than every received tombstone of the row. */
  predicate OutlivesTombstones(env: Env, recv: set<Change>, id: RowId, c: Change) {
    forall p | p in recv && IsTombstone(env, recv, p, id) :: Rank(c.hlc) > Rank(p.hlc)
  }

  lemma AboveTombs(env: Env, recv: set<Change>, id: RowId, c: Change)
    ensures AboveAll(c, TombsOf(env, recv, id)) <==> OutlivesTombstones(env, recv, id, c)
  {
    hide Rank, IsTombstone;
    if AboveAll(c, TombsOf(env, recv, id)) {
      forall p | p in recv && IsTombstone(env, recv, p, id)
        ensures Rank(c.hlc) > Rank(p.hlc)
      {
        assert Rank(p.hlc) in TombsOf(env, recv, id);
      }
    }
  }

  /** Existence does not depend on order, batching or repetition. */
  lemma SameRowsEverywhere(env: Env, a: seq<Delivery>, b: seq<Delivery>)
    requires WellRun(env, a) && WellRun(env, b) && Received(a) == Received(b) && Coherent(env, Received(a))
    ensures StateAfter(env, a).Keys == StateAfter(env, b).Keys
  {
    hide Rank, Hits, IsTombstone, Coherent, StateAfter, Received, WellRun;
    forall id
      ensures id in StateAfter(env, a) <==> id in StateAfter(env, b)
    {
      RowExistence(env, a, id);
      RowExistence(env, b, id);
    }
  }

  /** The newest change received for a column of a row. */
  predicate Newest(env: Env, recv: set<Change>, id: RowId, c: Change) {
    && c in HitsOf(env, recv, id)
    && forall o | o in HitsOf(env, recv, id) && o.column == c.column :: Rank(o.hlc) <= Rank(c.hlc)
  }

  /** A column whose newest change is above every tombstone holds that change: value, HLC and signature. */
  lemma ColumnConvergence(env: Env, ds: seq<Delivery>, id: RowId, c: Change)
    requires WellRun(env, ds) && Coherent(env, Received(ds))
    requires Newest(env, Received(ds), id, c) && AboveAll(c, TombsOf(env, Received(ds), id))
    ensures id in StateAfter(env, ds) && FromChange(env, id, StateAfter(env, ds)[id], c.column, c)
  {
    hide Rank, HasSigs, Decoded, Hits, StateAfter, Received, WellRun, TombsOf;
    RunInvariant(env, ds);
    var recv, rows := Received(ds), StateAfter(env, ds);
    assert RowOk(env, id, HitsOf(env, recv, id), TombsOf(env, recv, id), Lookup(rows, id));
    var row := rows[id];
    assert Covers(row, c);
    var o :| o in HitsOf(env, recv, id) && FromChange(env, id, row, c.column, o);
    assert Rank(o.hlc) == Rank(c.hlc);
    SameMoment(env, recv, id, o, c);
  }

  lemma SameMoment(env: Env, recv: set<Change>, id: RowId, a: Change, b: Change)
    requires Coherent(env, recv) && a in HitsOf(env, recv, id) && b in HitsOf(env, recv, id)
    requires a.column == b.column && Rank(a.hlc) == Rank(b.hlc)
    ensures a.hlc == b.hlc && Decoded(env, a) == Decoded(env, b) && a.sig == b.sig
  {
    hide Rank, ToSql, LogCoherent, Vetted;
  }

  /** Each cell of a reachable row stems from one received change; the row HLC is the newest of all. */
  lemma ReachableRows(env: Env, ds: seq<Delivery>, id: RowId)
    requires WellRun(env, ds) && Coherent(env, Received(ds)) && id in StateAfter(env, ds)
    ensures Provenance(env, id, HitsOf(env, Received(ds), id), StateAfter(env, ds)[id])
    ensures RowHlcIsMax(HitsOf(env, Received(ds), id), StateAfter(env, ds)[id])
  {
    hide Rank, HasSigs, Decoded, Hits, StateAfter, Received, WellRun, TombsOf, Provenance, RowHlcIsMax;
    RunInvariant(env, ds);
    assert RowOk(env, id, HitsOf(env, Received(ds), id), TombsOf(env, Received(ds), id), Lookup(StateAfter(env, ds), id));
  }

  /** The same cells throughout, and row HLCs that compare equal though they may be spelled differently. */
  predicate AgreeUpToSpelling(x: Row, y: Row) {
    && x.values == y.values && x.hlcs == y.hlcs && x.sigs == y.sigs
    && x.hlc.Some? && y.hlc.Some? && Rank(x.hlc.value) == Rank(y.hlc.value)
  }

  /**
   * Without tombstones the replica is a function of the set of received
   * changes: the same rows, the same cells, and row HLCs of the same rank.
   */
  lemma TombstoneFreeConvergence(env: Env, a: seq<Delivery>, b: seq<Delivery>)
    requires WellRun(env, a) && WellRun(env, b) && Received(a) == Received(b) && Coherent(env, Received(a))
    requires forall id :: TombsOf(env, Received(a), id) == {}
    ensures StateAfter(env, a).Keys == StateAfter(env, b).Keys
    ensures forall id | id in StateAfter(env, a) :: AgreeUpToSpelling(StateAfter(env, a)[id], StateAfter(env, b)[id])
  {
    hide Rank, Hits, TombsOf, Coherent, StateAfter, Received, WellRun, AgreeUpToSpelling;
    SameRowsEverywhere(env, a, b);
    forall id | id in StateAfter(env, a)
      ensures AgreeUpToSpelling(StateAfter(env, a)[id], StateAfter(env, b)[id])
    {
      TombstoneFreeRow(env, a, b, id);
    }
  }

  /** Timestamps that compare equal are spelled equal. */
  predicate CanonicalHlcs(recv: set<Change>) {
    forall a, b | a in recv && b in recv && Rank(a.hlc) == Rank(b.hlc) :: a.hlc == b.hlc
  }

  /** Where one timestamp has one spelling, the replicas are equal. */
  lemma TombstoneFreeEquality(env: Env, a: seq<Delivery>, b: seq<Delivery>)
    requires WellRun(env, a) && WellRun(env, b) && Received(a) == Received(b) && Coherent(env, Received(a))
    requires CanonicalHlcs(Received(a)) && forall id :: TombsOf(env, Received(a), id) == {}
    ensures StateAfter(env, a) == StateAfter(env, b)
  {
    hide Rank, Hits, TombsOf, Coherent, StateAfter, Received, WellRun, CanonicalHlcs, Provenance, RowHlcIsMax;
    TombstoneFreeConvergence(env, a, b);
    forall id | id in StateAfter(env, a)
      ensures StateAfter(env, a)[id] == StateAfter(env, b)[id]
    {
      ReachableRows(env, a, id);
      ReachableRows(env, b, id);
      SameMaximum(env, id, Received(a), StateAfter(env, a)[id], StateAfter(env, b)[id]);
    }
  }

  /** A row that no received tombstone targets, whatever happens to others. */
  lemma TombstoneFreeRow(env: Env, a: seq<Delivery>, b: seq<Delivery>, id: RowId)
    requires WellRun(env, a) && WellRun(env, b) && Received(a) == Received(b) && Coherent(env, Received(a))
    requires TombsOf(env, Received(a), id) == {}
    requires id in StateAfter(env, a) && id in StateAfter(env, b)
    ensures AgreeUpToSpelling(StateAfter(env, a)[id], StateAfter(env, b)[id])
  {
    hide Rank, Hits, TombsOf, Coherent, StateAfter, Received, WellRun, FromChange, Provenance, RowHlcIsMax;
    var x, y := StateAfter(env, a)[id], StateAfter(env, b)[id];
    ReachableRows(env, a, id);
    ReachableRows(env, b, id);
    forall column
      ensures SameCell(x, y, column)
    {
      if column in x.hlcs || column in y.hlcs {
        var c := NewestOf(env, Received(a), id, column, if column in x.hlcs then x else y);
        ColumnConvergence(env, a, id, c);
        ColumnConvergence(env, b, id, c);
        TwoFromOne(env, id, x, y, column, c);
      } else {
        NoCell(env, id, Received(a), x, column);
        NoCell(env, id, Received(a), y, column);
      }
    }
    SameCellsSameMaps(x, y);
    SameHighest(HitsOf(env, Received(a), id), x, y);
  }

  lemma SameHighest(hits: set<Change>, x: Row, y: Row)
    requires x.hlcs == y.hlcs && RowHlcIsMax(hits, x) && RowHlcIsMax(hits, y)
    ensures x.hlc.Some? && y.hlc.Some? && Rank(x.hlc.value) == Rank(y.hlc.value)
  {
    hide Rank;
  }

  lemma TwoFromOne(env: Env, id: RowId, x: Row, y: Row, column: string, c: Change)
    requires FromChange(env, id, x, column, c) && FromChange(env, id, y, column, c)
    ensures SameCell(x, y, column)
  {
    hide HasSigs, Decoded;
  }

  lemma NoCell(env: Env, id: RowId, recv: set<Change>, x: Row, column: string)
    requires Provenance(env, id, HitsOf(env, recv, id), x) && column !in x.hlcs
    ensures CellOf(x.hlcs, column) == None && CellOf(x.values, column) == None && CellOf(x.sigs, column) == None
  {
    hide FromChange;
  }

  lemma SameCellsSameMaps(x: Row, y: Row)
    requires forall column :: SameCell(x, y, column)
    ensures x.hlcs == y.hlcs && x.values == y.values && x.sigs == y.sigs
  {
    forall column
      ensures column in x.hlcs <==> column in y.hlcs
      ensures column in x.values <==> column in y.values
      ensures column in x.sigs <==> column in y.sigs
      ensures column in x.hlcs ==> x.hlcs[column] == y.hlcs[column]
      ensures column in x.values ==> x.values[column] == y.values[column]
      ensures column in x.sigs ==> x.sigs[column] == y.sigs[column]
    {
      assert SameCell(x, y, column);
    }
  }

  lemma SameMaximum(env: Env, id: RowId, recv: set<Change>, x: Row, y: Row)
    requires CanonicalHlcs(recv) && x.hlcs == y.hlcs
    requires RowHlcIsMax(HitsOf(env, recv, id), x) && RowHlcIsMax(HitsOf(env, recv, id), y)
    requires Provenance(env, id, HitsOf(env, recv, id), x)
    ensures x.hlc == y.hlc
  {
    hide Rank, Hits, HasSigs, Decoded;
    var p :| p in x.hlcs && x.hlcs[p] == x.hlc.value;
    var q :| q in y.hlcs && y.hlcs[q] == y.hlc.value;
    var c :| c in HitsOf(env, recv, id) && FromChange(env, id, x, p, c);
    var d :| d in HitsOf(env, recv, id) && FromChange(env, id, x, q, d);
    assert Rank(c.hlc) == Rank(d.hlc);
  }

  /** A stored column has a newest received change. */
  lemma NewestOf(env: Env, recv: set<Change>, id: RowId, column: string, x: Row) returns (c: Change)
    requires column in x.hlcs && Provenance(env, id, HitsOf(env, recv, id), x)
    ensures Newest(env, recv, id, c) && c.column == column
  {
    hide Rank, Hits, HasSigs, Decoded;
    var o :| o in HitsOf(env, recv, id) && FromChange(env, id, x, column, o);
    c := NewestFrom(env, recv, id, o);
  }

  lemma NewestFrom(env: Env, recv: set<Change>, id: RowId, o: Change) returns (c: Change)
    requires o in HitsOf(env, recv, id)
    ensures Newest(env, recv, id, c) && c.column == o.column && Rank(c.hlc) >= Rank(o.hlc)
  {
    hide Rank, Hits;
    var todo := HitsOf(env, recv, id);
    c := o;
    while todo != {}
      invariant todo <= HitsOf(env, recv, id)
      invariant c in HitsOf(env, recv, id) && c.column == o.column && Rank(c.hlc) >= Rank(o.hlc)
      invariant forall x | x in HitsOf(env, recv, id) - todo && x.column == o.column :: Rank(x.hlc) <= Rank(c.hlc)
      decreases |todo|
    {
      var x :| x in todo;
      todo := todo - {x};
      if x.column == o.column && Rank(x.hlc) > Rank(c.hlc) {
        c := x;
      }
    }
  }
}
