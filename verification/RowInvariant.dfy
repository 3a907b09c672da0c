/** What one row owes to the changes and tombstones received for it, group by group. */
module RowInvariant {
  import opened Common
  import opened Hlc
  import opened Values
  import opened Model
  import opened Selection
  import opened RowWrite
  import opened Deletes
  import opened RowMerge

  function Decoded(env: Env, c: Change): SqlValue {
    ToSql(env.render, c.value).GetOr(Null)
  }

  /** Value, HLC and signature of the cell all are those of the one change `c`. */
  predicate FromChange(env: Env, id: RowId, row: Row, column: string, c: Change) {
    && c.column == column
    && CellOf(row.hlcs, column) == Some(c.hlc)
    && CellOf(row.values, column) == Some(Decoded(env, c))
    && CellOf(row.sigs, column) == if HasSigs(env, id.table) then c.sig else None
  }

  predicate AboveAll(c: Change, tombs: set<nat>) {
    forall d | d in tombs :: Rank(c.hlc) > d
  }

  /** Some received change is strictly newer than every received tombstone. */
  predicate Alive(hits: set<Change>, tombs: set<nat>) {
    exists c :: c in hits && AboveAll(c, tombs)
  }

  /** Every stored cell stems from one received change. */
  predicate Provenance(env: Env, id: RowId, hits: set<Change>, row: Row) {
    && row.values.Keys == row.hlcs.Keys
    && row.sigs.Keys <= row.hlcs.Keys
    && forall column | column in row.hlcs :: exists c :: c in hits && FromChange(env, id, row, column, c)
  }

  /** The row HLC is the maximum of the column HLCs and of everything received. */
  predicate RowHlcIsMax(hits: set<Change>, row: Row) {
    && row.hlc.Some?
    && (exists column :: column in row.hlcs && row.hlcs[column] == row.hlc.value)
    && (forall column | column in row.hlcs :: Rank(row.hlcs[column]) <= Rank(row.hlc.value))
    && (forall c | c in hits :: Rank(c.hlc) <= Rank(row.hlc.value))
  }

  predicate Covers(row: Row, c: Change) {
    c.column in row.hlcs && Rank(row.hlcs[c.column]) >= Rank(c.hlc)
  }

  /** The invariant of one row: `hits` and `tombs` are what was received for it so far. */
  predicate RowOk(env: Env, id: RowId, hits: set<Change>, tombs: set<nat>, row: Option<Row>) {
    && (row.Some? <==> Alive(hits, tombs))
    && (row.Some? ==>
          && Provenance(env, id, hits, row.value)
          && RowHlcIsMax(hits, row.value)
          && forall c | c in hits && AboveAll(c, tombs) :: Covers(row.value, c))
  }

  function GroupHits(env: Env, group: seq<Indexed>, id: RowId): set<Change> {
    set x | x in group && Hits(env, x.change, id) :: x.change
  }

  /** The group names row `id`. */
  predicate Names(env: Env, group: seq<Indexed>, id: RowId)
    requires group != []
  {
    group[0].change.table == id.table && Identify(env, id.table, group[0].change.pks) == Known(id.key)
  }

  function GroupCands(env: Env, group: seq<Indexed>, id: RowId): seq<Cand> {
    SigCands(env, Eligibles(Columns(env, id.table), group))
  }

  /** The complete candidates of a group are exactly its hits. */
  lemma CandsAreHits(env: Env, group: seq<Indexed>, id: RowId)
    requires Uniform(group) && Names(env, group, id)
    ensures forall k | k in GroupCands(env, group, id) && IsComplete(k.change.hlc) ::
              k.change in GroupHits(env, group, id) && k.value == Decoded(env, k.change) && k.signature == Replace(k.change.sig)
    ensures forall c | c in GroupHits(env, group, id) :: IsComplete(c.hlc) && exists i :: IsCandOf(GroupCands(env, group, id), i, c)
  {
    hide IsComplete, Identify, Classify, ToSql;
    var columns := Columns(env, id.table);
    EligiblesMembers(columns, group, |group|);
    var items, cands := Eligibles(columns, group), GroupCands(env, group, id);
    forall c | c in GroupHits(env, group, id)
      ensures exists i :: IsCandOf(cands, i, c)
    {
      var x :| x in group && Hits(env, x.change, id) && x.change == c;
      var i :| 0 <= i < |items| && items[i] == x;
      assert IsCandOf(cands, i, c);
    }
  }

  predicate IsCandOf(cands: seq<Cand>, i: int, c: Change) {
    0 <= i < |cands| && cands[i].change == c
  }

  /** What the winners of a group do to a column: they are hits, and they beat every other hit. */
  lemma WinnersBeatHits(env: Env, group: seq<Indexed>, id: RowId, hlcs: map<string, string>)
    requires Uniform(group) && Names(env, group, id)
    ensures var staged := Winners(GroupCands(env, group, id), hlcs);
      && DistinctColumns(staged)
      && (forall i | 0 <= i < |staged| :: StagedHit(env, group, id, hlcs, staged[i]))
      && (forall c | c in GroupHits(env, group, id) && Rank(c.hlc) > Rank(StoredHlc(hlcs, c.column)) :: Beaten(staged, c))
  {
    hide Rank, IsComplete, GroupCands, GroupHits, Identify;
    var cands := GroupCands(env, group, id);
    CandsAreHits(env, group, id);
    WinnersAreTheWinning(cands, hlcs, |cands|);
    DistinctWinners(cands, hlcs);
    forall i | 0 <= i < |Winners(cands, hlcs)|
      ensures StagedHit(env, group, id, hlcs, Winners(cands, hlcs)[i])
    {
      var s := Winners(cands, hlcs)[i];
      assert s in Winners(cands, hlcs);
      var k :| 0 <= k < |cands| && cands[k] == s && Wins(cands, hlcs, k);
      assert s in cands;
    }
    forall c | c in GroupHits(env, group, id) && Rank(c.hlc) > Rank(StoredHlc(hlcs, c.column))
      ensures Beaten(Winners(cands, hlcs), c)
    {
      var j :| IsCandOf(cands, j, c);
      var i := SomeoneWins(cands, hlcs, j);
      assert cands[i] in Winners(cands, hlcs);
    }
  }

  predicate StagedHit(env: Env, group: seq<Indexed>, id: RowId, hlcs: map<string, string>, s: Cand) {
    && s.change in GroupHits(env, group, id)
    && s.value == Decoded(env, s.change)
    && s.signature == Replace(s.change.sig)
    && Rank(s.change.hlc) > Rank(StoredHlc(hlcs, s.change.column))
  }

  predicate Beaten(staged: seq<Cand>, c: Change) {
    exists s :: s in staged && s.change.column == c.column && Rank(s.change.hlc) >= Rank(c.hlc)
  }

  /** The merged row, cell by cell: a staged column is its winner's, the others are as before. */
  lemma MergedCells(env: Env, id: RowId, prior: Option<Row>, staged: seq<Cand>)
    requires staged != [] && DistinctColumns(staged)
    requires forall i | 0 <= i < |staged| :: staged[i].value == Decoded(env, staged[i].change)
               && staged[i].signature == Replace(staged[i].change.sig)
    requires !HasSigs(env, id.table) && prior.Some? ==> prior.value.sigs == map[]
    ensures var row := MergedRow(prior, staged, HasSigs(env, id.table));
      && (forall i | 0 <= i < |staged| :: FromChange(env, id, row, staged[i].change.column, staged[i].change))
      && (forall column | !Stages(staged, column) :: SameCell(prior.GetOr(EMPTY_ROW), row, column))
  {
    hide Decoded, HasSigs, MaxHlc;
    var base := prior.GetOr(EMPTY_ROW);
    PutCells(base.values, base.hlcs, staged);
    PutSigCells(base.sigs, staged);
  }

  predicate SameCell(a: Row, b: Row, column: string) {
    && CellOf(a.hlcs, column) == CellOf(b.hlcs, column)
    && CellOf(a.values, column) == CellOf(b.values, column)
    && CellOf(a.sigs, column) == CellOf(b.sigs, column)
  }

  /** A write keeps every cell traceable to one received change. */
  lemma WriteKeepsProvenance(
      env: Env, id: RowId, hits: set<Change>, more: set<Change>, prior: Option<Row>, staged: seq<Cand>, row: Row)
    requires staged != [] && row == MergedRow(prior, staged, HasSigs(env, id.table))
    requires prior.Some? ==> Provenance(env, id, hits, prior.value)
    requires forall i | 0 <= i < |staged| :: staged[i].change in more
    requires forall i | 0 <= i < |staged| :: FromChange(env, id, row, staged[i].change.column, staged[i].change)
    requires forall column | !Stages(staged, column) :: SameCell(prior.GetOr(EMPTY_ROW), row, column)
    ensures Provenance(env, id, hits + more, row)
  {
    hide MergedRow, HasSigs, Decoded;
    var base := prior.GetOr(EMPTY_ROW);
    forall column
      ensures column in row.values <==> column in row.hlcs
      ensures column in row.sigs ==> column in row.hlcs
      ensures column in row.hlcs ==> exists c :: c in hits + more && FromChange(env, id, row, column, c)
    {
      if Stages(staged, column) {
        var i :| 0 <= i < |staged| && staged[i].change.column == column;
        assert FromChange(env, id, row, column, staged[i].change);
        assert staged[i].change in hits + more;
      } else {
        assert SameCell(base, row, column);
        if column in row.hlcs {
          var c :| c in hits && FromChange(env, id, base, column, c);
          assert FromChange(env, id, row, column, c);
        }
      }
    }
  }

  /** How a row relates to what it was: its winners went in, the rest stayed. */
  ghost predicate Rewritten(prior: Option<Row>, staged: seq<Cand>, row: Row)
    requires staged != []
  {
    && row.hlc == Some(RowHlcAfter(prior, staged))
    && (forall i | 0 <= i < |staged| :: CellOf(row.hlcs, staged[i].change.column) == Some(staged[i].change.hlc))
    && (forall i | 0 <= i < |staged| :: Rank(staged[i].change.hlc) > Rank(StoredHlc(PriorHlcs(prior), staged[i].change.column)))
    && (forall column | !Stages(staged, column) :: CellOf(row.hlcs, column) == CellOf(PriorHlcs(prior), column))
  }

  /** No column HLC ever goes back. */
  lemma ColumnsNeverGoBack(prior: Option<Row>, staged: seq<Cand>, row: Row, column: string)
    requires staged != [] && Rewritten(prior, staged, row) && column in PriorHlcs(prior)
    ensures column in row.hlcs && Rank(row.hlcs[column]) >= Rank(PriorHlcs(prior)[column])
  {
    hide Rank, RowHlcAfter;
    if Stages(staged, column) {
      var i :| 0 <= i < |staged| && staged[i].change.column == column;
      assert CellOf(row.hlcs, staged[i].change.column) == Some(staged[i].change.hlc);
    }
  }

  /** The row HLC after a write bounds what was there and what was staged. */
  lemma RowHlcBounds(prior: Option<Row>, staged: seq<Cand>)
    requires staged != []
    ensures forall i | 0 <= i < |staged| :: Rank(staged[i].change.hlc) <= Rank(RowHlcAfter(prior, staged))
    ensures prior.Some? && prior.value.hlc.Some? ==> Rank(prior.value.hlc.value) <= Rank(RowHlcAfter(prior, staged))
  {
    hide Rank, MaxHlc;
    var at := MaxHlcIsMaximal(staged);
  }

  lemma RowHlcAttained(prior: Option<Row>, staged: seq<Cand>, row: Row)
    requires staged != [] && Rewritten(prior, staged, row)
    requires prior.Some? ==> RowHlcIsMax({}, prior.value)
    ensures exists column :: column in row.hlcs && row.hlcs[column] == row.hlc.value
  {
    hide Rank, MaxHlc;
    var at := MaxHlcIsMaximal(staged);
    if row.hlc.value == MaxHlc(staged) {
      assert CellOf(row.hlcs, staged[at].change.column) == Some(staged[at].change.hlc);
    } else {
      var column :| column in prior.value.hlcs && prior.value.hlcs[column] == prior.value.hlc.value;
      assert !Stages(staged, column);
      assert CellOf(row.hlcs, column) == CellOf(PriorHlcs(prior), column);
    }
  }

  /** A write keeps the row HLC the maximum, and covers every hit of the group. */
  lemma WriteKeepsRowHlc(hits: set<Change>, more: set<Change>, prior: Option<Row>, staged: seq<Cand>, row: Row)
    requires staged != [] && Rewritten(prior, staged, row)
    requires prior.Some? ==> RowHlcIsMax(hits, prior.value)
    requires prior.None? ==> forall c | c in hits :: Rank(c.hlc) <= Rank(MaxHlc(staged))
    requires forall c | c in more :: Rank(c.hlc) > 0
    requires forall c | c in more && Rank(c.hlc) > Rank(StoredHlc(PriorHlcs(prior), c.column)) :: Beaten(staged, c)
    ensures RowHlcIsMax(hits + more, row)
    ensures forall c | c in more :: Covers(row, c)
  {
    hide Rank, MaxHlc, RowHlcAfter;
    EmptyRank();
    RowHlcBounds(prior, staged);
    RowHlcAttained(prior, staged, row);
    forall column | column in row.hlcs
      ensures Rank(row.hlcs[column]) <= Rank(row.hlc.value)
    {
      if Stages(staged, column) {
        var i :| 0 <= i < |staged| && staged[i].change.column == column;
        assert CellOf(row.hlcs, staged[i].change.column) == Some(staged[i].change.hlc);
      } else {
        assert CellOf(row.hlcs, column) == CellOf(PriorHlcs(prior), column);
      }
    }
    forall c | c in more
      ensures Covers(row, c)
    {
      HitCovered(prior, staged, row, c);
    }
    forall c | c in hits
      ensures Rank(c.hlc) <= Rank(row.hlc.value)
    {
      if prior.None? {
        NewRowHlc(staged);
      }
    }
  }

  lemma NewRowHlc(staged: seq<Cand>)
    requires staged != []
    ensures RowHlcAfter(None, staged) == MaxHlc(staged)
  {
  }

  lemma HitCovered(prior: Option<Row>, staged: seq<Cand>, row: Row, c: Change)
    requires staged != [] && Rewritten(prior, staged, row) && Rank(c.hlc) > 0
    requires Rank(c.hlc) > Rank(StoredHlc(PriorHlcs(prior), c.column)) ==> Beaten(staged, c)
    ensures Covers(row, c)
  {
    hide Rank, RowHlcAfter;
    EmptyRank();
    if Rank(c.hlc) > Rank(StoredHlc(PriorHlcs(prior), c.column)) {
      var s :| s in staged && s.change.column == c.column && Rank(s.change.hlc) >= Rank(c.hlc);
      var i :| 0 <= i < |staged| && staged[i] == s;
      assert CellOf(row.hlcs, staged[i].change.column) == Some(staged[i].change.hlc);
    } else {
      ColumnsNeverGoBack(prior, staged, row, c.column);
    }
  }

  /** The stored tombstones of the row have exactly the ranks `tombs`, as far as shadowing can tell. */
  ghost predicate TombsAre(env: Env, rows0: Rows, id: RowId, tombs: set<nat>) {
    && (forall l | TombstoneFor(env, rows0, l, id).Some? :: Rank(TombstoneFor(env, rows0, l, id).value) in tombs)
    && (forall d | d in tombs :: exists l :: TombstoneFor(env, rows0, l, id).Some? && Rank(TombstoneFor(env, rows0, l, id).value) == d)
  }

  lemma ShadowedMeans(env: Env, rows0: Rows, id: RowId, tombs: set<nat>, h: string)
    requires TombsAre(env, rows0, id, tombs)
    ensures Shadowed(env, rows0, id, h) <==> exists d :: d in tombs && Rank(h) <= d
  {
    hide Rank, TombstoneFor;
    if d :| d in tombs && Rank(h) <= d {
      var l :| TombstoneFor(env, rows0, l, id).Some? && Rank(TombstoneFor(env, rows0, l, id).value) == d;
    }
  }

  /** All the group's hits are real timestamps. */
  predicate HitsParsed(env: Env, group: seq<Indexed>, id: RowId) {
    forall c | c in GroupHits(env, group, id) :: Rank(c.hlc) > 0
  }

  /** The three ways a group can go leave the row's invariant intact. */
  lemma GroupKeepsRow(
      env: Env, rows0: Rows, rows: Rows, group: seq<Indexed>, id: RowId, hits: set<Change>, tombs: set<nat>)
    requires Uniform(group) && Names(env, group, id) && HitsParsed(env, group, id)
    requires TombsAre(env, rows0, id, tombs)
    requires RowOk(env, id, hits, tombs, Lookup(rows, id))
    ensures RowOk(env, id, hits + GroupHits(env, group, id), tombs, Lookup(GroupEffect(env, rows0, rows, group), id))
  {
    hide Rank, IsComplete, Identify, GroupCands, GroupHits, Provenance, RowHlcIsMax, Winners, MergedRow, TombsAre, Covers,
         Shadowed, AboveAll;
    var prior := Lookup(rows, id);
    var hlcs := PriorHlcs(prior);
    var staged := Winners(GroupCands(env, group, id), hlcs);
    WinnersBeatHits(env, group, id, hlcs);
    assert GroupWrites(env, rows0, rows, group) == Written(env, rows0, rows, id, GroupCands(env, group, id)) by {
      hide Written;
      GroupCandsAre(env, group, id);
    }
    if staged == [] {
      NothingStaged(env, id, hits, GroupHits(env, group, id), tombs, prior);
    } else if id !in rows && Shadowed(env, rows0, id, MaxHlc(staged)) {
      ShadowedMeans(env, rows0, id, tombs, MaxHlc(staged));
      var d :| d in tombs && Rank(MaxHlc(staged)) <= d;
      InsertSuppressedKeeps(env, id, hits, GroupHits(env, group, id), tombs, staged, d);
    } else {
      if id !in rows {
        ShadowedMeans(env, rows0, id, tombs, MaxHlc(staged));
      }
      WriteKeepsRow(env, id, hits, group, tombs, prior, staged);
    }
  }

  lemma GroupCandsAre(env: Env, group: seq<Indexed>, id: RowId)
    requires Uniform(group) && Names(env, group, id)
    ensures GroupCands(env, group, id) == SigCands(env, Eligibles(Columns(env, group[0].change.table), group))
  {
  }

  /** The row after its group: as before, or rewritten with the winners. */
  lemma RowAfterGroup(env: Env, rows0: Rows, rows: Rows, group: seq<Indexed>, id: RowId)
    requires Uniform(group) && Names(env, group, id)
    ensures var prior := Lookup(rows, id); var after := Lookup(GroupEffect(env, rows0, rows, group), id);
            var staged := Winners(GroupCands(env, group, id), PriorHlcs(prior));
            if staged != [] && after.Some? then after == Some(MergedRow(prior, staged, HasSigs(env, id.table))) else after == prior
  {
    hide Rank, Identify, Winners, HasSigs, MaxHlc, Shadowed, MergedRow;
    GroupCandsAre(env, group, id);
  }

  lemma NothingStaged(env: Env, id: RowId, hits: set<Change>, more: set<Change>, tombs: set<nat>, prior: Option<Row>)
    requires RowOk(env, id, hits, tombs, prior)
    requires forall c | c in more :: Rank(c.hlc) > 0
    requires forall c | c in more :: Rank(c.hlc) <= Rank(StoredHlc(PriorHlcs(prior), c.column))
    ensures RowOk(env, id, hits + more, tombs, prior)
  {
    hide Rank, FromChange, AboveAll;
    EmptyRank();
    if prior.None? {
      assert more == {};
      assert hits + more == hits;
    } else {
      var c :| c in hits && AboveAll(c, tombs);
      assert c in hits + more;
      MoreHitsSameCells(env, id, hits, more, prior.value);
    }
  }

  lemma MoreHitsSameCells(env: Env, id: RowId, hits: set<Change>, more: set<Change>, row: Row)
    requires Provenance(env, id, hits, row)
    ensures Provenance(env, id, hits + more, row)
  {
    hide FromChange;
    forall column | column in row.hlcs
      ensures exists c :: c in hits + more && FromChange(env, id, row, column, c)
    {
      var c :| c in hits && FromChange(env, id, row, column, c);
      assert c in hits + more;
    }
  }

  lemma InsertSuppressedKeeps(
      env: Env, id: RowId, hits: set<Change>, more: set<Change>, tombs: set<nat>, staged: seq<Cand>, d: nat)
    requires staged != [] && RowOk(env, id, hits, tombs, None)
    requires forall c | c in more :: Rank(c.hlc) > 0
    requires forall c | c in more && Rank(c.hlc) > Rank(StoredHlc(map[], c.column)) :: Beaten(staged, c)
    requires d in tombs && Rank(MaxHlc(staged)) <= d
    ensures RowOk(env, id, hits + more, tombs, None)
  {
    hide Rank, MaxHlc;
    EmptyRank();
    var at := MaxHlcIsMaximal(staged);
    forall c | c in hits + more
      ensures !AboveAll(c, tombs)
    {
      if c in more {
        var s :| s in staged && s.change.column == c.column && Rank(s.change.hlc) >= Rank(c.hlc);
        var i :| 0 <= i < |staged| && staged[i] == s;
        assert Rank(c.hlc) <= d;
      }
    }
  }

  lemma WriteKeepsRow(
      env: Env, id: RowId, hits: set<Change>, group: seq<Indexed>, tombs: set<nat>, prior: Option<Row>, staged: seq<Cand>)
    requires staged != [] && DistinctColumns(staged) && RowOk(env, id, hits, tombs, prior)
    requires HitsParsed(env, group, id)
    requires forall i | 0 <= i < |staged| :: StagedHit(env, group, id, PriorHlcs(prior), staged[i])
    requires forall c | c in GroupHits(env, group, id) && Rank(c.hlc) > Rank(StoredHlc(PriorHlcs(prior), c.column)) :: Beaten(staged, c)
    requires prior.None? ==> forall d | d in tombs :: Rank(MaxHlc(staged)) > d
    ensures RowOk(env, id, hits + GroupHits(env, group, id), tombs, Some(MergedRow(prior, staged, HasSigs(env, id.table))))
  {
    hide Rank, MergedRow, GroupHits, HasSigs, Decoded, Beaten, Provenance, RowHlcIsMax, Covers, FromChange, SameCell, MaxHlc;
    var more := GroupHits(env, group, id);
    var row := MergedRow(prior, staged, HasSigs(env, id.table));
    NoSigsWithoutColumn(env, id, hits, prior);
    MergedCells(env, id, prior, staged);
    MergedIsRewritten(env, id, group, prior, staged);
    WriteKeepsProvenance(env, id, hits, more, prior, staged, row);
    var at := MaxHlcIsMaximal(staged);
    if prior.None? {
      BelowTombsBelowNew(hits, tombs, MaxHlc(staged));
      assert staged[at].change in hits + more && AboveAll(staged[at].change, tombs);
    } else {
      var c :| c in hits && AboveAll(c, tombs);
      assert c in hits + more;
    }
    WriteKeepsRowHlc(hits, more, prior, staged, row);
    forall c | c in hits + more && AboveAll(c, tombs)
      ensures Covers(row, c)
    {
      if c !in more {
        OldHitStaysCovered(hits, tombs, prior, staged, row, c);
      }
    }
  }

  lemma NoSigsWithoutColumn(env: Env, id: RowId, hits: set<Change>, prior: Option<Row>)
    requires prior.Some? ==> Provenance(env, id, hits, prior.value)
    ensures !HasSigs(env, id.table) && prior.Some? ==> prior.value.sigs == map[]
  {
    hide HasSigs, Decoded;
    if !HasSigs(env, id.table) && prior.Some? {
      assert forall column :: column in prior.value.sigs ==> CellOf(prior.value.sigs, column) != None;
    }
  }

  lemma MergedIsRewritten(env: Env, id: RowId, group: seq<Indexed>, prior: Option<Row>, staged: seq<Cand>)
    requires staged != []
    requires forall i | 0 <= i < |staged| :: StagedHit(env, group, id, PriorHlcs(prior), staged[i])
    requires var row := MergedRow(prior, staged, HasSigs(env, id.table));
             && (forall i | 0 <= i < |staged| :: FromChange(env, id, row, staged[i].change.column, staged[i].change))
             && (forall column | !Stages(staged, column) :: SameCell(prior.GetOr(EMPTY_ROW), row, column))
    ensures Rewritten(prior, staged, MergedRow(prior, staged, HasSigs(env, id.table)))
  {
    hide Rank, GroupHits, HasSigs, Decoded, RowHlcAfter, PutValues, PutHlcs, PutSigs, Stages;
    var row := MergedRow(prior, staged, HasSigs(env, id.table));
    forall column | !Stages(staged, column)
      ensures CellOf(row.hlcs, column) == CellOf(PriorHlcs(prior), column)
    {
      assert SameCell(prior.GetOr(EMPTY_ROW), row, column);
    }
  }

  lemma BelowTombsBelowNew(hits: set<Change>, tombs: set<nat>, newest: string)
    requires !Alive(hits, tombs) && forall d | d in tombs :: Rank(newest) > d
    ensures forall c | c in hits :: Rank(c.hlc) <= Rank(newest)
  {
    hide Rank;
  }

  lemma OldHitStaysCovered(
      hits: set<Change>, tombs: set<nat>, prior: Option<Row>, staged: seq<Cand>, row: Row, c: Change)
    requires staged != [] && Rewritten(prior, staged, row) && c in hits && AboveAll(c, tombs)
    requires prior.Some? <==> Alive(hits, tombs)
    requires prior.Some? ==> Covers(prior.value, c)
    ensures Covers(row, c)
  {
    hide Rank, RowHlcAfter, Rewritten;
    ColumnsNeverGoBack(prior, staged, row, c.column);
  }
}
