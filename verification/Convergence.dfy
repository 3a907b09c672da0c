/** The invariant of a whole replica over any run of accepted batches. */
module Convergence {
  import opened Common
  import opened Hlc
  import opened Values
  import opened Model
  import opened RowWrite
  import opened Deletes
  import opened RowMerge
  import opened ApplyBatch
  import opened RowInvariant

  function HitsOf(env: Env, recv: set<Change>, id: RowId): set<Change> {
    set c | c in recv && Hits(env, c, id)
  }

  /** A complete change to the delete-log row `l`. */
  predicate LogHit(env: Env, c: Change, l: RowId) {
    l.table == LOG_TABLE && Hits(env, c, l)
  }

  /** Together `p` and `t` say that the delete-log row `l` deletes `id`. */
  predicate Declares(env: Env, p: Change, t: Change, l: RowId, id: RowId) {
    && LogHit(env, p, l) && p.column == LOG_TARGET_PKS
    && LogHit(env, t, l) && t.column == LOG_TARGET_TABLE
    && Decoded(env, t) == Text(id.table)
    && Decoded(env, p).Text? && env.parsePks(Decoded(env, p).s) == Some(id.key)
  }

  predicate IsTombstone(env: Env, recv: set<Change>, p: Change, id: RowId) {
    && p in recv
    && Identify(env, p.table, p.pks).Known?
    && exists t :: t in recv && Declares(env, p, t, RowId(p.table, Identify(env, p.table, p.pks).key), id)
  }

  /** The ranks of the tombstones received for `id`. */
  function TombsOf(env: Env, recv: set<Change>, id: RowId): set<nat> {
    set p | p in recv && IsTombstone(env, recv, p, id) :: Rank(p.hlc)
  }

  /** One (row, column, HLC) identifies one change. */
  ghost predicate Unambiguous(env: Env, recv: set<Change>) {
    forall a, b, id | a in recv && b in recv && Hits(env, a, id) && Hits(env, b, id) && a.column == b.column
                      && Rank(a.hlc) == Rank(b.hlc) :: a.hlc == b.hlc && a.value == b.value && a.sig == b.sig
  }

  /** One delete-log row is one delete: text fields, one HLC, an id of its own, and a target outside the log. */
  ghost predicate LogCoherent(env: Env, recv: set<Change>) {
    && (forall a, b, l | a in recv && b in recv && LogHit(env, a, l) && LogHit(env, b, l) :: a.hlc == b.hlc)
    && (forall a, l | a in recv && LogHit(env, a, l) :: (exists s :: l == LogRow(s)) && Decoded(env, a) != Text(LOG_TABLE)
                                                        && Decoded(env, a).Text?)
  }

  /** Only acceptable changes are ever received. */
  predicate Vetted(env: Env, recv: set<Change>) {
    forall c | c in recv :: SafeIdentifier(env, c.table) && (IsComplete(c.hlc) ==> IsTimestamp(c.hlc))
  }

  ghost predicate Coherent(env: Env, recv: set<Change>) {
    Unambiguous(env, recv) && LogCoherent(env, recv) && Vetted(env, recv)
  }

  /** Every row is what the changes and tombstones received so far make it. */
  ghost predicate Inv(env: Env, recv: set<Change>, rows: Rows) {
    forall id :: RowOk(env, id, HitsOf(env, recv, id), TombsOf(env, recv, id), Lookup(rows, id))
  }

  /** The part of the invariant that concerns the delete log, which no tombstone touches. */
  ghost predicate LogInv(env: Env, recv: set<Change>, rows: Rows) {
    forall l: RowId | l.table == LOG_TABLE :: RowOk(env, l, HitsOf(env, recv, l), {}, Lookup(rows, l))
  }

  lemma NoTombsForLog(env: Env, recv: set<Change>, l: RowId)
    requires LogCoherent(env, recv) && l.table == LOG_TABLE
    ensures TombsOf(env, recv, l) == {}
  {
    hide Rank, Decoded, Hits, Identify;
    forall p | p in recv
      ensures !IsTombstone(env, recv, p, l)
    {
      forall t, k | t in recv
        ensures !Declares(env, p, t, k, l)
      {
        assert LogHit(env, t, k) ==> Decoded(env, t) != Text(LOG_TABLE);
      }
    }
  }

  /** A stored cell of a delete-log row holds what any change to that cell said. */
  lemma LogCell(env: Env, recv: set<Change>, rows: Rows, l: RowId, c: Change)
    requires LogInv(env, recv, rows) && LogCoherent(env, recv) && Unambiguous(env, recv)
    requires c in recv && LogHit(env, c, l)
    ensures l in rows && rows[l].hlc == Some(c.hlc) && CellOf(rows[l].values, c.column) == Some(Decoded(env, c))
  {
    hide Rank, HasSigs, Identify, IsComplete, Eligible, TombsOf;
    var hits := HitsOf(env, recv, l);
    assert c in hits && AboveAll(c, {});
    assert RowOk(env, l, hits, {}, Lookup(rows, l));
    var row := rows[l];
    assert Covers(row, c);
    var c' :| c' in hits && FromChange(env, l, row, c.column, c');
    assert LogHit(env, c', l) && LogHit(env, c, l);
    assert c'.hlc == c.hlc && c'.value == c.value;
    var column :| column in row.hlcs && row.hlcs[column] == row.hlc.value;
    var c'' :| c'' in hits && FromChange(env, l, row, column, c'');
    assert LogHit(env, c'', l);
  }

  /** A received tombstone is stored. */
  lemma TombstoneIsStored(env: Env, recv: set<Change>, rows: Rows, p: Change, t: Change, l: RowId, id: RowId)
    requires LogInv(env, recv, rows) && LogCoherent(env, recv) && Unambiguous(env, recv)
    requires p in recv && t in recv && Declares(env, p, t, l, id)
    ensures TombstoneFor(env, rows, l, id) == Some(p.hlc)
  {
    hide Rank, Decoded, Hits, LogCoherent, Unambiguous, LogInv;
    LogCell(env, recv, rows, l, p);
    LogCell(env, recv, rows, l, t);
  }

  /** A readable delete-log row has both target cells, each from a received change. */
  lemma StoredCells(env: Env, recv: set<Change>, rows: Rows, l: RowId)
    requires LogInv(env, recv, rows) && l in rows && l.table == LOG_TABLE && Readable(rows[l])
    ensures exists c :: c in HitsOf(env, recv, l) && FromChange(env, l, rows[l], LOG_TARGET_PKS, c)
    ensures exists c :: c in HitsOf(env, recv, l) && FromChange(env, l, rows[l], LOG_TARGET_TABLE, c)
  {
    hide Rank, HasSigs, HitsOf, Covers, FromChange, RowHlcIsMax, Alive;
    assert RowOk(env, l, HitsOf(env, recv, l), {}, Lookup(rows, l));
    assert Provenance(env, l, HitsOf(env, recv, l), rows[l]);
  }

  /** A stored tombstone was received. */
  lemma StoredIsReceived(env: Env, recv: set<Change>, rows: Rows, l: RowId, id: RowId)
    requires LogInv(env, recv, rows) && LogCoherent(env, recv) && Unambiguous(env, recv)
    requires TombstoneFor(env, rows, l, id).Some?
    ensures Rank(TombstoneFor(env, rows, l, id).value) in TombsOf(env, recv, id)
  {
    hide Rank, HasSigs, IsComplete, Eligible, Decoded, Unambiguous, LogInv, LogCoherent, Provenance;
    var row, hits := rows[l], HitsOf(env, recv, l);
    StoredCells(env, recv, rows, l);
    var p :| p in hits && FromChange(env, l, row, LOG_TARGET_PKS, p);
    var t :| t in hits && FromChange(env, l, row, LOG_TARGET_TABLE, t);
    assert Declares(env, p, t, l, id);
    LogCell(env, recv, rows, l, p);
    assert IsTombstone(env, recv, p, id);
  }

  /** The stored delete log and the received tombstones agree. */
  lemma LogMatchesReceived(env: Env, recv: set<Change>, rows: Rows, id: RowId)
    requires LogInv(env, recv, rows) && LogCoherent(env, recv) && Unambiguous(env, recv)
    ensures TombsAre(env, rows, id, TombsOf(env, recv, id))
  {
    hide Rank, Hits, LogInv, LogCoherent, Unambiguous, Decoded, TombstoneFor;
    forall l | TombstoneFor(env, rows, l, id).Some?
      ensures Rank(TombstoneFor(env, rows, l, id).value) in TombsOf(env, recv, id)
    {
      StoredIsReceived(env, recv, rows, l, id);
    }
    forall d | d in TombsOf(env, recv, id)
      ensures exists l :: TombstoneFor(env, rows, l, id).Some? && Rank(TombstoneFor(env, rows, l, id).value) == d
    {
      var p :| p in recv && IsTombstone(env, recv, p, id) && Rank(p.hlc) == d;
      var l := RowId(p.table, Identify(env, p.table, p.pks).key);
      var t :| t in recv && Declares(env, p, t, l, id);
      TombstoneIsStored(env, recv, rows, p, t, l, id);
    }
  }

  lemma LogTargetsStayOut(env: Env, recv: set<Change>, rows: Rows)
    requires LogInv(env, recv, rows) && LogCoherent(env, recv) && Unambiguous(env, recv)
    ensures LogTargetsNoLog(env, rows)
  {
    hide Rank, Unambiguous, LogCoherent, TombsOf, LogInv;
    forall l | l in rows && l.table == LOG_TABLE && Deletes.Entry(env, rows[l]).Some?
      ensures Deletes.Entry(env, rows[l]).value.target.table != LOG_TABLE
    {
      var id := Deletes.Entry(env, rows[l]).value.target;
      assert TombstoneFor(env, rows, l, id).Some?;
      StoredIsReceived(env, recv, rows, l, id);
      if id.table == LOG_TABLE {
        NoTombsForLog(env, recv, id);
      }
    }
  }

  /** The hits for `id` in the first `n` groups. */
  function GroupedHits(env: Env, groups: seq<seq<Indexed>>, id: RowId, n: nat): set<Change>
    requires n <= |groups|
  {
    if n == 0 then {} else GroupedHits(env, groups, id, n - 1) + GroupHits(env, groups[n - 1], id)
  }

  function AsSet(changes: seq<Change>): set<Change> {
    set c | c in changes
  }

  lemma {:induction false} GroupedHitsMembers(env: Env, groups: seq<seq<Indexed>>, id: RowId, n: nat)
    requires n <= |groups|
    ensures forall c :: c in GroupedHits(env, groups, id, n) <==> exists i :: 0 <= i < n && c in GroupHits(env, groups[i], id)
  {
    hide GroupHits;
    if n > 0 {
      GroupedHitsMembers(env, groups, id, n - 1);
    }
  }

  /** Grouping hands every hit of the batch to the write loop, and nothing else. */
  lemma GroupedHitsAreHits(env: Env, changes: seq<Change>, groups: seq<seq<Indexed>>, id: RowId)
    requires IsGrouping(changes, groups)
    ensures GroupedHits(env, groups, id, |groups|) == HitsOf(env, AsSet(changes), id)
  {
    hide Hits, Uniform, GroupedHits;
    GroupedHitsMembers(env, groups, id, |groups|);
    forall c
      ensures c in GroupedHits(env, groups, id, |groups|) <==> c in HitsOf(env, AsSet(changes), id)
    {
      if c in GroupedHits(env, groups, id, |groups|) {
        var i :| 0 <= i < |groups| && c in GroupHits(env, groups[i], id);
        var x :| x in groups[i] && Hits(env, x.change, id) && x.change == c;
        assert groups[i] in groups && x in Tagged(changes);
      }
      if c in HitsOf(env, AsSet(changes), id) {
        var n :| 0 <= n < |changes| && changes[n] == c;
        assert Tagged(changes)[n] in Tagged(changes);
        var g :| g in groups && Tagged(changes)[n] in g;
        var i :| 0 <= i < |groups| && groups[i] == g;
        assert c in GroupHits(env, groups[i], id);
      }
    }
  }

  /** A group that names another row, or none, has no hits for this row and leaves it alone. */
  lemma OtherGroup(env: Env, rows0: Rows, rows: Rows, group: seq<Indexed>, id: RowId)
    requires Uniform(group) && !Names(env, group, id)
    ensures GroupHits(env, group, id) == {}
    ensures Lookup(GroupEffect(env, rows0, rows, group), id) == Lookup(rows, id)
  {
    hide Identify, IsComplete, Eligible, GroupWrites, MergedRow;
  }

  lemma HitsOutrankZero(env: Env, recv: set<Change>, id: RowId)
    requires Vetted(env, recv)
    ensures forall c | c in HitsOf(env, recv, id) :: Rank(c.hlc) > 0
  {
    hide Rank, IsTimestamp, IsComplete, SafeIdentifier, Identify, Eligible;
    forall c | c in HitsOf(env, recv, id)
      ensures Rank(c.hlc) > 0
    {
      TimestampsOutrankTheEmpty(c.hlc);
    }
  }

  /** The write loop keeps every row's invariant against the pre-batch tombstones. */
  lemma {:induction false} GroupsKeepRow(
      env: Env, recv: set<Change>, rows0: Rows, changes: seq<Change>, groups: seq<seq<Indexed>>, id: RowId, tombs: set<nat>, n: nat)
    requires IsGrouping(changes, groups) && n <= |groups| && forall i | 0 <= i < |groups| :: groups[i] != []
    requires Vetted(env, AsSet(changes)) && TombsAre(env, rows0, id, tombs)
    requires RowOk(env, id, HitsOf(env, recv, id), tombs, Lookup(rows0, id))
    ensures RowOk(env, id, HitsOf(env, recv, id) + GroupedHits(env, groups, id, n), tombs, Lookup(RowsAfter(env, rows0, groups, n), id))
  {
    hide RowOk, TombsAre, HitsOf, GroupEffect, Names, Uniform, IsGrouping, Vetted, GroupHits;
    if n == 0 {
      assert HitsOf(env, recv, id) + {} == HitsOf(env, recv, id);
    } else {
      var group, rows := groups[n - 1], RowsAfter(env, rows0, groups, n - 1);
      var before := HitsOf(env, recv, id) + GroupedHits(env, groups, id, n - 1);
      GroupsKeepRow(env, recv, rows0, changes, groups, id, tombs, n - 1);
      AnyGroupKeepsRow(env, rows0, rows, changes, groups, id, before, tombs, n - 1);
      assert RowsAfter(env, rows0, groups, n) == GroupEffect(env, rows0, rows, group);
      assert before + GroupHits(env, group, id) == HitsOf(env, recv, id) + GroupedHits(env, groups, id, n);
    }
  }

  /** A group of the batch, whether it names the row or not. */
  lemma AnyGroupKeepsRow(
      env: Env, rows0: Rows, rows: Rows, changes: seq<Change>, groups: seq<seq<Indexed>>, id: RowId, hits: set<Change>,
      tombs: set<nat>, i: nat)
    requires IsGrouping(changes, groups) && i < |groups| && groups[i] != []
    requires Vetted(env, AsSet(changes)) && TombsAre(env, rows0, id, tombs) && RowOk(env, id, hits, tombs, Lookup(rows, id))
    ensures RowOk(env, id, hits + GroupHits(env, groups[i], id), tombs, Lookup(GroupEffect(env, rows0, rows, groups[i]), id))
  {
    hide RowOk, TombsAre, GroupEffect, Names, Uniform, IsGrouping, Vetted, GroupHits;
    GroupingShape(changes, groups);
    if Names(env, groups[i], id) {
      GroupHitsParsed(env, changes, groups, id, i);
      GroupKeepsRow(env, rows0, rows, groups[i], id, hits, tombs);
    } else {
      OtherGroup(env, rows0, rows, groups[i], id);
      assert hits + GroupHits(env, groups[i], id) == hits;
    }
  }

  lemma GroupHitsParsed(env: Env, changes: seq<Change>, groups: seq<seq<Indexed>>, id: RowId, i: nat)
    requires IsGrouping(changes, groups) && Vetted(env, AsSet(changes)) && i < |groups|
    ensures HitsParsed(env, groups[i], id)
  {
    hide Rank, GroupHits, HitsOf, GroupedHits, IsGrouping, Vetted;
    HitsOutrankZero(env, AsSet(changes), id);
    GroupedHitsAreHits(env, changes, groups, id);
    GroupedHitsMembers(env, groups, id, |groups|);
  }

  /** Deleting what a newer tombstone covers turns the old tombstones' invariant into the new ones'. */
  lemma DeleteKeepsRow(env: Env, id: RowId, hits: set<Change>, old_: set<nat>, new_: set<nat>, row: Option<Row>, row': Option<Row>)
    requires old_ <= new_ && RowOk(env, id, hits, old_, row)
    requires row' == if row.Some? && exists d :: d in new_ && Rank(row.value.hlc.GetOr("")) <= d then None else row
    ensures RowOk(env, id, hits, new_, row')
  {
    hide Rank, Decoded, HasSigs;
    if row'.Some? {
      var column :| column in row.value.hlcs && row.value.hlcs[column] == row.value.hlc.value;
      var c :| c in hits && FromChange(env, id, row.value, column, c);
      assert AboveAll(c, new_);
    }
  }

  lemma MoreTombs(env: Env, recv: set<Change>, more: set<Change>, id: RowId)
    ensures TombsOf(env, recv, id) <= TombsOf(env, recv + more, id)
  {
    hide Rank, Identify, Declares;
    forall p | p in recv && IsTombstone(env, recv, p, id)
      ensures IsTombstone(env, recv + more, p, id)
    {
      var l := RowId(p.table, Identify(env, p.table, p.pks).key);
      var t :| t in recv && Declares(env, p, t, l, id);
      assert t in recv + more;
    }
  }

  /** A tombstone that the batch completed belongs to a delete-log row the batch itself names. */
  lemma NewTombstoneIsCollected(
      env: Env, recv: set<Change>, changes: seq<Change>, ids: set<string>, p: Change, t: Change, l: RowId, id: RowId)
    requires LogCoherent(env, recv + AsSet(changes))
    requires p in recv + AsSet(changes) && t in recv + AsSet(changes) && Declares(env, p, t, l, id)
    requires p !in recv || t !in recv
    requires forall s :: s in ids <==> exists c :: c in changes && NamesLogId(env, c, s)
    ensures exists s :: s in ids && l == LogRow(s)
  {
    hide Rank, Decoded, IsComplete;
    var c := if p !in recv then p else t;
    assert LogHit(env, c, l) && c in changes;
    var s :| l == LogRow(s);
    assert NamesLogId(env, c, s);
  }

  /** After the write loop every row satisfies its invariant against the tombstones from before the batch. */
  lemma AfterWrites(env: Env, recv: set<Change>, rows: Rows, changes: seq<Change>, groups: seq<seq<Indexed>>, id: RowId)
    requires Inv(env, recv, rows) && Coherent(env, recv) && Vetted(env, AsSet(changes)) && IsGrouping(changes, groups)
    requires forall i | 0 <= i < |groups| :: groups[i] != []
    ensures RowOk(env, id, HitsOf(env, recv + AsSet(changes), id), TombsOf(env, recv, id),
                  Lookup(RowsAfter(env, rows, groups, |groups|), id))
  {
    hide Rank, RowOk, TombsAre, IsGrouping, Hits, Vetted, TombsOf, Unambiguous, LogCoherent;
    InvIsLogInv(env, recv, rows);
    LogMatchesReceived(env, recv, rows, id);
    GroupsKeepRow(env, recv, rows, changes, groups, id, TombsOf(env, recv, id), |groups|);
    GroupedHitsAreHits(env, changes, groups, id);
    assert HitsOf(env, recv, id) + HitsOf(env, AsSet(changes), id) == HitsOf(env, recv + AsSet(changes), id);
  }

  lemma InvIsLogInv(env: Env, recv: set<Change>, rows: Rows)
    requires Inv(env, recv, rows) && LogCoherent(env, recv)
    ensures LogInv(env, recv, rows)
  {
    hide RowOk, TombsOf, HitsOf, LogCoherent;
    forall l: RowId | l.table == LOG_TABLE
      ensures RowOk(env, l, HitsOf(env, recv, l), {}, Lookup(rows, l))
    {
      NoTombsForLog(env, recv, l);
      assert RowOk(env, l, HitsOf(env, recv, l), TombsOf(env, recv, l), Lookup(rows, l));
    }
  }

  /** Coherence of the larger set is inherited by the smaller. */
  lemma CoherentSubset(env: Env, recv: set<Change>, more: set<Change>)
    requires Coherent(env, recv + more)
    ensures Coherent(env, recv) && Coherent(env, more)
  {
    hide Rank, Hits, Decoded, IsTimestamp, IsComplete, SafeIdentifier;
    assert forall c | c in recv :: c in recv + more;
    assert forall c | c in more :: c in recv + more;
  }

  /** One delivered batch: its grouping and the delete-log ids it names. */
  datatype Delivery = Delivery(changes: seq<Change>, groups: seq<seq<Indexed>>, ids: set<string>)

  ghost predicate WellDelivered(env: Env, d: Delivery) {
    && IsGrouping(d.changes, d.groups)
    && (forall i | 0 <= i < |d.groups| :: d.groups[i] != [])
    && (forall s :: s in d.ids <==> exists c :: c in d.changes && NamesLogId(env, c, s))
  }

  ghost function Next(env: Env, rows: Rows, d: Delivery): Rows
    requires forall i | 0 <= i < |d.groups| :: d.groups[i] != []
  {
    AfterDeletes(env, RowsAfter(env, rows, d.groups, |d.groups|), d.ids)
  }

  /** Whether a collected tombstone takes the row is whether some received one is as new as the row. */
  lemma KillsAreTombs(env: Env, recv: set<Change>, rows: Rows, d: Delivery, id: RowId)
    requires Inv(env, recv, rows) && Coherent(env, recv + AsSet(d.changes)) && WellDelivered(env, d)
    ensures var rows1 := RowsAfter(env, rows, d.groups, |d.groups|);
            var tombs := TombsOf(env, recv + AsSet(d.changes), id);
            id in rows1 ==> (Killed(env, rows1, d.ids, id) <==> exists t :: t in tombs && Rank(rows1[id].hlc.GetOr("")) <= t)
  {
    hide Rank, RowOk, IsGrouping, Inv, Coherent, TombsOf, TombstoneFor, LogInv, NamesLogId, ValidTarget, HitsOf;
    var all := recv + AsSet(d.changes);
    var rows1, tombs := RowsAfter(env, rows, d.groups, |d.groups|), TombsOf(env, all, id);
    CoherentSubset(env, recv, AsSet(d.changes));
    LogAfterWrites(env, recv, rows, d.changes, d.groups);
    LogMatchesCoherent(env, all, rows1, id);
    if id in rows1 {
      var h := Rank(rows1[id].hlc.GetOr(""));
      if Killed(env, rows1, d.ids, id) {
        var s :| s in d.ids && KilledBy(env, rows1, s, id);
        assert Rank(TombstoneFor(env, rows1, LogRow(s), id).value) in tombs;
      }
      if t :| t in tombs && h <= t {
        KillerIsCollected(env, recv, rows, d, id, t);
      }
    }
  }

  lemma LogMatchesCoherent(env: Env, recv: set<Change>, rows: Rows, id: RowId)
    requires LogInv(env, recv, rows) && Coherent(env, recv)
    ensures TombsAre(env, rows, id, TombsOf(env, recv, id))
  {
    LogMatchesReceived(env, recv, rows, id);
  }

  lemma LogAfterWrites(env: Env, recv: set<Change>, rows: Rows, changes: seq<Change>, groups: seq<seq<Indexed>>)
    requires Inv(env, recv, rows) && Coherent(env, recv + AsSet(changes)) && IsGrouping(changes, groups)
    requires forall i | 0 <= i < |groups| :: groups[i] != []
    ensures LogInv(env, recv + AsSet(changes), RowsAfter(env, rows, groups, |groups|))
  {
    hide RowOk, IsGrouping, Inv, Vetted, Unambiguous, LogCoherent, TombsOf, HitsOf;
    CoherentSubset(env, recv, AsSet(changes));
    forall l: RowId | l.table == LOG_TABLE
      ensures RowOk(env, l, HitsOf(env, recv + AsSet(changes), l), {}, Lookup(RowsAfter(env, rows, groups, |groups|), l))
    {
      AfterWrites(env, recv, rows, changes, groups, l);
      NoTombsForLog(env, recv, l);
    }
  }

  lemma KillerIsNew(env: Env, recv: set<Change>, rows: Rows, d: Delivery, id: RowId, t: nat)
    requires Inv(env, recv, rows) && Coherent(env, recv + AsSet(d.changes)) && WellDelivered(env, d)
    requires var rows1 := RowsAfter(env, rows, d.groups, |d.groups|);
             id in rows1 && Rank(rows1[id].hlc.GetOr("")) <= t
    ensures t !in TombsOf(env, recv, id) && ValidTarget(env, id)
  {
    hide Rank, IsGrouping, Inv, NamesLogId, Vetted, Unambiguous, LogCoherent, ValidTarget, HitsOf, TombsOf, RowsAfter;
    var all := recv + AsSet(d.changes);
    CoherentSubset(env, recv, AsSet(d.changes));
    AfterWrites(env, recv, rows, d.changes, d.groups, id);
    var c :| c in HitsOf(env, all, id) && AboveAll(c, TombsOf(env, recv, id));
    HitIsValidTarget(env, all, c, id);
  }

  /** A tombstone that is new enough to take the row is among the ones the batch fans out. */
  lemma KillerIsCollected(env: Env, recv: set<Change>, rows: Rows, d: Delivery, id: RowId, t: nat)
    requires Inv(env, recv, rows) && Coherent(env, recv + AsSet(d.changes)) && WellDelivered(env, d)
    requires var rows1 := RowsAfter(env, rows, d.groups, |d.groups|);
             id in rows1 && Rank(rows1[id].hlc.GetOr("")) <= t
    requires t in TombsOf(env, recv + AsSet(d.changes), id)
    ensures Killed(env, RowsAfter(env, rows, d.groups, |d.groups|), d.ids, id)
  {
    hide Rank, Decoded, HasSigs, IsGrouping, Inv, TombstoneFor, LogInv, NamesLogId, Hits, Identify, Vetted, Unambiguous,
         LogCoherent, ValidTarget, RowOk, RowsAfter;
    var all := recv + AsSet(d.changes);
    var rows1 := RowsAfter(env, rows, d.groups, |d.groups|);
    KillerIsNew(env, recv, rows, d, id, t);
    var p :| p in all && IsTombstone(env, all, p, id) && Rank(p.hlc) == t;
    var l := RowId(p.table, Identify(env, p.table, p.pks).key);
    var q :| q in all && Declares(env, p, q, l, id);
    assert p in recv && q in recv ==> IsTombstone(env, recv, p, id);
    NewTombstoneIsCollected(env, recv, d.changes, d.ids, p, q, l, id);
    var s :| s in d.ids && l == LogRow(s);
    LogAfterWrites(env, recv, rows, d.changes, d.groups);
    TombstoneIsStored(env, all, rows1, p, q, l, id);
    assert KilledBy(env, rows1, s, id);
  }

  lemma HitIsValidTarget(env: Env, recv: set<Change>, c: Change, id: RowId)
    requires Vetted(env, recv) && c in HitsOf(env, recv, id)
    ensures ValidTarget(env, id)
  {
    hide IsTimestamp, IsComplete, SafeIdentifier, KeyFits;
  }

  /** One batch keeps the invariant of the whole replica. */
  lemma StepKeepsInv(env: Env, recv: set<Change>, rows: Rows, d: Delivery)
    requires Inv(env, recv, rows) && Coherent(env, recv + AsSet(d.changes)) && WellDelivered(env, d)
    ensures Inv(env, recv + AsSet(d.changes), Next(env, rows, d))
  {
    hide Rank, RowOk, IsGrouping, Coherent, TombsOf, Killed, NamesLogId, HitsOf;
    var all := recv + AsSet(d.changes);
    var rows1 := RowsAfter(env, rows, d.groups, |d.groups|);
    forall id
      ensures RowOk(env, id, HitsOf(env, all, id), TombsOf(env, all, id), Lookup(Next(env, rows, d), id))
    {
      CoherentSubset(env, recv, AsSet(d.changes));
      assert Vetted(env, AsSet(d.changes)) by {
        CoherentIsVetted(env, AsSet(d.changes));
      }
      AfterWrites(env, recv, rows, d.changes, d.groups, id);
      KillsAreTombs(env, recv, rows, d, id);
      MoreTombs(env, recv, AsSet(d.changes), id);
      DeleteKeepsRow(
        env, id, HitsOf(env, all, id), TombsOf(env, recv, id), TombsOf(env, all, id), Lookup(rows1, id),
        Lookup(Next(env, rows, d), id));
    }
  }

  lemma CoherentIsVetted(env: Env, recv: set<Change>)
    requires Coherent(env, recv)
    ensures Vetted(env, recv)
  {
  }
}
