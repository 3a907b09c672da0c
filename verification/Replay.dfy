/** Applying a batch again to the state it produced. */
module Replay {
  import opened Common
  import opened Hlc
  import opened Model
  import opened Selection
  import opened RowWrite
  import opened Deletes
  import opened RowMerge
  import opened ApplyBatch
  import opened RowInvariant
  import opened Convergence

  /** Every hit of these changes on a present row is at most as new as what its column stores. */
  ghost predicate AllCovered(env: Env, rows: Rows, changes: set<Change>) {
    forall c, id | c in changes && Hits(env, c, id) && id in rows :: Covers(rows[id], c)
  }

  /** Nothing written, nothing deleted. */
  ghost predicate NoOp(env: Env, rows: Rows, d: Delivery)
    requires forall i | 0 <= i < |d.groups| :: d.groups[i] != []
  {
    Next(env, rows, d) == rows && AllWrites(env, rows, d.groups, |d.groups|) == []
  }

  lemma InvRow(env: Env, recv: set<Change>, rows: Rows, id: RowId)
    requires Inv(env, recv, rows)
    ensures RowOk(env, id, HitsOf(env, recv, id), TombsOf(env, recv, id), Lookup(rows, id))
  {
  }

  lemma UncoveredWins(env: Env, rows: Rows, group: seq<Indexed>, id: RowId, c: Change)
    requires Uniform(group) && Names(env, group, id) && id in rows
    requires c in GroupHits(env, group, id) && Rank(c.hlc) > Rank(StoredHlc(rows[id].hlcs, c.column))
    ensures GroupWrites(env, rows, rows, group) != []
  {
    hide Rank, GroupHits, Identify, Shadowed, Winners, IsComplete;
    WinnersBeatHits(env, group, id, rows[id].hlcs);
    GroupCandsAre(env, group, id);
  }

  /** A group none of whose hits is news writes nothing. */
  lemma StaleGroup(env: Env, recv: set<Change>, rows: Rows, group: seq<Indexed>, id: RowId)
    requires Inv(env, recv, rows) && Coherent(env, recv) && Uniform(group) && Names(env, group, id)
    requires GroupHits(env, group, id) <= HitsOf(env, recv, id)
    requires id in rows ==> forall c | c in GroupHits(env, group, id) :: Covers(rows[id], c)
    ensures GroupWrites(env, rows, rows, group) == []
  {
    hide Rank, GroupHits, Identify, Winners, IsComplete, Inv, TombsOf, LogInv, Provenance, RowHlcIsMax, HitsOf, Unambiguous,
         LogCoherent, Vetted, TombsAre, Shadowed, MaxHlc;
    var staged := Winners(GroupCands(env, group, id), PriorHlcs(Lookup(rows, id)));
    WinnersBeatHits(env, group, id, PriorHlcs(Lookup(rows, id)));
    GroupCandsAre(env, group, id);
    if staged != [] {
      var at := MaxHlcIsMaximal(staged);
      var c := staged[at].change;
      InvRow(env, recv, rows, id);
      InvIsLogInv(env, recv, rows);
      LogMatchesReceived(env, recv, rows, id);
      if id !in rows {
        assert !AboveAll(c, TombsOf(env, recv, id));
        ShadowedMeans(env, rows, id, TombsOf(env, recv, id), MaxHlc(staged));
      }
    }
  }

  lemma {:induction false} StaleGroups(
      env: Env, recv: set<Change>, rows: Rows, changes: seq<Change>, groups: seq<seq<Indexed>>, n: nat)
    requires Inv(env, recv, rows) && Coherent(env, recv) && IsGrouping(changes, groups) && AsSet(changes) <= recv
    requires forall i | 0 <= i < |groups| :: groups[i] != []
    requires AllCovered(env, rows, AsSet(changes)) && n <= |groups|
    ensures RowsAfter(env, rows, groups, n) == rows && AllWrites(env, rows, groups, n) == []
  {
    hide Inv, Coherent, Identify, GroupWrites, Hits, Covers, Uniform;
    if n > 0 {
      StaleGroups(env, recv, rows, changes, groups, n - 1);
      var group := groups[n - 1];
      GroupingShape(changes, groups);
      var c := group[0].change;
      match Identify(env, c.table, c.pks)
      case Unknown(_) => UnknownWritesNothing(env, rows, group);
      case Known(key) =>
        var id := RowId(c.table, key);
        GroupHitsAreChanges(env, changes, groups, id, n - 1);
        StaleGroup(env, recv, rows, group, id);
    }
  }

  lemma UnknownWritesNothing(env: Env, rows: Rows, group: seq<Indexed>)
    requires group != [] && Identify(env, group[0].change.table, group[0].change.pks).Unknown?
    ensures GroupWrites(env, rows, rows, group) == []
  {
  }

  lemma GroupHitsAreChanges(env: Env, changes: seq<Change>, groups: seq<seq<Indexed>>, id: RowId, i: nat)
    requires IsGrouping(changes, groups) && i < |groups|
    ensures GroupHits(env, groups[i], id) <= HitsOf(env, AsSet(changes), id)
  {
    hide GroupHits, HitsOf, IsGrouping, GroupedHits;
    GroupedHitsAreHits(env, changes, groups, id);
    GroupedHitsMembers(env, groups, id, |groups|);
  }

  /** A replay that finds everything covered changes nothing. */
  lemma CoveredReplay(env: Env, recv: set<Change>, rows: Rows, d: Delivery)
    requires Inv(env, recv, rows) && Coherent(env, recv) && WellDelivered(env, d) && AsSet(d.changes) <= recv
    requires AllCovered(env, rows, AsSet(d.changes))
    ensures NoOp(env, rows, d)
  {
    hide Inv, Coherent, IsGrouping, Hits, Covers, Killed, TombsOf, Rank, NamesLogId, HitsOf, Provenance;
    StaleGroups(env, recv, rows, d.changes, d.groups, |d.groups|);
    assert recv + AsSet(d.changes) == recv;
    forall id | id in rows
      ensures !Killed(env, rows, d.ids, id)
    {
      KillsAreTombs(env, recv, rows, d, id);
      InvRow(env, recv, rows, id);
      var c :| c in HitsOf(env, recv, id) && AboveAll(c, TombsOf(env, recv, id));
    }
  }

  /**
   * Replaying received changes is a no-op if and only if every present row
   * already covers them.
   */
  lemma ReplayIff(env: Env, recv: set<Change>, rows: Rows, d: Delivery)
    requires Inv(env, recv, rows) && Coherent(env, recv) && WellDelivered(env, d) && AsSet(d.changes) <= recv
    ensures NoOp(env, rows, d) <==> AllCovered(env, rows, AsSet(d.changes))
  {
    hide Inv, Coherent, IsGrouping, Hits, Covers, Next, AllWrites, NamesLogId;
    if AllCovered(env, rows, AsSet(d.changes)) {
      CoveredReplay(env, recv, rows, d);
    } else {
      var c, id :| c in AsSet(d.changes) && Hits(env, c, id) && id in rows && !Covers(rows[id], c);
      UncoveredIsWritten(env, recv, rows, d, c, id);
    }
  }

  lemma {:induction false} NothingWrittenNothingChanged(env: Env, rows: Rows, groups: seq<seq<Indexed>>, n: nat)
    requires n <= |groups| && forall i | 0 <= i < |groups| :: groups[i] != []
    requires AllWrites(env, rows, groups, n) == []
    ensures RowsAfter(env, rows, groups, n) == rows
    ensures forall i | 0 <= i < n :: GroupWrites(env, rows, rows, groups[i]) == []
  {
    hide Identify, GroupWrites;
    if n > 0 {
      NothingWrittenNothingChanged(env, rows, groups, n - 1);
    }
  }

  lemma UncoveredIsWritten(env: Env, recv: set<Change>, rows: Rows, d: Delivery, c: Change, id: RowId)
    requires Coherent(env, recv) && WellDelivered(env, d) && AsSet(d.changes) <= recv
    requires c in AsSet(d.changes) && Hits(env, c, id) && id in rows && !Covers(rows[id], c)
    ensures AllWrites(env, rows, d.groups, |d.groups|) != []
  {
    hide Rank, Identify, IsComplete, Eligible, GroupWrites, IsGrouping, AllWrites, NamesLogId, Unambiguous, LogCoherent, Vetted,
         GroupHits, GroupedHits;
    if AllWrites(env, rows, d.groups, |d.groups|) == [] {
      NothingWrittenNothingChanged(env, rows, d.groups, |d.groups|);
      GroupedHitsAreHits(env, d.changes, d.groups, id);
      GroupedHitsMembers(env, d.groups, id, |d.groups|);
      assert c in HitsOf(env, AsSet(d.changes), id);
      var i :| 0 <= i < |d.groups| && c in GroupHits(env, d.groups[i], id);
      GroupingShape(d.changes, d.groups);
      NamedByHit(env, d.groups[i], id, c);
      EmptyRank();
      HitsOutrankZero(env, recv, id);
      assert c in HitsOf(env, recv, id);
      UncoveredWins(env, rows, d.groups[i], id, c);
    }
  }

  lemma NamedByHit(env: Env, group: seq<Indexed>, id: RowId, c: Change)
    requires Uniform(group) && c in GroupHits(env, group, id)
    ensures Names(env, group, id)
  {
    hide Identify, IsComplete, Eligible;
  }

  /** The batch spells each row's primary key in one way. */
  ghost predicate OneSpelling(env: Env, changes: set<Change>) {
    forall a, b, id | a in changes && b in changes && Hits(env, a, id) && Hits(env, b, id) :: a.pks == b.pks
  }

  lemma MergedRewrites(prior: Option<Row>, staged: seq<Cand>, hasSigs: bool)
    requires staged != [] && DistinctColumns(staged)
    requires forall i | 0 <= i < |staged| :: Rank(staged[i].change.hlc) > Rank(StoredHlc(PriorHlcs(prior), staged[i].change.column))
    ensures Rewritten(prior, staged, MergedRow(prior, staged, hasSigs))
  {
    hide Rank, PutValues, PutSigs, PutHlcs, RowHlcAfter;
    PutCells(map[], PriorHlcs(prior), staged);
    assert MergedRow(prior, staged, hasSigs).hlcs == PutHlcs(PriorHlcs(prior), staged);
  }

  /** After its group is written, a present row covers all of the group's hits. */
  lemma GroupCoversItsHits(env: Env, rows0: Rows, rows: Rows, group: seq<Indexed>, id: RowId)
    requires Uniform(group) && HitsParsed(env, group, id)
    requires Names(env, group, id) && id in GroupEffect(env, rows0, rows, group)
    ensures forall c | c in GroupHits(env, group, id) :: Covers(GroupEffect(env, rows0, rows, group)[id], c)
  {
    hide Rank, GroupHits, GroupCands, GroupEffect, Winners, MergedRow, Identify, HasSigs;
    var prior := Lookup(rows, id);
    var staged := Winners(GroupCands(env, group, id), PriorHlcs(prior));
    WinnersBeatHits(env, group, id, PriorHlcs(prior));
    RowAfterGroup(env, rows0, rows, group, id);
    EmptyRank();
    if staged != [] {
      var row := GroupEffect(env, rows0, rows, group)[id];
      MergedRewrites(prior, staged, HasSigs(env, id.table));
      forall c | c in GroupHits(env, group, id)
        ensures Covers(row, c)
      {
        HitCovered(prior, staged, row, c);
      }
    }
  }

  /** A group without hits for the row leaves it alone. */
  lemma NoHitsNoEffect(env: Env, rows0: Rows, rows: Rows, group: seq<Indexed>, id: RowId)
    requires Uniform(group) && GroupHits(env, group, id) == {}
    ensures Lookup(GroupEffect(env, rows0, rows, group), id) == Lookup(rows, id)
  {
    hide Rank, GroupHits, Identify, Winners, IsComplete, Shadowed, MaxHlc;
    if Names(env, group, id) {
      WinnersBeatHits(env, group, id, PriorHlcs(Lookup(rows, id)));
      GroupCandsAre(env, group, id);
      assert forall i | 0 <= i < |Winners(GroupCands(env, group, id), PriorHlcs(Lookup(rows, id)))| ::
        StagedHit(env, group, id, PriorHlcs(Lookup(rows, id)), Winners(GroupCands(env, group, id), PriorHlcs(Lookup(rows, id)))[i]);
    } else {
      OtherGroup(env, rows0, rows, group, id);
    }
  }

  /** When all hits of a row are in one group, only that group decides the row. */
  lemma {:induction false} OnlyOneGroup(
      env: Env, rows0: Rows, groups: seq<seq<Indexed>>, id: RowId, at: nat, n: nat)
    requires at < n <= |groups| && forall i | 0 <= i < |groups| :: groups[i] != [] && Uniform(groups[i])
    requires forall i | 0 <= i < |groups| && i != at :: GroupHits(env, groups[i], id) == {}
    ensures Lookup(RowsAfter(env, rows0, groups, n), id) ==
            Lookup(GroupEffect(env, rows0, RowsAfter(env, rows0, groups, at), groups[at]), id)
  {
    hide GroupEffect, GroupHits, Uniform;
    if n > at + 1 {
      OnlyOneGroup(env, rows0, groups, id, at, n - 1);
      NoHitsNoEffect(env, rows0, RowsAfter(env, rows0, groups, n - 1), groups[n - 1], id);
    }
  }

  lemma OneSpellingOneGroup(env: Env, changes: seq<Change>, groups: seq<seq<Indexed>>, id: RowId, i: nat, j: nat)
    requires IsGrouping(changes, groups) && OneSpelling(env, AsSet(changes)) && i < |groups| && j < |groups| && i != j
    requires GroupHits(env, groups[i], id) != {}
    ensures GroupHits(env, groups[j], id) == {}
  {
    hide Identify, IsComplete, Eligible;
    GroupHitsAreChanges(env, changes, groups, id, i);
    GroupHitsAreChanges(env, changes, groups, id, j);
    GroupingShape(changes, groups);
    GroupHitsShareText(env, groups[i], id);
    GroupHitsShareText(env, groups[j], id);
  }

  lemma GroupHitsShareText(env: Env, group: seq<Indexed>, id: RowId)
    requires Uniform(group)
    ensures forall c | c in GroupHits(env, group, id) :: c.pks == group[0].change.pks && c.table == group[0].change.table
  {
    hide Hits;
  }

  /** A batch that spells every row one way is fully covered by the rows it leaves. */
  lemma OneSpellingIsCovered(env: Env, recv: set<Change>, rows: Rows, d: Delivery)
    requires Coherent(env, recv + AsSet(d.changes)) && WellDelivered(env, d) && OneSpelling(env, AsSet(d.changes))
    ensures AllCovered(env, Next(env, rows, d), AsSet(d.changes))
  {
    hide Rank, Identify, IsComplete, Eligible, IsGrouping, OneSpelling, NamesLogId, Unambiguous, LogCoherent, Vetted, GroupHits,
         GroupedHits, Covers, RowsAfter, Killed, GroupEffect, Uniform;
    forall c, id | c in AsSet(d.changes) && Hits(env, c, id) && id in Next(env, rows, d)
      ensures Covers(Next(env, rows, d)[id], c)
    {
      GroupedHitsAreHits(env, d.changes, d.groups, id);
      GroupedHitsMembers(env, d.groups, id, |d.groups|);
      assert c in HitsOf(env, AsSet(d.changes), id);
      var i :| 0 <= i < |d.groups| && c in GroupHits(env, d.groups[i], id);
      GroupingShape(d.changes, d.groups);
      NamedByHit(env, d.groups[i], id, c);
      forall j | 0 <= j < |d.groups| && j != i
        ensures GroupHits(env, d.groups[j], id) == {}
      {
        OneSpellingOneGroup(env, d.changes, d.groups, id, i, j);
      }
      OnlyOneGroup(env, rows, d.groups, id, i, |d.groups|);
      CoherentSubset(env, recv, AsSet(d.changes));
      GroupHitsParsed(env, d.changes, d.groups, id, i);
      GroupCoversItsHits(env, rows, RowsAfter(env, rows, d.groups, i), d.groups[i], id);
    }
  }

  /**
   * Re-applying any part of a batch to the state it produced, in any grouping
   * and tombstones included, leaves rows and delete log alone and writes
   * nothing.
   */
  lemma ReplayIsNoOp(env: Env, recv: set<Change>, rows: Rows, d: Delivery, again: Delivery)
    requires Inv(env, recv, rows) && Coherent(env, recv + AsSet(d.changes))
    requires WellDelivered(env, d) && WellDelivered(env, again) && AsSet(again.changes) <= AsSet(d.changes)
    requires OneSpelling(env, AsSet(d.changes))
    ensures NoOp(env, Next(env, rows, d), again)
  {
    hide Inv, Coherent, OneSpelling, IsGrouping, NamesLogId, Next, NoOp, Hits, Covers;
    StepKeepsInv(env, recv, rows, d);
    OneSpellingIsCovered(env, recv, rows, d);
    assert AllCovered(env, Next(env, rows, d), AsSet(again.changes));
    CoveredReplay(env, recv + AsSet(d.changes), Next(env, rows, d), again);
  }
}
