/** When a second delivery of a batch changes nothing, told from the batch and the state it meets. */
module BatchReplay {
  import opened Common
  import opened Hlc
  import opened Model
  import opened RowWrite
  import opened Deletes
  import opened RowMerge
  import opened ApplyBatch
  import opened RowInvariant
  import opened Convergence
  import opened Order
  import opened Replay

  /** The row is there before group `n`: it was there at the start, or an earlier group had a change no stored tombstone shadows. */
  ghost predicate HasLanded(env: Env, rows: Rows, groups: seq<seq<Indexed>>, id: RowId, n: nat)
    requires n <= |groups|
  {
    id in rows || exists c :: c in GroupedHits(env, groups, id, n) && !Shadowed(env, rows, id, c.hlc)
  }

  /** A later group, with the row landed, brings something at least as new for the column. */
  ghost predicate MadeUpFor(env: Env, rows: Rows, groups: seq<seq<Indexed>>, id: RowId, i: nat, c: Change) {
    exists j, later :: i < j < |groups| && later in GroupHits(env, groups[j], id) && HasLanded(env, rows, groups, id, j + 1)
                       && later.column == c.column && Rank(later.hlc) >= Rank(c.hlc)
  }

  /** Every change of a row that lives on came when its row had landed, or is made up for after it landed. */
  ghost predicate NothingLeftBehind(env: Env, recv: set<Change>, rows: Rows, d: Delivery) {
    var all := recv + AsSet(d.changes);
    forall id, i, c | 0 <= i < |d.groups| && c in GroupHits(env, d.groups[i], id)
                      && Alive(HitsOf(env, all, id), TombsOf(env, all, id)) ::
      HasLanded(env, rows, d.groups, id, i + 1) || MadeUpFor(env, rows, d.groups, id, i, c)
  }

  /** What a batch meets: a reachable state and changes that fit it. */
  ghost predicate Meets(env: Env, recv: set<Change>, rows: Rows, d: Delivery) {
    Inv(env, recv, rows) && Coherent(env, recv + AsSet(d.changes)) && WellDelivered(env, d)
  }

  lemma StoredTombs(env: Env, recv: set<Change>, rows: Rows, d: Delivery, id: RowId)
    requires Meets(env, recv, rows, d)
    ensures TombsAre(env, rows, id, TombsOf(env, recv, id)) && Vetted(env, AsSet(d.changes))
    ensures RowOk(env, id, HitsOf(env, recv, id), TombsOf(env, recv, id), Lookup(rows, id))
  {
    hide Rank, Hits, Inv, Unambiguous, LogCoherent, Vetted, LogInv, IsGrouping, NamesLogId, TombsOf, TombsAre, RowOk;
    CoherentSubset(env, recv, AsSet(d.changes));
    InvIsLogInv(env, recv, rows);
    LogMatchesReceived(env, recv, rows, id);
    InvRow(env, recv, rows, id);
  }

  /** After `n` groups the row is there exactly when it has landed. */
  lemma PresentIff(env: Env, recv: set<Change>, rows: Rows, d: Delivery, id: RowId, n: nat)
    requires Meets(env, recv, rows, d) && n <= |d.groups|
    ensures id in RowsAfter(env, rows, d.groups, n) <==> HasLanded(env, rows, d.groups, id, n)
  {
    hide Rank, Hits, Inv, Coherent, IsGrouping, NamesLogId, TombsOf, TombsAre, HitsOf, GroupedHits, Provenance, RowHlcIsMax,
         Covers, AboveAll, Shadowed, RowsAfter, Vetted;
    var tombs := TombsOf(env, recv, id);
    StoredTombs(env, recv, rows, d, id);
    GroupsKeepRow(env, recv, rows, d.changes, d.groups, id, tombs, n);
    forall c: Change
      ensures AboveAll(c, tombs) <==> !Shadowed(env, rows, id, c.hlc)
    {
      ShadowedMeans(env, rows, id, tombs, c.hlc);
      AboveMeans(c, tombs);
    }
  }

  lemma AboveMeans(c: Change, tombs: set<nat>)
    ensures AboveAll(c, tombs) <==> !exists d :: d in tombs && Rank(c.hlc) <= d
  {
    hide Rank;
  }

  /** The hits of the groups from `m` up to `n`. */
  function HitsBetween(env: Env, groups: seq<seq<Indexed>>, id: RowId, m: nat, n: nat): set<Change>
    requires m <= n <= |groups|
    decreases n
  {
    if n == m then {} else HitsBetween(env, groups, id, m, n - 1) + GroupHits(env, groups[n - 1], id)
  }

  lemma {:induction false} BetweenMembers(env: Env, groups: seq<seq<Indexed>>, id: RowId, m: nat, n: nat, c: Change)
    requires m <= n <= |groups|
    ensures c in HitsBetween(env, groups, id, m, n) <==> exists j :: m <= j < n && c in GroupHits(env, groups[j], id)
    decreases n
  {
    hide GroupHits;
    if m < n {
      BetweenMembers(env, groups, id, m, n - 1, c);
    }
  }

  /** An absent row is rebuilt from the groups that follow, and from nothing else. */
  lemma {:induction false} RebuiltFrom(
      env: Env, rows: Rows, changes: seq<Change>, groups: seq<seq<Indexed>>, id: RowId, tombs: set<nat>, m: nat, n: nat)
    requires IsGrouping(changes, groups) && m <= n <= |groups| && forall i | 0 <= i < |groups| :: groups[i] != []
    requires Vetted(env, AsSet(changes)) && TombsAre(env, rows, id, tombs) && id !in RowsAfter(env, rows, groups, m)
    ensures RowOk(env, id, HitsBetween(env, groups, id, m, n), tombs, Lookup(RowsAfter(env, rows, groups, n), id))
    decreases n
  {
    hide RowOk, TombsAre, GroupEffect, Names, Uniform, IsGrouping, Vetted, GroupHits;
    if n == m {
      AbsentIsOk(env, id, tombs);
    } else {
      var before := RowsAfter(env, rows, groups, n - 1);
      var hits := HitsBetween(env, groups, id, m, n - 1);
      RebuiltFrom(env, rows, changes, groups, id, tombs, m, n - 1);
      AnyGroupKeepsRow(env, rows, before, changes, groups, id, hits, tombs, n - 1);
    }
  }

  lemma AbsentIsOk(env: Env, id: RowId, tombs: set<nat>)
    ensures RowOk(env, id, {}, tombs, None)
  {
  }

  lemma {:induction false} CoverStays(
      env: Env, rows: Rows, groups: seq<seq<Indexed>>, id: RowId, c: Change, m: nat, n: nat)
    requires m <= n <= |groups| && forall i | 0 <= i < |groups| :: groups[i] != [] && Uniform(groups[i])
    requires id in RowsAfter(env, rows, groups, m) && Covers(RowsAfter(env, rows, groups, m)[id], c)
    ensures id in RowsAfter(env, rows, groups, n) && Covers(RowsAfter(env, rows, groups, n)[id], c)
    decreases n
  {
    hide Rank, GroupEffect, Uniform;
    if m < n {
      CoverStays(env, rows, groups, id, c, m, n - 1);
      GroupNeverGoesBack(env, rows, RowsAfter(env, rows, groups, n - 1), groups[n - 1], id);
    }
  }

  /** A change whose row has landed with its group is covered from then on. */
  lemma LandedIsCovered(env: Env, recv: set<Change>, rows: Rows, d: Delivery, id: RowId, i: nat, c: Change)
    requires Meets(env, recv, rows, d) && i < |d.groups| && c in GroupHits(env, d.groups[i], id)
    requires HasLanded(env, rows, d.groups, id, i + 1)
    ensures var after := RowsAfter(env, rows, d.groups, |d.groups|); id in after && Covers(after[id], c)
  {
    hide Rank, Hits, Inv, Coherent, IsGrouping, NamesLogId, GroupHits, HasLanded, Covers, GroupEffect, Uniform, TombsAre, RowOk;
    StoredTombs(env, recv, rows, d, id);
    PresentIff(env, recv, rows, d, id, i + 1);
    GroupingShape(d.changes, d.groups);
    NamedByHit(env, d.groups[i], id, c);
    GroupHitsParsed(env, d.changes, d.groups, id, i);
    GroupCoversItsHits(env, rows, RowsAfter(env, rows, d.groups, i), d.groups[i], id);
    assert RowsAfter(env, rows, d.groups, i + 1) == GroupEffect(env, rows, RowsAfter(env, rows, d.groups, i), d.groups[i]);
    CoverStays(env, rows, d.groups, id, c, i + 1, |d.groups|);
  }

  /** The last moment before the row lands. */
  lemma {:induction false} LandingAfter(env: Env, rows: Rows, groups: seq<seq<Indexed>>, id: RowId, m: nat) returns (at: nat)
    requires m <= |groups| && !HasLanded(env, rows, groups, id, m) && HasLanded(env, rows, groups, id, |groups|)
    ensures m <= at < |groups| && !HasLanded(env, rows, groups, id, at) && HasLanded(env, rows, groups, id, at + 1)
    decreases |groups| - m
  {
    hide HasLanded;
    if HasLanded(env, rows, groups, id, m + 1) {
      at := m;
    } else {
      at := LandingAfter(env, rows, groups, id, m + 1);
    }
  }

  lemma {:induction false} LandingStays(env: Env, rows: Rows, groups: seq<seq<Indexed>>, id: RowId, m: nat, n: nat)
    requires m <= n <= |groups| && HasLanded(env, rows, groups, id, m)
    ensures HasLanded(env, rows, groups, id, n)
    decreases n
  {
    hide Shadowed, GroupHits;
    if m < n {
      LandingStays(env, rows, groups, id, m, n - 1);
    }
  }

  /** A change that came too early is covered in the end only if it is made up for. */
  lemma CoveredIsMadeUpFor(env: Env, recv: set<Change>, rows: Rows, d: Delivery, id: RowId, i: nat, c: Change)
    requires Meets(env, recv, rows, d) && i < |d.groups| && c in GroupHits(env, d.groups[i], id)
    requires !HasLanded(env, rows, d.groups, id, i + 1)
    requires var after := RowsAfter(env, rows, d.groups, |d.groups|); id in after && Covers(after[id], c)
    ensures MadeUpFor(env, rows, d.groups, id, i, c)
  {
    hide Rank, Hits, Inv, Coherent, IsGrouping, NamesLogId, GroupHits, HasLanded, TombsAre, TombsOf, Vetted, RowHlcIsMax,
         HitsBetween, RowsAfter, AboveAll;
    var n := |d.groups|;
    StoredTombs(env, recv, rows, d, id);
    PresentIff(env, recv, rows, d, id, n);
    var at := LandingAfter(env, rows, d.groups, id, i + 1);
    PresentIff(env, recv, rows, d, id, at);
    RebuiltFrom(env, rows, d.changes, d.groups, id, TombsOf(env, recv, id), at, n);
    var row := RowsAfter(env, rows, d.groups, n)[id];
    var later :| later in HitsBetween(env, d.groups, id, at, n) && FromChange(env, id, row, c.column, later);
    BetweenMembers(env, d.groups, id, at, n, later);
    var j :| at <= j < n && later in GroupHits(env, d.groups[j], id);
    LandingStays(env, rows, d.groups, id, at + 1, j + 1);
    assert CellOf(row.hlcs, c.column) == Some(later.hlc);
  }

  lemma CoveredIff(env: Env, recv: set<Change>, rows: Rows, d: Delivery, id: RowId, i: nat, c: Change)
    requires Meets(env, recv, rows, d) && i < |d.groups| && c in GroupHits(env, d.groups[i], id)
    requires id in Next(env, rows, d)
    ensures Covers(Next(env, rows, d)[id], c) <==>
            HasLanded(env, rows, d.groups, id, i + 1) || MadeUpFor(env, rows, d.groups, id, i, c)
  {
    hide Rank, Hits, Inv, Coherent, IsGrouping, NamesLogId, GroupHits, HasLanded, RowsAfter, Killed, Meets;
    assert WellDelivered(env, d) by {
      MeetsDelivered(env, recv, rows, d);
    }
    if HasLanded(env, rows, d.groups, id, i + 1) {
      LandedIsCovered(env, recv, rows, d, id, i, c);
    } else {
      if Covers(Next(env, rows, d)[id], c) {
        CoveredIsMadeUpFor(env, recv, rows, d, id, i, c);
      }
      if j, later :| i < j < |d.groups| && later in GroupHits(env, d.groups[j], id) && HasLanded(env, rows, d.groups, id, j + 1)
                     && later.column == c.column && Rank(later.hlc) >= Rank(c.hlc) {
        LandedIsCovered(env, recv, rows, d, id, j, later);
      }
    }
  }

  lemma MeetsDelivered(env: Env, recv: set<Change>, rows: Rows, d: Delivery)
    requires Meets(env, recv, rows, d)
    ensures WellDelivered(env, d)
  {
  }

  /**
   * Delivering a batch a second time, in whatever grouping, is a no-op if and
   * only if the first delivery left nothing behind: no change of a living row
   * was shadowed before a later group brought the row, unless that group or
   * one after it outdid the change.
   */
  lemma BatchReplayIff(env: Env, recv: set<Change>, rows: Rows, d: Delivery, again: Delivery)
    requires Meets(env, recv, rows, d) && WellDelivered(env, again) && AsSet(again.changes) == AsSet(d.changes)
    ensures WellDelivered(env, d)
    ensures NoOp(env, Next(env, rows, d), again) <==> NothingLeftBehind(env, recv, rows, d)
  {
    hide Inv, Coherent, IsGrouping, NamesLogId, NoOp, Hits, Covers, HasLanded, MadeUpFor, GroupHits, TombsOf, HitsOf, Alive, Next,
         AllCovered, NothingLeftBehind;
    StepKeepsInv(env, recv, rows, d);
    ReplayIff(env, recv + AsSet(d.changes), Next(env, rows, d), again);
    if AllCovered(env, Next(env, rows, d), AsSet(d.changes)) {
      CoveredLeavesNothing(env, recv, rows, d);
    }
    if NothingLeftBehind(env, recv, rows, d) {
      NothingLeftIsCovered(env, recv, rows, d);
    }
  }

  lemma LivesOn(env: Env, recv: set<Change>, rows: Rows, d: Delivery, id: RowId)
    requires Meets(env, recv, rows, d)
    ensures id in Next(env, rows, d) <==> Alive(HitsOf(env, recv + AsSet(d.changes), id), TombsOf(env, recv + AsSet(d.changes), id))
  {
    hide Inv, Coherent, IsGrouping, NamesLogId, TombsOf, HitsOf, Alive, Next, Provenance, RowHlcIsMax, Covers;
    StepKeepsInv(env, recv, rows, d);
    InvRow(env, recv + AsSet(d.changes), Next(env, rows, d), id);
  }

  lemma CoveredLeavesNothing(env: Env, recv: set<Change>, rows: Rows, d: Delivery)
    requires Meets(env, recv, rows, d) && AllCovered(env, Next(env, rows, d), AsSet(d.changes))
    ensures NothingLeftBehind(env, recv, rows, d)
  {
    hide Inv, Coherent, IsGrouping, NamesLogId, Hits, Covers, HasLanded, MadeUpFor, GroupHits, TombsOf, HitsOf, Alive, Next;
    var all := recv + AsSet(d.changes);
    forall id, i, c | 0 <= i < |d.groups| && c in GroupHits(env, d.groups[i], id)
                      && Alive(HitsOf(env, all, id), TombsOf(env, all, id))
      ensures HasLanded(env, rows, d.groups, id, i + 1) || MadeUpFor(env, rows, d.groups, id, i, c)
    {
      LivesOn(env, recv, rows, d, id);
      HitsAreGrouped(env, d, id, c);
      CoveredIff(env, recv, rows, d, id, i, c);
    }
  }

  lemma NothingLeftIsCovered(env: Env, recv: set<Change>, rows: Rows, d: Delivery)
    requires Meets(env, recv, rows, d) && NothingLeftBehind(env, recv, rows, d)
    ensures AllCovered(env, Next(env, rows, d), AsSet(d.changes))
  {
    hide Inv, Coherent, IsGrouping, NamesLogId, Hits, Covers, HasLanded, MadeUpFor, GroupHits, TombsOf, HitsOf, Alive, Next;
    forall c, id | c in AsSet(d.changes) && Hits(env, c, id) && id in Next(env, rows, d)
      ensures Covers(Next(env, rows, d)[id], c)
    {
      LivesOn(env, recv, rows, d, id);
      HitsAreGrouped(env, d, id, c);
      var i :| 0 <= i < |d.groups| && c in GroupHits(env, d.groups[i], id);
      CoveredIff(env, recv, rows, d, id, i, c);
    }
  }

  lemma HitsAreGrouped(env: Env, d: Delivery, id: RowId, c: Change)
    requires WellDelivered(env, d)
    ensures c in AsSet(d.changes) && Hits(env, c, id) <==> exists i :: 0 <= i < |d.groups| && c in GroupHits(env, d.groups[i], id)
  {
    hide Hits, IsGrouping, NamesLogId, GroupHits, GroupedHits;
    GroupedHitsAreHits(env, d.changes, d.groups, id);
    GroupedHitsMembers(env, d.groups, id, |d.groups|);
    assert c in HitsOf(env, AsSet(d.changes), id) <==> c in AsSet(d.changes) && Hits(env, c, id);
  }
}
