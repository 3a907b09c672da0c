/** A first sync between two replicas: scan, apply, and scan again on the peer. */
module FirstSyncs {
  import opened Common
  import opened Hlc
  import opened Values
  import opened Model
  import opened Selection
  import opened Deletes
  import opened RowMerge
  import opened Policy
  import opened Engine
  import opened Preflight
  import opened ApplyBatch
  import opened Replicas
  import opened RowInvariant
  import opened Convergence
  import opened Replay
  import opened Scanner
  import opened RoundTrip

  /** The changes of one table's scan leave the rows of every other table alone. */
  lemma {:induction false} GroupsOfOneTable(
      env: Env, rows: Rows, changes: seq<Change>, groups: seq<seq<Indexed>>, table: string, id: RowId, n: nat)
    requires IsGrouping(changes, groups) && n <= |groups| && forall i | 0 <= i < |groups| :: groups[i] != []
    requires id.table != table && forall c | c in changes :: c.table == table
    ensures Lookup(RowsAfter(env, rows, groups, n), id) == Lookup(rows, id)
  {
    hide IsGrouping, GroupEffect, GroupHits, Uniform;
    if n > 0 {
      GroupsOfOneTable(env, rows, changes, groups, table, id, n - 1);
      GroupingShape(changes, groups);
      GroupOfOneTable(env, changes, groups, table, id, n - 1);
      NoHitsNoEffect(env, rows, RowsAfter(env, rows, groups, n - 1), groups[n - 1], id);
    }
  }

  lemma GroupOfOneTable(env: Env, changes: seq<Change>, groups: seq<seq<Indexed>>, table: string, id: RowId, i: nat)
    requires IsGrouping(changes, groups) && i < |groups|
    requires id.table != table && forall c | c in changes :: c.table == table
    ensures GroupHits(env, groups[i], id) == {}
  {
    hide IsGrouping, Identify, Eligible, IsComplete, GroupHits;
    GroupHitsAreChanges(env, changes, groups, id, i);
  }

  lemma ScannedTable(env: Env, rows: Rows, table: string, order: seq<RowId>, device: string, c: Change)
    requires Lists(TableRows(rows, table), order) && c in ScanOf(env, rows, order, None, NO_FILTERS, device)
    ensures exists id :: id in rows && id.table == table && Ships(env, id, rows[id], device, c)
    ensures c.table == table
  {
    hide ScanOf, Ships;
    ScanShips(env, rows, order, device, c);
    var id :| id in order && id in rows && Ships(env, id, rows[id], device, c);
    assert id in Members(order);
    ShipsTable(env, id, rows[id], device, c);
  }

  /** Whatever a traveling row ships can be decoded again. */
  lemma ShippedDecodes(env: Env, rows: Rows, table: string, peer: Rows, order: seq<RowId>, device: string)
    requires FirstSync(env, rows, table, peer) && Lists(TableRows(rows, table), order)
    ensures Decodable(env, ScanOf(env, rows, order, None, NO_FILTERS, device))
  {
    hide ScanOf, FirstSync, Lists, Admitted, ToSql, ToJson, PkText, HasSigs, IsData, EffectiveHlc;
    forall c | c in ScanOf(env, rows, order, None, NO_FILTERS, device)
      ensures ToSql(env.render, c.value).Some?
    {
      ScannedTable(env, rows, table, order, device, c);
      var id :| id in rows && id.table == table && Ships(env, id, rows[id], device, c);
      ValueSurvives(env, rows, table, peer, id, c.column);
    }
  }

  /** A committed scan is one step of the peer, and touches no other table. */
  lemma CommittedScan(
      env: Env, rows: Rows, table: string, peer: Rows, order: seq<RowId>, device: string, d: Delivery, written: seq<Cand>, peer': Rows)
    requires FirstSync(env, rows, table, peer) && Lists(TableRows(rows, table), order) && LogTargetsNoLog(env, peer)
    requires d.changes == ScanOf(env, rows, order, None, NO_FILTERS, device)
    requires PlainEffect(env, d.changes, peer, d.groups, d.ids, written, peer')
    ensures WellDelivered(env, d) && peer' == Next(env, peer, d)
    ensures forall id: RowId | id.table != table :: Lookup(peer', id) == Lookup(peer, id)
  {
    hide ScanOf, Lists, Travels, IsGrouping, RowsAfter, AllWrites, NamesLogId, Killed, TombstoneFor;
    GroupingShape(d.changes, d.groups);
    forall c | c in d.changes
      ensures c.table == table
    {
      ScannedTable(env, rows, table, order, device, c);
    }
    var after := RowsAfter(env, peer, d.groups, |d.groups|);
    forall id: RowId | id.table != table
      ensures Lookup(after, id) == Lookup(peer, id)
    {
      GroupsOfOneTable(env, peer, d.changes, d.groups, table, id, |d.groups|);
    }
    SameLogTargets(env, peer, after);
    NoLogIds(env, rows, table, peer, order, device, d);
    NothingKilled(env, after);
  }

  lemma SameLogTargets(env: Env, rows: Rows, after: Rows)
    requires LogTargetsNoLog(env, rows) && forall l: RowId | l.table == LOG_TABLE :: Lookup(after, l) == Lookup(rows, l)
    ensures LogTargetsNoLog(env, after)
  {
    hide Entry;
    forall l | l in after && l.table == LOG_TABLE && Entry(env, after[l]).Some?
      ensures Entry(env, after[l]).value.target.table != LOG_TABLE
    {
      assert Lookup(after, l) == Lookup(rows, l);
    }
  }

  lemma NothingKilled(env: Env, rows: Rows)
    ensures AfterDeletes(env, rows, {}) == rows
  {
  }

  lemma AcceptableIsVetted(env: Env, changes: seq<Change>, now: nat)
    requires forall c | c in changes :: Acceptable(env, c, now)
    ensures Vetted(env, AsSet(changes))
  {
    hide SafeIdentifier, IsTimestamp, IsComplete;
  }

  /**
   * Scan a table, apply the scan to a peer that has none of it, scan there.
   * The call on the peer commits exactly when every shipped change passes the
   * preflight and the peer's log is readable; then the peer has exactly the
   * rows that shipped something, cell by cell, its other tables are as they
   * were, and its own scan yields the same changes again exactly when every
   * row ships nothing or everything.
   */
  method SyncAndRescan(
      env: Env, cb: Callbacks, rows: Rows, table: string, device: string, peer: Replica, again: string, now: nat, later: nat)
    returns (error: Option<ScanError>, changes: seq<Change>, result: ApplyResult, copied: seq<Change>)
    requires FirstSync(env, rows, table, peer.rows) && LogTargetsNoLog(env, peer.rows) && Plain(env, cb)
    modifies peer, peer.clock
    ensures error == ScanRefusal(env, table, NO_FILTERS)
    ensures error.Some? ==> peer.rows == old(peer.rows)
    ensures error.None? ==>
              (result.Lands() <==> (forall c | c in changes :: Acceptable(env, c, now)) && LogReadable(old(peer.rows)))
    ensures error.None? && result.Lands() ==>
              && (forall id: RowId | id.table == table :: id in peer.rows <==> id in rows && !Silent(env, id, rows[id]))
              && (forall id: RowId | id.table == table && id in peer.rows :: Reproduced(env, id, rows[id], peer.rows[id]))
              && (forall id: RowId | id.table != table :: Lookup(peer.rows, id) == Lookup(old(peer.rows), id))
    ensures error.None? && result.Lands() ==>
              exists order :: Lists(TableRows(rows, table), order) && changes == ScanOf(env, rows, order, None, NO_FILTERS, device)
                              && (multiset(copied) == multiset(ScanOf(env, rows, order, None, NO_FILTERS, again))
                                  <==> AllOrNothing(env, rows, table))
  {
    hide FirstSync, Plain, PlainEffect, Account, Acceptable, LogReadable, Decodable, Lists, ScanOf, Next, Reproduced, IsGrouping,
         NamesLogId, AllOrNothing, LogTargetsNoLog, IsData, EffectiveHlc, Silent, Vetted, DataColumns, CarriesCrdtMetadata, TableRows;
    result, copied := ApplyResult.RolledBack, [];
    ghost var order, before := [], peer.rows;
    error, changes, order := ScanTable(env, rows, table, None, NO_FILTERS, device);
    SyncedTableHasColumns(env, rows, table, peer.rows);
    if error.Some? {
      return;
    }
    PlainPreflight(env, cb);
    ShippedDecodes(env, rows, table, before, order, device);
    ghost var groups, ids, written;
    result, groups, ids, written := peer.ApplyRemoteChanges(env, cb, changes, now, later);
    if result.Lands() {
      ghost var d := Delivery(changes, groups, ids);
      CommittedScan(env, rows, table, before, order, device, d, written, peer.rows);
      AcceptableIsVetted(env, changes, now);
      forall id: RowId | id.table == table
        ensures id in peer.rows <==> id in rows && !Silent(env, id, rows[id])
        ensures id in peer.rows ==> Reproduced(env, id, rows[id], peer.rows[id])
      {
        FullScanReproduces(env, rows, table, before, order, device, d, id);
        if id in rows {
          SilentShipsNothing(env, id, rows[id], device);
        }
      }
      var error2;
      ghost var order2;
      error2, copied, order2 := ScanTable(env, peer.rows, table, None, NO_FILTERS, again);
      TableRescanIff(env, rows, table, before, order, device, d, order2, again);
    }
  }

  lemma SyncedTableHasColumns(env: Env, rows: Rows, table: string, peer: Rows)
    requires FirstSync(env, rows, table, peer)
    ensures Columns(env, table) != []
  {
    hide Travels, TombstoneFor, UniqueNames, CarriesCrdtMetadata;
    MetadataMeansColumns(Columns(env, table));
  }

  lemma PlainPreflight(env: Env, cb: Callbacks)
    requires Plain(env, cb)
    ensures cb.preflightOk
  {
  }
}
