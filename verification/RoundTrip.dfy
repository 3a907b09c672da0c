/** A full scan applied to an empty peer, and scanned again there. */
module RoundTrip {
  import opened Common
  import opened Hlc
  import opened Values
  import opened Model
  import opened RowWrite
  import opened Deletes
  import opened RowMerge
  import opened RowInvariant
  import opened Convergence
  import opened Scanner

  /** A local row that can travel: its printed key parses back, its HLCs are timestamps, its integers fit. */
  predicate Travels(env: Env, id: RowId, row: Row) {
    && env.parsePks(PkText(env, id.table, id.key)) == Some(id.key)
    && KeyFits(env, Columns(env, id.table), id.key)
    && (row.hlc.Some? && row.hlc.value != "" ==> IsTimestamp(row.hlc.value))
    && (forall column | column in row.hlcs && row.hlcs[column] != "" :: IsTimestamp(row.hlcs[column]))
    && (forall column | column in row.values && row.values[column].Integer? :: FitsI64(row.values[column].i))
  }

  /** Sender, table and receiver of a first sync. */
  ghost predicate FirstSync(env: Env, rows: Rows, table: string, peer: Rows) {
    && table != LOG_TABLE
    && CarriesCrdtMetadata(Columns(env, table)) && UniqueNames(Columns(env, table))
    && (forall id | id in rows && id.table == table :: Travels(env, id, rows[id]))
    && (forall id | id in peer :: id.table != table)
    && (forall l, id: RowId | id.table == table :: TombstoneFor(env, peer, l, id).None?)
  }

  predicate IsData(env: Env, table: string, column: string) {
    exists c :: c in DataColumns(Columns(env, table)) && c.name == column
  }

  /** The change a row ships for a column. */
  predicate Ships(env: Env, id: RowId, row: Row, device: string, c: Change) {
    && IsData(env, id.table, c.column)
    && EffectiveHlc(row, c.column) == Some(c.hlc)
    && c == ChangeFor(env, id, row, c.column, c.hlc, device)
  }

  lemma {:induction false} EmittedMembers(env: Env, id: RowId, row: Row, device: string, n: nat)
    requires n <= |DataColumns(Columns(env, id.table))|
    ensures var data := DataColumns(Columns(env, id.table));
            && (forall c | c in Emitted(env, id, row, data, None, NO_FILTERS, device, n) :: Ships(env, id, row, device, c))
            && (forall i, h | 0 <= i < n && EffectiveHlc(row, data[i].name) == Some(h) ::
                  ChangeFor(env, id, row, data[i].name, h, device) in Emitted(env, id, row, data, None, NO_FILTERS, device, n))
  {
    hide Rank, EffectiveHlc, PkText, ToJson, HasSigs, DataColumns;
    if n > 0 {
      EmittedMembers(env, id, row, device, n - 1);
      var data := DataColumns(Columns(env, id.table));
      assert data[n - 1] in data;
    }
  }

  lemma RowShips(env: Env, id: RowId, row: Row, device: string, c: Change)
    ensures c in EmittedRow(env, id, row, None, NO_FILTERS, device) <==> Ships(env, id, row, device, c)
  {
    hide Rank, EffectiveHlc, PkText, ToJson, HasSigs, DataColumns, Emitted;
    var data := DataColumns(Columns(env, id.table));
    EmittedMembers(env, id, row, device, |data|);
    if Ships(env, id, row, device, c) {
      var info :| info in data && info.name == c.column;
      var i :| 0 <= i < |data| && data[i] == info;
      assert EffectiveHlc(row, data[i].name) == Some(c.hlc);
    }
  }

  lemma {:induction false} ScanShips(env: Env, rows: Rows, order: seq<RowId>, device: string, c: Change)
    ensures c in ScanOf(env, rows, order, None, NO_FILTERS, device) <==>
            exists id :: id in order && id in rows && Ships(env, id, rows[id], device, c)
  {
    hide EmittedRow, Ships;
    if order != [] {
      var id := order[|order| - 1];
      ScanShips(env, rows, order[..|order| - 1], device, c);
      if id in rows {
        RowShips(env, id, rows[id], device, c);
      }
    }
  }

  /** A shipped change is a hit for its own row on the peer, and for no other. */
  lemma ShippedHits(env: Env, rows: Rows, table: string, peer: Rows, device: string, from: RowId, c: Change, id: RowId)
    requires FirstSync(env, rows, table, peer) && from in rows && from.table == table && Ships(env, from, rows[from], device, c)
    ensures IsTimestamp(c.hlc) && (Hits(env, c, id) <==> id == from)
  {
    hide KeyFits, PkText, TombstoneFor, ToJson, HasSigs, DataColumns, CarriesCrdtMetadata;
    assert Travels(env, from, rows[from]);
    ShippedIsEligible(Columns(env, table), c.column);
    assert Columns(env, table) != [] by {
      MetadataMeansColumns(Columns(env, table));
    }
    assert Identify(env, c.table, c.pks) == Known(from.key);
  }

  lemma MetadataMeansColumns(columns: seq<ColumnInfo>)
    requires CarriesCrdtMetadata(columns)
    ensures columns != []
  {
  }

  /** The peer's hits for a row are what the row ships. */
  lemma PeerHits(env: Env, rows: Rows, table: string, peer: Rows, order: seq<RowId>, device: string, id: RowId, c: Change)
    requires FirstSync(env, rows, table, peer) && Lists(TableRows(rows, table), order)
    ensures c in HitsOf(env, AsSet(ScanOf(env, rows, order, None, NO_FILTERS, device)), id) <==>
            id in rows && id.table == table && Ships(env, id, rows[id], device, c)
  {
    hide Ships, Hits, FirstSync, ScanOf;
    ScanShips(env, rows, order, device, c);
    forall from | from in order
      ensures from in rows && from.table == table
    {
      assert from in Members(order);
    }
    forall from | from in order && from in rows && Ships(env, from, rows[from], device, c)
      ensures Hits(env, c, id) <==> id == from
    {
      ShippedHits(env, rows, table, peer, device, from, c, id);
    }
    if id in rows && id.table == table {
      assert id in Members(order);
    }
  }

  /** The peer's row ends with exactly the shipped cells: value, effective HLC and signature. */
  ghost predicate Reproduced(env: Env, id: RowId, row: Row, copy: Row) {
    && copy.hlc.Some? && IsTimestamp(copy.hlc.value)
    && forall column ::
        if IsData(env, id.table, column) && EffectiveHlc(row, column).Some? then
          && CellOf(copy.hlcs, column) == EffectiveHlc(row, column)
          && CellOf(copy.values, column) == Some(ColumnValue(row, column))
          && CellOf(copy.sigs, column) == if HasSigs(env, id.table) then CellOf(row.sigs, column) else None
        else CellOf(copy.hlcs, column) == None
  }

  lemma PeerInvariant(
      env: Env, rows: Rows, table: string, peer: Rows, order: seq<RowId>, device: string, d: Delivery, id: RowId)
    requires FirstSync(env, rows, table, peer) && Lists(TableRows(rows, table), order) && WellDelivered(env, d)
    requires d.changes == ScanOf(env, rows, order, None, NO_FILTERS, device) && Vetted(env, AsSet(d.changes))
    requires id.table == table
    ensures RowOk(env, id, HitsOf(env, AsSet(d.changes), id), {}, Lookup(Next(env, peer, d), id))
  {
    hide Rank, Hits, IsGrouping, Vetted, ScanOf, Travels, NamesLogId, Provenance, RowHlcIsMax, Covers, Lists, TombstoneFor, RowsAfter;
    assert HitsOf(env, {}, id) == {};
    assert TombsAre(env, peer, id, {});
    GroupsKeepRow(env, {}, peer, d.changes, d.groups, id, {}, |d.groups|);
    GroupedHitsAreHits(env, d.changes, d.groups, id);
    assert {} + HitsOf(env, AsSet(d.changes), id) == HitsOf(env, AsSet(d.changes), id);
    NoLogIds(env, rows, table, peer, order, device, d);
  }

  lemma NoLogIds(env: Env, rows: Rows, table: string, peer: Rows, order: seq<RowId>, device: string, d: Delivery)
    requires FirstSync(env, rows, table, peer) && Lists(TableRows(rows, table), order) && WellDelivered(env, d)
    requires d.changes == ScanOf(env, rows, order, None, NO_FILTERS, device)
    ensures d.ids == {}
  {
    hide Travels, IsGrouping, ScanOf, Ships, TombstoneFor, Admitted;
    forall c | c in d.changes
      ensures c.table == table
    {
      ScanShips(env, rows, order, device, c);
      var id :| id in order && id in rows && Ships(env, id, rows[id], device, c);
      assert id in Members(order);
      ShipsTable(env, id, rows[id], device, c);
    }
  }

  lemma ShipsTable(env: Env, id: RowId, row: Row, device: string, c: Change)
    requires Ships(env, id, row, device, c)
    ensures c.table == id.table
  {
    hide IsData, EffectiveHlc, PkText, ToJson, HasSigs;
  }

  /**
   * After a first sync the peer has exactly the rows that shipped something,
   * each reproduced cell by cell.
   */
  lemma FullScanReproduces(
      env: Env, rows: Rows, table: string, peer: Rows, order: seq<RowId>, device: string, d: Delivery, id: RowId)
    requires FirstSync(env, rows, table, peer) && Lists(TableRows(rows, table), order) && WellDelivered(env, d)
    requires d.changes == ScanOf(env, rows, order, None, NO_FILTERS, device) && Vetted(env, AsSet(d.changes))
    requires id.table == table
    ensures id in Next(env, peer, d) <==>
            id in rows && exists column :: IsData(env, table, column) && EffectiveHlc(rows[id], column).Some?
    ensures id in Next(env, peer, d) ==> Reproduced(env, id, rows[id], Next(env, peer, d)[id])
  {
    hide Rank, Hits, IsGrouping, Vetted, ScanOf, NamesLogId, Provenance, RowHlcIsMax, Covers, Lists, HitsOf, Next, FirstSync,
         Reproduced, IsData, EffectiveHlc;
    var hits := HitsOf(env, AsSet(d.changes), id);
    PeerInvariant(env, rows, table, peer, order, device, d, id);
    forall c
      ensures c in hits <==> id in rows && Ships(env, id, rows[id], device, c)
    {
      PeerHits(env, rows, table, peer, order, device, id, c);
    }
    if id in rows && exists column :: IsData(env, table, column) && EffectiveHlc(rows[id], column).Some? {
      var column :| IsData(env, table, column) && EffectiveHlc(rows[id], column).Some?;
      var c := ChangeFor(env, id, rows[id], column, EffectiveHlc(rows[id], column).value, device);
      assert Ships(env, id, rows[id], device, c);
      assert c in hits && AboveAll(c, {});
    }
    if id in Next(env, peer, d) {
      var c :| c in hits && AboveAll(c, {});
      assert IsData(env, table, c.column) && EffectiveHlc(rows[id], c.column).Some?;
      CopyIsReproduced(env, rows, table, peer, device, id, hits, Next(env, peer, d)[id]);
    }
  }

  lemma CopyIsReproduced(
      env: Env, rows: Rows, table: string, peer: Rows, device: string, id: RowId, hits: set<Change>, copy: Row)
    requires FirstSync(env, rows, table, peer) && id in rows && id.table == table
    requires forall c :: c in hits <==> Ships(env, id, rows[id], device, c)
    requires RowOk(env, id, hits, {}, Some(copy))
    ensures Reproduced(env, id, rows[id], copy)
  {
    hide Rank, IsData, EffectiveHlc, FirstSync, PkText, ToJson, ToSql, HasSigs, IsTimestamp, Alive;
    var row := rows[id];
    forall column
      ensures if IsData(env, id.table, column) && EffectiveHlc(row, column).Some? then
          && CellOf(copy.hlcs, column) == EffectiveHlc(row, column)
          && CellOf(copy.values, column) == Some(ColumnValue(row, column))
          && CellOf(copy.sigs, column) == if HasSigs(env, id.table) then CellOf(row.sigs, column) else None
        else CellOf(copy.hlcs, column) == None
    {
      if IsData(env, id.table, column) && EffectiveHlc(row, column).Some? {
        var c := ChangeFor(env, id, row, column, EffectiveHlc(row, column).value, device);
        assert Ships(env, id, row, device, c);
        assert c in hits && AboveAll(c, {});
        assert Covers(copy, c);
        var o :| o in hits && FromChange(env, id, copy, column, o);
        assert Ships(env, id, row, device, o);
        ValueSurvives(env, rows, table, peer, id, column);
      }
    }
    var column :| column in copy.hlcs && copy.hlcs[column] == copy.hlc.value;
    var o :| o in hits && FromChange(env, id, copy, column, o);
    assert Ships(env, id, row, device, o);
    ShippedHits(env, rows, table, peer, device, id, o, id);
  }

  lemma ValueSurvives(env: Env, rows: Rows, table: string, peer: Rows, id: RowId, column: string)
    requires FirstSync(env, rows, table, peer) && id in rows && id.table == table
    ensures ToSql(env.render, ToJson(ColumnValue(rows[id], column))) == Some(ColumnValue(rows[id], column))
  {
    hide KeyFits, PkText, IsTimestamp, ToSql, ToJson, TombstoneFor;
    assert Travels(env, id, rows[id]);
    StoredValueRoundTrip(env.render, ColumnValue(rows[id], column));
  }

  /** Every syncable column of the row has a usable HLC. */
  predicate FullyStamped(env: Env, id: RowId, row: Row) {
    forall c | c in DataColumns(Columns(env, id.table)) :: EffectiveHlc(row, c.name).Some?
  }

  lemma {:induction false} SameEmission(env: Env, id: RowId, row: Row, copy: Row, device: string, n: nat)
    requires Reproduced(env, id, row, copy) && FullyStamped(env, id, row)
    requires n <= |DataColumns(Columns(env, id.table))|
    requires forall c | c in DataColumns(Columns(env, id.table)) :: EffectiveHlc(row, c.name).value != ""
    ensures var data := DataColumns(Columns(env, id.table));
            Emitted(env, id, copy, data, None, NO_FILTERS, device, n) == Emitted(env, id, row, data, None, NO_FILTERS, device, n)
  {
    hide Rank, PkText, ToJson, HasSigs, DataColumns, IsTimestamp;
    if n > 0 {
      SameEmission(env, id, row, copy, device, n - 1);
      var info := DataColumns(Columns(env, id.table))[n - 1];
      assert info in DataColumns(Columns(env, id.table));
      assert IsData(env, id.table, info.name);
      assert EffectiveHlc(row, info.name).Some?;
    }
  }

  lemma EffectiveIsNotEmpty(row: Row, column: string)
    requires EffectiveHlc(row, column).Some?
    ensures EffectiveHlc(row, column).value != ""
  {
  }

  /**
   * Scanning the copy yields the row's changes again, up to the device id, if
   * and only if every syncable column of the row had a usable HLC: the copy
   * has a row HLC, so a column that did not travel would fall back to it.
   */
  lemma RescanIff(env: Env, id: RowId, row: Row, copy: Row, device: string)
    requires Reproduced(env, id, row, copy)
    ensures EmittedRow(env, id, copy, None, NO_FILTERS, device) == EmittedRow(env, id, row, None, NO_FILTERS, device)
            <==> FullyStamped(env, id, row)
  {
    hide Rank, PkText, ToJson, HasSigs, DataColumns, IsTimestamp, EffectiveHlc, Emitted, Reproduced;
    var data := DataColumns(Columns(env, id.table));
    if FullyStamped(env, id, row) {
      forall c | c in data
        ensures EffectiveHlc(row, c.name).value != ""
      {
        EffectiveIsNotEmpty(row, c.name);
      }
      SameEmission(env, id, row, copy, device, |data|);
    } else {
      var info :| info in data && EffectiveHlc(row, info.name).None?;
      CopyStampsEverything(env, id, row, copy, info.name);
      var c := ChangeFor(env, id, copy, info.name, EffectiveHlc(copy, info.name).value, device);
      assert Ships(env, id, copy, device, c);
      RowShips(env, id, copy, device, c);
      RowShips(env, id, row, device, c);
    }
  }

  lemma CopyStampsEverything(env: Env, id: RowId, row: Row, copy: Row, column: string)
    requires Reproduced(env, id, row, copy)
    ensures EffectiveHlc(copy, column).Some?
  {
    hide HasSigs, IsData;
    assert copy.hlc.value != "";
  }

  predicate NoDuplicates<T(==)>(s: seq<T>) {
    forall i, j | 0 <= i < j < |s| :: s[i] != s[j]
  }

  lemma JoinNoDuplicates<T>(a: seq<T>, b: seq<T>)
    requires NoDuplicates(a) && NoDuplicates(b) && forall x | x in b :: x !in a
    ensures NoDuplicates(a + b)
  {
    forall i, j | 0 <= i < j < |a + b|
      ensures (a + b)[i] != (a + b)[j]
    {
      if i < |a| <= j {
        assert b[j - |a|] in b && a[i] in a;
      }
    }
  }

  lemma {:induction false} CountsAtMostOne<T>(s: seq<T>, x: T)
    requires NoDuplicates(s)
    ensures multiset(s)[x] == if x in s then 1 else 0
  {
    if s != [] {
      var front, last := s[..|s| - 1], s[|s| - 1];
      CountsAtMostOne(front, x);
      assert s == front + [last];
      assert last !in front;
    }
  }

  lemma {:induction false} EmissionHasNoDuplicates(env: Env, id: RowId, row: Row, device: string, n: nat)
    requires UniqueNames(Columns(env, id.table)) && n <= |DataColumns(Columns(env, id.table))|
    ensures var data := DataColumns(Columns(env, id.table)); var e := Emitted(env, id, row, data, None, NO_FILTERS, device, n);
            NoDuplicates(e) && forall c | c in e :: exists i :: 0 <= i < n && data[i].name == c.column
  {
    hide Rank, PkText, ToJson, HasSigs, EffectiveHlc, DataColumns, UniqueNames;
    if n > 0 {
      EmissionHasNoDuplicates(env, id, row, device, n - 1);
      DataNamesDiffer(Columns(env, id.table));
    }
  }

  lemma {:induction false} DataNamesDiffer(columns: seq<ColumnInfo>)
    requires UniqueNames(columns)
    ensures forall i, j | 0 <= i < j < |DataColumns(columns)| :: DataColumns(columns)[i].name != DataColumns(columns)[j].name
  {
    hide IsDataColumn;
    if columns != [] {
      var front := columns[..|columns| - 1];
      DataNamesDiffer(front);
      DataColumnsMembers(front);
      forall c | c in DataColumns(front)
        ensures c.name != columns[|columns| - 1].name
      {
        var i :| 0 <= i < |front| && front[i] == c;
        assert columns[i] == c;
      }
    }
  }

  /** Rows that can travel ship changes of their own: the key text names the row. */
  lemma {:induction false} ScanHasNoDuplicates(env: Env, rows: Rows, order: seq<RowId>, table: string, device: string)
    requires UniqueNames(Columns(env, table)) && NoDuplicates(order)
    requires forall id | id in order :: id.table == table && env.parsePks(PkText(env, table, id.key)) == Some(id.key)
    ensures NoDuplicates(ScanOf(env, rows, order, None, NO_FILTERS, device))
  {
    hide PkText, Ships, EmittedRow, ScannedRow, UniqueNames, ScanOf;
    if order == [] {
      assert ScanOf(env, rows, [], None, NO_FILTERS, device) == [] by {
        NothingScanned(env, rows, None, NO_FILTERS, device);
      }
    } else {
      var front, id := order[..|order| - 1], order[|order| - 1];
      assert order == front + [id];
      assert forall x | x in front :: x in order;
      assert id in order && id !in front;
      ScanHasNoDuplicates(env, rows, front, table, device);
      ScanOneMore(env, rows, front, id, None, NO_FILTERS, device);
      if id in rows {
        RowHasNoDuplicates(env, id, rows[id], device);
        RowIsApart(env, rows, front, id, table, device);
        ScannedInFull(env, id, rows[id], device);
        JoinNoDuplicates(
          ScanOf(env, rows, front, None, NO_FILTERS, device), EmittedRow(env, id, rows[id], None, NO_FILTERS, device));
      }
    }
  }

  lemma ScannedInFull(env: Env, id: RowId, row: Row, device: string)
    ensures ScannedRow(env, id, row, None, NO_FILTERS, device) == EmittedRow(env, id, row, None, NO_FILTERS, device)
  {
    hide EmittedRow;
  }

  lemma RowHasNoDuplicates(env: Env, id: RowId, row: Row, device: string)
    requires UniqueNames(Columns(env, id.table))
    ensures NoDuplicates(EmittedRow(env, id, row, None, NO_FILTERS, device))
  {
    EmissionHasNoDuplicates(env, id, row, device, |DataColumns(Columns(env, id.table))|);
  }

  lemma RowIsApart(env: Env, rows: Rows, front: seq<RowId>, id: RowId, table: string, device: string)
    requires id in rows && id !in front
    requires forall x | x in front || x == id :: x.table == table && env.parsePks(PkText(env, table, x.key)) == Some(x.key)
    ensures forall c | c in EmittedRow(env, id, rows[id], None, NO_FILTERS, device) ::
              c !in ScanOf(env, rows, front, None, NO_FILTERS, device)
  {
    hide PkText, EmittedRow, ScanOf, IsData, EffectiveHlc, ToJson, HasSigs;
    forall c | c in EmittedRow(env, id, rows[id], None, NO_FILTERS, device)
      ensures c !in ScanOf(env, rows, front, None, NO_FILTERS, device)
    {
      RowShips(env, id, rows[id], device, c);
      ScanShips(env, rows, front, device, c);
    }
  }

  /** The row has no syncable column with a usable HLC. */
  predicate Silent(env: Env, id: RowId, row: Row) {
    forall c | c in DataColumns(Columns(env, id.table)) :: EffectiveHlc(row, c.name).None?
  }

  /** One row of the table, its copy included: both ship the same, or the copy ships something of its own. */
  lemma RowScansAlikeIff(
      env: Env, rows: Rows, table: string, peer: Rows, order: seq<RowId>, device: string, d: Delivery, id: RowId, again: string)
    requires FirstSync(env, rows, table, peer) && Lists(TableRows(rows, table), order) && WellDelivered(env, d)
    requires d.changes == ScanOf(env, rows, order, None, NO_FILTERS, device) && Vetted(env, AsSet(d.changes))
    requires id in rows && id.table == table
    ensures var after := Next(env, peer, d);
            var copied := if id in after then EmittedRow(env, id, after[id], None, NO_FILTERS, again) else [];
            copied == EmittedRow(env, id, rows[id], None, NO_FILTERS, again)
            <==> Silent(env, id, rows[id]) || FullyStamped(env, id, rows[id])
  {
    hide FirstSync, Lists, IsGrouping, NamesLogId, ScanOf, Vetted, Next, Reproduced, EmittedRow, EffectiveHlc, DataColumns, Ships;
    FullScanReproduces(env, rows, table, peer, order, device, d, id);
    var after := Next(env, peer, d);
    SilentShipsNothing(env, id, rows[id], again);
    if id in after {
      RescanIff(env, id, rows[id], after[id], again);
    }
  }

  lemma SilentShipsNothing(env: Env, id: RowId, row: Row, device: string)
    ensures Silent(env, id, row) <==> EmittedRow(env, id, row, None, NO_FILTERS, device) == []
    ensures Silent(env, id, row) <==> !exists column :: IsData(env, id.table, column) && EffectiveHlc(row, column).Some?
  {
    hide EffectiveHlc, DataColumns, EmittedRow, PkText, ToJson, HasSigs;
    if c :| c in DataColumns(Columns(env, id.table)) && EffectiveHlc(row, c.name).Some? {
      var x := ChangeFor(env, id, row, c.name, EffectiveHlc(row, c.name).value, device);
      assert IsData(env, id.table, c.name);
      RowShips(env, id, row, device, x);
    } else if EmittedRow(env, id, row, None, NO_FILTERS, device) != [] {
      var x := EmittedRow(env, id, row, None, NO_FILTERS, device)[0];
      RowShips(env, id, row, device, x);
    }
  }

  /** Every row of the table ships nothing or has a usable HLC in every syncable column. */
  predicate AllOrNothing(env: Env, rows: Rows, table: string) {
    forall id | id in rows && id.table == table :: Silent(env, id, rows[id]) || FullyStamped(env, id, rows[id])
  }

  lemma TableShips(env: Env, rows: Rows, table: string, order: seq<RowId>, device: string, c: Change)
    requires Lists(TableRows(rows, table), order)
    ensures c in ScanOf(env, rows, order, None, NO_FILTERS, device) <==>
            exists id :: id in TableRows(rows, table) && c in EmittedRow(env, id, rows[id], None, NO_FILTERS, device)
  {
    hide EmittedRow, ScanOf, TableRows;
    ScanMembers(env, rows, order, None, NO_FILTERS, device, c);
    assert forall id :: id in order <==> id in Members(order);
    assert TableRows(rows, table) <= rows.Keys by {
      TableRowsAreRows(rows, table);
    }
  }

  lemma TableRowsAreRows(rows: Rows, table: string)
    ensures TableRows(rows, table) <= rows.Keys && forall id | id in TableRows(rows, table) :: id.table == table
  {
  }

  lemma TravellersAreNamed(env: Env, rows: Rows, table: string, peer: Rows)
    requires FirstSync(env, rows, table, peer)
    ensures UniqueNames(Columns(env, table))
    ensures forall id | id in rows && id.table == table :: env.parsePks(PkText(env, table, id.key)) == Some(id.key)
  {
    hide PkText, KeyFits, IsTimestamp, UniqueNames, TombstoneFor, CarriesCrdtMetadata;
    forall id | id in rows && id.table == table
      ensures env.parsePks(PkText(env, table, id.key)) == Some(id.key)
    {
      assert Travels(env, id, rows[id]);
    }
  }

  lemma BothScansAreSets(
      env: Env, rows: Rows, table: string, peer: Rows, order: seq<RowId>, device: string, d: Delivery,
      order': seq<RowId>, again: string)
    requires FirstSync(env, rows, table, peer) && Lists(TableRows(rows, table), order) && WellDelivered(env, d)
    requires d.changes == ScanOf(env, rows, order, None, NO_FILTERS, device) && Vetted(env, AsSet(d.changes))
    requires Lists(TableRows(Next(env, peer, d), table), order')
    ensures NoDuplicates(ScanOf(env, Next(env, peer, d), order', None, NO_FILTERS, again))
    ensures NoDuplicates(ScanOf(env, rows, order, None, NO_FILTERS, again))
  {
    hide FirstSync, IsGrouping, NamesLogId, ScanOf, Vetted, Next, PkText, UniqueNames, TableRows, Reproduced, IsData, EffectiveHlc;
    var after := Next(env, peer, d);
    TravellersAreNamed(env, rows, table, peer);
    TableRowsAreRows(rows, table);
    TableRowsAreRows(after, table);
    assert forall id :: id in order <==> id in Members(order);
    assert forall id :: id in order' <==> id in Members(order');
    forall id | id in order'
      ensures id in rows
    {
      FullScanReproduces(env, rows, table, peer, order, device, d, id);
    }
    ScanHasNoDuplicates(env, rows, order, table, again);
    ScanHasNoDuplicates(env, after, order', table, again);
  }

  lemma AlikeEverywhere(
      env: Env, rows: Rows, table: string, peer: Rows, order: seq<RowId>, device: string, d: Delivery,
      order': seq<RowId>, again: string, c: Change)
    requires FirstSync(env, rows, table, peer) && Lists(TableRows(rows, table), order) && WellDelivered(env, d)
    requires d.changes == ScanOf(env, rows, order, None, NO_FILTERS, device) && Vetted(env, AsSet(d.changes))
    requires Lists(TableRows(Next(env, peer, d), table), order') && AllOrNothing(env, rows, table)
    ensures c in ScanOf(env, Next(env, peer, d), order', None, NO_FILTERS, again) <==>
            c in ScanOf(env, rows, order, None, NO_FILTERS, again)
  {
    hide FirstSync, IsGrouping, NamesLogId, ScanOf, Vetted, Next, Lists, EmittedRow, Silent, FullyStamped, Reproduced, IsData, EffectiveHlc;
    var after := Next(env, peer, d);
    TableShips(env, after, table, order', again, c);
    TableShips(env, rows, table, order, again, c);
    forall id | id in after && id.table == table
      ensures id in rows
    {
      FullScanReproduces(env, rows, table, peer, order, device, d, id);
    }
    forall id | id in rows && id.table == table
      ensures c in EmittedRow(env, id, rows[id], None, NO_FILTERS, again) <==>
              id in after && c in EmittedRow(env, id, after[id], None, NO_FILTERS, again)
    {
      RowScansAlikeIff(env, rows, table, peer, order, device, d, id, again);
    }
  }

  /** A row that ships something but not everything: its copy ships the missing column under the row HLC. */
  lemma UnlikeSomewhere(
      env: Env, rows: Rows, table: string, peer: Rows, order: seq<RowId>, device: string, d: Delivery,
      order': seq<RowId>, again: string)
    returns (c: Change)
    requires FirstSync(env, rows, table, peer) && Lists(TableRows(rows, table), order) && WellDelivered(env, d)
    requires d.changes == ScanOf(env, rows, order, None, NO_FILTERS, device) && Vetted(env, AsSet(d.changes))
    requires Lists(TableRows(Next(env, peer, d), table), order') && !AllOrNothing(env, rows, table)
    ensures c in ScanOf(env, Next(env, peer, d), order', None, NO_FILTERS, again)
    ensures c !in ScanOf(env, rows, order, None, NO_FILTERS, again)
  {
    hide FirstSync, IsGrouping, NamesLogId, ScanOf, Vetted, Next, Lists, EmittedRow, EffectiveHlc, DataColumns, Reproduced, PkText,
         ToJson, HasSigs;
    var after := Next(env, peer, d);
    var id :| id in rows && id.table == table && !Silent(env, id, rows[id]) && !FullyStamped(env, id, rows[id]);
    FullScanReproduces(env, rows, table, peer, order, device, d, id);
    SilentShipsNothing(env, id, rows[id], again);
    var info :| info in DataColumns(Columns(env, table)) && EffectiveHlc(rows[id], info.name).None?;
    CopyStampsEverything(env, id, rows[id], after[id], info.name);
    c := ChangeFor(env, id, after[id], info.name, EffectiveHlc(after[id], info.name).value, again);
    assert Ships(env, id, after[id], again, c);
    RowShips(env, id, after[id], again, c);
    TableShips(env, after, table, order', again, c);
    TableShips(env, rows, table, order, again, c);
    TravellersAreNamed(env, rows, table, peer);
    forall other | other in rows && other.table == table
      ensures c !in EmittedRow(env, other, rows[other], None, NO_FILTERS, again)
    {
      RowShips(env, other, rows[other], again, c);
      assert Ships(env, other, rows[other], again, c) ==> c.pks == PkText(env, table, other.key);
      assert c.pks == PkText(env, table, id.key);
    }
  }

  /**
   * Scanning the peer's table after the first sync yields the sender's
   * changes again, each once, if and only if every row of the sender's table
   * ships nothing or is fully stamped. `again` is the peer's device id.
   */
  lemma TableRescanIff(
      env: Env, rows: Rows, table: string, peer: Rows, order: seq<RowId>, device: string, d: Delivery,
      order': seq<RowId>, again: string)
    requires FirstSync(env, rows, table, peer) && Lists(TableRows(rows, table), order) && WellDelivered(env, d)
    requires d.changes == ScanOf(env, rows, order, None, NO_FILTERS, device) && Vetted(env, AsSet(d.changes))
    requires Lists(TableRows(Next(env, peer, d), table), order')
    ensures multiset(ScanOf(env, Next(env, peer, d), order', None, NO_FILTERS, again)) ==
            multiset(ScanOf(env, rows, order, None, NO_FILTERS, again))
            <==> AllOrNothing(env, rows, table)
  {
    hide FirstSync, IsGrouping, NamesLogId, ScanOf, Vetted, Next, AllOrNothing, Lists;
    var after := Next(env, peer, d);
    var theirs, ours := ScanOf(env, after, order', None, NO_FILTERS, again), ScanOf(env, rows, order, None, NO_FILTERS, again);
    BothScansAreSets(env, rows, table, peer, order, device, d, order', again);
    if AllOrNothing(env, rows, table) {
      forall c
        ensures c in theirs <==> c in ours
      {
        AlikeEverywhere(env, rows, table, peer, order, device, d, order', again, c);
      }
      forall c
        ensures multiset(theirs)[c] == multiset(ours)[c]
      {
        CountsAtMostOne(theirs, c);
        CountsAtMostOne(ours, c);
      }
    } else {
      var c := UnlikeSomewhere(env, rows, table, peer, order, device, d, order', again);
      assert c in multiset(theirs) && c !in multiset(ours);
    }
  }
}
