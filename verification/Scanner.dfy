/** Reading a table's local changes, in full or since a cursor. */
module Scanner {
  import opened Common
  import opened Hlc
  import opened TextOrder
  import opened Values
  import opened Model
  import opened RowWrite

  predicate IsDataColumn(c: ColumnInfo) {
    !c.isPk && !EndsWith(c.name, NO_SYNC_SUFFIX)
  }

  /** The syncable columns, in schema order. */
  function DataColumns(columns: seq<ColumnInfo>): seq<ColumnInfo> {
    if columns == [] then []
    else DataColumns(columns[..|columns| - 1]) + if IsDataColumn(columns[|columns| - 1]) then [columns[|columns| - 1]] else []
  }

  function PkColumns(columns: seq<ColumnInfo>): seq<ColumnInfo> {
    if columns == [] then []
    else PkColumns(columns[..|columns| - 1]) + if columns[|columns| - 1].isPk then [columns[|columns| - 1]] else []
  }

  lemma {:induction false} DataColumnsMembers(columns: seq<ColumnInfo>)
    ensures forall c :: c in DataColumns(columns) <==> c in columns && IsDataColumn(c)
  {
    if columns != [] {
      DataColumnsMembers(columns[..|columns| - 1]);
    }
  }

  predicate UniqueNames(columns: seq<ColumnInfo>) {
    forall i, j | 0 <= i < j < |columns| :: columns[i].name != columns[j].name
  }

  lemma MetadataNamesAreNoSync()
    ensures EndsWith(HLC_COLUMN, NO_SYNC_SUFFIX)
    ensures EndsWith(COLUMN_HLCS_COLUMN, NO_SYNC_SUFFIX)
    ensures EndsWith(COLUMN_SIGS_COLUMN, NO_SYNC_SUFFIX)
  {
    assert HLC_COLUMN[|HLC_COLUMN| - |NO_SYNC_SUFFIX|..] == NO_SYNC_SUFFIX;
    assert COLUMN_HLCS_COLUMN[|COLUMN_HLCS_COLUMN| - |NO_SYNC_SUFFIX|..] == NO_SYNC_SUFFIX;
    assert COLUMN_SIGS_COLUMN[|COLUMN_SIGS_COLUMN| - |NO_SYNC_SUFFIX|..] == NO_SYNC_SUFFIX;
  }

  /** What the scanner ships is exactly what apply lets in, on a schema with distinct column names. */
  lemma ShippedIsEligible(columns: seq<ColumnInfo>, name: string)
    requires UniqueNames(columns)
    ensures Classify(columns, name).None? <==> exists c :: c in DataColumns(columns) && c.name == name
  {
    hide EndsWith;
    DataColumnsMembers(columns);
    MetadataNamesAreNoSync();
    if Classify(columns, name).None? {
      var c :| c in columns && c.name == name;
      assert !c.isPk;
      assert c in DataColumns(columns);
    }
    if c :| c in DataColumns(columns) && c.name == name {
      assert c in columns;
      forall o | o in columns && o.isPk
        ensures o.name != name
      {
        var i :| 0 <= i < |columns| && columns[i] == c;
        var j :| 0 <= j < |columns| && columns[j] == o;
        assert i != j;
      }
    }
  }

  /** The usable HLC of a column: its own, or the row's; an empty string is none. */
  function EffectiveHlc(row: Row, column: string): Option<string> {
    if column in row.hlcs && row.hlcs[column] != "" then Some(row.hlcs[column])
    else if row.hlc.Some? && row.hlc.value != "" then row.hlc
    else None
  }

  function ColumnValue(row: Row, column: string): SqlValue {
    CellOf(row.values, column).GetOr(Null)
  }

  /** The stored primary key as it is printed: SQL values turned back to JSON. */
  function PrintedKey(env: Env, key: Key): Key {
    map name | name in key :: ToJson(ToSql(env.render, key[name]).GetOr(Null))
  }

  /** A printed key names the same columns and binds to the same SQL values. */
  lemma PrintedKeyBinds(env: Env, key: Key)
    requires forall name | name in key :: ToSql(env.render, key[name]).Some?
    ensures PrintedKey(env, key).Keys == key.Keys
    ensures forall name | name in key :: ToSql(env.render, PrintedKey(env, key)[name]) == ToSql(env.render, key[name])
  {
    hide ToSql, ToJson;
    forall name | name in key
      ensures ToSql(env.render, PrintedKey(env, key)[name]) == ToSql(env.render, key[name])
    {
      StoredFits(env.render, key[name]);
      StoredValueRoundTrip(env.render, ToSql(env.render, key[name]).value);
    }
  }

  lemma StoredFits(render: Json -> string, j: Json)
    ensures ToSql(render, j).Some? && ToSql(render, j).value.Integer? ==> FitsI64(ToSql(render, j).value.i)
  {
  }

  /** The canonical JSON text of a primary key, keys in schema order. */
  function PkFields(env: Env, pks: seq<ColumnInfo>, key: Key): string {
    if pks == [] then ""
    else
      var last := pks[|pks| - 1].name;
      PkFields(env, pks[..|pks| - 1], key) + (if |pks| == 1 then "" else ",") +
      env.render(JString(last)) + ":" + env.render(if last in key then key[last] else JNull)
  }

  function PkText(env: Env, table: string, key: Key): string {
    "{" + PkFields(env, PkColumns(Columns(env, table)), PrintedKey(env, key)) + "}"
  }

  lemma Reassociate(sofar: string, sep: string, name: string, value: string)
    ensures ((("{" + sofar + sep) + name) + ":") + value == "{" + (sofar + sep + name + ":" + value)
    ensures "{" + sofar + "" == "{" + sofar
  {
  }

  method BuildPkJson(env: Env, pks: seq<ColumnInfo>, key: Key) returns (text: string)
    ensures text == "{" + PkFields(env, pks, key) + "}"
  {
    text := "{";
    var first := true;
    for i := 0 to |pks|
      invariant text == "{" + PkFields(env, pks[..i], key)
      invariant first <==> i == 0
    {
      assert pks[..i + 1][..i] == pks[..i];
      var name := pks[i].name;
      ghost var sofar := PkFields(env, pks[..i], key);
      ghost var value := env.render(if name in key then key[name] else JNull);
      Reassociate(sofar, if first then "" else ",", env.render(JString(name)), value);
      if !first {
        text := text + ",";
      }
      first := false;
      text := text + env.render(JString(name));
      text := text + ":";
      text := text + env.render(if name in key then key[name] else JNull);
      assert PkFields(env, pks[..i + 1], key) == sofar + (if i == 0 then "" else ",") + env.render(JString(name)) + ":" + value;
    }
    assert pks[..|pks|] == pks;
    text := text + "}";
  }

  datatype ColumnEq = ColumnEq(column: string, text: string)

  datatype Filters = Filters(originNode: Option<nat>, rowPks: Option<set<string>>, columnEq: Option<ColumnEq>)

  const NO_FILTERS := Filters(None, None, None)

  predicate FromNode(hlc: string, node: nat) {
    IsComplete(hlc) && ParseUnsigned(NodePart(hlc), 16, TWO_POW_128) == Some(node)
  }

  predicate Passes(hlc: string, after: Option<string>, filters: Filters) {
    && (after.None? || Newer(hlc, after.value))
    && (filters.originNode.None? || FromNode(hlc, filters.originNode.value))
  }

  function ChangeFor(env: Env, id: RowId, row: Row, column: string, hlc: string, device: string): Change {
    Change(
      id.table, PkText(env, id.table, id.key), column, hlc, ToJson(ColumnValue(row, column)), device,
      if HasSigs(env, id.table) then CellOf(row.sigs, column) else None)
  }

  /** The changes of one row's first `n` data columns. */
  function Emitted(
      env: Env, id: RowId, row: Row, data: seq<ColumnInfo>, after: Option<string>, filters: Filters, device: string, n: nat)
    : seq<Change>
    requires n <= |data|
  {
    if n == 0 then []
    else
      var column := data[n - 1].name;
      var hlc := EffectiveHlc(row, column);
      Emitted(env, id, row, data, after, filters, device, n - 1) +
      if hlc.Some? && Passes(hlc.value, after, filters) then [ChangeFor(env, id, row, column, hlc.value, device)] else []
  }

  predicate Wanted(env: Env, id: RowId, filters: Filters) {
    filters.rowPks.None? || PkText(env, id.table, id.key) in filters.rowPks.value
  }

  function EmittedRow(env: Env, id: RowId, row: Row, after: Option<string>, filters: Filters, device: string): seq<Change> {
    var data := DataColumns(Columns(env, id.table));
    if Wanted(env, id, filters) then Emitted(env, id, row, data, after, filters, device, |data|) else []
  }

  /** Append one row's changes to the output. */
  method EmitRowChanges(
      env: Env, id: RowId, row: Row, after: Option<string>, filters: Filters, device: string, out: seq<Change>)
    returns (out': seq<Change>)
    ensures out' == out + EmittedRow(env, id, row, after, filters, device)
  {
    hide Passes, ToJson, PkFields, HasSigs, EffectiveHlc, DataColumns, PkColumns;
    out' := out;
    var pkText := BuildPkJson(env, PkColumns(Columns(env, id.table)), PrintedKey(env, id.key));
    if filters.rowPks.Some? && pkText !in filters.rowPks.value {
      return;
    }
    var data := DataColumns(Columns(env, id.table));
    for i := 0 to |data|
      invariant out' == out + Emitted(env, id, row, data, after, filters, device, i)
    {
      var column := data[i].name;
      var hlc := EffectiveHlc(row, column);
      if hlc.None? {
        assert out + Emitted(env, id, row, data, after, filters, device, i) + [] == out';
        continue;
      }
      if Passes(hlc.value, after, filters) {
        var sig := if HasSigs(env, id.table) then CellOf(row.sigs, column) else None;
        out' := out' + [Change(id.table, pkText, column, hlc.value, ToJson(ColumnValue(row, column)), device, sig)];
      }
    }
  }

  /** The SQL prefilter on the row-level HLC, which compares text. */
  predicate Prefiltered(row: Row, after: Option<string>) {
    after.None? || row.hlc.None? || row.hlc.value == "" || TextLess(after.value, row.hlc.value)
  }

  /** The SQL equality on one column; a column the table does not have matches no row. */
  predicate Matches(env: Env, id: RowId, row: Row, filters: Filters) {
    filters.columnEq.None? ||
    (HasColumn(Columns(env, id.table), filters.columnEq.value.column) &&
     env.columnEquals(id, row, filters.columnEq.value.column, filters.columnEq.value.text))
  }

  /** What a scan ships for one stored row: nothing unless the SQL predicates select it. */
  function ScannedRow(env: Env, id: RowId, row: Row, after: Option<string>, filters: Filters, device: string): seq<Change> {
    if Prefiltered(row, after) && Matches(env, id, row, filters) then EmittedRow(env, id, row, after, filters, device) else []
  }

  /** The changes of the rows in `order`, row by row. */
  function ScanOf(env: Env, rows: Rows, order: seq<RowId>, after: Option<string>, filters: Filters, device: string): seq<Change>
  {
    if order == [] then []
    else
      var id := order[|order| - 1];
      ScanOf(env, rows, order[..|order| - 1], after, filters, device) +
      if id in rows then ScannedRow(env, id, rows[id], after, filters, device) else []
  }

  /** `order` lists exactly these rows, each once. */
  predicate Lists(ids: set<RowId>, order: seq<RowId>) {
    && (forall i, j | 0 <= i < j < |order| :: order[i] != order[j])
    && Members(order) == ids
  }

  function Members(order: seq<RowId>): set<RowId> {
    set id | id in order
  }

  function TableRows(rows: Rows, table: string): set<RowId> {
    set id | id in rows && id.table == table
  }

  /** A column that syncs: declared, not part of the primary key, and not named for staying local. */
  ghost predicate Syncs(env: Env, table: string, column: string) {
    && table in env.schema
    && exists o :: o in env.schema[table] && o.name == column && !o.isPk && !NamedLocal(column)
  }

  ghost predicate NamedLocal(column: string) {
    exists head :: column == head + "_no_sync"
  }

  /** The change says what the stored row holds in its column: the value, the HLC it goes by, and the signature. */
  ghost predicate Tells(env: Env, id: RowId, row: Row, device: string, c: Change) {
    && Syncs(env, id.table, c.column)
    && c.table == id.table && c.pks == PkText(env, id.table, id.key) && c.device == device
    && c.value == ToJson(if c.column in row.values then row.values[c.column] else Null)
    && c.hlc != "" && (if c.column in row.hlcs && row.hlcs[c.column] != "" then c.hlc == row.hlcs[c.column] else row.hlc == Some(c.hlc))
    && c.sig == (if Declared(env, id.table, "haex_column_sigs_no_sync") && c.column in row.sigs then Some(row.sigs[c.column]) else None)
  }

  /** The change meets the cursor and every filter. */
  ghost predicate Wants(env: Env, id: RowId, row: Row, after: Option<string>, filters: Filters, c: Change) {
    && (after.Some? ==> Rank(c.hlc) > Rank(after.value))
    && (after.Some? && row.hlc.Some? && row.hlc.value != "" ==> TextLess(after.value, row.hlc.value))
    && (filters.originNode.Some? ==>
          '/' in c.hlc && ParseUnsigned(NodePart(c.hlc), 16, TWO_POW_128) == Some(filters.originNode.value))
    && (filters.rowPks.Some? ==> c.pks in filters.rowPks.value)
    && (filters.columnEq.Some? ==>
          && Declared(env, id.table, filters.columnEq.value.column)
          && env.columnEquals(id, row, filters.columnEq.value.column, filters.columnEq.value.text))
  }

  lemma LocalNames(column: string)
    ensures EndsWith(column, NO_SYNC_SUFFIX) <==> NamedLocal(column)
  {
    if EndsWith(column, NO_SYNC_SUFFIX) {
      assert column == column[..|column| - |NO_SYNC_SUFFIX|] + "_no_sync";
    }
    if head :| column == head + "_no_sync" {
      assert column[|column| - |NO_SYNC_SUFFIX|..] == "_no_sync";
    }
  }

  lemma DeclaredMeans(env: Env, table: string, column: string)
    ensures HasColumn(Columns(env, table), column) <==> Declared(env, table, column)
  {
  }

  lemma DataColumnMeans(env: Env, table: string, column: string)
    ensures (exists o :: o in DataColumns(Columns(env, table)) && o.name == column) <==> Syncs(env, table, column)
  {
    hide EndsWith, NamedLocal, DataColumns;
    DataColumnsMembers(Columns(env, table));
    LocalNames(column);
    if exists o :: o in DataColumns(Columns(env, table)) && o.name == column {
      var o :| o in DataColumns(Columns(env, table)) && o.name == column;
      assert o in Columns(env, table) && IsDataColumn(o);
      assert table in env.schema && o in env.schema[table];
    }
    if Syncs(env, table, column) {
      var o :| o in env.schema[table] && o.name == column && !o.isPk && !NamedLocal(column);
      assert o in DataColumns(Columns(env, table));
    }
  }

  lemma EffectiveHlcMeans(row: Row, column: string, h: string)
    ensures EffectiveHlc(row, column) == Some(h) <==>
            h != "" && if column in row.hlcs && row.hlcs[column] != "" then h == row.hlcs[column] else row.hlc == Some(h)
  {
  }

  lemma {:induction false} EmittedIff(
      env: Env, id: RowId, row: Row, data: seq<ColumnInfo>, after: Option<string>, filters: Filters, device: string, n: nat, c: Change)
    requires n <= |data|
    ensures c in Emitted(env, id, row, data, after, filters, device, n) <==>
            exists i :: 0 <= i < n && EmitsAt(env, id, row, data[i].name, after, filters, device, c)
  {
    hide EffectiveHlc, Passes, ChangeFor;
    if n > 0 {
      EmittedIff(env, id, row, data, after, filters, device, n - 1, c);
      EmitsAtMeans(env, id, row, data[n - 1].name, after, filters, device, c);
    }
  }

  ghost predicate EmitsAt(
      env: Env, id: RowId, row: Row, column: string, after: Option<string>, filters: Filters, device: string, c: Change)
  {
    EffectiveHlc(row, column) == Some(c.hlc) && Passes(c.hlc, after, filters) && c == ChangeFor(env, id, row, column, c.hlc, device)
  }

  lemma EmitsAtMeans(
      env: Env, id: RowId, row: Row, column: string, after: Option<string>, filters: Filters, device: string, c: Change)
    ensures EmitsAt(env, id, row, column, after, filters, device, c) <==>
            var hlc := EffectiveHlc(row, column);
            c in if hlc.Some? && Passes(hlc.value, after, filters) then [ChangeFor(env, id, row, column, hlc.value, device)] else []
  {
    hide EffectiveHlc, Passes, PkText, ToJson, HasSigs;
  }

  lemma EmittedRowIff(
      env: Env, id: RowId, row: Row, after: Option<string>, filters: Filters, device: string, c: Change)
    ensures c in EmittedRow(env, id, row, after, filters, device) <==>
            Wanted(env, id, filters) && Syncs(env, id.table, c.column) && EmitsAt(env, id, row, c.column, after, filters, device, c)
  {
    hide EffectiveHlc, Passes, PkText, ToJson, HasSigs, DataColumns, Syncs, Emitted;
    var data := DataColumns(Columns(env, id.table));
    EmittedIff(env, id, row, data, after, filters, device, |data|, c);
    DataColumnMeans(env, id.table, c.column);
    if Syncs(env, id.table, c.column) {
      var o :| o in data && o.name == c.column;
      var i :| 0 <= i < |data| && data[i] == o;
      assert data[i].name == c.column;
    }
    if i :| 0 <= i < |data| && EmitsAt(env, id, row, data[i].name, after, filters, device, c) {
      assert data[i] in data;
    }
  }

  /** One row ships a change exactly when the change tells what the row holds and is what was asked for. */
  lemma ScannedRowMeans(env: Env, id: RowId, row: Row, after: Option<string>, filters: Filters, device: string, c: Change)
    ensures c in ScannedRow(env, id, row, after, filters, device) <==>
            Tells(env, id, row, device, c) && Wants(env, id, row, after, filters, c)
  {
    hide EffectiveHlc, PkText, ToJson, Syncs, EmittedRow, Time, Node, NodePart, ParseUnsigned, TextLess, Columns, Rank, HasColumn, Declared;
    EmittedRowIff(env, id, row, after, filters, device, c);
    EffectiveHlcMeans(row, c.column, c.hlc);
    DeclaredMeans(env, id.table, COLUMN_SIGS_COLUMN);
    if filters.columnEq.Some? {
      DeclaredMeans(env, id.table, filters.columnEq.value.column);
    }
  }

  datatype ScanError = UnsafeFilter | NoPrimaryKey | MissingMetadata

  predicate SafeFilter(env: Env, filters: Filters) {
    filters.columnEq.None? || SafeIdentifier(env, filters.columnEq.value.column)
  }

  /** `None` when the scan runs; a table without a schema has nothing to scan. */
  ghost function ScanRefusal(env: Env, table: string, filters: Filters): Option<ScanError> {
    var columns := Columns(env, table);
    if filters.columnEq.Some? && !SafeIdentifier(env, filters.columnEq.value.column) then Some(UnsafeFilter)
    else if columns == [] then None
    else if !exists o :: o in columns && o.isPk then Some(NoPrimaryKey)
    else if !Declared(env, table, "haex_hlc_no_sync") || !Declared(env, table, "haex_column_hlcs_no_sync") then Some(MissingMetadata)
    else None
  }

  /** One table scan; the database hands out the rows in an order of its own. */
  method ScanTable(env: Env, rows: Rows, table: string, after: Option<string>, filters: Filters, device: string)
    returns (error: Option<ScanError>, changes: seq<Change>, ghost order: seq<RowId>)
    ensures error == ScanRefusal(env, table, filters)
    ensures error.Some? || Columns(env, table) == [] ==> changes == []
    ensures error.None? && Columns(env, table) != [] ==>
              Lists(TableRows(rows, table), order) && changes == ScanOf(env, rows, order, after, filters, device)
    ensures error.None? && Columns(env, table) != [] ==>
              forall c :: c in changes <==>
                exists id :: id in rows && id.table == table && Tells(env, id, rows[id], device, c) &&
                             Wants(env, id, rows[id], after, filters, c)
  {
    hide ScannedRow, SafeIdentifier, Tells, Wants, ScanOf, PkColumns, Lists;
    error, changes, order := None, [], [];
    PkColumnsMembers(Columns(env, table));
    DeclaredMeans(env, table, HLC_COLUMN);
    DeclaredMeans(env, table, COLUMN_HLCS_COLUMN);
    if !SafeFilter(env, filters) {
      error := Some(UnsafeFilter);
      return;
    }
    var columns := Columns(env, table);
    if columns == [] {
      return;
    }
    if PkColumns(columns) == [] {
      error := Some(NoPrimaryKey);
      return;
    }
    if !CarriesCrdtMetadata(columns) {
      error := Some(MissingMetadata);
      return;
    }
    if filters.columnEq.Some? && !HasColumn(columns, filters.columnEq.value.column) {
      order := Listing(TableRows(rows, table));
      ListedIsStored(rows, table, order);
      NothingMatches(env, rows, order, after, filters, device);
    } else {
      changes, order := ScanRows(env, rows, TableRows(rows, table), after, filters, device);
    }
    forall c
      ensures c in changes <==>
        exists id :: id in rows && id.table == table && Tells(env, id, rows[id], device, c) &&
                     Wants(env, id, rows[id], after, filters, c)
    {
      ScanTells(env, rows, table, order, after, filters, device, c);
    }
  }

  lemma {:induction false} PkColumnsMembers(columns: seq<ColumnInfo>)
    ensures PkColumns(columns) == [] <==> !exists o :: o in columns && o.isPk
  {
    if columns != [] {
      PkColumnsMembers(columns[..|columns| - 1]);
      assert columns[|columns| - 1] in columns;
    }
  }

  lemma ListedIsStored(rows: Rows, table: string, order: seq<RowId>)
    requires Lists(TableRows(rows, table), order)
    ensures forall id :: id in order <==> id in rows && id.table == table
  {
    assert forall id :: id in order <==> id in Members(order);
  }

  lemma ScanTells(
      env: Env, rows: Rows, table: string, order: seq<RowId>, after: Option<string>, filters: Filters, device: string, c: Change)
    requires Lists(TableRows(rows, table), order)
    ensures c in ScanOf(env, rows, order, after, filters, device) <==>
            exists id :: id in rows && id.table == table && Tells(env, id, rows[id], device, c) &&
                         Wants(env, id, rows[id], after, filters, c)
  {
    hide ScannedRow, Tells, Wants, ScanOf, Lists, TableRows;
    ScanMembers(env, rows, order, after, filters, device, c);
    ListedIsStored(rows, table, order);
    forall id | id in rows
      ensures c in ScannedRow(env, id, rows[id], after, filters, device) <==>
              Tells(env, id, rows[id], device, c) && Wants(env, id, rows[id], after, filters, c)
    {
      ScannedRowMeans(env, id, rows[id], after, filters, device, c);
    }
  }

  lemma Listing(ids: set<RowId>) returns (order: seq<RowId>)
    ensures Lists(ids, order)
  {
    order := [];
    if id :| id in ids {
      order := Listing(ids - {id});
      ListOneMore(ids - {id}, order, id);
      order := order + [id];
      assert ids - {id} + {id} == ids;
    }
  }

  lemma {:induction false} NothingMatches(
      env: Env, rows: Rows, order: seq<RowId>, after: Option<string>, filters: Filters, device: string)
    requires filters.columnEq.Some?
    requires forall id | id in order :: !HasColumn(Columns(env, id.table), filters.columnEq.value.column)
    ensures ScanOf(env, rows, order, after, filters, device) == []
  {
    hide EmittedRow, Prefiltered, HasColumn;
    if order != [] {
      assert order[|order| - 1] in order;
      NothingMatches(env, rows, order[..|order| - 1], after, filters, device);
    }
  }

  lemma {:induction false} ScanMembers(
      env: Env, rows: Rows, order: seq<RowId>, after: Option<string>, filters: Filters, device: string, c: Change)
    ensures c in ScanOf(env, rows, order, after, filters, device) <==>
            exists id :: id in order && id in rows && c in ScannedRow(env, id, rows[id], after, filters, device)
  {
    hide ScannedRow;
    if order != [] {
      ScanMembers(env, rows, order[..|order| - 1], after, filters, device, c);
      assert order[|order| - 1] in order;
    }
  }

  method ScanRows(env: Env, rows: Rows, ids: set<RowId>, after: Option<string>, filters: Filters, device: string)
    returns (changes: seq<Change>, ghost order: seq<RowId>)
    requires ids <= rows.Keys
    ensures Lists(ids, order) && changes == ScanOf(env, rows, order, after, filters, device)
  {
    hide EmittedRow, Prefiltered, Matches, ScanOf, Lists;
    changes, order := [], [];
    NothingScanned(env, rows, after, filters, device);
    assert ids - ids == {};
    var todo := ids;
    while todo != {}
      invariant todo <= ids && Lists(ids - todo, order)
      invariant changes == ScanOf(env, rows, order, after, filters, device)
      decreases |todo|
    {
      var id :| id in todo;
      ListOneMore(ids - todo, order, id);
      ScanOneMore(env, rows, order, id, after, filters, device);
      assert ids - (todo - {id}) == (ids - todo) + {id};
      todo, order := todo - {id}, order + [id];
      if Prefiltered(rows[id], after) && Matches(env, id, rows[id], filters) {
        changes := EmitRowChanges(env, id, rows[id], after, filters, device, changes);
      }
    }
    assert ids - {} == ids;
  }

  lemma NothingScanned(env: Env, rows: Rows, after: Option<string>, filters: Filters, device: string)
    ensures Lists({}, []) && ScanOf(env, rows, [], after, filters, device) == []
  {
  }

  lemma ListOneMore(ids: set<RowId>, order: seq<RowId>, id: RowId)
    requires Lists(ids, order) && id !in ids
    ensures Lists(ids + {id}, order + [id])
  {
    assert Members(order + [id]) == Members(order) + {id};
  }

  lemma ScanOneMore(
      env: Env, rows: Rows, order: seq<RowId>, id: RowId, after: Option<string>, filters: Filters, device: string)
    ensures ScanOf(env, rows, order + [id], after, filters, device) ==
            ScanOf(env, rows, order, after, filters, device) +
            if id in rows then ScannedRow(env, id, rows[id], after, filters, device) else []
  {
    hide ScannedRow;
    assert (order + [id])[..|order|] == order;
  }
}
