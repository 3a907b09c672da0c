/** The records the apply engine and the scanner work on. */
module Model {
  import opened Common
  import opened Hlc
  import opened Values

  const LOG_TABLE := "haex_deleted_rows"
  const HLC_COLUMN := "haex_hlc_no_sync"
  const COLUMN_HLCS_COLUMN := "haex_column_hlcs_no_sync"
  const COLUMN_SIGS_COLUMN := "haex_column_sigs_no_sync"
  const NO_SYNC_SUFFIX := "_no_sync"
  const LOG_TARGET_TABLE := "table_name"
  const LOG_TARGET_PKS := "row_pks"
  const LOG_ID := "id"

  /** One column-level change; `pks` is the JSON text naming the row. */
  datatype Change = Change(
    table: string, pks: string, column: string, hlc: string, value: Json, device: string, sig: Option<Json>)

  /** A change tagged with its position in the batch as it arrived. */
  datatype Indexed = Indexed(index: nat, change: Change)

  datatype ColumnInfo = ColumnInfo(name: string, isPk: bool)

  /** A parsed primary-key map. */
  type Key = map<string, Json>

  datatype RowId = RowId(table: string, key: Key)

  /**
   * A stored row: its row-level HLC (`None` is SQL NULL), the data columns and
   * the two per-column metadata maps, which are three separate SQL columns.
   */
  datatype Row = Row(
    hlc: Option<string>, values: map<string, SqlValue>, hlcs: map<string, string>, sigs: map<string, Json>)

  type Rows = map<RowId, Row>

  /**
   * The local schema together with the external functions the code calls: the
   * JSON parser for row identities, the JSON printer, Unicode's notion of an
   * alphanumeric character, SQLite's `=` between a row's column and a text,
   * the preflight's comparison of a clock difference with the tolerated
   * duration, and how many values the clock's counter bits number. Every
   * theorem holds for every environment.
   */
  datatype Env = Env(
    schema: map<string, seq<ColumnInfo>>,
    parsePks: string -> Option<Key>,
    render: Json -> string,
    alphanumeric: char -> bool,
    columnEquals: (RowId, Row, string, string) -> bool,
    withinTolerance: nat -> bool,
    counterUnit: nat)

  datatype SkipReason =
    | MissingTable | MissingCrdtMetadata | InvalidRowIdentity
    | UnknownColumn | ReservedColumn | NoSyncColumn
    | Stale | SupersededInBatch | ShadowedByDelete | PolicySkip
    | InsertNotNull | InsertUnique | InsertPrimaryKey

  function Columns(env: Env, table: string): seq<ColumnInfo> {
    if table in env.schema then env.schema[table] else []
  }

  predicate HasColumn(columns: seq<ColumnInfo>, name: string) {
    exists c :: c in columns && c.name == name
  }

  function PkNames(columns: seq<ColumnInfo>): set<string> {
    set c | c in columns && c.isPk :: c.name
  }

  predicate SafeIdentifier(env: Env, name: string) {
    name != "" && forall c | c in name :: env.alphanumeric(c) || c == '_' || c == '-'
  }

  predicate CarriesCrdtMetadata(columns: seq<ColumnInfo>) {
    HasColumn(columns, HLC_COLUMN) && HasColumn(columns, COLUMN_HLCS_COLUMN)
  }

  /** Whether a parsed key names exactly the primary key, safely, with bindable values. */
  predicate KeyFits(env: Env, columns: seq<ColumnInfo>, key: Key) {
    && PkNames(columns) != {}
    && PkNames(columns) == key.Keys
    && (forall name | name in key :: SafeIdentifier(env, name))
    && (forall name | name in key :: ToSql(env.render, key[name]).Some?)
  }

  datatype Identity = Known(key: Key) | Unknown(reason: SkipReason)

  /** The structural checks that decide which local row a change group names. */
  function Identify(env: Env, table: string, pks: string): Identity {
    var columns := Columns(env, table);
    if columns == [] then Unknown(MissingTable)
    else if !CarriesCrdtMetadata(columns) then Unknown(MissingCrdtMetadata)
    else
      match env.parsePks(pks)
      case None => Unknown(InvalidRowIdentity)
      case Some(key) => if KeyFits(env, columns, key) then Known(key) else Unknown(InvalidRowIdentity)
  }

  predicate Declared(env: Env, table: string, column: string) {
    table in env.schema && exists c :: c in env.schema[table] && c.name == column
  }

  predicate DeclaredKey(env: Env, table: string, column: string) {
    table in env.schema && exists c :: c in env.schema[table] && c.name == column && c.isPk
  }

  /** A text names a row of a CRDT table exactly when it parses to a bindable value for each of its key columns and for nothing else. */
  lemma KnownIff(env: Env, table: string, pks: string, key: Key)
    ensures Identify(env, table, pks) == Known(key) <==>
            && Declared(env, table, "haex_hlc_no_sync") && Declared(env, table, "haex_column_hlcs_no_sync")
            && env.parsePks(pks) == Some(key)
            && key != map[]
            && (forall name :: name in key <==> DeclaredKey(env, table, name))
            && (forall name | name in key :: SafeIdentifier(env, name) && ToSql(env.render, key[name]).Some?)
  {
    hide SafeIdentifier, ToSql;
    var columns := Columns(env, table);
    forall name
      ensures name in PkNames(columns) <==> DeclaredKey(env, table, name)
    {
    }
    if forall name :: name in key <==> DeclaredKey(env, table, name) {
      assert PkNames(columns) == key.Keys;
      assert key != map[] <==> key.Keys != {};
    }
  }

  /** Otherwise the reason is a missing table, missing metadata or an unusable key, in this order. */
  lemma UnknownIff(env: Env, table: string, pks: string)
    ensures Identify(env, table, pks) == Unknown(MissingTable) <==> !exists column :: Declared(env, table, column)
    ensures Identify(env, table, pks) == Unknown(MissingCrdtMetadata) <==>
            (exists column :: Declared(env, table, column)) &&
            !(Declared(env, table, "haex_hlc_no_sync") && Declared(env, table, "haex_column_hlcs_no_sync"))
    ensures Identify(env, table, pks).Unknown? ==>
              Identify(env, table, pks).reason in {MissingTable, MissingCrdtMetadata, InvalidRowIdentity}
  {
    hide KeyFits;
    if Columns(env, table) != [] {
      assert Columns(env, table)[0] in env.schema[table];
      assert Declared(env, table, Columns(env, table)[0].name);
    }
  }

  /** What a peer may not set, and why: the reasons in the order they are checked. */
  lemma ClassifyMeans(env: Env, table: string, column: string)
    ensures var reason := Classify(Columns(env, table), column);
            if !Declared(env, table, column) then reason == Some(UnknownColumn)
            else if column == "haex_hlc_no_sync" || column == "haex_column_hlcs_no_sync" || column == "haex_column_sigs_no_sync"
                    || DeclaredKey(env, table, column) then reason == Some(ReservedColumn)
            else if exists head :: column == head + "_no_sync" then reason == Some(NoSyncColumn)
            else reason == None
  {
    if EndsWith(column, NO_SYNC_SUFFIX) {
      assert column == column[..|column| - |NO_SYNC_SUFFIX|] + "_no_sync";
    }
    if head :| column == head + "_no_sync" {
      assert column[|column| - |NO_SYNC_SUFFIX|..] == "_no_sync";
    }
    assert HasColumn(Columns(env, table), column) <==> Declared(env, table, column);
    assert column in PkNames(Columns(env, table)) <==> DeclaredKey(env, table, column);
  }

  /** A safe name is safe character by character, and not empty. */
  lemma SafeIdentifierMeans(env: Env, a: string, b: string, c: char)
    ensures !SafeIdentifier(env, "")
    ensures SafeIdentifier(env, [c]) <==> env.alphanumeric(c) || c == '_' || c == '-'
    ensures a != "" && b != "" ==> (SafeIdentifier(env, a + b) <==> SafeIdentifier(env, a) && SafeIdentifier(env, b))
  {
    if a != "" && b != "" && SafeIdentifier(env, a + b) {
      assert forall x | x in a :: x in a + b;
      assert forall x | x in b :: x in a + b;
    }
  }

  predicate EndsWith(s: string, suffix: string) {
    |suffix| <= |s| && s[|s| - |suffix|..] == suffix
  }

  /** `None` clears the column for writing; otherwise why a peer may not set it. */
  function Classify(columns: seq<ColumnInfo>, column: string): Option<SkipReason> {
    if !HasColumn(columns, column) then Some(UnknownColumn)
    else if column == HLC_COLUMN || column == COLUMN_HLCS_COLUMN || column == COLUMN_SIGS_COLUMN
      || column in PkNames(columns) then Some(ReservedColumn)
    else if EndsWith(column, NO_SYNC_SUFFIX) then Some(NoSyncColumn)
    else None
  }

  predicate Eligible(env: Env, table: string, column: string) {
    Classify(Columns(env, table), column).None?
  }

  predicate HasSigs(env: Env, table: string) {
    HasColumn(Columns(env, table), COLUMN_SIGS_COLUMN)
  }

  /** A change that can compete for a cell: known row, eligible column, complete timestamp. */
  predicate Hits(env: Env, c: Change, id: RowId) {
    && c.table == id.table
    && Identify(env, c.table, c.pks) == Known(id.key)
    && Eligible(env, c.table, c.column)
    && IsComplete(c.hlc)
  }

  function Lookup(rows: Rows, id: RowId): Option<Row> {
    if id in rows then Some(rows[id]) else None
  }
}
