/** The delete log: shadowing stale inserts before a batch, deleting target rows after it. */
module Deletes {
  import opened Common
  import opened Hlc
  import opened Values
  import opened Model
  import opened Reporting

  /** A delete-log row, read: which row it deletes and when. */
  datatype Tombstone = Tombstone(target: RowId, hlc: string)

  /** The two text columns of a delete-log row are NOT NULL; anything else fails to read. */
  predicate Readable(row: Row) {
    && LOG_TARGET_TABLE in row.values && row.values[LOG_TARGET_TABLE].Text?
    && LOG_TARGET_PKS in row.values && row.values[LOG_TARGET_PKS].Text?
  }

  /** `None` for an entry without an HLC or with unparseable primary keys. */
  function Entry(env: Env, row: Row): Option<Tombstone> {
    if row.hlc.None? || !Readable(row) then None
    else
      match env.parsePks(row.values[LOG_TARGET_PKS].s)
      case None => None
      case Some(key) => Some(Tombstone(RowId(row.values[LOG_TARGET_TABLE].s, key), row.hlc.value))
  }

  /** The delete-log row at `l`, if it is one and targets `id`: its HLC. */
  function TombstoneFor(env: Env, rows: Rows, l: RowId, id: RowId): Option<string> {
    if l in rows && l.table == LOG_TABLE then
      match Entry(env, rows[l])
      case Some(t) => if t.target == id then Some(t.hlc) else None
      case None => None
    else None
  }

  /** A row as new as the tombstone or older gives way to it. */
  predicate ShouldPropagate(deleteHlc: string, target: Option<string>) {
    match target
    case None => true
    case Some(h) => CompareHlc(h, deleteHlc) != Greater
  }

  predicate DeleteShadowsInsert(deleteHlc: string, insertHlc: string) {
    CompareHlc(insertHlc, deleteHlc) != Greater
  }

  datatype ShadowEntry = ShadowEntry(key: Key, hlc: string)

  type ShadowMap = map<string, seq<ShadowEntry>>

  predicate InsertSuppressed(key: Key, hlc: string, candidates: seq<ShadowEntry>) {
    exists c | c in candidates :: c.key == key && DeleteShadowsInsert(c.hlc, hlc)
  }

  predicate InsertShadowed(id: RowId, hlc: string, shadow: ShadowMap) {
    InsertSuppressed(id.key, hlc, if id.table in shadow then shadow[id.table] else [])
  }

  /** Some tombstone in `rows` for `id` is as new as `hlc`. */
  ghost predicate Shadowed(env: Env, rows: Rows, id: RowId, hlc: string) {
    exists l :: TombstoneFor(env, rows, l, id).Some? && Rank(hlc) <= Rank(TombstoneFor(env, rows, l, id).value)
  }

  predicate InShadow(shadow: ShadowMap, id: RowId, hlc: string) {
    id.table in shadow && ShadowEntry(id.key, hlc) in shadow[id.table]
  }

  /** The shadow map lists exactly the tombstones stored in `rows`. */
  ghost predicate IsShadow(env: Env, rows: Rows, shadow: ShadowMap) {
    && (forall l, id | TombstoneFor(env, rows, l, id).Some? :: InShadow(shadow, id, TombstoneFor(env, rows, l, id).value))
    && (forall id, hlc | InShadow(shadow, id, hlc) :: exists l :: TombstoneFor(env, rows, l, id) == Some(hlc))
  }

  method LoadDeleteShadow(env: Env, rows: Rows) returns (ok: bool, shadow: ShadowMap)
    ensures ok <==> forall l | l in rows && l.table == LOG_TABLE :: Readable(rows[l])
    ensures ok ==> IsShadow(env, rows, shadow)
  {
    hide Rank, Readable;
    shadow := map[];
    var todo := rows.Keys;
    while todo != {}
      invariant todo <= rows.Keys
      invariant forall l | l in rows && l !in todo && l.table == LOG_TABLE :: Readable(rows[l])
      invariant forall l, id | l !in todo && TombstoneFor(env, rows, l, id).Some? ::
          InShadow(shadow, id, TombstoneFor(env, rows, l, id).value)
      invariant forall id, hlc | InShadow(shadow, id, hlc) :: exists l :: TombstoneFor(env, rows, l, id) == Some(hlc)
      decreases |todo|
    {
      var l :| l in todo;
      todo := todo - {l};
      if l.table == LOG_TABLE {
        if !Readable(rows[l]) {
          return false, map[];
        }
        match Entry(env, rows[l])
        case None =>
        case Some(t) =>
          ghost var before := shadow;
          var listed := if t.target.table in shadow then shadow[t.target.table] else [];
          shadow := shadow[t.target.table := listed + [ShadowEntry(t.target.key, t.hlc)]];
          assert TombstoneFor(env, rows, l, t.target) == Some(t.hlc);
          assert forall id, hlc :: InShadow(shadow, id, hlc) <==> InShadow(before, id, hlc) || Tombstone(id, hlc) == t;
      }
    }
    ok := true;
  }

  lemma ShadowMapDecides(env: Env, rows: Rows, shadow: ShadowMap, id: RowId, hlc: string)
    requires IsShadow(env, rows, shadow)
    ensures InsertShadowed(id, hlc, shadow) <==> Shadowed(env, rows, id, hlc)
  {
    hide Time, Node;
    if InsertShadowed(id, hlc, shadow) {
      var c :| c in shadow[id.table] && c.key == id.key && DeleteShadowsInsert(c.hlc, hlc);
      assert InShadow(shadow, id, c.hlc);
    }
    if Shadowed(env, rows, id, hlc) {
      var l :| TombstoneFor(env, rows, l, id).Some? && Rank(hlc) <= Rank(TombstoneFor(env, rows, l, id).value);
      var h := TombstoneFor(env, rows, l, id).value;
      assert ShadowEntry(id.key, h) in shadow[id.table];
      assert !Newer(hlc, h);
    }
  }

  /** The delete-log row an id names. */
  function LogRow(logId: string): RowId {
    RowId(LOG_TABLE, map[LOG_ID := JString(logId)])
  }

  /** A target that names exactly an existing CRDT table's primary key. */
  predicate ValidTarget(env: Env, id: RowId) {
    var columns := Columns(env, id.table);
    SafeIdentifier(env, id.table) && CarriesCrdtMetadata(columns) && KeyFits(env, columns, id.key)
  }

  /** The tombstone with id `s` takes the row with it. */
  predicate KilledBy(env: Env, rows: Rows, s: string, id: RowId)
    requires id in rows
  {
    && ValidTarget(env, id)
    && TombstoneFor(env, rows, LogRow(s), id).Some?
    && Rank(rows[id].hlc.GetOr("")) <= Rank(TombstoneFor(env, rows, LogRow(s), id).value)
  }

  /** The delete-log row with id `s` says in its two text columns that the row `id` is deleted, as of `hlc`. */
  predicate SaysDeleted(env: Env, rows: Rows, s: string, id: RowId, hlc: string) {
    var l := RowId("haex_deleted_rows", map["id" := JString(s)]);
    && l in rows && rows[l].hlc == Some(hlc)
    && "table_name" in rows[l].values && rows[l].values["table_name"] == Text(id.table)
    && "row_pks" in rows[l].values && rows[l].values["row_pks"].Text?
    && env.parsePks(rows[l].values["row_pks"].s) == Some(id.key)
  }

  /**
   * A named tombstone takes a row exactly when it says so, the row is no
   * newer, and its target is the exact, bindable key of a CRDT table with
   * safe names.
   */
  lemma KilledByIff(env: Env, rows: Rows, s: string, id: RowId)
    requires id in rows
    ensures KilledBy(env, rows, s, id) <==>
            && (exists hlc :: SaysDeleted(env, rows, s, id, hlc) && Rank(rows[id].hlc.GetOr("")) <= Rank(hlc))
            && SafeIdentifier(env, id.table)
            && Declared(env, id.table, "haex_hlc_no_sync") && Declared(env, id.table, "haex_column_hlcs_no_sync")
            && id.key != map[]
            && (forall name :: name in id.key <==> DeclaredKey(env, id.table, name))
            && (forall name | name in id.key :: SafeIdentifier(env, name) && ToSql(env.render, id.key[name]).Some?)
  {
    hide Rank, SafeIdentifier, ToSql;
    ValidTargetIff(env, id);
    SaidDeleted(env, rows, s, id);
  }

  lemma SaidDeleted(env: Env, rows: Rows, s: string, id: RowId)
    ensures forall hlc :: TombstoneFor(env, rows, LogRow(s), id) == Some(hlc) <==> SaysDeleted(env, rows, s, id, hlc)
  {
  }

  lemma ValidTargetIff(env: Env, id: RowId)
    ensures ValidTarget(env, id) <==>
            && SafeIdentifier(env, id.table)
            && Declared(env, id.table, "haex_hlc_no_sync") && Declared(env, id.table, "haex_column_hlcs_no_sync")
            && id.key != map[]
            && (forall name :: name in id.key <==> DeclaredKey(env, id.table, name))
            && (forall name | name in id.key :: SafeIdentifier(env, name) && ToSql(env.render, id.key[name]).Some?)
  {
    hide SafeIdentifier, ToSql;
    var columns := Columns(env, id.table);
    forall name
      ensures name in PkNames(columns) <==> DeclaredKey(env, id.table, name)
    {
    }
    if forall name :: name in id.key <==> DeclaredKey(env, id.table, name) {
      assert PkNames(columns) == id.key.Keys;
      assert id.key != map[] <==> id.key.Keys != {};
    }
  }

  predicate Killed(env: Env, rows: Rows, ids: set<string>, id: RowId)
    requires id in rows
  {
    exists s :: s in ids && KilledBy(env, rows, s, id)
  }

  predicate LogTargetsNoLog(env: Env, rows: Rows) {
    forall l | l in rows && l.table == LOG_TABLE :: Entry(env, rows[l]).Some? ==> Entry(env, rows[l]).value.target.table != LOG_TABLE
  }

  /** The log entry `s` names a present row that is strictly newer than it. */
  predicate Spares(env: Env, rows: Rows, s: string) {
    var l := LogRow(s);
    && l in rows && Entry(env, rows[l]).Some?
    && var t := Entry(env, rows[l]).value;
       ValidTarget(env, t.target) && t.target in rows && Rank(rows[t.target].hlc.GetOr("")) > Rank(t.hlc)
  }

  /**
   * `n` of the entries were counted as sparing their target: only such
   * entries, and every one whose own row and target row are still there.
   */
  ghost predicate SparedCount(env: Env, rows: Rows, ids: set<string>, rows': Rows, n: nat) {
    exists kept: set<string> {:trigger CountsSpared(env, rows, ids, rows', kept)} ::
      |kept| == n && CountsSpared(env, rows, ids, rows', kept)
  }

  ghost predicate CountsSpared(env: Env, rows: Rows, ids: set<string>, rows': Rows, kept: set<string>) {
    && (forall s | s in kept :: s in ids && Spares(env, rows, s))
    && forall s | s in ids && s !in kept && Spares(env, rows, s) ::
         LogRow(s) !in rows' || Entry(env, rows[LogRow(s)]).value.target !in rows'
  }

  /** An entry spares a row later in the fan-out exactly when it did at the start and both rows are still there. */
  lemma SparesWithin(env: Env, rows: Rows, rows': Rows, s: string)
    requires Within(rows', rows)
    ensures Spares(env, rows', s) <==>
            Spares(env, rows, s) && LogRow(s) in rows' && Entry(env, rows[LogRow(s)]).value.target in rows'
  {
    hide Rank, ValidTarget, Entry;
  }

  lemma SparesOneMore(
      env: Env, rows: Rows, before: Rows, after: Rows, s: string, done: set<string>, kept: set<string>, spared: bool)
    requires Within(before, rows) && Within(after, before)
    requires s !in done && s !in kept
    requires CountsSpared(env, rows, done, before, kept) && (spared <==> Spares(env, before, s))
    ensures CountsSpared(env, rows, done + {s}, after, if spared then kept + {s} else kept)
  {
    hide Spares, Entry;
    SparesWithin(env, rows, before, s);
  }

  /** The `DELETE` one collected id leads to; `kept` says that its target row was newer. */
  method PropagateOne(env: Env, rows: Rows, s: string) returns (rows': Rows, kept: bool)
    ensures kept <==> Spares(env, rows, s)
    ensures forall id | id in rows' :: id in rows && rows'[id] == rows[id]
    ensures forall id | id in rows :: id in rows' <==> !KilledBy(env, rows, s, id)
  {
    hide Time, Node, ValidTarget, Readable, Rank;
    rows', kept := rows, false;
    var l := LogRow(s);
    EmptyRank();
    if l in rows && Entry(env, rows[l]).Some? {
      var t := Entry(env, rows[l]).value;
      assert t.target in rows && rows[t.target].hlc.Some? ==>
          (Newer(rows[t.target].hlc.value, t.hlc) <==> Rank(rows[t.target].hlc.value) > Rank(t.hlc));
      if ValidTarget(env, t.target) {
        if ShouldPropagate(t.hlc, if t.target in rows then rows[t.target].hlc else None) {
          rows' := rows - {t.target};
        } else {
          kept := true;
        }
      }
    }
  }

  predicate Within(rows': Rows, rows: Rows) {
    forall id | id in rows' :: id in rows && rows'[id] == rows[id]
  }

  /** A tombstone takes a row later in the fan-out exactly when it did at the start and its own row is still there. */
  lemma KillsWithin(env: Env, rows: Rows, rows': Rows, s: string, id: RowId)
    requires Within(rows', rows) && id in rows'
    ensures KilledBy(env, rows', s, id) <==> KilledBy(env, rows, s, id) && LogRow(s) in rows'
  {
    hide Rank, ValidTarget, Entry;
  }

  /** What holds after the entries `done` were fanned out. */
  ghost predicate Swept(env: Env, rows: Rows, ids: set<string>, done: set<string>, rows': Rows) {
    && Within(rows', rows)
    && (forall id | id in rows && id !in rows' :: Killed(env, rows, ids, id))
    && forall s, id | s in done && id in rows' && KilledBy(env, rows, s, id) :: LogRow(s) !in rows'
  }

  lemma SweepOne(env: Env, rows: Rows, ids: set<string>, done: set<string>, before: Rows, s: string, after: Rows)
    requires Swept(env, rows, ids, done, before) && s in ids
    requires Within(after, before) && forall id | id in before :: id in after <==> !KilledBy(env, before, s, id)
    ensures Swept(env, rows, ids, done + {s}, after)
  {
    hide KilledBy;
    forall id | id in before
      ensures KilledBy(env, before, s, id) <==> KilledBy(env, rows, s, id) && LogRow(s) in before
    {
      KillsWithin(env, rows, before, s, id);
    }
  }

  /**
   * Fan the collected delete-log entries out to their target rows, in any
   * order. Only killed rows go, and a killed row stays only if the entries
   * that kill it were deleted themselves; so when no entry targets the log,
   * exactly the killed rows go.
   */
  method Propagate(env: Env, rows: Rows, ids: set<string>, outcome: Outcome) returns (rows': Rows, outcome': Outcome)
    ensures Within(rows', rows)
    ensures forall id | id in rows && id !in rows' :: Killed(env, rows, ids, id)
    ensures forall s, id | s in ids && id in rows' && KilledBy(env, rows, s, id) :: LogRow(s) !in rows'
    ensures LogTargetsNoLog(env, rows) ==> forall id | id in rows :: id in rows' <==> !Killed(env, rows, ids, id)
    ensures outcome' == Outcome(
                          outcome.report.(deleteTargetNewer := outcome'.report.deleteTargetNewer), outcome.skipped)
    ensures outcome'.report.deleteTargetNewer >= outcome.report.deleteTargetNewer
    ensures SparedCount(env, rows, ids, rows', outcome'.report.deleteTargetNewer - outcome.report.deleteTargetNewer)
  {
    hide KilledBy, Entry, LogTargetsNoLog, Spares, CountsSpared, Killed, Swept;
    rows', outcome' := rows, outcome;
    var todo := ids;
    ghost var spared: set<string> := {};
    assert CountsSpared(env, rows, ids - todo, rows', spared) by {
      NothingSpared(env, rows);
      assert ids - todo == {};
    }
    assert Swept(env, rows, ids, ids - todo, rows') by {
      NothingSwept(env, rows, ids);
      assert ids - todo == {};
    }
    while todo != {}
      invariant todo <= ids
      invariant Within(rows', rows) && Swept(env, rows, ids, ids - todo, rows')
      invariant outcome' == Outcome(
                              outcome.report.(deleteTargetNewer := outcome.report.deleteTargetNewer + |spared|), outcome.skipped)
      invariant spared <= ids - todo && CountsSpared(env, rows, ids - todo, rows', spared)
      decreases |todo|
    {
      var s :| s in todo;
      ghost var before := rows';
      var kept;
      rows', kept := PropagateOne(env, rows', s);
      if kept {
        outcome' := outcome'.(report := outcome'.report.(deleteTargetNewer := outcome'.report.deleteTargetNewer + 1));
      }
      SweepOne(env, rows, ids, ids - todo, before, s, rows');
      SparesOneMore(env, rows, before, rows', s, ids - todo, spared, kept);
      spared := if kept then spared + {s} else spared;
      assert ids - todo + {s} == ids - (todo - {s});
      todo := todo - {s};
    }
    assert ids - {} == ids;
    assert SparedCount(env, rows, ids, rows', |spared|);
    SweptMeans(env, rows, ids, ids, rows');
    if LogTargetsNoLog(env, rows) {
      LogStaysSoAllGo(env, rows, rows', ids);
    }
  }

  lemma NothingSwept(env: Env, rows: Rows, ids: set<string>)
    ensures Swept(env, rows, ids, {}, rows)
  {
  }

  lemma SweptMeans(env: Env, rows: Rows, ids: set<string>, done: set<string>, rows': Rows)
    requires Swept(env, rows, ids, done, rows')
    ensures forall id | id in rows && id !in rows' :: Killed(env, rows, ids, id)
    ensures forall s, id | s in done && id in rows' && KilledBy(env, rows, s, id) :: LogRow(s) !in rows'
  {
    hide KilledBy;
  }

  lemma NothingSpared(env: Env, rows: Rows)
    ensures CountsSpared(env, rows, {}, rows, {})
  {
  }

  lemma LogStaysSoAllGo(env: Env, rows: Rows, rows': Rows, ids: set<string>)
    requires LogTargetsNoLog(env, rows) && Within(rows', rows)
    requires forall id | id in rows && id !in rows' :: Killed(env, rows, ids, id)
    requires forall s, id | s in ids && id in rows' && KilledBy(env, rows, s, id) :: LogRow(s) !in rows'
    ensures forall id | id in rows :: id in rows' <==> !Killed(env, rows, ids, id)
  {
    hide Rank, ValidTarget, Entry, LogTargetsNoLog;
    forall id, s | id in rows' && s in ids && KilledBy(env, rows, s, id)
      ensures false
    {
      var t :| t in ids && KilledBy(env, rows, t, LogRow(s));
      LogRowsSurvive(env, rows, t, LogRow(s));
    }
  }

  lemma LogRowsSurvive(env: Env, rows: Rows, s: string, id: RowId)
    requires LogTargetsNoLog(env, rows) && id in rows && id.table == LOG_TABLE
    ensures !KilledBy(env, rows, s, id)
  {
    hide Rank, ValidTarget;
  }
}
