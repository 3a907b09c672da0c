/** The accept-everything policy and the effect one row group has under it. */
module RowMerge {
  import opened Common
  import opened Values
  import opened Model
  import opened Selection
  import opened RowWrite
  import opened Deletes

  /** A change the core clears for writing, whatever its HLC. */
  predicate Admitted(env: Env, c: Change) {
    Identify(env, c.table, c.pks).Known? && Eligible(env, c.table, c.column)
  }

  /** The eligible changes among the first `n` of a group, in order. */
  function EligiblesUpTo(columns: seq<ColumnInfo>, group: seq<Indexed>, n: nat): seq<Indexed>
    requires n <= |group|
  {
    if n == 0 then []
    else
      EligiblesUpTo(columns, group, n - 1) +
      if Classify(columns, group[n - 1].change.column).None? then [group[n - 1]] else []
  }

  function Eligibles(columns: seq<ColumnInfo>, group: seq<Indexed>): seq<Indexed> {
    EligiblesUpTo(columns, group, |group|)
  }

  lemma {:induction false} EligiblesMembers(columns: seq<ColumnInfo>, group: seq<Indexed>, n: nat)
    requires n <= |group|
    ensures forall x | x in EligiblesUpTo(columns, group, n) :: x in group && Classify(columns, x.change.column).None?
    ensures forall i | 0 <= i < n && Classify(columns, group[i].change.column).None? ::
              group[i] in EligiblesUpTo(columns, group, n)
  {
    hide Classify;
    if n > 0 {
      EligiblesMembers(columns, group, n - 1);
    }
  }

  /** The decoded value with the change's own signature. */
  function SigCand(env: Env, x: Indexed): Cand {
    Cand(x.index, x.change, ToSql(env.render, x.change.value).GetOr(Null), Replace(x.change.sig))
  }

  function SigCands(env: Env, items: seq<Indexed>): seq<Cand> {
    seq(|items|, i requires 0 <= i < |items| => SigCand(env, items[i]))
  }

  function PriorHlcs(prior: Option<Row>): map<string, string> {
    if prior.Some? then prior.value.hlcs else map[]
  }

  /** The columns a row group writes: its winners, unless the row is absent and a tombstone shadows them. */
  ghost function Written(env: Env, rows0: Rows, rows: Rows, id: RowId, cands: seq<Cand>): seq<Cand> {
    var staged := Winners(cands, PriorHlcs(Lookup(rows, id)));
    if staged != [] && id !in rows && Shadowed(env, rows0, id, MaxHlc(staged)) then [] else staged
  }

  function WriteRow(env: Env, rows: Rows, id: RowId, written: seq<Cand>): Rows {
    if written == [] then rows else rows[id := MergedRow(Lookup(rows, id), written, HasSigs(env, id.table))]
  }

  /** What the accept-everything policy makes of one group; `rows0` holds the pre-batch delete log. */
  ghost function GroupWrites(env: Env, rows0: Rows, rows: Rows, group: seq<Indexed>): seq<Cand>
    requires group != []
  {
    var c := group[0].change;
    match Identify(env, c.table, c.pks)
    case Unknown(_) => []
    case Known(key) =>
      Written(env, rows0, rows, RowId(c.table, key), SigCands(env, Eligibles(Columns(env, c.table), group)))
  }

  ghost function GroupEffect(env: Env, rows0: Rows, rows: Rows, group: seq<Indexed>): Rows
    requires group != []
  {
    var c := group[0].change;
    match Identify(env, c.table, c.pks)
    case Unknown(_) => rows
    case Known(key) => WriteRow(env, rows, RowId(c.table, key), GroupWrites(env, rows0, rows, group))
  }

  /** The rows after the first `n` groups. */
  ghost function RowsAfter(env: Env, rows0: Rows, groups: seq<seq<Indexed>>, n: nat): Rows
    requires n <= |groups| && forall i | 0 <= i < |groups| :: groups[i] != []
  {
    if n == 0 then rows0 else GroupEffect(env, rows0, RowsAfter(env, rows0, groups, n - 1), groups[n - 1])
  }

  ghost function AfterDeletes(env: Env, rows: Rows, ids: set<string>): Rows {
    map id | id in rows && !Killed(env, rows, ids, id) :: rows[id]
  }

  function Tagged(changes: seq<Change>): seq<Indexed> {
    seq(|changes|, i requires 0 <= i < |changes| => Indexed(i, changes[i]))
  }

  predicate Uniform(group: seq<Indexed>) {
    && group != []
    && forall x | x in group :: x.change.table == group[0].change.table && x.change.pks == group[0].change.pks
  }

  /** `groups` arranges exactly the tagged batch, one group per row text. */
  predicate IsGrouping(changes: seq<Change>, groups: seq<seq<Indexed>>)
  {
    && (forall i | 0 <= i < |groups| :: groups[i] != [] && Uniform(groups[i]))
    && (forall i, j | 0 <= i < j < |groups| ::
          groups[i][0].change.table != groups[j][0].change.table || groups[i][0].change.pks != groups[j][0].change.pks)
    && (forall g | g in groups :: forall x | x in g :: x in Tagged(changes))
    && (forall x | x in Tagged(changes) :: exists g :: g in groups && x in g)
  }

  /** The delete-log ids a batch names in changes the core admits. */
  predicate NamesLogId(env: Env, c: Change, s: string) {
    && c.table == LOG_TABLE
    && Admitted(env, c)
    && Identify(env, c.table, c.pks).key.Keys >= {LOG_ID}
    && Identify(env, c.table, c.pks).key[LOG_ID] == JString(s)
  }

  /** A batch without a malformed BLOB in an admitted change. */
  predicate Decodable(env: Env, changes: seq<Change>) {
    forall c | c in changes && Admitted(env, c) :: ToSql(env.render, c.value).Some?
  }
}
