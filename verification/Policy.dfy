/**
 * What a policy and SQLite may answer for each row group, and what a group and
 * a whole batch come to for any such answers.
 */
module Policy {
  import opened Common
  import opened Values
  import opened Model
  import opened Reporting
  import opened Selection
  import opened RowWrite
  import opened Deletes
  import opened RowMerge

  datatype RowInput = RowInput(table: string, pks: string, key: Key, present: bool, changes: seq<Indexed>, eligible: seq<Indexed>)

  datatype Verdict = PolicyError | SkipRow | Decide(decisions: seq<ColumnDecision>)

  datatype WriteResult = Landed | ConstraintFailure(reason: SkipReason) | OtherFailure

  /**
   * What the policy's hooks and SQLite's writers answer, per row group. Any
   * function of the group's position is allowed, so any stateful policy and
   * any sequence of write failures is covered.
   */
  datatype Callbacks = Callbacks(
    preflightOk: bool,
    beginOk: bool,
    prepareRow: (nat, RowInput) -> Verdict,
    write: nat -> WriteResult,
    afterRowOk: nat -> bool,
    skipOnConstraint: nat -> bool,
    beforeCommitOk: bool)

  /** What one row group comes to: the call fails, or these columns of its row are written. */
  datatype Step = Fails | Writes(written: seq<Cand>)

  /** What the policy is asked about a known row. */
  function Asked(env: Env, id: RowId, group: seq<Indexed>, present: bool): RowInput
    requires group != []
  {
    RowInput(id.table, group[0].change.pks, id.key, present, group, Eligibles(Columns(env, id.table), group))
  }

  /** A constraint failure that a policy may turn into a skip. */
  predicate InsertReason(reason: SkipReason) {
    reason == InsertNotNull || reason == InsertUnique || reason == InsertPrimaryKey
  }

  /** The shadow check and the write of what is staged. */
  ghost function WriteStep(env: Env, cb: Callbacks, rows0: Rows, rows: Rows, k: nat, id: RowId, staged: seq<Cand>): Step {
    if staged == [] || (id !in rows && Shadowed(env, rows0, id, MaxHlc(staged))) then Writes([])
    else
      match cb.write(k)
      case Landed => if cb.afterRowOk(k) then Writes(staged) else Fails
      case ConstraintFailure(reason) =>
        if id !in rows && InsertReason(reason) && cb.skipOnConstraint(k) then Writes([]) else Fails
      case OtherFailure => Fails
  }

  /** What a known row's group comes to under a verdict. */
  ghost function VerdictStep(
      env: Env, cb: Callbacks, rows0: Rows, rows: Rows, k: nat, id: RowId, eligible: seq<Indexed>, verdict: Verdict): Step
  {
    match verdict
    case PolicyError => Fails
    case SkipRow => Writes([])
    case Decide(decisions) =>
      if |decisions| != |eligible| then Fails
      else
        WriteStep(env, cb, rows0, rows, k, id, Winners(Accepted(decisions, eligible, |eligible|), PriorHlcs(Lookup(rows, id))))
  }

  ghost function PolicyStep(env: Env, cb: Callbacks, rows0: Rows, rows: Rows, k: nat, group: seq<Indexed>): Step
    requires group != []
  {
    var c := group[0].change;
    match Identify(env, c.table, c.pks)
    case Unknown(_) => Writes([])
    case Known(key) =>
      var id := RowId(c.table, key);
      VerdictStep(env, cb, rows0, rows, k, id, Eligibles(Columns(env, id.table), group), cb.prepareRow(k, Asked(env, id, group, id in rows)))
  }

  /** The rows after a group that writes `written`. */
  function GroupRows(env: Env, rows: Rows, group: seq<Indexed>, written: seq<Cand>): Rows
    requires group != []
  {
    match Identify(env, group[0].change.table, group[0].change.pks)
    case Unknown(_) => rows
    case Known(key) => WriteRow(env, rows, RowId(group[0].change.table, key), written)
  }

  datatype Progress = Progress(rows: Rows, written: seq<Cand>)

  predicate NonEmpty(groups: seq<seq<Indexed>>) {
    forall i | 0 <= i < |groups| :: groups[i] != []
  }

  /** The rows and written columns after the first `n` groups, unless one of them fails the call. */
  ghost function RunUpTo(env: Env, cb: Callbacks, rows0: Rows, groups: seq<seq<Indexed>>, n: nat): Option<Progress>
    requires n <= |groups| && NonEmpty(groups)
  {
    if n == 0 then Some(Progress(rows0, []))
    else
      match RunUpTo(env, cb, rows0, groups, n - 1)
      case None => None
      case Some(p) =>
        match PolicyStep(env, cb, rows0, p.rows, n - 1, groups[n - 1])
        case Fails => None
        case Writes(written) => Some(Progress(GroupRows(env, p.rows, groups[n - 1], written), p.written + written))
  }

  /** Why a write of staged columns is skipped. */
  ghost predicate WriteRefused(
      env: Env, cb: Callbacks, rows0: Rows, rows: Rows, k: nat, id: RowId, staged: seq<Cand>, reason: SkipReason)
  {
    && staged != []
    && if id !in rows && Shadowed(env, rows0, id, MaxHlc(staged)) then reason == ShadowedByDelete
       else id !in rows && cb.write(k) == ConstraintFailure(reason) && InsertReason(reason) && cb.skipOnConstraint(k)
  }

  /** Why eligible change `i` of a known row is skipped. */
  ghost predicate RefusalFits(
      env: Env, cb: Callbacks, rows0: Rows, rows: Rows, k: nat, id: RowId, eligible: seq<Indexed>, verdict: Verdict, i: nat,
      reason: SkipReason)
    requires i < |eligible|
  {
    match verdict
    case PolicyError => false
    case SkipRow => reason == PolicySkip
    case Decide(decisions) =>
      && |decisions| == |eligible|
      && var hlcs := PriorHlcs(Lookup(rows, id));
         if Leads(decisions, eligible, hlcs, |eligible|, i)
         then WriteRefused(env, cb, rows0, rows, k, id, Winners(Accepted(decisions, eligible, |eligible|), hlcs), reason)
         else reason == LossReason(decisions, eligible, hlcs, i)
  }

  /** A skip of an eligible change is recorded for the reason that applies to it. */
  ghost predicate EligibleNoteFits(
      env: Env, cb: Callbacks, rows0: Rows, rows: Rows, k: nat, id: RowId, eligible: seq<Indexed>, verdict: Verdict, s: Skipped)
  {
    exists i :: 0 <= i < |eligible| && eligible[i].index == s.index &&
                RefusalFits(env, cb, rows0, rows, k, id, eligible, verdict, i, s.reason)
  }

  predicate Ineligible(columns: seq<ColumnInfo>, group: seq<Indexed>, n: Skipped) {
    exists x :: x in group && x.index == n.index && Classify(columns, x.change.column) == Some(n.reason)
  }

  predicate SkipsMember(group: seq<Indexed>, n: Skipped) {
    exists x :: x in group && x.index == n.index
  }

  /** The same for any change of a group, those the core itself rules out included. */
  ghost predicate NoteFits(env: Env, cb: Callbacks, rows0: Rows, rows: Rows, k: nat, group: seq<Indexed>, s: Skipped)
    requires group != []
  {
    var c := group[0].change;
    match Identify(env, c.table, c.pks)
    case Unknown(reason) => s.reason == reason && SkipsMember(group, s)
    case Known(key) =>
      var id := RowId(c.table, key);
      || Ineligible(Columns(env, c.table), group, s)
      || EligibleNoteFits(
           env, cb, rows0, rows, k, id, Eligibles(Columns(env, id.table), group), cb.prepareRow(k, Asked(env, id, group, id in rows)), s)
  }

  /** The policy accepted exactly this value and signature for this change of the row. */
  ghost predicate Granted(env: Env, cb: Callbacks, k: nat, id: RowId, group: seq<Indexed>, present: bool, w: Cand) {
    && group != []
    && group[0].change.table == id.table
    && Identify(env, group[0].change.table, group[0].change.pks) == Known(id.key)
    && var eligible := Eligibles(Columns(env, id.table), group);
       var verdict := cb.prepareRow(k, Asked(env, id, group, present));
       && verdict.Decide? && |verdict.decisions| == |eligible|
       && exists i :: 0 <= i < |eligible| && eligible[i] == Indexed(w.index, w.change) &&
                      verdict.decisions[i] == Accept(w.value, w.signature)
  }

  lemma {:induction false} AcceptedOrigin(decisions: seq<ColumnDecision>, eligible: seq<Indexed>, n: nat)
    requires n <= |decisions| && n <= |eligible|
    ensures forall c | c in Accepted(decisions, eligible, n) ::
              exists i :: 0 <= i < n && eligible[i] == Indexed(c.index, c.change) && decisions[i] == Accept(c.value, c.signature)
  {
    if n > 0 {
      AcceptedOrigin(decisions, eligible, n - 1);
      forall c | c in Accepted(decisions, eligible, n)
        ensures exists i :: 0 <= i < n && eligible[i] == Indexed(c.index, c.change) && decisions[i] == Accept(c.value, c.signature)
      {
        if c !in Accepted(decisions, eligible, n - 1) {
          assert eligible[n - 1] == Indexed(c.index, c.change) && decisions[n - 1] == Accept(c.value, c.signature);
        }
      }
    }
  }

  /** Every written column was granted by the policy, and no two are the same column. */
  lemma StepIsGranted(env: Env, cb: Callbacks, rows0: Rows, rows: Rows, k: nat, group: seq<Indexed>, id: RowId)
    requires group != [] && id.table == group[0].change.table
    requires Identify(env, group[0].change.table, group[0].change.pks) == Known(id.key)
    requires PolicyStep(env, cb, rows0, rows, k, group).Writes?
    ensures var written := PolicyStep(env, cb, rows0, rows, k, group).written;
            DistinctColumns(written) && forall w | w in written :: Granted(env, cb, k, id, group, id in rows, w)
  {
    hide Eligibles, Wins, Accepted, Shadowed, MaxHlc, Identify;
    var eligible := Eligibles(Columns(env, id.table), group);
    var verdict := cb.prepareRow(k, Asked(env, id, group, id in rows));
    if verdict.Decide? && |verdict.decisions| == |eligible| {
      var cands, hlcs := Accepted(verdict.decisions, eligible, |eligible|), PriorHlcs(Lookup(rows, id));
      AcceptedOrigin(verdict.decisions, eligible, |eligible|);
      WinnersAreTheWinning(cands, hlcs, |cands|);
      DistinctWinners(cands, hlcs);
    }
  }

  datatype Cell = Cell(value: Option<SqlValue>, hlc: Option<string>, sig: Option<Json>)

  function CellIn(rows: Rows, id: RowId, column: string): Cell {
    if id in rows then Cell(CellOf(rows[id].values, column), CellOf(rows[id].hlcs, column), CellOf(rows[id].sigs, column))
    else Cell(None, None, None)
  }

  /** A cell before and after a group: untouched, or as one of the written columns says. */
  ghost predicate CellFollows(before: Cell, after: Cell, column: string, hasSigs: bool, written: seq<Cand>) {
    || after == before
    || exists w :: w in written && w.change.column == column &&
                   after == Cell(Some(w.value), Some(w.change.hlc), if hasSigs && w.signature.Replace? then w.signature.sig else before.sig)
  }

  /** A write touches the cells of its columns and no others. */
  lemma WrittenCells(env: Env, rows: Rows, id: RowId, written: seq<Cand>, row: RowId, column: string)
    requires DistinctColumns(written)
    ensures var after := WriteRow(env, rows, id, written);
            && (forall r :: r in after <==> r in rows || (r == id && written != []))
            && (row != id ==> (row in rows ==> after[row] == rows[row]) && CellIn(after, row, column) == CellIn(rows, row, column))
            && CellFollows(CellIn(rows, id, column), CellIn(after, id, column), column, HasSigs(env, id.table), written)
  {
    hide PutValues, PutHlcs, PutSigs, RowHlcAfter, HasSigs;
    if written != [] {
      var base := Lookup(rows, id).GetOr(EMPTY_ROW);
      PutCells(base.values, base.hlcs, written);
      PutSigCells(base.sigs, written);
      if Stages(written, column) {
        var i :| 0 <= i < |written| && written[i].change.column == column;
        assert written[i] in written;
      }
    }
  }

  /** Some group's policy granted `w` for the row, and it was written. */
  ghost predicate GrantedInRun(env: Env, cb: Callbacks, rows0: Rows, groups: seq<seq<Indexed>>, n: nat, id: RowId, w: Cand)
    requires n <= |groups| && NonEmpty(groups)
  {
    && RunUpTo(env, cb, rows0, groups, n).Some? && w in RunUpTo(env, cb, rows0, groups, n).value.written
    && exists k: nat :: k < n && GrantedAt(env, cb, rows0, groups, k, id, w)
  }

  ghost predicate GrantedAt(env: Env, cb: Callbacks, rows0: Rows, groups: seq<seq<Indexed>>, k: nat, id: RowId, w: Cand)
    requires k < |groups| && NonEmpty(groups)
  {
    && RunUpTo(env, cb, rows0, groups, k).Some?
    && Granted(env, cb, k, id, groups[k], id in RunUpTo(env, cb, rows0, groups, k).value.rows, w)
  }

  /** Nothing of a row differs from before the run but what the policy granted. */
  ghost predicate RowObeys(env: Env, cb: Callbacks, rows0: Rows, groups: seq<seq<Indexed>>, n: nat, rows: Rows, id: RowId)
    requires n <= |groups| && NonEmpty(groups)
  {
    && (id in rows0 ==> id in rows)
    && ((id in rows && (id in rows0 ==> rows[id] != rows0[id])) ==> exists w :: GrantedInRun(env, cb, rows0, groups, n, id, w))
    && forall column :: CellObeys(env, cb, rows0, groups, n, rows, id, column)
  }

  ghost predicate CellObeys(
      env: Env, cb: Callbacks, rows0: Rows, groups: seq<seq<Indexed>>, n: nat, rows: Rows, id: RowId, column: string)
    requires n <= |groups| && NonEmpty(groups)
  {
    var before, after := CellIn(rows0, id, column), CellIn(rows, id, column);
    && ((after.value == before.value && after.hlc == before.hlc)
        || exists w :: GrantedInRun(env, cb, rows0, groups, n, id, w) && w.change.column == column
                       && after.value == Some(w.value) && after.hlc == Some(w.change.hlc))
    && (after.sig == before.sig
        || exists w :: GrantedInRun(env, cb, rows0, groups, n, id, w) && w.change.column == column
                       && w.signature == Replace(after.sig))
  }

  lemma GrantsStay(env: Env, cb: Callbacks, rows0: Rows, groups: seq<seq<Indexed>>, n: nat, id: RowId, w: Cand)
    requires n < |groups| && NonEmpty(groups) && RunUpTo(env, cb, rows0, groups, n + 1).Some?
    requires GrantedInRun(env, cb, rows0, groups, n, id, w)
    ensures GrantedInRun(env, cb, rows0, groups, n + 1, id, w)
  {
    hide PolicyStep, GroupRows, Granted;
    var k: nat :| k < n && GrantedAt(env, cb, rows0, groups, k, id, w);
  }

  lemma NewGrants(env: Env, cb: Callbacks, rows0: Rows, groups: seq<seq<Indexed>>, n: nat, id: RowId)
    requires n < |groups| && NonEmpty(groups) && RunUpTo(env, cb, rows0, groups, n + 1).Some?
    requires id.table == groups[n][0].change.table
    requires Identify(env, groups[n][0].change.table, groups[n][0].change.pks) == Known(id.key)
    ensures RunUpTo(env, cb, rows0, groups, n).Some?
    ensures var rows := RunUpTo(env, cb, rows0, groups, n).value.rows;
            var step := PolicyStep(env, cb, rows0, rows, n, groups[n]);
            && step.Writes? && DistinctColumns(step.written)
            && RunUpTo(env, cb, rows0, groups, n + 1).value.rows == WriteRow(env, rows, id, step.written)
            && forall w | w in step.written :: GrantedInRun(env, cb, rows0, groups, n + 1, id, w)
  {
    hide PolicyStep, Granted, WriteRow, Identify;
    var rows := RunUpTo(env, cb, rows0, groups, n).value.rows;
    StepIsGranted(env, cb, rows0, rows, n, groups[n], id);
    forall w | w in PolicyStep(env, cb, rows0, rows, n, groups[n]).written
      ensures GrantedInRun(env, cb, rows0, groups, n + 1, id, w)
    {
      assert GrantedAt(env, cb, rows0, groups, n, id, w);
    }
  }

  lemma CellObeysStays(
      env: Env, cb: Callbacks, rows0: Rows, groups: seq<seq<Indexed>>, n: nat, rows: Rows, rows': Rows, id: RowId, column: string)
    requires n < |groups| && NonEmpty(groups) && RunUpTo(env, cb, rows0, groups, n + 1).Some?
    requires CellObeys(env, cb, rows0, groups, n, rows, id, column)
    requires CellIn(rows', id, column) == CellIn(rows, id, column)
    ensures CellObeys(env, cb, rows0, groups, n + 1, rows', id, column)
  {
    hide RunUpTo, GrantedInRun, CellIn;
    forall w | GrantedInRun(env, cb, rows0, groups, n, id, w)
      ensures GrantedInRun(env, cb, rows0, groups, n + 1, id, w)
    {
      GrantsStay(env, cb, rows0, groups, n, id, w);
    }
  }

  lemma CellObeysNext(
      env: Env, cb: Callbacks, rows0: Rows, groups: seq<seq<Indexed>>, n: nat, rows: Rows, rows': Rows, id: RowId, column: string,
      hasSigs: bool, written: seq<Cand>)
    requires n < |groups| && NonEmpty(groups) && RunUpTo(env, cb, rows0, groups, n + 1).Some?
    requires CellObeys(env, cb, rows0, groups, n, rows, id, column)
    requires CellFollows(CellIn(rows, id, column), CellIn(rows', id, column), column, hasSigs, written)
    requires forall w | w in written :: GrantedInRun(env, cb, rows0, groups, n + 1, id, w)
    ensures CellObeys(env, cb, rows0, groups, n + 1, rows', id, column)
  {
    hide RunUpTo, GrantedInRun, CellIn;
    forall w | GrantedInRun(env, cb, rows0, groups, n, id, w)
      ensures GrantedInRun(env, cb, rows0, groups, n + 1, id, w)
    {
      GrantsStay(env, cb, rows0, groups, n, id, w);
    }
  }

  /** Whatever a run changes, the policy granted: value, HLC and signature, for that change of that row. */
  lemma {:induction false} RunObeysPolicy(env: Env, cb: Callbacks, rows0: Rows, groups: seq<seq<Indexed>>, n: nat, id: RowId)
    requires n <= |groups| && NonEmpty(groups) && RunUpTo(env, cb, rows0, groups, n).Some?
    ensures RowObeys(env, cb, rows0, groups, n, RunUpTo(env, cb, rows0, groups, n).value.rows, id)
  {
    hide PolicyStep, GrantedInRun, CellObeys, WriteRow, CellIn, CellFollows, Identify;
    if n == 0 {
      forall column
        ensures CellObeys(env, cb, rows0, groups, 0, rows0, id, column)
      {
        CellUntouched(env, cb, rows0, groups, id, column);
      }
    } else {
      RunObeysPolicy(env, cb, rows0, groups, n - 1, id);
      ObeyNext(env, cb, rows0, groups, n - 1, id);
    }
  }

  lemma CellUntouched(env: Env, cb: Callbacks, rows0: Rows, groups: seq<seq<Indexed>>, id: RowId, column: string)
    requires NonEmpty(groups)
    ensures CellObeys(env, cb, rows0, groups, 0, rows0, id, column)
  {
  }

  lemma ObeyNext(env: Env, cb: Callbacks, rows0: Rows, groups: seq<seq<Indexed>>, n: nat, id: RowId)
    requires n < |groups| && NonEmpty(groups) && RunUpTo(env, cb, rows0, groups, n + 1).Some?
    requires RunUpTo(env, cb, rows0, groups, n).Some?
    requires RowObeys(env, cb, rows0, groups, n, RunUpTo(env, cb, rows0, groups, n).value.rows, id)
    ensures RowObeys(env, cb, rows0, groups, n + 1, RunUpTo(env, cb, rows0, groups, n + 1).value.rows, id)
  {
    hide PolicyStep, GrantedInRun, CellObeys, WriteRow, CellIn, CellFollows, Identify;
    var rows, rows' := RunUpTo(env, cb, rows0, groups, n).value.rows, RunUpTo(env, cb, rows0, groups, n + 1).value.rows;
    var c, m := groups[n][0].change, n + 1;
    forall w | GrantedInRun(env, cb, rows0, groups, n, id, w)
      ensures GrantedInRun(env, cb, rows0, groups, n + 1, id, w)
    {
      GrantsStay(env, cb, rows0, groups, n, id, w);
    }
    match Identify(env, c.table, c.pks)
    case Unknown(_) =>
      forall column
        ensures CellObeys(env, cb, rows0, groups, m, rows', id, column)
      {
        CellObeysStays(env, cb, rows0, groups, n, rows, rows', id, column);
      }
    case Known(key) =>
      var at := RowId(c.table, key);
      NewGrants(env, cb, rows0, groups, n, at);
      var written := PolicyStep(env, cb, rows0, rows, n, groups[n]).written;
      assert written != [] ==> written[0] in written;
      WrittenCells(env, rows, at, written, id, "");
      forall column
        ensures CellObeys(env, cb, rows0, groups, m, rows', id, column)
      {
        WrittenCells(env, rows, at, written, id, column);
        if id == at {
          CellObeysNext(env, cb, rows0, groups, n, rows, rows', id, column, HasSigs(env, id.table), written);
        } else {
          CellObeysStays(env, cb, rows0, groups, n, rows, rows', id, column);
        }
      }
      if written == [] {
        NothingToWrite(env, rows, at);
      }
  }

  lemma NothingToWrite(env: Env, rows: Rows, id: RowId)
    ensures WriteRow(env, rows, id, []) == rows
  {
  }
}
