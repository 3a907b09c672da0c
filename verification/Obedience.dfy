/** What a committed batch owes to its policy: nothing it did not grant, and an account of what it refused. */
module Obedience {
  import opened Common
  import opened Hlc
  import opened Model
  import opened Reporting
  import opened Grouping
  import opened Selection
  import opened Deletes
  import opened RowMerge
  import opened Policy
  import opened Engine
  import opened ApplyBatch

  lemma {:induction false} DistinctCounts<T>(s: seq<T>, x: T)
    requires forall i, j | 0 <= i < j < |s| :: s[i] != s[j]
    ensures multiset(s)[x] <= 1
  {
    if s != [] {
      var front := s[..|s| - 1];
      DistinctCounts(front, x);
      assert s == front + [s[|s| - 1]];
      assert s[|s| - 1] !in front;
    }
  }

  lemma TwiceCountsTwo<T>(s: seq<T>, i: nat, j: nat)
    requires i < j < |s| && s[i] == s[j]
    ensures multiset(s)[s[i]] >= 2
  {
    assert s == s[..j] + [s[j]] + s[j + 1..];
    assert s[..j][i] == s[i];
    assert multiset(s[..j])[s[i]] >= 1;
  }

  lemma {:induction false} GroupCounts(groups: seq<seq<Indexed>>, k: nat, x: Indexed)
    requires k < |groups|
    ensures multiset(groups[k])[x] <= multiset(Flatten(groups))[x]
  {
    if k > 0 {
      GroupCounts(groups[1..], k - 1, x);
    }
  }

  lemma {:induction false} EligibleCounts(columns: seq<ColumnInfo>, group: seq<Indexed>, n: nat, x: Indexed)
    requires n <= |group|
    ensures multiset(EligiblesUpTo(columns, group, n))[x] <= multiset(group[..n])[x]
  {
    hide Classify;
    if n > 0 {
      EligibleCounts(columns, group, n - 1, x);
      assert group[..n] == group[..n - 1] + [group[n - 1]];
    }
  }

  /** No change is asked about twice. */
  lemma AskedOnce(changes: seq<Change>, groups: seq<seq<Indexed>>, k: nat, columns: seq<ColumnInfo>, p: nat, q: nat)
    requires Arranged(changes, groups) && k < |groups|
    requires p < |Eligibles(columns, groups[k])| && q < |Eligibles(columns, groups[k])|
    requires Eligibles(columns, groups[k])[p] == Eligibles(columns, groups[k])[q]
    ensures p == q
  {
    hide EligiblesUpTo, Flatten, IsGrouping, AscendingRanks, EarliestRank;
    var eligible := Eligibles(columns, groups[k]);
    var x := eligible[p];
    DistinctCounts(Tagged(changes), x);
    GroupCounts(groups, k, x);
    EligibleCounts(columns, groups[k], |groups[k]|, x);
    assert groups[k][..|groups[k]|] == groups[k];
    if p < q {
      TwiceCountsTwo(eligible, p, q);
    } else if q < p {
      TwiceCountsTwo(eligible, q, p);
    }
  }

  lemma GroupText(changes: seq<Change>, groups: seq<seq<Indexed>>, k: nat, x: Indexed)
    requires IsGrouping(changes, groups) && k < |groups| && x in groups[k]
    ensures x in Tagged(changes)
    ensures groups[k] != [] && x.change.table == groups[k][0].change.table && x.change.pks == groups[k][0].change.pks
  {
    assert groups[k] in groups;
  }

  lemma GroupsDiffer(changes: seq<Change>, groups: seq<seq<Indexed>>, k: nat, j: nat)
    requires IsGrouping(changes, groups) && k < |groups| && j < |groups| && groups[k] != [] && groups[j] != []
    requires groups[k][0].change.table == groups[j][0].change.table && groups[k][0].change.pks == groups[j][0].change.pks
    ensures k == j
  {
    hide Uniform, Tagged;
  }

  /** A change sits in one group only, under its own index. */
  lemma OnePlace(changes: seq<Change>, groups: seq<seq<Indexed>>, k: nat, j: nat, x: Indexed, y: Indexed)
    requires Arranged(changes, groups) && k < |groups| && j < |groups|
    requires x in groups[k] && y in groups[j] && x.index == y.index
    ensures x == y && k == j && x.index < |changes| && changes[x.index] == x.change
  {
    hide Flatten, AscendingRanks, EarliestRank, IsGrouping;
    GroupText(changes, groups, k, x);
    GroupText(changes, groups, j, y);
    GroupsDiffer(changes, groups, k, j);
  }

  /** The policy was asked about the eligible change `x` of group `k` and refused it, with its row or by itself. */
  ghost predicate RefusedAt(env: Env, cb: Callbacks, rows0: Rows, groups: seq<seq<Indexed>>, k: nat, x: Indexed)
    requires k < |groups| && NonEmpty(groups)
  {
    var c := groups[k][0].change;
    && RunUpTo(env, cb, rows0, groups, k).Some?
    && Identify(env, c.table, c.pks).Known?
    && var id := RowId(c.table, Identify(env, c.table, c.pks).key);
       var eligible := Eligibles(Columns(env, id.table), groups[k]);
       RefusesChange(
         cb.prepareRow(k, Asked(env, id, groups[k], id in RunUpTo(env, cb, rows0, groups, k).value.rows)), eligible, x)
  }

  predicate RefusesChange(verdict: Verdict, eligible: seq<Indexed>, x: Indexed) {
    match verdict
    case PolicyError => false
    case SkipRow => x in eligible
    case Decide(decisions) =>
      |decisions| == |eligible| && exists p :: 0 <= p < |eligible| && eligible[p] == x && decisions[p].SkipColumn?
  }

  lemma EligibleIsMember(columns: seq<ColumnInfo>, group: seq<Indexed>, x: Indexed)
    requires x in Eligibles(columns, group)
    ensures x in group && Classify(columns, x.change.column).None?
  {
    hide Classify;
    EligiblesMembers(columns, group, |group|);
  }

  /** What is refused is not written. */
  lemma RefusedIsNotGranted(
      env: Env, cb: Callbacks, rows0: Rows, changes: seq<Change>, groups: seq<seq<Indexed>>, k: nat, x: Indexed, j: nat, id: RowId,
      w: Cand)
    requires Arranged(changes, groups) && NonEmpty(groups) && k < |groups| && j < |groups|
    requires RefusedAt(env, cb, rows0, groups, k, x) && GrantedAt(env, cb, rows0, groups, j, id, w)
    ensures w.index != x.index
  {
    hide Eligibles, Arranged, RunUpTo, Identify;
    if w.index == x.index {
      var columns := Columns(env, id.table);
      var eligible := Eligibles(columns, groups[j]);
      EligibleIsMember(Columns(env, groups[k][0].change.table), groups[k], x);
      EligibleIsMember(columns, groups[j], Indexed(w.index, w.change));
      OnePlace(changes, groups, k, j, x, Indexed(w.index, w.change));
      var verdict := cb.prepareRow(j, Asked(env, id, groups[j], id in RunUpTo(env, cb, rows0, groups, j).value.rows));
      var q :| 0 <= q < |eligible| && eligible[q] == x && verdict.decisions[q] == Accept(w.value, w.signature);
      var p :| 0 <= p < |eligible| && eligible[p] == x && verdict.decisions[p].SkipColumn?;
      AskedOnce(changes, groups, j, columns, p, q);
    }
  }

  /** A refused change that is noted is noted as refused. */
  lemma RefusedIsNotedSo(
      env: Env, cb: Callbacks, rows0: Rows, changes: seq<Change>, groups: seq<seq<Indexed>>, k: nat, x: Indexed, j: nat, s: Skipped)
    requires Arranged(changes, groups) && NonEmpty(groups) && k < |groups| && j < |groups|
    requires RefusedAt(env, cb, rows0, groups, k, x) && NotedAt(env, cb, rows0, groups, j, s) && s.index == x.index
    ensures s.reason == PolicySkip
  {
    hide Eligibles, Arranged, RunUpTo, Identify, WriteRefused, Classify, LossReason, Leads;
    var c := groups[j][0].change;
    EligibleIsMember(Columns(env, groups[k][0].change.table), groups[k], x);
    NotedMember(env, cb, rows0, groups, j, s);
    var y :| y in groups[j] && y.index == s.index;
    OnePlace(changes, groups, k, j, x, y);
    var id := RowId(c.table, Identify(env, c.table, c.pks).key);
    var columns := Columns(env, c.table);
    var eligible := Eligibles(columns, groups[j]);
    var rows := RunUpTo(env, cb, rows0, groups, j).value.rows;
    var verdict := cb.prepareRow(j, Asked(env, id, groups[j], id in rows));
    if Ineligible(columns, groups[j], s) {
      var z :| z in groups[j] && z.index == s.index && Classify(columns, z.change.column) == Some(s.reason);
      OnePlace(changes, groups, j, j, x, z);
      assert false;
    }
    var q :| 0 <= q < |eligible| && eligible[q].index == s.index &&
             RefusalFits(env, cb, rows0, rows, j, id, eligible, verdict, q, s.reason);
    if verdict.Decide? {
      var p :| 0 <= p < |eligible| && eligible[p] == x && verdict.decisions[p].SkipColumn?;
      EligibleIsMember(columns, groups[j], eligible[q]);
      OnePlace(changes, groups, j, j, x, eligible[q]);
      AskedOnce(changes, groups, j, columns, p, q);
      SkipColumnLoses(verdict.decisions, eligible, PriorHlcs(Lookup(rows, id)), p);
    }
  }

  lemma SkipColumnLoses(decisions: seq<ColumnDecision>, eligible: seq<Indexed>, hlcs: map<string, string>, p: nat)
    requires p < |decisions| == |eligible| && decisions[p].SkipColumn?
    ensures !Leads(decisions, eligible, hlcs, |eligible|, p) && LossReason(decisions, eligible, hlcs, p) == PolicySkip
  {
  }

  lemma NotedMember(env: Env, cb: Callbacks, rows0: Rows, groups: seq<seq<Indexed>>, j: nat, s: Skipped)
    requires NonEmpty(groups) && j < |groups| && NotedAt(env, cb, rows0, groups, j, s)
    ensures SkipsMember(groups[j], s)
  {
    hide Eligibles, RunUpTo, Identify, RefusalFits;
    var c := groups[j][0].change;
    var columns := Columns(env, c.table);
    if Identify(env, c.table, c.pks).Known? && !Ineligible(columns, groups[j], s) {
      var eligible := Eligibles(columns, groups[j]);
      var q :| 0 <= q < |eligible| && eligible[q].index == s.index;
      EligibleIsMember(columns, groups[j], eligible[q]);
    }
  }

  lemma RefusedIsNeverWritten(
      env: Env, cb: Callbacks, changes: seq<Change>, rows: Rows, groups: seq<seq<Indexed>>, k: nat, x: Indexed, written: seq<Cand>)
    requires Arranged(changes, groups) && NonEmpty(groups) && k < |groups| && RefusedAt(env, cb, rows, groups, k, x)
    requires RunUpTo(env, cb, rows, groups, |groups|).Some? && written == RunUpTo(env, cb, rows, groups, |groups|).value.written
    ensures forall p | 0 <= p < |written| :: written[p].index != x.index
  {
    hide Arranged, RunUpTo, RefusedAt, GrantedAt;
    forall p | 0 <= p < |written|
      ensures written[p].index != x.index
    {
      var j, id := WrittenIsGranted(env, cb, rows, groups, |groups|, written[p]);
      RefusedIsNotGranted(env, cb, rows, changes, groups, k, x, j, id, written[p]);
    }
  }

  lemma RefusedIsAlwaysNotedSo(
      env: Env, cb: Callbacks, changes: seq<Change>, rows: Rows, groups: seq<seq<Indexed>>, k: nat, x: Indexed, notes: seq<Skipped>)
    requires Arranged(changes, groups) && NonEmpty(groups) && k < |groups| && RefusedAt(env, cb, rows, groups, k, x)
    requires AllNoted(env, cb, rows, groups, |groups|, notes)
    ensures forall s | s in notes && s.index == x.index :: s.reason == PolicySkip
  {
    hide Arranged, NotedAt, RefusedAt;
    forall s | s in notes && s.index == x.index
      ensures s.reason == PolicySkip
    {
      var j: nat :| j < |groups| && NotedAt(env, cb, rows, groups, j, s);
      RefusedIsNotedSo(env, cb, rows, changes, groups, k, x, j, s);
    }
  }

  /** Whatever the policy refuses is reported as refused, is not written, and deletes nothing. */
  lemma RefusalIsFinal(
      env: Env, cb: Callbacks, changes: seq<Change>, rows: Rows, groups: seq<seq<Indexed>>, ids: set<string>, outcome: Outcome,
      max: Option<string>, written: seq<Cand>, rows': Rows, k: nat, x: Indexed)
    requires Effect(env, cb, changes, rows, groups, ids, outcome, written, rows') && Account(changes, outcome, max, written)
    requires k < |groups| && RefusedAt(env, cb, rows, groups, k, x)
    ensures x.index < |changes| && changes[x.index] == x.change
    ensures Skipped(x.index, PolicySkip) in outcome.skipped && forall s | s in outcome.skipped && s.index == x.index :: s.reason == PolicySkip
    ensures forall p | 0 <= p < |written| :: written[p].index != x.index
    ensures forall s :: !CollectedAt(env, changes, outcome, x.index, s)
  {
    hide Arranged, RunUpTo, RefusedAt, AllNoted, FannedOut, SparedCount, CollectedAt, Accounted, FoldMax, IsTimestamp;
    RefusedIsMember(env, cb, rows, groups, k, x);
    OnePlace(changes, groups, k, k, x, x);
    RefusedIsNeverWritten(env, cb, changes, rows, groups, k, x, written);
    RefusedIsAlwaysNotedSo(env, cb, changes, rows, groups, k, x, outcome.skipped);
    var position := Booking(outcome, written, |changes|, x.index);
    var s :| s in outcome.skipped && s.index == x.index;
    assert s == Skipped(x.index, PolicySkip);
    RejectedIsNotCollected(env, changes, outcome, x.index);
  }

  lemma RejectedIsNotCollected(env: Env, changes: seq<Change>, outcome: Outcome, i: nat)
    requires Skipped(i, PolicySkip) in outcome.skipped
    ensures forall s :: !CollectedAt(env, changes, outcome, i, s)
  {
    hide NamedId;
    assert Rejected(outcome, i);
  }

  lemma RefusedIsMember(env: Env, cb: Callbacks, rows0: Rows, groups: seq<seq<Indexed>>, k: nat, x: Indexed)
    requires k < |groups| && NonEmpty(groups) && RefusedAt(env, cb, rows0, groups, k, x)
    ensures x in groups[k]
  {
    hide Eligibles, RunUpTo, Identify;
    EligibleIsMember(Columns(env, groups[k][0].change.table), groups[k], x);
  }

  /** Everything written was granted at some group, for the row it was written to. */
  lemma {:induction false} WrittenIsGranted(env: Env, cb: Callbacks, rows0: Rows, groups: seq<seq<Indexed>>, n: nat, w: Cand)
    returns (k: nat, id: RowId)
    requires n <= |groups| && NonEmpty(groups) && RunUpTo(env, cb, rows0, groups, n).Some?
    requires w in RunUpTo(env, cb, rows0, groups, n).value.written
    ensures k < n && GrantedAt(env, cb, rows0, groups, k, id, w)
  {
    hide Granted, GroupRows, Identify;
    var c := groups[n - 1][0].change;
    if w in RunUpTo(env, cb, rows0, groups, n - 1).value.written {
      k, id := WrittenIsGranted(env, cb, rows0, groups, n - 1, w);
    } else {
      k := n - 1;
      id := RowId(c.table, KnownKey(env, c));
      StepIsGranted(env, cb, rows0, RunUpTo(env, cb, rows0, groups, k).value.rows, k, groups[k], id);
    }
  }

  function KnownKey(env: Env, c: Change): Key {
    match Identify(env, c.table, c.pks)
    case Known(key) => key
    case Unknown(_) => map[]
  }

  /** A skip is reported as refused only if the policy refused that change. */
  lemma ReportedRefusalsAreReal(
      env: Env, cb: Callbacks, changes: seq<Change>, rows: Rows, groups: seq<seq<Indexed>>, ids: set<string>, outcome: Outcome,
      written: seq<Cand>, rows': Rows, i: nat)
    requires Effect(env, cb, changes, rows, groups, ids, outcome, written, rows')
    requires Skipped(i, PolicySkip) in outcome.skipped
    ensures exists k: nat, x: Indexed :: k < |groups| && x.index == i && RefusedAt(env, cb, rows, groups, k, x)
  {
    hide Eligibles, RunUpTo, Identify, Arranged, WriteRefused, Leads, Classify, FannedOut, CollectedAt;
    var s := Skipped(i, PolicySkip);
    var k: nat :| k < |groups| && NotedAt(env, cb, rows, groups, k, s);
    var c := groups[k][0].change;
    StructuralReasons(env, c);
    var id := RowId(c.table, KnownKey(env, c));
    var before := RunUpTo(env, cb, rows, groups, k).value.rows;
    var eligible := Eligibles(Columns(env, c.table), groups[k]);
    var verdict := cb.prepareRow(k, Asked(env, id, groups[k], id in before));
    var q :| 0 <= q < |eligible| && eligible[q].index == i &&
             RefusalFits(env, cb, rows, before, k, id, eligible, verdict, q, PolicySkip);
    NoWriteIsRefusedByPolicy(env, cb, rows, before, k, id, Winners(AcceptedBy(verdict, eligible), PriorHlcs(Lookup(before, id))));
    assert eligible[q] in eligible;
    assert RefusesChange(verdict, eligible, eligible[q]);
    assert RefusedAt(env, cb, rows, groups, k, eligible[q]);
  }

  function AcceptedBy(verdict: Verdict, eligible: seq<Indexed>): seq<Cand> {
    if verdict.Decide? && |verdict.decisions| == |eligible| then Accepted(verdict.decisions, eligible, |eligible|) else []
  }

  lemma NoWriteIsRefusedByPolicy(env: Env, cb: Callbacks, rows0: Rows, rows: Rows, k: nat, id: RowId, staged: seq<Cand>)
    ensures !WriteRefused(env, cb, rows0, rows, k, id, staged, PolicySkip)
  {
    hide Shadowed;
  }

  lemma StructuralReasons(env: Env, c: Change)
    ensures Identify(env, c.table, c.pks) != Unknown(PolicySkip)
    ensures forall group, i :: !Ineligible(Columns(env, c.table), group, Skipped(i, PolicySkip))
  {
    hide KeyFits, EndsWith, HasColumn;
  }

  /** No row of a replica differs after a batch but by what its policy granted, or by a delete the batch named. */
  ghost predicate Obeyed(
      env: Env, cb: Callbacks, rows: Rows, groups: seq<seq<Indexed>>, ids: set<string>, rows': Rows)
    requires NonEmpty(groups)
  {
    && (forall id | id in rows' :: RowObeys(env, cb, rows, groups, |groups|, rows', id))
    && forall id | id in rows && id !in rows' :: exists s :: s in ids && NamesTombstone(env, cb, rows, groups, s, id)
  }

  /** After the write loop the log entry `s` is a tombstone of the row. */
  ghost predicate NamesTombstone(env: Env, cb: Callbacks, rows: Rows, groups: seq<seq<Indexed>>, s: string, id: RowId)
    requires NonEmpty(groups)
  {
    && RunUpTo(env, cb, rows, groups, |groups|).Some?
    && TombstoneFor(env, RunUpTo(env, cb, rows, groups, |groups|).value.rows, LogRow(s), id).Some?
  }

  lemma BatchObeys(
      env: Env, cb: Callbacks, changes: seq<Change>, rows: Rows, groups: seq<seq<Indexed>>, ids: set<string>, outcome: Outcome,
      written: seq<Cand>, rows': Rows)
    requires Effect(env, cb, changes, rows, groups, ids, outcome, written, rows')
    ensures NonEmpty(groups) && Obeyed(env, cb, rows, groups, ids, rows')
  {
    hide RunUpTo, Arranged, CollectedAt, GrantedInRun, AllNoted, TombstoneFor, LogTargetsNoLog, ValidTarget;
    var run := RunUpTo(env, cb, rows, groups, |groups|).value.rows;
    forall id
      ensures RowObeys(env, cb, rows, groups, |groups|, run, id)
    {
      RunObeysPolicy(env, cb, rows, groups, |groups|, id);
    }
    forall id | id in rows'
      ensures RowObeys(env, cb, rows, groups, |groups|, rows', id)
    {
      assert RowObeys(env, cb, rows, groups, |groups|, run, id);
      forall column
        ensures CellObeys(env, cb, rows, groups, |groups|, rows', id, column)
      {
        assert CellObeys(env, cb, rows, groups, |groups|, run, id, column);
        assert CellIn(rows', id, column) == CellIn(run, id, column);
      }
    }
    forall id | id in rows && id !in rows'
      ensures exists s :: s in ids && NamesTombstone(env, cb, rows, groups, s, id)
    {
      assert RowObeys(env, cb, rows, groups, |groups|, run, id);
      var s :| s in ids && KilledBy(env, run, s, id);
      assert NamesTombstone(env, cb, rows, groups, s, id);
    }
  }
}
