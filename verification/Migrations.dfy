/**
 * The two-journal migration engine: each source is reconciled against its own
 * journal, then its pending migrations run one transaction at a time, while
 * other openers of the same database do the same.
 */
module Migrations {
  import opened Common
  import opened TextOrder

  datatype Journal = CrateOwned | ConsumerOwned

  /** The names a source lists, in order, and the content it loads for a name. */
  datatype Source = Source(names: seq<string>, contents: map<string, string>)

  datatype Env = Env(crateSource: Source, consumerSource: Source, digest: string -> string) {
    function SourceOf(j: Journal): Source {
      if j.CrateOwned? then crateSource else consumerSource
    }
  }

  /** A committed run of the body at `index` of a source. */
  datatype Execution = Execution(journal: Journal, index: nat)

  /** What all openers share: the two journals and the bodies committed so far, oldest first. */
  datatype Db = Db(crateJournal: map<string, string>, consumerJournal: map<string, string>, executed: seq<Execution>) {
    function At(j: Journal): map<string, string> {
      if j.CrateOwned? then crateJournal else consumerJournal
    }
  }

  function Record(db: Db, j: Journal, index: nat, name: string, digest: string): Db {
    var log := db.executed + [Execution(j, index)];
    if j.CrateOwned? then Db(db.crateJournal[name := digest], db.consumerJournal, log)
    else Db(db.crateJournal, db.consumerJournal[name := digest], log)
  }

  datatype Error =
    | MissingFromSource(name: string)
    | LoadFailed(name: string)
    | ContentDrift(name: string)
    | BodyFailed(name: string)

  datatype Applied = Skipped | Executed | Failed(error: Error)

  predicate Loads(env: Env, j: Journal, k: nat) {
    k < |env.SourceOf(j).names| && env.SourceOf(j).names[k] in env.SourceOf(j).contents
  }

  function DigestAt(env: Env, j: Journal, k: nat): string
    requires Loads(env, j, k)
  {
    env.digest(env.SourceOf(j).contents[env.SourceOf(j).names[k]])
  }

  /** One migration in its own immediate transaction, dropped unless it reaches the commit. */
  function ApplyOne(env: Env, db: Db, j: Journal, k: nat, bodySucceeds: bool): (Db, Applied)
    requires Loads(env, j, k)
  {
    var name := env.SourceOf(j).names[k];
    if name in db.At(j) then
      (db, if db.At(j)[name] == DigestAt(env, j, k) then Skipped else Applied.Failed(ContentDrift(name)))
    else if !bodySucceeds then (db, Applied.Failed(BodyFailed(name)))
    else (Record(db, j, k, name, DigestAt(env, j, k)), Executed)
  }

  /** Every journaled name is still in the source, with the content it was applied with. */
  predicate Consistent(env: Env, j: Journal, journal: map<string, string>) {
    var s := env.SourceOf(j);
    forall n | n in journal :: n in s.names && n in s.contents && env.digest(s.contents[n]) == journal[n]
  }

  /** The journal holds the digests of the first `k` names. */
  predicate HasFirst(env: Env, j: Journal, journal: map<string, string>, k: nat) {
    var s := env.SourceOf(j);
    k <= |s.names| && forall i | 0 <= i < k :: Loads(env, j, i) && s.names[i] in journal && journal[s.names[i]] == DigestAt(env, j, i)
  }

  /** The journal holds exactly the source's names with their digests. */
  predicate Complete(env: Env, j: Journal, journal: map<string, string>) {
    Consistent(env, j, journal) && HasFirst(env, j, journal, |env.SourceOf(j).names|)
  }

  datatype Pc =
    | Reading(journal: Journal)
    | Applying(journal: Journal, next: nat)
    | Finished
    | Stopped

  datatype Runner = Runner(pc: Pc, crateApplied: nat, consumerApplied: nat)

  datatype State = State(db: Db, runners: seq<Runner>)

  /** How a step turns out: the transaction is refused, or it runs with a body that succeeds or fails. */
  datatype Turn = Turn(runner: nat, busy: bool, bodySucceeds: bool)

  function Count(r: Runner, j: Journal): Runner {
    if j.CrateOwned? then r.(crateApplied := r.crateApplied + 1) else r.(consumerApplied := r.consumerApplied + 1)
  }

  function MoveOn(env: Env, r: Runner): Runner
    requires r.pc.Applying?
  {
    r.(pc := if r.pc.journal.CrateOwned? then Reading(ConsumerOwned) else Finished)
  }

  function StepRunner(env: Env, db: Db, r: Runner, t: Turn): (Db, Runner) {
    match r.pc
    case Reading(j) =>
      if t.busy then (db, r.(pc := Stopped))
      else if Consistent(env, j, db.At(j)) then (db, r.(pc := Applying(j, 0)))
      else (db, r.(pc := Stopped))
    case Applying(j, k) =>
      if k >= |env.SourceOf(j).names| then (db, MoveOn(env, r))
      else if !Loads(env, j, k) then (db, r.(pc := Stopped))
      else if t.busy then (db, r.(pc := Stopped))
      else
        var (after, applied) := ApplyOne(env, db, j, k, t.bodySucceeds);
        (match applied
         case Skipped => (after, r.(pc := Applying(j, k + 1)))
         case Executed => (after, Count(r, j).(pc := Applying(j, k + 1)))
         case Failed(_) => (after, r.(pc := Stopped)))
    case _ => (db, r)
  }

  function Step(env: Env, s: State, t: Turn): State {
    if t.runner < |s.runners| then
      var (db, r) := StepRunner(env, s.db, s.runners[t.runner], t);
      State(db, s.runners[t.runner := r])
    else s
  }

  /** Any number of openers, interleaved in any way. */
  function StateAfter(env: Env, start: Db, openers: nat, schedule: seq<Turn>): State {
    if schedule == [] then State(start, seq(openers, i => Runner(Reading(CrateOwned), 0, 0)))
    else Step(env, StateAfter(env, start, openers, schedule[..|schedule| - 1]), schedule[|schedule| - 1])
  }

  /** A runner that has read its journal found it consistent, and has seen through all names before its next. */
  predicate RunnerOk(env: Env, db: Db, r: Runner) {
    match r.pc
    case Reading(j) => j.ConsumerOwned? ==> Complete(env, CrateOwned, db.crateJournal)
    case Applying(j, k) =>
      && Consistent(env, j, db.At(j)) && HasFirst(env, j, db.At(j), k)
      && (j.ConsumerOwned? ==> Complete(env, CrateOwned, db.crateJournal))
    case Finished => Complete(env, CrateOwned, db.crateJournal) && Complete(env, ConsumerOwned, db.consumerJournal)
    case Stopped => true
  }

  /** One body comes before another: earlier in the same source and of another name, or crate-owned before consumer-owned. */
  predicate Prior(env: Env, a: Execution, b: Execution) {
    if a.journal == b.journal then
      && a.index < b.index && Loads(env, a.journal, a.index) && Loads(env, b.journal, b.index)
      && env.SourceOf(a.journal).names[a.index] != env.SourceOf(a.journal).names[b.index]
    else a.journal.CrateOwned?
  }

  /** Executions in source order, crate bodies first, each one journaled with everything before it. */
  predicate LogOk(env: Env, start: Db, db: Db) {
    && |start.executed| <= |db.executed| && db.executed[..|start.executed|] == start.executed
    && (forall i, k | |start.executed| <= i < k < |db.executed| :: Prior(env, db.executed[i], db.executed[k]))
    && (forall i | |start.executed| <= i < |db.executed| :: ExecutionOk(env, start, db, db.executed[i]))
  }

  predicate ExecutionOk(env: Env, start: Db, db: Db, e: Execution) {
    && Loads(env, e.journal, e.index) && HasFirst(env, e.journal, db.At(e.journal), e.index + 1)
    && env.SourceOf(e.journal).names[e.index] !in start.At(e.journal)
    && (e.journal.ConsumerOwned? ==> Complete(env, CrateOwned, db.crateJournal))
  }

  /** Whatever a journal gained, some committed body of that name put there. */
  predicate JournalGrown(env: Env, start: Db, db: Db, j: Journal) {
    && (forall n | n in start.At(j) :: n in db.At(j) && db.At(j)[n] == start.At(j)[n])
    && (forall n | n in db.At(j) && n !in start.At(j) :: ExecutedName(env, start, db, j, n))
  }

  predicate ExecutedName(env: Env, start: Db, db: Db, j: Journal, n: string) {
    exists i :: |start.executed| <= i < |db.executed| && db.executed[i].journal == j &&
                Loads(env, j, db.executed[i].index) && env.SourceOf(j).names[db.executed[i].index] == n
  }

  predicate Inv(env: Env, start: Db, s: State) {
    && (forall i | 0 <= i < |s.runners| :: RunnerOk(env, s.db, s.runners[i]))
    && LogOk(env, start, s.db)
    && JournalGrown(env, start, s.db, CrateOwned) && JournalGrown(env, start, s.db, ConsumerOwned)
  }

  /** A journal only gains entries that belong to its source. */
  predicate Grows(env: Env, before: Db, after: Db) {
    forall j: Journal ::
      && (forall n | n in before.At(j) :: n in after.At(j) && after.At(j)[n] == before.At(j)[n])
      && (Consistent(env, j, before.At(j)) ==> Consistent(env, j, after.At(j)))
  }

  lemma ApplyGrows(env: Env, db: Db, j: Journal, k: nat, bodySucceeds: bool)
    requires Loads(env, j, k)
    ensures Grows(env, db, ApplyOne(env, db, j, k, bodySucceeds).0)
  {
  }

  lemma HasFirstStays(env: Env, before: Db, after: Db, j: Journal, k: nat)
    requires Grows(env, before, after) && HasFirst(env, j, before.At(j), k)
    ensures HasFirst(env, j, after.At(j), k)
  {
    hide DigestAt;
  }

  lemma CompleteStays(env: Env, before: Db, after: Db, j: Journal)
    requires Grows(env, before, after) && Complete(env, j, before.At(j))
    ensures Complete(env, j, after.At(j))
  {
    hide HasFirst, Consistent;
    HasFirstStays(env, before, after, j, |env.SourceOf(j).names|);
  }

  lemma RunnerStays(env: Env, before: Db, after: Db, r: Runner)
    requires Grows(env, before, after) && RunnerOk(env, before, r)
    ensures RunnerOk(env, after, r)
  {
    hide HasFirst, Consistent, Complete;
    assert forall j: Journal :: before.At(j) == before.At(j) && after.At(j) == after.At(j);
    if Complete(env, CrateOwned, before.At(CrateOwned)) {
      CompleteStays(env, before, after, CrateOwned);
    }
    if Complete(env, ConsumerOwned, before.At(ConsumerOwned)) {
      CompleteStays(env, before, after, ConsumerOwned);
    }
    if r.pc.Applying? {
      HasFirstStays(env, before, after, r.pc.journal, r.pc.next);
    }
  }

  lemma StepGrows(env: Env, db: Db, r: Runner, t: Turn)
    ensures Grows(env, db, StepRunner(env, db, r, t).0)
  {
    hide Consistent;
    if r.pc.Applying? && Loads(env, r.pc.journal, r.pc.next) {
      ApplyGrows(env, db, r.pc.journal, r.pc.next, t.bodySucceeds);
    }
  }

  /** The runner that moves keeps its own part of the invariant. */
  lemma MoverStays(env: Env, db: Db, r: Runner, t: Turn)
    requires RunnerOk(env, db, r)
    ensures var (after, moved) := StepRunner(env, db, r, t); RunnerOk(env, after, moved)
  {
    var (after, moved) := StepRunner(env, db, r, t);
    StepGrows(env, db, r, t);
    if r.pc.Applying? && moved.pc.Applying? {
      var j, k := r.pc.journal, r.pc.next;
      HasFirstStays(env, db, after, j, k);
      if j.ConsumerOwned? {
        CompleteStays(env, db, after, CrateOwned);
      }
    }
  }

  lemma ExecutionStays(env: Env, start: Db, before: Db, after: Db, e: Execution)
    requires Grows(env, before, after) && ExecutionOk(env, start, before, e)
    ensures ExecutionOk(env, start, after, e)
  {
    hide HasFirst, Consistent, Complete, Grows;
    HasFirstStays(env, before, after, e.journal, e.index + 1);
    if e.journal.ConsumerOwned? {
      CompleteStays(env, before, after, CrateOwned);
    }
  }

  /** A body about to be committed comes after everything committed so far. */
  lemma NextIsLast(env: Env, start: Db, db: Db, e: Execution, j: Journal, k: nat)
    requires ExecutionOk(env, start, db, e)
    requires Loads(env, j, k) && env.SourceOf(j).names[k] !in db.At(j)
    ensures Prior(env, e, Execution(j, k))
  {
    hide DigestAt, Consistent;
  }

  /** A runner commits the body at its next index, and only if that name was not journaled. */
  predicate Commits(env: Env, db: Db, r: Runner, t: Turn) {
    && r.pc.Applying? && Loads(env, r.pc.journal, r.pc.next) && !t.busy && t.bodySucceeds
    && env.SourceOf(r.pc.journal).names[r.pc.next] !in db.At(r.pc.journal)
  }

  /** Without a commit nothing is left behind: no failing body, refusal or drift shows in the database. */
  lemma OnlyCommitsLeaveATrace(env: Env, db: Db, r: Runner, t: Turn)
    ensures !Commits(env, db, r, t) ==> StepRunner(env, db, r, t).0 == db
    ensures Commits(env, db, r, t) ==>
              StepRunner(env, db, r, t).0 ==
              Record(db, r.pc.journal, r.pc.next, env.SourceOf(r.pc.journal).names[r.pc.next], DigestAt(env, r.pc.journal, r.pc.next))
  {
    hide Consistent, DigestAt;
  }

  lemma LogStays(env: Env, start: Db, db: Db, r: Runner, t: Turn)
    requires RunnerOk(env, db, r) && LogOk(env, start, db)
    requires JournalGrown(env, start, db, CrateOwned) && JournalGrown(env, start, db, ConsumerOwned)
    ensures LogOk(env, start, StepRunner(env, db, r, t).0)
  {
    hide Consistent, DigestAt, HasFirst, Complete, ExecutionOk, Prior, ExecutedName, StepRunner, Grows;
    OnlyCommitsLeaveATrace(env, db, r, t);
    StepGrows(env, db, r, t);
    if Commits(env, db, r, t) {
      var after := StepRunner(env, db, r, t).0;
      var e := Execution(r.pc.journal, r.pc.next);
      assert after.executed == db.executed + [e];
      forall i | |start.executed| <= i < |db.executed|
        ensures Prior(env, db.executed[i], e) && ExecutionOk(env, start, after, db.executed[i])
      {
        NextIsLast(env, start, db, db.executed[i], e.journal, e.index);
        ExecutionStays(env, start, db, after, db.executed[i]);
      }
      NewExecution(env, start, db, r, t);
    }
  }

  lemma NewExecution(env: Env, start: Db, db: Db, r: Runner, t: Turn)
    requires RunnerOk(env, db, r) && Commits(env, db, r, t)
    requires JournalGrown(env, start, db, CrateOwned) && JournalGrown(env, start, db, ConsumerOwned)
    ensures ExecutionOk(env, start, StepRunner(env, db, r, t).0, Execution(r.pc.journal, r.pc.next))
  {
    hide Consistent, Grows, ExecutedName, Complete;
    var j, k := r.pc.journal, r.pc.next;
    var after := StepRunner(env, db, r, t).0;
    StepGrows(env, db, r, t);
    HasFirstStays(env, db, after, j, k);
    if j.ConsumerOwned? {
      CompleteStays(env, db, after, CrateOwned);
    }
    assert JournalGrown(env, start, db, j);
  }

  lemma JournalGrowthStays(env: Env, start: Db, db: Db, r: Runner, t: Turn, j: Journal)
    requires |start.executed| <= |db.executed| && JournalGrown(env, start, db, j)
    ensures JournalGrown(env, start, StepRunner(env, db, r, t).0, j)
  {
    hide Consistent, DigestAt, StepRunner;
    OnlyCommitsLeaveATrace(env, db, r, t);
    if Commits(env, db, r, t) {
      var after := StepRunner(env, db, r, t).0;
      var e := Execution(r.pc.journal, r.pc.next);
      assert after.executed == db.executed + [e];
      forall n | n in after.At(j) && n !in start.At(j)
        ensures ExecutedName(env, start, after, j, n)
      {
        if n in db.At(j) {
          var i :| |start.executed| <= i < |db.executed| && db.executed[i].journal == j &&
                   Loads(env, j, db.executed[i].index) && env.SourceOf(j).names[db.executed[i].index] == n;
          assert after.executed[i] == db.executed[i];
        } else {
          assert after.executed[|db.executed|] == e;
        }
      }
    }
  }

  lemma StepKeepsInv(env: Env, start: Db, s: State, t: Turn)
    requires Inv(env, start, s)
    ensures Inv(env, start, Step(env, s, t))
  {
    hide RunnerOk, JournalGrown, StepRunner, Grows;
    if t.runner < |s.runners| {
      var r := s.runners[t.runner];
      var after := StepRunner(env, s.db, r, t).0;
      assert |start.executed| <= |s.db.executed|;
      LogStays(env, start, s.db, r, t);
      JournalGrowthStays(env, start, s.db, r, t, CrateOwned);
      JournalGrowthStays(env, start, s.db, r, t, ConsumerOwned);
      StepGrows(env, s.db, r, t);
      MoverStays(env, s.db, r, t);
      forall i | 0 <= i < |s.runners|
        ensures RunnerOk(env, after, s.runners[i])
      {
        RunnerStays(env, s.db, after, s.runners[i]);
      }
    }
  }

  lemma {:induction false} InvAlways(env: Env, start: Db, openers: nat, schedule: seq<Turn>)
    ensures Inv(env, start, StateAfter(env, start, openers, schedule))
    ensures |StateAfter(env, start, openers, schedule).runners| == openers
  {
    hide Complete, Consistent, HasFirst;
    if schedule != [] {
      InvAlways(env, start, openers, schedule[..|schedule| - 1]);
      StepKeepsInv(env, start, StateAfter(env, start, openers, schedule[..|schedule| - 1]), schedule[|schedule| - 1]);
    }
  }

  /** No migration body is committed twice, nor one that was journaled before; crate bodies come first, each source in its own order. */
  lemma ExactlyOnceInOrder(env: Env, start: Db, openers: nat, schedule: seq<Turn>, i: nat, k: nat)
    requires var log := StateAfter(env, start, openers, schedule).db.executed; |start.executed| <= i < k < |log|
    ensures Prior(env, StateAfter(env, start, openers, schedule).db.executed[i], StateAfter(env, start, openers, schedule).db.executed[k])
  {
    hide Prior;
    InvAlways(env, start, openers, schedule);
  }

  /** A body is committed only for a name no journal knew at the start, and its digest is journaled with it. */
  lemma ExecutedMeansJournaled(env: Env, start: Db, openers: nat, schedule: seq<Turn>, i: nat)
    requires |start.executed| <= i < |StateAfter(env, start, openers, schedule).db.executed|
    ensures var db := StateAfter(env, start, openers, schedule).db; var j, k := db.executed[i].journal, db.executed[i].index;
            && Loads(env, j, k) && env.SourceOf(j).names[k] !in start.At(j)
            && env.SourceOf(j).names[k] in db.At(j) && db.At(j)[env.SourceOf(j).names[k]] == DigestAt(env, j, k)
  {
    InvAlways(env, start, openers, schedule);
    var db := StateAfter(env, start, openers, schedule).db;
    assert ExecutionOk(env, start, db, db.executed[i]);
  }

  /** A journal never loses or changes an entry, and gains one only through a committed body. */
  lemma JournaledMeansExecuted(env: Env, start: Db, openers: nat, schedule: seq<Turn>, j: Journal, n: string)
    ensures var db := StateAfter(env, start, openers, schedule).db;
            && (n in start.At(j) ==> n in db.At(j) && db.At(j)[n] == start.At(j)[n])
            && (n in db.At(j) && n !in start.At(j) ==> ExecutedName(env, start, db, j, n))
  {
    hide ExecutedName, StateAfter;
    InvAlways(env, start, openers, schedule);
    assert JournalGrown(env, start, StateAfter(env, start, openers, schedule).db, j);
  }

  /** Once Ok is reported to any opener, both journals hold exactly their source's names with their digests, from then on. */
  lemma OkMeansComplete(env: Env, start: Db, openers: nat, schedule: seq<Turn>, r: nat)
    requires r < openers
    ensures var s := StateAfter(env, start, openers, schedule);
            r < |s.runners| &&
            (s.runners[r].pc.Finished? ==>
               Complete(env, CrateOwned, s.db.crateJournal) && Complete(env, ConsumerOwned, s.db.consumerJournal))
  {
    hide Complete;
    InvAlways(env, start, openers, schedule);
    var s := StateAfter(env, start, openers, schedule);
    assert RunnerOk(env, s.db, s.runners[r]);
  }

  function AppliedBy(runners: seq<Runner>): nat {
    if runners == [] then 0
    else AppliedBy(runners[..|runners| - 1]) + runners[|runners| - 1].crateApplied + runners[|runners| - 1].consumerApplied
  }

  lemma {:induction false} AppliedAfterUpdate(runners: seq<Runner>, i: nat, r: Runner)
    requires i < |runners|
    ensures AppliedBy(runners[i := r]) - AppliedBy(runners) ==
            r.crateApplied + r.consumerApplied - runners[i].crateApplied - runners[i].consumerApplied
  {
    var n := |runners| - 1;
    if i == n {
      assert runners[i := r][..n] == runners[..n];
    } else {
      AppliedAfterUpdate(runners[..n], i, r);
      assert runners[i := r][..n] == runners[..n][i := r];
    }
  }

  lemma {:induction false} NothingAppliedYet(openers: nat)
    ensures AppliedBy(seq(openers, i => Runner(Reading(CrateOwned), 0, 0))) == 0
  {
    if openers > 0 {
      NothingAppliedYet(openers - 1);
      assert seq(openers, i => Runner(Reading(CrateOwned), 0, 0))[..openers - 1] ==
             seq(openers - 1, i => Runner(Reading(CrateOwned), 0, 0));
    }
  }

  /** The counts the openers report add up to the bodies committed. */
  lemma {:induction false} CountsAddUp(env: Env, start: Db, openers: nat, schedule: seq<Turn>)
    ensures var s := StateAfter(env, start, openers, schedule);
            AppliedBy(s.runners) == |s.db.executed| - |start.executed|
  {
    hide Consistent, AppliedBy, DigestAt;
    if schedule == [] {
      NothingAppliedYet(openers);
    } else {
      var s := StateAfter(env, start, openers, schedule[..|schedule| - 1]);
      var t := schedule[|schedule| - 1];
      CountsAddUp(env, start, openers, schedule[..|schedule| - 1]);
      if t.runner < |s.runners| {
        AppliedAfterUpdate(s.runners, t.runner, StepRunner(env, s.db, s.runners[t.runner], t).1);
      }
    }
  }

  /** The bodies of one source among those committed. */
  function CountOf(log: seq<Execution>, j: Journal): nat {
    if log == [] then 0 else CountOf(log[..|log| - 1], j) + if log[|log| - 1].journal == j then 1 else 0
  }

  function AppliedOf(runners: seq<Runner>, j: Journal): nat {
    if runners == [] then 0
    else
      var last := runners[|runners| - 1];
      AppliedOf(runners[..|runners| - 1], j) + if j.CrateOwned? then last.crateApplied else last.consumerApplied
  }

  function OwnCount(r: Runner, j: Journal): nat {
    if j.CrateOwned? then r.crateApplied else r.consumerApplied
  }

  lemma {:induction false} AppliedOfAfterUpdate(runners: seq<Runner>, i: nat, r: Runner, j: Journal)
    requires i < |runners|
    ensures AppliedOf(runners[i := r], j) - AppliedOf(runners, j) == OwnCount(r, j) - OwnCount(runners[i], j)
  {
    var n := |runners| - 1;
    if i == n {
      assert runners[i := r][..n] == runners[..n];
    } else {
      AppliedOfAfterUpdate(runners[..n], i, r, j);
      assert runners[i := r][..n] == runners[..n][i := r];
    }
  }

  lemma {:induction false} NothingAppliedOf(openers: nat, j: Journal)
    ensures AppliedOf(seq(openers, i => Runner(Reading(CrateOwned), 0, 0)), j) == 0
  {
    if openers > 0 {
      NothingAppliedOf(openers - 1, j);
      assert seq(openers, i => Runner(Reading(CrateOwned), 0, 0))[..openers - 1] ==
             seq(openers - 1, i => Runner(Reading(CrateOwned), 0, 0));
    }
  }

  lemma CountOfOneMore(log: seq<Execution>, e: Execution, j: Journal)
    ensures CountOf(log + [e], j) == CountOf(log, j) + if e.journal == j then 1 else 0
  {
    assert (log + [e])[..|log|] == log;
  }

  lemma StepCounts(env: Env, db: Db, r: Runner, t: Turn, j: Journal)
    ensures var (after, moved) := StepRunner(env, db, r, t);
            OwnCount(moved, j) - OwnCount(r, j) == CountOf(after.executed, j) - CountOf(db.executed, j)
  {
    hide Consistent, DigestAt;
    if Commits(env, db, r, t) {
      CountOfOneMore(db.executed, Execution(r.pc.journal, r.pc.next), j);
    }
  }

  /** The counts reported for a source add up to the bodies of that source committed. */
  lemma {:induction false} CountsAddUpBySource(env: Env, start: Db, openers: nat, schedule: seq<Turn>, j: Journal)
    ensures var s := StateAfter(env, start, openers, schedule);
            AppliedOf(s.runners, j) == CountOf(s.db.executed, j) - CountOf(start.executed, j)
  {
    hide Consistent, AppliedOf, CountOf, DigestAt, StepRunner;
    if schedule == [] {
      NothingAppliedOf(openers, j);
    } else {
      var s := StateAfter(env, start, openers, schedule[..|schedule| - 1]);
      var t := schedule[|schedule| - 1];
      CountsAddUpBySource(env, start, openers, schedule[..|schedule| - 1], j);
      if t.runner < |s.runners| {
        StepCounts(env, s.db, s.runners[t.runner], t, j);
        AppliedOfAfterUpdate(s.runners, t.runner, StepRunner(env, s.db, s.runners[t.runner], t).1, j);
      }
    }
  }

  predicate Sound(env: Env, db: Db) {
    forall j: Journal :: Consistent(env, j, db.At(j)) && AllLoad(env, j)
  }

  /** How many good turns a runner needs to finish; one that stopped never does. */
  function TurnsLeft(env: Env, r: Runner): Option<nat> {
    var crate, consumer := |env.crateSource.names|, |env.consumerSource.names|;
    match r.pc
    case Reading(CrateOwned) => Some(crate + consumer + 4)
    case Applying(CrateOwned, k) => Some((if k < crate then crate - k else 0) + consumer + 3)
    case Reading(ConsumerOwned) => Some(consumer + 2)
    case Applying(ConsumerOwned, k) => Some((if k < consumer then consumer - k else 0) + 1)
    case Finished => Some(0)
    case Stopped => None
  }

  /** A turn in which neither a lock nor a body fails. */
  predicate Good(t: Turn) {
    !t.busy && t.bodySucceeds
  }

  lemma GoodTurnAdvances(env: Env, db: Db, r: Runner, t: Turn)
    requires Sound(env, db) && Good(t) && TurnsLeft(env, r).Some?
    ensures var left := TurnsLeft(env, StepRunner(env, db, r, t).1);
            left.Some? && left.value == if TurnsLeft(env, r).value == 0 then 0 else TurnsLeft(env, r).value - 1
    ensures TurnsLeft(env, r) == Some(0) ==> r.pc.Finished?
  {
    hide Consistent;
    assert db.At(CrateOwned) == db.crateJournal && db.At(ConsumerOwned) == db.consumerJournal;
    if r.pc.Applying? && Loads(env, r.pc.journal, r.pc.next) {
      NoDrift(env, db, r.pc.journal, r.pc.next);
    }
  }

  lemma SoundStays(env: Env, s: State, t: Turn)
    requires Sound(env, s.db)
    ensures Sound(env, Step(env, s, t).db)
  {
    hide Consistent, AllLoad, StepRunner;
    if t.runner < |s.runners| {
      StepGrows(env, s.db, s.runners[t.runner], t);
      var after := Step(env, s, t).db;
      forall j: Journal
        ensures Consistent(env, j, after.At(j)) && AllLoad(env, j)
      {
        assert Consistent(env, j, s.db.At(j));
      }
    }
  }

  function TurnsOf(schedule: seq<Turn>, r: nat): nat {
    if schedule == [] then 0 else TurnsOf(schedule[..|schedule| - 1], r) + if schedule[|schedule| - 1].runner == r then 1 else 0
  }

  /**
   * Over sound journals an opener whose own turns are good finishes within
   * one turn per migration and four more, whatever other openers do and
   * whatever befalls them.
   */
  lemma {:induction false} OpenerFinishes(env: Env, start: Db, openers: nat, schedule: seq<Turn>, r: nat)
    requires Sound(env, start) && r < openers
    requires forall t | t in schedule && t.runner == r :: Good(t)
    ensures var s := StateAfter(env, start, openers, schedule);
            var all := |env.crateSource.names| + |env.consumerSource.names| + 4;
            && Sound(env, s.db) && r < |s.runners| && TurnsLeft(env, s.runners[r]).Some?
            && TurnsLeft(env, s.runners[r]).value == (if TurnsOf(schedule, r) >= all then 0 else all - TurnsOf(schedule, r))
            && (TurnsOf(schedule, r) >= all <==> s.runners[r].pc.Finished?)
  {
    hide Sound, StepRunner, TurnsLeft;
    if schedule == [] {
      FreshRunner(env, openers, r);
    } else {
      var front, t := schedule[..|schedule| - 1], schedule[|schedule| - 1];
      OpenerFinishes(env, start, openers, front, r);
      var s := StateAfter(env, start, openers, front);
      SoundStays(env, s, t);
      if t.runner == r {
        assert t in schedule;
        GoodTurnAdvances(env, s.db, s.runners[r], t);
      }
      FinishedIsZero(env, StateAfter(env, start, openers, schedule).runners[r]);
    }
  }

  lemma FreshRunner(env: Env, openers: nat, r: nat)
    requires r < openers
    ensures TurnsLeft(env, Runner(Reading(CrateOwned), 0, 0)) == Some(|env.crateSource.names| + |env.consumerSource.names| + 4)
  {
  }

  lemma FinishedIsZero(env: Env, r: Runner)
    ensures TurnsLeft(env, r) == Some(0) <==> r.pc.Finished?
  {
  }

  predicate AllLoad(env: Env, j: Journal) {
    forall i | 0 <= i < |env.SourceOf(j).names| :: Loads(env, j, i)
  }

  /** The indices a lone pass over the source commits, from `k` on. */
  function Pending(env: Env, db: Db, j: Journal, k: nat): seq<Execution>
    requires k <= |env.SourceOf(j).names|
    requires AllLoad(env, j)
    decreases |env.SourceOf(j).names| - k
  {
    if k == |env.SourceOf(j).names| then []
    else
      var (after, applied) := ApplyOne(env, db, j, k, true);
      (if applied.Executed? then [Execution(j, k)] else []) + Pending(env, after, j, k + 1)
  }

  lemma PendingStep(env: Env, before: Db, j: Journal, k: nat, bodySucceeds: bool)
    requires k < |env.SourceOf(j).names|
    requires AllLoad(env, j)
    ensures var (after, applied) := ApplyOne(env, before, j, k, bodySucceeds);
            !applied.Failed? ==> after.executed + Pending(env, after, j, k + 1) == before.executed + Pending(env, before, j, k)
  {
    hide DigestAt;
  }

  /** Left alone, an opener commits exactly the bodies whose names are not journaled. */
  lemma {:induction false} PendingIsWhatIsMissing(env: Env, db: Db, j: Journal, k: nat, i: nat)
    requires k <= |env.SourceOf(j).names| && Consistent(env, j, db.At(j))
    requires AllLoad(env, j)
    requires forall a, b | 0 <= a < b < |env.SourceOf(j).names| :: env.SourceOf(j).names[a] != env.SourceOf(j).names[b]
    ensures Execution(j, i) in Pending(env, db, j, k) <==>
            k <= i < |env.SourceOf(j).names| && env.SourceOf(j).names[i] !in db.At(j)
    decreases |env.SourceOf(j).names| - k
  {
    hide DigestAt, Consistent;
    if k < |env.SourceOf(j).names| {
      var after := ApplyOne(env, db, j, k, true).0;
      ApplyGrows(env, db, j, k, true);
      NoDrift(env, db, j, k);
      PendingIsWhatIsMissing(env, after, j, k + 1, i);
    }
  }

  lemma NoDrift(env: Env, db: Db, j: Journal, k: nat)
    requires Loads(env, j, k) && Consistent(env, j, db.At(j))
    ensures !ApplyOne(env, db, j, k, true).1.Failed?
    ensures ApplyOne(env, db, j, k, true).1.Executed? <==> env.SourceOf(j).names[k] !in db.At(j)
  {
  }

  lemma NothingPending(env: Env, db: Db, j: Journal)
    requires AllLoad(env, j)
    ensures Pending(env, db, j, |env.SourceOf(j).names|) == []
  {
  }

  /** What a pass needs to end well: nothing journaled is missing or drifted, everything loads, every pending body succeeds. */
  predicate Succeeds(env: Env, db: Db, j: Journal, outcomes: nat -> bool) {
    Consistent(env, j, db.At(j)) && AllLoad(env, j) && forall e | e in Pending(env, db, j, 0) :: outcomes(e.index)
  }

  /** The pending bodies depend on the source's own journal alone. */
  lemma {:induction false} PendingIgnoresTheOther(env: Env, a: Db, b: Db, j: Journal, k: nat)
    requires k <= |env.SourceOf(j).names| && AllLoad(env, j) && a.At(j) == b.At(j)
    ensures Pending(env, a, j, k) == Pending(env, b, j, k)
    decreases |env.SourceOf(j).names| - k
  {
    hide DigestAt;
    if k < |env.SourceOf(j).names| {
      PendingIgnoresTheOther(env, ApplyOne(env, a, j, k, true).0, ApplyOne(env, b, j, k, true).0, j, k + 1);
    }
  }

  /** Where a pass over a consistent journal stops, a pending body failed. */
  lemma FailureIsPending(env: Env, before: Db, j: Journal, k: nat, bodySucceeds: bool)
    requires k < |env.SourceOf(j).names| && AllLoad(env, j) && Consistent(env, j, before.At(j))
    requires ApplyOne(env, before, j, k, bodySucceeds).1.Failed?
    ensures !bodySucceeds && Pending(env, before, j, k) != [] && Pending(env, before, j, k)[0] == Execution(j, k)
  {
    hide DigestAt, Consistent;
    NoDrift(env, before, j, k);
  }

  /** A pass over a consistent journal stops at a name that does not load, or at an unjournaled body that fails. */
  predicate StopsAt(env: Env, before: Db, j: Journal, outcomes: nat -> bool, error: Error, k: nat) {
    var s := env.SourceOf(j);
    && k < |s.names| && (forall i | 0 <= i < k :: Loads(env, j, i))
    && match error
       case LoadFailed(name) => name == s.names[k] && name !in s.contents
       case BodyFailed(name) => name == s.names[k] && name in s.contents && name !in before.At(j) && !outcomes(k)
       case _ => false
  }

  lemma FailingBody(env: Env, before: Db, j: Journal, k: nat, bodySucceeds: bool)
    requires Loads(env, j, k) && Consistent(env, j, before.At(j))
    requires ApplyOne(env, before, j, k, bodySucceeds).1.Failed?
    ensures var name := env.SourceOf(j).names[k];
            name !in before.At(j) && !bodySucceeds && ApplyOne(env, before, j, k, bodySucceeds).1.error == BodyFailed(name)
  {
  }

  /** What is wrong with the journal entry an error names. */
  predicate Broken(env: Env, j: Journal, journal: map<string, string>, error: Error) {
    var s := env.SourceOf(j);
    && error.name in journal
    && match error
       case MissingFromSource(name) => name !in s.names
       case LoadFailed(name) => name in s.names && name !in s.contents
       case ContentDrift(name) => name in s.names && name in s.contents && env.digest(s.contents[name]) != journal[name]
       case BodyFailed(_) => false
  }

  /** The entry that sorts first among the broken ones. */
  predicate FirstBroken(env: Env, j: Journal, journal: map<string, string>, error: Error) {
    var s := env.SourceOf(j);
    && Broken(env, j, journal, error)
    && forall n | n in journal && TextLess(n, error.name) ::
         n in s.names && n in s.contents && env.digest(s.contents[n]) == journal[n]
  }

  /** Why a pass fails: the first broken journal entry, or where it stops over a consistent journal. */
  ghost predicate PassFails(env: Env, before: Db, j: Journal, outcomes: nat -> bool, error: Error) {
    if Consistent(env, j, before.At(j)) then exists k: nat :: StopsAt(env, before, j, outcomes, error, k)
    else FirstBroken(env, j, before.At(j), error)
  }

  lemma FailureIgnoresTheOther(env: Env, a: Db, b: Db, j: Journal, outcomes: nat -> bool, error: Error)
    requires a.At(j) == b.At(j) && PassFails(env, a, j, outcomes, error)
    ensures PassFails(env, b, j, outcomes, error)
  {
    hide Consistent, FirstBroken;
    if Consistent(env, j, a.At(j)) {
      var k: nat :| StopsAt(env, a, j, outcomes, error, k);
      assert StopsAt(env, b, j, outcomes, error, k);
    }
  }

  /** The first name of a set, in byte order. */
  method Least(names: set<string>) returns (least: string)
    requires names != {}
    ensures least in names && forall n | n in names :: TextLeq(least, n)
  {
    hide TextLeq;
    least :| least in names;
    var left := names - {least};
    TextTotal(least, least);
    while left != {}
      invariant left <= names && least in names
      invariant forall n | n in names && n !in left :: TextLeq(least, n)
      decreases |left|
    {
      var n :| n in left;
      left := left - {n};
      TextTotal(least, n);
      TextTotal(n, n);
      if !TextLeq(least, n) {
        forall m | m in names && m !in left
          ensures TextLeq(n, m)
        {
          if m != n {
            TextTransitive(n, least, m);
          }
        }
        least := n;
      }
    }
  }

  lemma NoneBefore(names: set<string>, least: string)
    requires forall n | n in names :: TextLeq(least, n)
    ensures forall n | n in names :: !TextLess(n, least)
  {
    hide TextLeq;
    forall n | n in names && TextLeq(n, least)
      ensures n == least
    {
      TextAntisymmetric(n, least);
    }
  }

  datatype Result<T> = Ok(value: T) | Err(error: Error)

  /** The database one opener has to itself. */
  class Connection {
    var db: Db

    constructor (db: Db)
      ensures this.db == db
    {
      this.db := db;
    }

    method ApplySingleMigration(env: Env, j: Journal, k: nat, bodySucceeds: bool) returns (r: Result<bool>)
      requires Loads(env, j, k)
      modifies this
      ensures db == ApplyOne(env, old(db), j, k, bodySucceeds).0
      ensures match ApplyOne(env, old(db), j, k, bodySucceeds).1
              case Skipped => r == Ok(false)
              case Executed => r == Ok(true)
              case Failed(e) => r == Err(e)
    {
      var source := env.SourceOf(j);
      var name := source.names[k];
      var digest := env.digest(source.contents[name]);
      if name in db.At(j) {
        var stored := db.At(j)[name];
        return if stored == digest then Ok(false) else Err(ContentDrift(name));
      }
      if !bodySucceeds {
        return Err(BodyFailed(name));
      }
      db := Record(db, j, k, name, digest);
      r := Ok(true);
    }

    /** The first journaled entry, by name, that is gone from the source, does not load, or has drifted. */
    method CheckJournal(env: Env, j: Journal) returns (error: Option<Error>)
      ensures error.None? <==> Consistent(env, j, db.At(j))
      ensures error.Some? ==> FirstBroken(env, j, db.At(j), error.value)
    {
      var journal, source := db.At(j), env.SourceOf(j);
      var left := journal.Keys;
      while left != {}
        invariant left <= journal.Keys
        invariant forall n | n in journal && n !in left ::
                    n in source.names && n in source.contents && env.digest(source.contents[n]) == journal[n]
        decreases |left|
      {
        var name := Least(left);
        NoneBefore(left, name);
        if name !in source.names {
          return Some(MissingFromSource(name));
        }
        if name !in source.contents {
          return Some(LoadFailed(name));
        }
        if env.digest(source.contents[name]) != journal[name] {
          return Some(ContentDrift(name));
        }
        left := left - {name};
      }
      error := None;
    }

    /** Reconcile, then apply in source order, stopping at the first failure. `outcomes` says which bodies succeed. */
    method ReconcileAndApply(env: Env, j: Journal, outcomes: nat -> bool) returns (r: Result<nat>)
      modifies this
      ensures r.Ok? ==> Complete(env, j, db.At(j)) && Consistent(env, j, old(db).At(j))
      ensures r.Ok? ==> r.value == |db.executed| - |old(db).executed|
      ensures r.Ok? <==> Succeeds(env, old(db), j, outcomes)
      ensures AllLoad(env, j) ==> db.executed <= old(db).executed + Pending(env, old(db), j, 0)
      ensures r.Ok? ==> db.executed == old(db).executed + Pending(env, old(db), j, 0)
      ensures forall i | 0 <= i < |old(db).executed| :: i < |db.executed| && db.executed[i] == old(db).executed[i]
      ensures forall other: Journal | other != j :: db.At(other) == old(db).At(other)
      ensures !Consistent(env, j, old(db).At(j)) ==> r.Err? && db == old(db)
      ensures r.Ok? ==> r.value == |Pending(env, old(db), j, 0)|
      ensures r.Err? ==> PassFails(env, old(db), j, outcomes, r.error)
    {
      hide HasFirst, Consistent, DigestAt, Pending, ApplyOne, AllLoad, FirstBroken;
      var error := CheckJournal(env, j);
      if error.Some? {
        return Err(error.value);
      }
      var source := env.SourceOf(j);
      var applied := 0;
      ghost var start := db;
      NothingSeenYet(env, j, db.At(j));
      for k := 0 to |source.names|
        invariant Consistent(env, j, db.At(j)) && HasFirst(env, j, db.At(j), k)
        invariant forall i | 0 <= i < k :: Loads(env, j, i)
        invariant |start.executed| <= |db.executed| && db.executed[..|start.executed|] == start.executed
        invariant applied == |db.executed| - |start.executed|
        invariant AllLoad(env, j) ==> db.executed + Pending(env, db, j, k) == start.executed + Pending(env, start, j, 0)
        invariant forall m | |start.executed| <= m < |db.executed| :: outcomes(db.executed[m].index)
        invariant forall other: Journal | other != j :: db.At(other) == start.At(other)
        invariant forall n | n in start.At(j) :: n in db.At(j)
      {
        if source.names[k] !in source.contents {
          SomeNameFailsToLoad(env, j, k);
          assert StopsAt(env, start, j, outcomes, LoadFailed(source.names[k]), k);
          return Err(LoadFailed(source.names[k]));
        }
        ghost var before := db;
        var one := ApplySingleMigration(env, j, k, outcomes(k));
        FailureLeavesNothing(env, before, j, k, outcomes(k));
        if one.Err? {
          FailingBody(env, before, j, k, outcomes(k));
          assert StopsAt(env, start, j, outcomes, one.error, k);
          if AllLoad(env, j) {
            FailureIsPending(env, before, j, k, outcomes(k));
            assert (before.executed + Pending(env, before, j, k))[|before.executed|] == Execution(j, k);
            assert Execution(j, k) in Pending(env, start, j, 0);
          }
          return Err(one.error);
        }
        ApplyGrows(env, before, j, k, outcomes(k));
        SeenOneMore(env, before, j, k, outcomes(k));
        if AllLoad(env, j) {
          PendingStep(env, before, j, k, outcomes(k));
        }
        if one.value {
          applied := applied + 1;
        }
      }
      AllNamesLoad(env, j);
      NothingPending(env, db, j);
      assert db.executed == start.executed + Pending(env, start, j, 0);
      assert forall m | 0 <= m < |Pending(env, start, j, 0)| :: Pending(env, start, j, 0)[m] == db.executed[|start.executed| + m];
      r := Ok(applied);
    }

    /** Crate-owned migrations first, then the consumer's. */
    method RunMigrations(env: Env, crateOutcomes: nat -> bool, consumerOutcomes: nat -> bool) returns (r: Result<(nat, nat)>)
      modifies this
      ensures r.Ok? ==> Complete(env, CrateOwned, db.crateJournal) && Complete(env, ConsumerOwned, db.consumerJournal)
      ensures r.Ok? ==> r.value.0 + r.value.1 == |db.executed| - |old(db).executed|
      ensures r.Ok? ==>
                && r.value.0 == |Pending(env, old(db), CrateOwned, 0)| && r.value.1 == |Pending(env, old(db), ConsumerOwned, 0)|
                && db.executed ==
                   old(db).executed + Pending(env, old(db), CrateOwned, 0) + Pending(env, old(db), ConsumerOwned, 0)
      ensures r.Ok? <==> Succeeds(env, old(db), CrateOwned, crateOutcomes) && Succeeds(env, old(db), ConsumerOwned, consumerOutcomes)
      ensures r.Err? ==>
                if Succeeds(env, old(db), CrateOwned, crateOutcomes) then PassFails(env, old(db), ConsumerOwned, consumerOutcomes, r.error)
                else PassFails(env, old(db), CrateOwned, crateOutcomes, r.error)
      ensures !Consistent(env, CrateOwned, old(db).crateJournal) ==> r.Err? && db == old(db)
      ensures !Consistent(env, ConsumerOwned, old(db).consumerJournal) ==> r.Err? && db.consumerJournal == old(db).consumerJournal
    {
      hide Complete, Consistent, Pending, PassFails, AllLoad;
      var crate := ReconcileAndApply(env, CrateOwned, crateOutcomes);
      assert db.At(ConsumerOwned) == old(db).At(ConsumerOwned);
      if crate.Err? {
        return Err(crate.error);
      }
      assert Complete(env, CrateOwned, db.At(CrateOwned));
      ghost var between := db;
      if AllLoad(env, ConsumerOwned) {
        PendingIgnoresTheOther(env, old(db), between, ConsumerOwned, 0);
      }
      var consumer := ReconcileAndApply(env, ConsumerOwned, consumerOutcomes);
      assert db.At(CrateOwned) == between.At(CrateOwned);
      if consumer.Err? {
        FailureIgnoresTheOther(env, between, old(db), ConsumerOwned, consumerOutcomes, consumer.error);
        return Err(consumer.error);
      }
      assert Complete(env, ConsumerOwned, db.At(ConsumerOwned));
      r := Ok((crate.value, consumer.value));
    }
  }

  lemma SomeNameFailsToLoad(env: Env, j: Journal, k: nat)
    requires k < |env.SourceOf(j).names| && !Loads(env, j, k)
    ensures !AllLoad(env, j)
  {
  }

  lemma AllNamesLoad(env: Env, j: Journal)
    requires forall i | 0 <= i < |env.SourceOf(j).names| :: Loads(env, j, i)
    ensures AllLoad(env, j)
  {
  }

  /** A body runs at most once per step, and only a committed one is recorded. */
  lemma FailureLeavesNothing(env: Env, before: Db, j: Journal, k: nat, bodySucceeds: bool)
    requires Loads(env, j, k)
    ensures var (after, applied) := ApplyOne(env, before, j, k, bodySucceeds);
            if applied.Executed? then bodySucceeds && after.executed == before.executed + [Execution(j, k)]
            else after == before
    ensures forall other: Journal | other != j :: ApplyOne(env, before, j, k, bodySucceeds).0.At(other) == before.At(other)
  {
  }

  lemma NothingSeenYet(env: Env, j: Journal, journal: map<string, string>)
    ensures HasFirst(env, j, journal, 0)
  {
  }

  lemma SeenOneMore(env: Env, before: Db, j: Journal, k: nat, bodySucceeds: bool)
    requires Loads(env, j, k) && HasFirst(env, j, before.At(j), k)
    ensures var (after, applied) := ApplyOne(env, before, j, k, bodySucceeds);
            !applied.Failed? ==> HasFirst(env, j, after.At(j), k + 1)
  {
    hide DigestAt;
    ApplyGrows(env, before, j, k, bodySucceeds);
    HasFirstStays(env, before, ApplyOne(env, before, j, k, bodySucceeds).0, j, k);
  }
}
