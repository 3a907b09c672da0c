/** The per-call account of what landed and why the rest did not. */
module Reporting {
  import opened Model

  datatype Report = Report(
    applied: nat, stale: nat, shadowedByDelete: nat, unknownTable: nat, unknownColumn: nat, noSyncColumn: nat,
    reservedColumn: nat, deleteTargetNewer: nat, policy: nat, insertConstraint: nat, supersededInBatch: nat)

  datatype Skipped = Skipped(index: nat, reason: SkipReason)

  datatype Outcome = Outcome(report: Report, skipped: seq<Skipped>)

  const EMPTY_OUTCOME := Outcome(Report(0, 0, 0, 0, 0, 0, 0, 0, 0, 0, 0), [])

  datatype Counter =
    | CStale | CShadowed | CUnknownTable | CUnknownColumn | CNoSync | CReserved | CPolicy | CConstraint | CSuperseded

  /** The counter each reason is documented to fold into. */
  function CounterOf(reason: SkipReason): Counter {
    match reason
    case MissingTable | MissingCrdtMetadata | InvalidRowIdentity => CUnknownTable
    case UnknownColumn => CUnknownColumn
    case ReservedColumn => CReserved
    case NoSyncColumn => CNoSync
    case Stale => CStale
    case SupersededInBatch => CSuperseded
    case ShadowedByDelete => CShadowed
    case PolicySkip => CPolicy
    case InsertNotNull | InsertUnique | InsertPrimaryKey => CConstraint
  }

  function Reading(r: Report, c: Counter): nat {
    match c
    case CStale => r.stale
    case CShadowed => r.shadowedByDelete
    case CUnknownTable => r.unknownTable
    case CUnknownColumn => r.unknownColumn
    case CNoSync => r.noSyncColumn
    case CReserved => r.reservedColumn
    case CPolicy => r.policy
    case CConstraint => r.insertConstraint
    case CSuperseded => r.supersededInBatch
  }

  function Tally(skipped: seq<Skipped>, c: Counter): nat {
    if skipped == [] then 0
    else Tally(skipped[..|skipped| - 1], c) + if CounterOf(skipped[|skipped| - 1].reason) == c then 1 else 0
  }

  function SkippedIndices(skipped: seq<Skipped>): (r: seq<nat>)
    ensures |r| == |skipped| && forall i | 0 <= i < |r| :: r[i] == skipped[i].index
  {
    if skipped == [] then [] else SkippedIndices(skipped[..|skipped| - 1]) + [skipped[|skipped| - 1].index]
  }

  /** Every counter reads the number of skips recorded for its reasons. */
  predicate CountersMatch(o: Outcome) {
    forall c :: Reading(o.report, c) == Tally(o.skipped, c)
  }

  /** The changes `todo`, each exactly once, are either written or recorded as skipped. */
  predicate Accounted(o: Outcome, written: seq<nat>, todo: multiset<nat>) {
    && multiset(SkippedIndices(o.skipped)) + multiset(written) == todo
    && o.report.applied == |written|
    && CountersMatch(o)
  }

  /** Raise the counter the source raises next to recording `reason`. */
  function Bump(r: Report, reason: SkipReason): Report {
    match reason
    case MissingTable | MissingCrdtMetadata | InvalidRowIdentity => r.(unknownTable := r.unknownTable + 1)
    case UnknownColumn => r.(unknownColumn := r.unknownColumn + 1)
    case ReservedColumn => r.(reservedColumn := r.reservedColumn + 1)
    case NoSyncColumn => r.(noSyncColumn := r.noSyncColumn + 1)
    case Stale => r.(stale := r.stale + 1)
    case SupersededInBatch => r.(supersededInBatch := r.supersededInBatch + 1)
    case ShadowedByDelete => r.(shadowedByDelete := r.shadowedByDelete + 1)
    case PolicySkip => r.(policy := r.policy + 1)
    case InsertNotNull | InsertUnique | InsertPrimaryKey => r.(insertConstraint := r.insertConstraint + 1)
  }

  /** Record one skip: its counter and its indexed detail. */
  function Note(o: Outcome, s: Skipped): Outcome {
    Outcome(Bump(o.report, s.reason), o.skipped + [s])
  }

  /** Record a list of skips in order. */
  function NoteAll(o: Outcome, notes: seq<Skipped>): Outcome {
    if notes == [] then o else Note(NoteAll(o, notes[..|notes| - 1]), notes[|notes| - 1])
  }

  lemma NoteAllAppend(o: Outcome, notes: seq<Skipped>, s: Skipped)
    ensures NoteAll(o, notes + [s]) == Note(NoteAll(o, notes), s)
    ensures SkippedIndices(notes + [s]) == SkippedIndices(notes) + [s.index]
  {
    assert (notes + [s])[..|notes|] == notes;
  }

  lemma NothingNoted(o: Outcome)
    ensures NoteAll(o, []) == o && SkippedIndices([]) == []
  {
  }

  lemma IndicesConcat(a: seq<Skipped>, b: seq<Skipped>)
    ensures SkippedIndices(a + b) == SkippedIndices(a) + SkippedIndices(b)
  {
  }

  lemma {:induction false} NoteAllConcat(o: Outcome, a: seq<Skipped>, b: seq<Skipped>)
    ensures NoteAll(o, a + b) == NoteAll(NoteAll(o, a), b)
  {
    hide Note;
    if b == [] {
      assert a + b == a;
    } else {
      NoteAllConcat(o, a, b[..|b| - 1]);
      assert (a + b)[..|a + b| - 1] == a + b[..|b| - 1];
    }
  }

  /** Recording skips keeps the books straight and never touches the applied count. */
  lemma {:induction false} NoteAllBooks(o: Outcome, notes: seq<Skipped>)
    requires CountersMatch(o)
    ensures CountersMatch(NoteAll(o, notes))
    ensures NoteAll(o, notes).skipped == o.skipped + notes
    ensures NoteAll(o, notes).report.applied == o.report.applied
  {
    hide Note, CountersMatch;
    if notes == [] {
      assert o.skipped + notes == o.skipped;
    } else {
      var front, last := notes[..|notes| - 1], notes[|notes| - 1];
      NoteAllBooks(o, front);
      NoteBooks(NoteAll(o, front), last);
      assert (o.skipped + front) + [last] == o.skipped + notes;
    }
  }

  /** Recording skips of changes leaves the count of spared delete targets alone. */
  lemma {:induction false} NotesSpareNothing(o: Outcome, notes: seq<Skipped>)
    ensures NoteAll(o, notes).report.deleteTargetNewer == o.report.deleteTargetNewer
  {
    if notes != [] {
      NotesSpareNothing(o, notes[..|notes| - 1]);
    }
  }

  lemma NoteMeans(o: Outcome, s: Skipped)
    ensures Note(o, s).skipped == o.skipped + [s] && Note(o, s).report.applied == o.report.applied
  {
  }

  lemma NoteBooks(o: Outcome, s: Skipped)
    requires CountersMatch(o)
    ensures CountersMatch(Note(o, s))
    ensures Note(o, s).skipped == o.skipped + [s]
    ensures Note(o, s).report.applied == o.report.applied
  {
    assert (o.skipped + [s])[..|o.skipped|] == o.skipped;
  }

  /** What the per-change counters sum to. */
  function TotalSkips(r: Report): nat {
    r.stale + r.shadowedByDelete + r.unknownTable + r.unknownColumn + r.noSyncColumn + r.reservedColumn + r.policy +
    r.insertConstraint + r.supersededInBatch
  }

  lemma {:induction false} TallySum(skipped: seq<Skipped>)
    ensures |skipped| ==
            Tally(skipped, CStale) + Tally(skipped, CShadowed) + Tally(skipped, CUnknownTable) +
            Tally(skipped, CUnknownColumn) + Tally(skipped, CNoSync) + Tally(skipped, CReserved) +
            Tally(skipped, CPolicy) + Tally(skipped, CConstraint) + Tally(skipped, CSuperseded)
  {
    if skipped != [] {
      TallySum(skipped[..|skipped| - 1]);
    }
  }

  /** Balanced books add up: nothing is dropped silently and nothing is counted twice. */
  lemma BooksBalance(o: Outcome, written: seq<nat>, todo: multiset<nat>)
    requires Accounted(o, written, todo)
    ensures o.report.applied + TotalSkips(o.report) == |todo|
    ensures o.report.applied + |o.skipped| == |todo|
  {
    TallySum(o.skipped);
    assert |multiset(written)| == |written|;
  }
}
