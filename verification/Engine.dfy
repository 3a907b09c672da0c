/** One row group of a batch: classification, the policy's verdict, selection, the write and the account of it. */
module Engine {
  import opened Common
  import opened Hlc
  import opened Values
  import opened Model
  import opened Reporting
  import opened TextOrder
  import opened Grouping
  import opened Selection
  import opened RowWrite
  import opened Deletes
  import opened RowMerge
  import opened Policy

  datatype RowText = RowText(table: string, pks: string)

  /** The policy the crate's own facade uses: accept every eligible column with its own signature. */
  function SignatureVerdict(env: Env, eligible: seq<Indexed>): Verdict {
    if forall x | x in eligible :: ToSql(env.render, x.change.value).Some? then
      Decide(seq(|eligible|, i requires 0 <= i < |eligible| =>
        Accept(ToSql(env.render, eligible[i].change.value).GetOr(Null), Replace(eligible[i].change.sig))))
    else PolicyError
  }

  method SignaturePrepareRow(env: Env, row: RowInput) returns (verdict: Verdict)
    ensures verdict == SignatureVerdict(env, row.eligible)
  {
    var decisions := [];
    for i := 0 to |row.eligible|
      invariant |decisions| == i
      invariant forall j | 0 <= j < i :: ToSql(env.render, row.eligible[j].change.value).Some?
      invariant forall j | 0 <= j < i ::
          decisions[j] == Accept(ToSql(env.render, row.eligible[j].change.value).GetOr(Null), Replace(row.eligible[j].change.sig))
    {
      match ToSql(env.render, row.eligible[i].change.value)
      case None => return PolicyError;
      case Some(value) => decisions := decisions + [Accept(value, Replace(row.eligible[i].change.sig))];
    }
    verdict := Decide(decisions);
    assert decisions == SignatureVerdict(env, row.eligible).decisions;
  }

  /** Accept-everything, with no write failing. */
  ghost predicate Plain(env: Env, cb: Callbacks) {
    && cb.preflightOk && cb.beginOk && cb.beforeCommitOk
    && (forall k, row :: cb.prepareRow(k, row) == SignatureVerdict(env, row.eligible))
    && (forall k :: cb.write(k) == Landed && cb.afterRowOk(k))
  }

  lemma {:induction false} SignatureAcceptsAll(env: Env, eligible: seq<Indexed>, decisions: seq<ColumnDecision>, n: nat)
    requires n <= |eligible| && SignatureVerdict(env, eligible) == Decide(decisions)
    ensures Accepted(decisions, eligible, n) == SigCands(env, eligible[..n])
  {
    if n > 0 {
      SignatureAcceptsAll(env, eligible, decisions, n - 1);
    }
  }

  method GroupByRow(items: seq<Indexed>) returns (buckets: seq<Bucket<RowText, Indexed>>)
    ensures Partitions(items, TextOf, buckets)
    ensures Ordered(buckets, RowSortKey)
    ensures forall i, j | 0 <= i < j < |buckets| :: RowsInOrder(buckets[i], buckets[j])
  {
    hide HavingUpTo, Ordered;
    var classes := Bucketize(items, TextOf);
    buckets := OrderBuckets(classes, RowSortKey);
    forall i, j | 0 <= i < j < |buckets|
      ensures RowsInOrder(buckets[i], buckets[j])
    {
      OrderedRows(buckets, i, j);
    }
  }

  /** The row of the earlier HLC goes first; among equals the table decides, then the key text, in byte order. */
  predicate RowsInOrder(a: Bucket<RowText, Indexed>, b: Bucket<RowText, Indexed>) {
    || EarliestRank(a.items) < EarliestRank(b.items)
    || (EarliestRank(a.items) == EarliestRank(b.items) &&
        (TextLess(a.key.table, b.key.table) || (a.key.table == b.key.table && TextLeq(a.key.pks, b.key.pks))))
  }

  lemma OrderedRows(buckets: seq<Bucket<RowText, Indexed>>, i: nat, j: nat)
    requires Ordered(buckets, RowSortKey) && i < j < |buckets|
    ensures RowsInOrder(buckets[i], buckets[j])
  {
    hide EarliestRank, TextLeq;
    assert KeyLeq(RowSortKey(buckets[i]), RowSortKey(buckets[j]));
  }

  function TextOf(x: Indexed): RowText {
    RowText(x.change.table, x.change.pks)
  }

  function RowSortKey(b: Bucket<RowText, Indexed>): SortKey {
    SortKey(EarliestRank(b.items), b.key.table, b.key.pks)
  }

  /** The rank of a group's earliest HLC. */
  function EarliestRank(items: seq<Indexed>): (r: nat)
    ensures forall x | x in items :: r <= Rank(x.change.hlc)
    ensures items != [] ==> exists x :: x in items && r == Rank(x.change.hlc)
  {
    hide Rank;
    if items == [] then 0
    else
      var last := Rank(items[|items| - 1].change.hlc);
      if |items| == 1 then last
      else
        var earlier := EarliestRank(items[..|items| - 1]);
        if last < earlier then last else earlier
  }

  /** Reasons that also keep a delete-log change from fanning out. */
  predicate Rejecting(reason: SkipReason) {
    reason != Stale && reason != SupersededInBatch
  }

  /** A recorded skip names a change of the group and rejects it only for a stated cause. */
  ghost predicate Explained(env: Env, rows0: Rows, group: seq<Indexed>, n: Skipped) {
    exists x :: x in group && x.index == n.index && SkipFits(env, rows0, x.change, n.reason)
  }

  ghost predicate SkipFits(env: Env, rows0: Rows, c: Change, reason: SkipReason) {
    && (Rejecting(reason) <==> !Admitted(env, c) || reason == ShadowedByDelete)
    && (reason == ShadowedByDelete ==> exists key, h :: Shadowed(env, rows0, RowId(c.table, key), h))
  }

  /** One reason for a whole list of changes: the counter by the count, the detail one by one. */
  method SkipAll(outcome: Outcome, indices: seq<nat>, reason: SkipReason)
    returns (outcome': Outcome, ghost notes: seq<Skipped>)
    ensures outcome' == NoteAll(outcome, notes)
    ensures SkippedIndices(notes) == indices
    ensures forall n | n in notes :: n.reason == reason
    ensures outcome'.report.applied == outcome.report.applied && |outcome'.skipped| == |outcome.skipped| + |indices|
    ensures forall i | 0 <= i < |indices| :: outcome'.skipped[|outcome.skipped| + i] == Skipped(indices[i], reason)
  {
    hide Note, NoteAll, SkippedIndices;
    outcome', notes := outcome, [];
    NothingNoted(outcome);
    for i := 0 to |indices|
      invariant outcome'.report.applied == outcome.report.applied && |outcome'.skipped| == |outcome.skipped| + i
      invariant forall k | 0 <= k < i :: outcome'.skipped[|outcome.skipped| + k] == Skipped(indices[k], reason)
      invariant outcome' == NoteAll(outcome, notes)
      invariant SkippedIndices(notes) == indices[..i]
      invariant forall n | n in notes :: n.reason == reason
    {
      NoteAllAppend(outcome, notes, Skipped(indices[i], reason));
      NoteMeans(outcome', Skipped(indices[i], reason));
      outcome', notes := Note(outcome', Skipped(indices[i], reason)), notes + [Skipped(indices[i], reason)];
    }
  }

  /** Sort a group's changes into eligible ones and recorded structural skips. */
  method ClassifyGroup(columns: seq<ColumnInfo>, group: seq<Indexed>, outcome: Outcome)
    returns (eligible: seq<Indexed>, outcome': Outcome, ghost notes: seq<Skipped>)
    ensures eligible == Eligibles(columns, group)
    ensures outcome' == NoteAll(outcome, notes)
    ensures multiset(SkippedIndices(notes)) + multiset(ItemIndices(eligible)) == multiset(ItemIndices(group))
    ensures forall n | n in notes :: Ineligible(columns, group, n)
  {
    hide Note, NoteAll, Classify, SkippedIndices, ItemIndices;
    eligible, outcome', notes := [], outcome, [];
    NothingNoted(outcome);
    assert group[..0] == [];
    for i := 0 to |group|
      invariant eligible == EligiblesUpTo(columns, group, i)
      invariant outcome' == NoteAll(outcome, notes)
      invariant multiset(SkippedIndices(notes)) + multiset(ItemIndices(eligible)) == multiset(ItemIndices(group[..i]))
      invariant forall n | n in notes :: Ineligible(columns, group, n)
    {
      ItemIndicesAppend(group, i);
      match Classify(columns, group[i].change.column)
      case None =>
        assert (eligible + [group[i]])[..|eligible|] == eligible;
        ItemIndicesAppend(eligible + [group[i]], |eligible|);
        assert (eligible + [group[i]])[..|eligible| + 1] == eligible + [group[i]];
        eligible := eligible + [group[i]];
      case Some(reason) =>
        var skip := Skipped(group[i].index, reason);
        NoteAllAppend(outcome, notes, skip);
        outcome', notes := Note(outcome', skip), notes + [skip];
    }
    assert group[..|group|] == group;
  }

  function Credit(o: Outcome, n: nat): Outcome {
    o.(report := o.report.(applied := o.report.applied + n))
  }

  /** The running maximum of accepted HLCs, folded over the written columns. */
  function FoldMax(max: Option<string>, written: seq<Cand>): Option<string> {
    if written == [] then max
    else
      var earlier, last := FoldMax(max, written[..|written| - 1]), written[|written| - 1].change.hlc;
      if earlier.None? || Newer(last, earlier.value) then Some(last) else earlier
  }

  /** The parser call whose failure the code treats as impossible. */
  function ParsedRank(hlc: string): nat
    requires IsTimestamp(hlc)
  {
    Rank(hlc)
  }

  method FoldMaxAccepted(max: Option<string>, hlc: string) returns (max': Option<string>)
    requires IsTimestamp(hlc) && (max.Some? ==> IsTimestamp(max.value))
    ensures max'.Some? && IsTimestamp(max'.value)
    ensures max' == if max.None? || Newer(hlc, max.value) then Some(hlc) else max
  {
    hide IsTimestamp, Time, Node;
    max' := max;
    var incoming := ParsedRank(hlc);
    if max.None? || incoming > ParsedRank(max.value) {
      max' := Some(hlc);
    }
  }

  method FoldAll(max: Option<string>, staged: seq<Cand>) returns (max': Option<string>)
    requires forall s | s in staged :: IsTimestamp(s.change.hlc)
    requires max.Some? ==> IsTimestamp(max.value)
    ensures max' == FoldMax(max, staged) && (max'.Some? ==> IsTimestamp(max'.value))
  {
    hide IsTimestamp;
    max' := max;
    for i := 0 to |staged|
      invariant max' == FoldMax(max, staged[..i]) && (max'.Some? ==> IsTimestamp(max'.value))
    {
      assert staged[..i + 1][..i] == staged[..i];
      max' := FoldMaxAccepted(max', staged[i].change.hlc);
    }
    assert staged[..|staged|] == staged;
  }

  /** The row HLC, the column HLCs and the writer that fits: UPDATE an existing row, INSERT a new one. */
  method BuildRow(prior: Option<Row>, staged: seq<Cand>, hasSigs: bool) returns (row: Row)
    requires staged != [] && DistinctColumns(staged)
    ensures row == MergedRow(prior, staged, hasSigs)
  {
    var rowHlc := MaxHlc(staged);
    if prior.Some? && Newer(prior.value.hlc.GetOr(""), rowHlc) {
      rowHlc := prior.value.hlc.GetOr("");
    }
    var hlcs := InsertHlcs(PriorHlcs(prior), staged);
    if prior.Some? {
      row := WriteUpdate(prior.value, staged, hlcs, rowHlc, hasSigs);
    } else {
      row := WriteInsert(staged, hlcs, rowHlc, hasSigs);
    }
  }

  /**
   * The tail of one row group: the shadow check, the write, and what success
   * or a constraint failure leads to.
   */
  method WriteStaged(
      env: Env, cb: Callbacks, k: nat, id: RowId, staged: seq<Cand>, shadow: ShadowMap, ghost rows0: Rows, rows: Rows,
      outcome: Outcome, max: Option<string>)
    returns (ok: bool, rows': Rows, outcome': Outcome, max': Option<string>, ghost notes: seq<Skipped>, ghost written: seq<Cand>)
    requires staged != [] && DistinctColumns(staged) && IsShadow(env, rows0, shadow)
    requires forall s | s in staged :: IsTimestamp(s.change.hlc)
    requires max.Some? ==> IsTimestamp(max.value)
    ensures ok <==> WriteStep(env, cb, rows0, rows, k, id, staged).Writes?
    ensures ok ==> written == WriteStep(env, cb, rows0, rows, k, id, staged).written
    ensures ok ==> outcome' == Credit(NoteAll(outcome, notes), |written|)
    ensures ok ==> rows' == WriteRow(env, rows, id, written)
    ensures ok ==> max' == FoldMax(max, written) && (max'.Some? ==> IsTimestamp(max'.value))
    ensures ok ==> || (written == staged && notes == [])
                   || (written == [] && SkippedIndices(notes) == CandIndices(staged))
    ensures ok ==> forall n | n in notes :: WriteRefused(env, cb, rows0, rows, k, id, staged, n.reason)
  {
    hide IsTimestamp, Rank, Note, NoteAll, SkippedIndices, CandIndices, IsShadow, Shadowed, InsertShadowed, MaxHlc, MergedRow,
         FoldMax, HasSigs, DistinctColumns;
    ok, rows', outcome', max', notes, written := true, rows, outcome, max, [], [];
    NothingNoted(outcome);
    NothingFolded(max);
    var prior := Lookup(rows, id);
    var newest := MaxHlc(staged);
    ShadowMapDecides(env, rows0, shadow, id, newest);
    if prior.None? && InsertShadowed(id, newest, shadow) {
      outcome', notes := SkipAll(outcome, CandIndices(staged), ShadowedByDelete);
      return;
    }
    var row := BuildRow(prior, staged, HasSigs(env, id.table));
    match cb.write(k)
    case Landed =>
      if !cb.afterRowOk(k) {
        ok := false;
        return;
      }
      rows' := rows[id := row];
      written := staged;
      outcome' := outcome.(report := outcome.report.(applied := outcome.report.applied + |staged|));
      max' := FoldAll(max, staged);
    case ConstraintFailure(reason) =>
      if prior.Some? || !(reason == InsertNotNull || reason == InsertUnique || reason == InsertPrimaryKey)
         || !cb.skipOnConstraint(k) {
        ok := false;
        return;
      }
      outcome', notes := SkipAll(outcome, CandIndices(staged), reason);
    case OtherFailure =>
      ok := false;
  }

  /** What a list of changes adds to the books: each is noted or written, and the outcome says so. */
  ghost predicate Booked(items: seq<Indexed>, o: Outcome, o': Outcome, notes: seq<Skipped>, written: seq<Cand>) {
    && o' == Credit(NoteAll(o, notes), |written|)
    && multiset(SkippedIndices(notes)) + multiset(CandIndices(written)) == multiset(ItemIndices(items))
  }

  /** Notes made before the eligible changes were booked come first. */
  lemma BookedAfter(
      group: seq<Indexed>, items: seq<Indexed>, o: Outcome, o': Outcome, first: seq<Skipped>, notes: seq<Skipped>,
      written: seq<Cand>)
    requires Booked(items, NoteAll(o, first), o', notes, written)
    requires multiset(SkippedIndices(first)) + multiset(ItemIndices(items)) == multiset(ItemIndices(group))
    ensures Booked(group, o, o', first + notes, written)
  {
    hide Note, NoteAll, SkippedIndices, CandIndices, ItemIndices;
    NoteAllConcat(o, first, notes);
    IndicesConcat(first, notes);
  }

  /** What preflight guarantees of a group's HLCs. */
  predicate Timestamped(group: seq<Indexed>) {
    forall x | x in group && IsComplete(x.change.hlc) :: IsTimestamp(x.change.hlc)
  }

  /** A written column stems from a change of the group with a parseable HLC. */
  predicate Sourced(group: seq<Indexed>, w: Cand) {
    Indexed(w.index, w.change) in group && IsTimestamp(w.change.hlc)
  }

  /** Whatever is staged comes from the group and passed the preflight parser. */
  lemma StagedAreTimestamps(
      columns: seq<ColumnInfo>, group: seq<Indexed>, decisions: seq<ColumnDecision>, hlcs: map<string, string>)
    requires |decisions| == |Eligibles(columns, group)|
    requires Timestamped(group)
    ensures forall s | s in Winners(Accepted(decisions, Eligibles(columns, group), |decisions|), hlcs) :: Sourced(group, s)
    ensures DistinctColumns(Winners(Accepted(decisions, Eligibles(columns, group), |decisions|), hlcs))
  {
    hide IsTimestamp, IsComplete, Rank, Classify;
    var eligible := Eligibles(columns, group);
    var cands := Accepted(decisions, eligible, |decisions|);
    EligiblesMembers(columns, group, |group|);
    AcceptedOrigin(decisions, eligible, |decisions|);
    WinnersAreTheWinning(cands, hlcs, |cands|);
    DistinctWinners(cands, hlcs);
  }

  /** Under the accept-everything policy a change is noted as an LWW loss or as shadowed. */
  ghost predicate PlainNote(env: Env, rows0: Rows, table: string, n: Skipped) {
    || !Rejecting(n.reason)
    || (n.reason == ShadowedByDelete && exists key, h :: Shadowed(env, rows0, RowId(table, key), h))
  }

  /** A group whose row identity is known, from the policy's verdict to the write. */
  method ProcessEligible(
      env: Env, cb: Callbacks, k: nat, id: RowId, pks: string, group: seq<Indexed>, eligible: seq<Indexed>, shadow: ShadowMap,
      ghost rows0: Rows, rows: Rows, outcome: Outcome, max: Option<string>)
    returns (ok: bool, rows': Rows, outcome': Outcome, max': Option<string>, ghost notes: seq<Skipped>, ghost written: seq<Cand>)
    requires eligible == Eligibles(Columns(env, id.table), group) && IsShadow(env, rows0, shadow)
    requires Timestamped(group)
    requires max.Some? ==> IsTimestamp(max.value)
    requires group != [] && pks == group[0].change.pks
    ensures ok <==> VerdictStep(env, cb, rows0, rows, k, id, eligible, cb.prepareRow(k, Asked(env, id, group, id in rows))).Writes?
    ensures ok ==> written == VerdictStep(env, cb, rows0, rows, k, id, eligible, cb.prepareRow(k, Asked(env, id, group, id in rows))).written
    ensures ok ==> Booked(eligible, outcome, outcome', notes, written)
    ensures ok ==> forall n | n in notes ::
              EligibleNoteFits(env, cb, rows0, rows, k, id, eligible, cb.prepareRow(k, Asked(env, id, group, id in rows)), n)
    ensures ok ==> max' == FoldMax(max, written) && (max'.Some? ==> IsTimestamp(max'.value))
    ensures ok ==> rows' == WriteRow(env, rows, id, written) && forall w | w in written :: Sourced(group, w)
    ensures cb.prepareRow(k, Asked(env, id, group, id in rows)).PolicyError? ==> !ok
    ensures cb.prepareRow(k, Asked(env, id, group, id in rows)).SkipRow? ==>
              ok && rows' == rows && written == [] && SkippedIndices(notes) == ItemIndices(eligible)
              && forall n | n in notes :: n.reason == PolicySkip
  {
    hide IsTimestamp, IsComplete, Rank, Note, NoteAll, SkippedIndices, CandIndices, ItemIndices, IsShadow, Shadowed, WriteStep,
         Eligibles, Winners, Accepted, FoldMax, Split, Placed, EligibleNoteFits, WriteRefused;
    ok, rows', outcome', max', notes, written := true, rows, outcome, max, [], [];
    var input := RowInput(id.table, pks, id.key, id in rows, group, eligible);
    var verdict := cb.prepareRow(k, input);
    NothingFolded(max);
    if verdict.PolicyError? {
      ok := false;
      return;
    }
    if verdict.SkipRow? {
      outcome', notes := SkipAll(outcome, ItemIndices(eligible), PolicySkip);
      NothingWritten();
      RowRefused(env, cb, rows0, rows, k, id, eligible, notes);
      return;
    }
    var hlcs := PriorHlcs(Lookup(rows, id));
    var staged;
    ghost var kept, at;
    ok, staged, outcome', notes, kept, at := SelectStagedColumns(verdict.decisions, eligible, hlcs, outcome);
    if !ok {
      return;
    }
    StagedAreTimestamps(Columns(env, id.table), group, verdict.decisions, hlcs);
    SelectionFits(env, cb, rows0, rows, k, id, eligible, verdict.decisions, staged, kept, notes, at);
    if staged == [] {
      NothingStaged(env, cb, rows0, rows, k, id);
      LossesBooked(eligible, outcome, notes);
      return;
    }
    ghost var tail;
    ok, rows', outcome', max', tail, written := WriteStaged(env, cb, k, id, staged, shadow, rows0, rows, outcome', max);
    if ok {
      StagedBooked(eligible, outcome, outcome', notes, staged, tail, written);
      WriteSkipsFit(env, cb, rows0, rows, k, id, eligible, verdict.decisions, staged, kept, notes, at, tail);
      notes := notes + tail;
    }
  }

  lemma LossesBooked(eligible: seq<Indexed>, o: Outcome, notes: seq<Skipped>)
    requires Split(notes, [], eligible)
    ensures Booked(eligible, o, NoteAll(o, notes), notes, [])
  {
    hide Note, NoteAll;
  }

  lemma NothingStaged(env: Env, cb: Callbacks, rows0: Rows, rows: Rows, k: nat, id: RowId)
    ensures WriteStep(env, cb, rows0, rows, k, id, []) == Writes([])
  {
  }

  /** A refused row is noted change by change. */
  lemma RowRefused(
      env: Env, cb: Callbacks, rows0: Rows, rows: Rows, k: nat, id: RowId, eligible: seq<Indexed>, notes: seq<Skipped>)
    requires SkippedIndices(notes) == ItemIndices(eligible) && forall n | n in notes :: n.reason == PolicySkip
    ensures forall n | n in notes :: EligibleNoteFits(env, cb, rows0, rows, k, id, eligible, SkipRow, n)
  {
    forall n | n in notes
      ensures EligibleNoteFits(env, cb, rows0, rows, k, id, eligible, SkipRow, n)
    {
      var i :| 0 <= i < |notes| && notes[i] == n;
      assert SkippedIndices(notes)[i] == ItemIndices(eligible)[i];
      assert eligible[i].index == n.index && RefusalFits(env, cb, rows0, rows, k, id, eligible, SkipRow, i, n.reason);
    }
  }

  lemma SelectionFits(
      env: Env, cb: Callbacks, rows0: Rows, rows: Rows, k: nat, id: RowId, eligible: seq<Indexed>, decisions: seq<ColumnDecision>,
      staged: seq<Cand>, kept: seq<nat>, notes: seq<Skipped>, at: seq<nat>)
    requires Placed(decisions, eligible, PriorHlcs(Lookup(rows, id)), |eligible|, staged, kept, notes, at)
    ensures forall n | n in notes :: EligibleNoteFits(env, cb, rows0, rows, k, id, eligible, Decide(decisions), n)
  {
    hide Leads, LossReason, PriorHlcs, Staging;
    forall n | n in notes
      ensures EligibleNoteFits(env, cb, rows0, rows, k, id, eligible, Decide(decisions), n)
    {
      var p :| 0 <= p < |notes| && notes[p] == n;
      assert RefusalFits(env, cb, rows0, rows, k, id, eligible, Decide(decisions), at[p], n.reason);
    }
  }

  lemma WriteSkipsFit(
      env: Env, cb: Callbacks, rows0: Rows, rows: Rows, k: nat, id: RowId, eligible: seq<Indexed>, decisions: seq<ColumnDecision>,
      staged: seq<Cand>, kept: seq<nat>, notes: seq<Skipped>, at: seq<nat>, tail: seq<Skipped>)
    requires Placed(decisions, eligible, PriorHlcs(Lookup(rows, id)), |eligible|, staged, kept, notes, at)
    requires staged == Winners(Accepted(decisions, eligible, |eligible|), PriorHlcs(Lookup(rows, id)))
    requires tail == [] || SkippedIndices(tail) == CandIndices(staged)
    requires forall n | n in tail :: WriteRefused(env, cb, rows0, rows, k, id, staged, n.reason)
    ensures forall n | n in tail :: EligibleNoteFits(env, cb, rows0, rows, k, id, eligible, Decide(decisions), n)
  {
    hide Leads, LossReason, PriorHlcs, Noting, Winners, Accepted, WriteRefused;
    forall n | n in tail
      ensures EligibleNoteFits(env, cb, rows0, rows, k, id, eligible, Decide(decisions), n)
    {
      var p :| 0 <= p < |tail| && tail[p] == n;
      assert SkippedIndices(tail)[p] == CandIndices(staged)[p];
      assert eligible[kept[p]].index == n.index;
      assert RefusalFits(env, cb, rows0, rows, k, id, eligible, Decide(decisions), kept[p], n.reason);
    }
  }

  lemma PlainMeans(env: Env, cb: Callbacks, k: nat, row: RowInput)
    requires Plain(env, cb)
    ensures cb.prepareRow(k, row) == SignatureVerdict(env, row.eligible) && !cb.prepareRow(k, row).SkipRow?
    ensures cb.write(k).Landed? && cb.afterRowOk(k)
    ensures SignatureVerdict(env, row.eligible).Decide? ==>
              |SignatureVerdict(env, row.eligible).decisions| == |row.eligible| && SkipColumn !in SignatureVerdict(env, row.eligible).decisions
  {
  }

  lemma NothingFolded(max: Option<string>)
    ensures FoldMax(max, []) == max
  {
  }

  /** Selection's notes and the write's notes book the eligible changes together. */
  lemma StagedBooked(
      eligible: seq<Indexed>, o: Outcome, o': Outcome, selection: seq<Skipped>, staged: seq<Cand>, tail: seq<Skipped>,
      written: seq<Cand>)
    requires Split(selection, staged, eligible)
    requires o' == Credit(NoteAll(NoteAll(o, selection), tail), |written|)
    requires (written == staged && tail == []) || (written == [] && SkippedIndices(tail) == CandIndices(staged))
    ensures Booked(eligible, o, o', selection + tail, written)
  {
    hide Note, NoteAll;
    NoteAllConcat(o, selection, tail);
    IndicesConcat(selection, tail);
  }

  ghost predicate GroupDecodes(env: Env, group: seq<Indexed>)
    requires group != []
  {
    Identify(env, group[0].change.table, group[0].change.pks).Known? ==>
      SignatureVerdict(env, Eligibles(Columns(env, group[0].change.table), group)).Decide?
  }

  /** One `(table, row)` group of the write loop. */
  method ProcessRowGroup(
      env: Env, cb: Callbacks, k: nat, group: seq<Indexed>, shadow: ShadowMap, ghost rows0: Rows, rows: Rows,
      outcome: Outcome, max: Option<string>)
    returns (ok: bool, rows': Rows, outcome': Outcome, max': Option<string>, ghost notes: seq<Skipped>, ghost written: seq<Cand>)
    requires Uniform(group) && IsShadow(env, rows0, shadow)
    requires Timestamped(group)
    requires max.Some? ==> IsTimestamp(max.value)
    ensures ok <==> PolicyStep(env, cb, rows0, rows, k, group).Writes?
    ensures ok ==> written == PolicyStep(env, cb, rows0, rows, k, group).written
    ensures ok ==> rows' == GroupRows(env, rows, group, written)
    ensures ok ==> Booked(group, outcome, outcome', notes, written) && forall w | w in written :: Sourced(group, w)
    ensures ok ==> forall n | n in notes :: NoteFits(env, cb, rows0, rows, k, group, n)
    ensures ok ==> max' == FoldMax(max, written) && (max'.Some? ==> IsTimestamp(max'.value))
  {
    hide IsTimestamp, IsComplete, Rank, Note, NoteAll, SkippedIndices, CandIndices, ItemIndices, IsShadow, VerdictStep,
         Eligibles, FoldMax, EligibleNoteFits, Ineligible, Asked;
    ok, rows', outcome', max', notes, written := true, rows, outcome, max, [], [];
    var table, pks := group[0].change.table, group[0].change.pks;
    match Identify(env, table, pks)
    case Unknown(reason) =>
      outcome', notes := SkipAll(outcome, ItemIndices(group), reason);
      NothingFolded(max);
      NothingWritten();
      SkipsMembers(group, notes);
    case Known(key) =>
      var id := RowId(table, key);
      var eligible, afterClassify;
      ghost var structural, rest;
      eligible, afterClassify, structural := ClassifyGroup(Columns(env, table), group, outcome);
      ok, rows', outcome', max', rest, written :=
        ProcessEligible(env, cb, k, id, pks, group, eligible, shadow, rows0, rows, afterClassify, max);
      if ok {
        notes := structural + rest;
        BookedAfter(group, eligible, outcome, outcome', structural, rest, written);
      }
  }

  lemma SkipsMembers(group: seq<Indexed>, notes: seq<Skipped>)
    requires SkippedIndices(notes) == ItemIndices(group)
    ensures forall n | n in notes :: SkipsMember(group, n)
  {
    forall n | n in notes
      ensures SkipsMember(group, n)
    {
      var i :| 0 <= i < |notes| && notes[i] == n;
      assert SkippedIndices(notes)[i] == ItemIndices(group)[i];
      assert group[i] in group && group[i].index == n.index;
    }
  }

  lemma NothingWritten()
    ensures CandIndices([]) == []
  {
  }

  /** Under the accept-everything policy a known row's group writes its winners, unless a value does not decode. */
  lemma PlainVerdictStep(env: Env, cb: Callbacks, rows0: Rows, rows: Rows, k: nat, group: seq<Indexed>, id: RowId)
    requires group != [] && Plain(env, cb)
    ensures var eligible := Eligibles(Columns(env, id.table), group);
            VerdictStep(env, cb, rows0, rows, k, id, eligible, cb.prepareRow(k, Asked(env, id, group, id in rows))) ==
            if SignatureVerdict(env, eligible).Decide? then Writes(Written(env, rows0, rows, id, SigCands(env, eligible))) else Fails
  {
    hide Plain, SignatureVerdict, Winners, Accepted, Shadowed, MaxHlc, Eligibles, SigCands;
    var eligible := Eligibles(Columns(env, id.table), group);
    PlainMeans(env, cb, k, Asked(env, id, group, id in rows));
    if SignatureVerdict(env, eligible).Decide? {
      SignatureAcceptsAll(env, eligible, SignatureVerdict(env, eligible).decisions, |eligible|);
      assert eligible[..|eligible|] == eligible;
    }
  }

  /** Under the accept-everything policy a group fails on a malformed value and has its pure effect otherwise. */
  lemma PlainStep(env: Env, cb: Callbacks, rows0: Rows, rows: Rows, k: nat, group: seq<Indexed>)
    requires group != [] && Plain(env, cb)
    ensures PolicyStep(env, cb, rows0, rows, k, group) ==
            if GroupDecodes(env, group) then Writes(GroupWrites(env, rows0, rows, group)) else Fails
    ensures GroupRows(env, rows, group, GroupWrites(env, rows0, rows, group)) == GroupEffect(env, rows0, rows, group)
  {
    hide Plain, SignatureVerdict, VerdictStep, Written, Eligibles, SigCands, Identify;
    var c := group[0].change;
    match Identify(env, c.table, c.pks)
    case Unknown(_) =>
    case Known(key) => PlainVerdictStep(env, cb, rows0, rows, k, group, RowId(c.table, key));
  }

  /** Under the accept-everything policy every note is structural, a last-write-wins loss or a stored tombstone. */
  lemma PlainNotes(env: Env, cb: Callbacks, rows0: Rows, rows: Rows, k: nat, group: seq<Indexed>, n: Skipped)
    requires Uniform(group) && Plain(env, cb) && NoteFits(env, cb, rows0, rows, k, group, n)
    ensures Explained(env, rows0, group, n)
  {
    hide Plain, Uniform, Identify, Eligibles, EligibleNoteFits, Ineligible, Explained, SkipsMember, Asked;
    assert group != [] by {
      UniformIsNonEmpty(group);
    }
    var c := group[0].change;
    match Identify(env, c.table, c.pks)
    case Unknown(reason) => StructuralExplained(env, rows0, group, n);
    case Known(key) =>
      var id := RowId(c.table, key);
      if Ineligible(Columns(env, c.table), group, n) {
        IneligibleExplained(env, rows0, group, n);
      } else {
        PlainEligibleNote(env, cb, rows0, rows, k, group, id, n);
      }
  }

  lemma UniformIsNonEmpty(group: seq<Indexed>)
    requires Uniform(group)
    ensures group != []
  {
  }

  lemma PlainEligibleNote(env: Env, cb: Callbacks, rows0: Rows, rows: Rows, k: nat, group: seq<Indexed>, id: RowId, n: Skipped)
    requires Uniform(group) && Plain(env, cb) && id.table == group[0].change.table
    requires Identify(env, group[0].change.table, group[0].change.pks) == Known(id.key)
    requires EligibleNoteFits(env, cb, rows0, rows, k, id, Eligibles(Columns(env, id.table), group),
                              cb.prepareRow(k, Asked(env, id, group, id in rows)), n)
    ensures Explained(env, rows0, group, n)
  {
    hide Plain, Identify, Eligibles, Explained, SignatureVerdict, Leads, Winners, Accepted, Shadowed, MaxHlc;
    var eligible := Eligibles(Columns(env, id.table), group);
    var verdict := cb.prepareRow(k, Asked(env, id, group, id in rows));
    PlainMeans(env, cb, k, Asked(env, id, group, id in rows));
    var i :| 0 <= i < |eligible| && eligible[i].index == n.index && RefusalFits(env, cb, rows0, rows, k, id, eligible, verdict, i, n.reason);
    assert verdict.decisions[i] in verdict.decisions;
    assert eligible[i] in eligible;
    EligibleExplained(env, rows0, group, eligible[i], n);
  }

  lemma StructuralExplained(env: Env, rows0: Rows, group: seq<Indexed>, n: Skipped)
    requires Uniform(group) && Identify(env, group[0].change.table, group[0].change.pks) == Unknown(n.reason)
    requires SkipsMember(group, n)
    ensures Explained(env, rows0, group, n)
  {
    var x :| x in group && x.index == n.index;
    assert SkipFits(env, rows0, x.change, n.reason);
  }

  lemma IneligibleExplained(env: Env, rows0: Rows, group: seq<Indexed>, n: Skipped)
    requires Uniform(group) && Ineligible(Columns(env, group[0].change.table), group, n)
    ensures Explained(env, rows0, group, n)
  {
    hide Shadowed, Identify;
    var columns := Columns(env, group[0].change.table);
    var x :| x in group && x.index == n.index && Classify(columns, x.change.column) == Some(n.reason);
    assert SkipFits(env, rows0, x.change, n.reason);
  }

  lemma EligibleExplained(env: Env, rows0: Rows, group: seq<Indexed>, x: Indexed, n: Skipped)
    requires Uniform(group) && Identify(env, group[0].change.table, group[0].change.pks).Known?
    requires x in Eligibles(Columns(env, group[0].change.table), group) && x.index == n.index
    requires PlainNote(env, rows0, group[0].change.table, n)
    ensures Explained(env, rows0, group, n)
  {
    hide Shadowed, Identify, Classify;
    EligiblesMembers(Columns(env, group[0].change.table), group, |group|);
    assert SkipFits(env, rows0, x.change, n.reason);
  }
}
