/** One `apply_remote_changes` call on the rows of a replica. */
module ApplyBatch {
  import opened Common
  import opened Hlc
  import opened Values
  import opened Model
  import opened Reporting
  import opened Grouping
  import opened Selection
  import opened Deletes
  import opened RowMerge
  import opened Policy
  import opened Engine
  import opened Preflight

  predicate AscendingRanks(items: seq<Indexed>) {
    forall i, j | 0 <= i < j < |items| :: Rank(items[i].change.hlc) <= Rank(items[j].change.hlc)
  }

  function HlcOf(x: Indexed): string {
    x.change.hlc
  }

  /** The batch in row groups: nothing lost, nothing doubled, oldest first within a group and between groups. */
  ghost predicate Arranged(changes: seq<Change>, groups: seq<seq<Indexed>>) {
    && IsGrouping(changes, groups)
    && multiset(Flatten(groups)) == multiset(Tagged(changes))
    && (forall g | g in groups :: AscendingRanks(g))
    && forall i, j | 0 <= i < j < |groups| :: EarliestRank(groups[i]) <= EarliestRank(groups[j])
  }

  /** The two grouping passes: transaction order first, then rows. */
  method GroupBatch(changes: seq<Change>) returns (groups: seq<seq<Indexed>>)
    ensures Arranged(changes, groups)
  {
    hide Rank, EarliestRank, HavingUpTo, Flatten, Ordered;
    var byHlc := GroupByHlc(Tagged(changes), HlcOf);
    PartitionConserves(Tagged(changes), HlcOf, byHlc);
    var ordered := Flatten(ItemsOf(byHlc));
    FlattenAscends(Tagged(changes), byHlc);
    var byRow := GroupByRow(ordered);
    PartitionConserves(ordered, TextOf, byRow);
    groups := ItemsOf(byRow);
    RowGroupsFit(changes, ordered, byRow);
    forall i, j | 0 <= i < j < |groups|
      ensures EarliestRank(groups[i]) <= EarliestRank(groups[j])
    {
      OrderedEarliest(byRow, i, j);
    }
  }

  lemma OrderedEarliest(byRow: seq<Bucket<RowText, Indexed>>, i: nat, j: nat)
    requires i < j < |byRow| && Ordered(byRow, RowSortKey)
    ensures EarliestRank(byRow[i].items) <= EarliestRank(byRow[j].items)
  {
    hide EarliestRank;
    assert KeyLeq(RowSortKey(byRow[i]), RowSortKey(byRow[j]));
  }

  lemma {:induction false} FlattenMembers(groups: seq<seq<Indexed>>)
    ensures forall x | x in Flatten(groups) :: exists g :: g in groups && x in g
  {
    if groups != [] {
      FlattenMembers(groups[1..]);
      assert groups[0] in groups;
    }
  }

  lemma AscendingJoin(a: seq<Indexed>, b: seq<Indexed>)
    requires AscendingRanks(a) && AscendingRanks(b)
    requires forall x, y | x in a && y in b :: Rank(x.change.hlc) <= Rank(y.change.hlc)
    ensures AscendingRanks(a + b)
  {
    hide Rank;
  }

  predicate AllEarlier(a: seq<Indexed>, b: seq<Indexed>) {
    forall x, y | x in a && y in b :: Rank(x.change.hlc) <= Rank(y.change.hlc)
  }

  lemma {:induction false} FlattenAscending(groups: seq<seq<Indexed>>)
    requires forall g | g in groups :: AscendingRanks(g)
    requires forall i, j | 0 <= i < j < |groups| :: AllEarlier(groups[i], groups[j])
    ensures AscendingRanks(Flatten(groups))
  {
    hide Rank;
    if groups != [] {
      var head, tail := groups[0], groups[1..];
      FlattenAscending(tail);
      FlattenMembers(tail);
      forall x: Indexed, y: Indexed | x in head && y in Flatten(tail)
        ensures Rank(x.change.hlc) <= Rank(y.change.hlc)
      {
        var g :| g in tail && y in g;
        var i :| 0 <= i < |tail| && tail[i] == g;
        assert AllEarlier(groups[0], groups[i + 1]);
      }
      AscendingJoin(head, Flatten(tail));
    }
  }

  lemma FlattenAscends(items: seq<Indexed>, buckets: seq<Bucket<string, Indexed>>)
    requires Partitions(items, HlcOf, buckets)
    requires forall i, j | 0 <= i < j < |buckets| :: Rank(buckets[i].key) <= Rank(buckets[j].key)
    ensures AscendingRanks(Flatten(ItemsOf(buckets)))
  {
    hide Rank, Flatten, HavingUpTo;
    var groups := ItemsOf(buckets);
    forall i, x: Indexed | 0 <= i < |groups| && x in groups[i]
      ensures x.change.hlc == buckets[i].key
    {
      HavingMembers(items, HlcOf, buckets[i].key, |items|);
    }
    forall i, j | 0 <= i < j < |groups|
      ensures AllEarlier(groups[i], groups[j])
    {
    }
    FlattenAscending(groups);
  }

  lemma {:induction false} HavingAscends(items: seq<Indexed>, k: RowText, n: nat)
    requires n <= |items| && AscendingRanks(items)
    ensures AscendingRanks(HavingUpTo(items, TextOf, k, n))
    ensures forall x | x in HavingUpTo(items, TextOf, k, n) :: exists i :: 0 <= i < n && items[i] == x
  {
    hide Rank;
    if n > 0 {
      HavingAscends(items, k, n - 1);
      var before := HavingUpTo(items, TextOf, k, n - 1);
      forall x, y | x in before && y in [items[n - 1]]
        ensures Rank(x.change.hlc) <= Rank(y.change.hlc)
      {
        var i :| 0 <= i < n - 1 && items[i] == x;
        assert Rank(items[i].change.hlc) <= Rank(items[n - 1].change.hlc);
      }
      AscendingJoin(before, [items[n - 1]]);
      assert before + [] == before;
    }
  }

  lemma RowGroupFits(ordered: seq<Indexed>, k: RowText)
    requires AscendingRanks(ordered) && Having(ordered, TextOf, k) != []
    ensures var g := Having(ordered, TextOf, k);
            Uniform(g) && AscendingRanks(g) && TextOf(g[0]) == k && forall x | x in g :: x in ordered
  {
    hide Rank, HavingUpTo;
    HavingMembers(ordered, TextOf, k, |ordered|);
    HavingAscends(ordered, k, |ordered|);
    var g := Having(ordered, TextOf, k);
    assert g[0] in g;
    assert forall x | x in g :: TextOf(x) == k;
  }

  lemma RowGroupsFit(changes: seq<Change>, ordered: seq<Indexed>, byRow: seq<Bucket<RowText, Indexed>>)
    requires multiset(ordered) == multiset(Tagged(changes)) && AscendingRanks(ordered)
    requires Partitions(ordered, TextOf, byRow)
    ensures IsGrouping(changes, ItemsOf(byRow))
    ensures forall g | g in ItemsOf(byRow) :: AscendingRanks(g)
  {
    hide Rank, Having, Uniform, AscendingRanks;
    var groups := ItemsOf(byRow);
    forall i | 0 <= i < |groups|
      ensures Uniform(groups[i]) && AscendingRanks(groups[i])
      ensures groups[i] != [] && TextOf(groups[i][0]) == byRow[i].key
      ensures forall x | x in groups[i] :: x in ordered
    {
      RowGroupFits(ordered, byRow[i].key);
    }
    forall i, j | 0 <= i < j < |groups|
      ensures groups[i][0].change.table != groups[j][0].change.table || groups[i][0].change.pks != groups[j][0].change.pks
    {
      assert KeysOf(byRow)[i] != KeysOf(byRow)[j];
    }
    assert forall x :: x in ordered <==> x in Tagged(changes) by {
      assert forall x :: x in ordered <==> x in multiset(ordered);
      assert forall x :: x in Tagged(changes) <==> x in multiset(Tagged(changes));
    }
    forall x | x in Tagged(changes)
      ensures exists g :: g in groups && x in g
    {
      ItemHasGroup(ordered, byRow, x);
    }
  }

  lemma ItemHasGroup(ordered: seq<Indexed>, byRow: seq<Bucket<RowText, Indexed>>, x: Indexed)
    requires Partitions(ordered, TextOf, byRow) && x in ordered
    ensures exists g :: g in ItemsOf(byRow) && x in g
  {
    hide HavingUpTo;
    var n :| 0 <= n < |ordered| && ordered[n] == x;
    var i :| 0 <= i < |byRow| && KeysOf(byRow)[i] == TextOf(ordered[n]);
    HavingMembers(ordered, TextOf, byRow[i].key, |ordered|);
    assert ItemsOf(byRow)[i] in ItemsOf(byRow);
  }

  lemma {:induction false} CreditCommutes(o: Outcome, notes: seq<Skipped>, n: nat)
    ensures NoteAll(Credit(o, n), notes) == Credit(NoteAll(o, notes), n)
  {
    if notes != [] {
      CreditCommutes(o, notes[..|notes| - 1], n);
      NoteCredit(NoteAll(o, notes[..|notes| - 1]), notes[|notes| - 1], n);
    }
  }

  lemma NoteCredit(o: Outcome, s: Skipped, n: nat)
    ensures Note(Credit(o, n), s) == Credit(Note(o, s), n)
  {
  }

  lemma BookedJoin(
      a: seq<Indexed>, b: seq<Indexed>, o: Outcome, o1: Outcome, o2: Outcome, n1: seq<Skipped>, n2: seq<Skipped>,
      w1: seq<Cand>, w2: seq<Cand>)
    requires Booked(a, o, o1, n1, w1) && Booked(b, o1, o2, n2, w2)
    ensures Booked(a + b, o, o2, n1 + n2, w1 + w2)
  {
    hide Note, NoteAll, SkippedIndices, CandIndices, ItemIndices;
    CreditCommutes(NoteAll(o, n1), n2, |w1|);
    NoteAllConcat(o, n1, n2);
    IndicesConcat(n1, n2);
    assert CandIndices(w1 + w2) == CandIndices(w1) + CandIndices(w2);
    assert ItemIndices(a + b) == ItemIndices(a) + ItemIndices(b);
  }

  lemma {:induction false} FoldMaxJoin(max: Option<string>, a: seq<Cand>, b: seq<Cand>)
    ensures FoldMax(FoldMax(max, a), b) == FoldMax(max, a + b)
  {
    if b == [] {
      assert a + b == a;
    } else {
      FoldMaxJoin(max, a, b[..|b| - 1]);
      assert (a + b)[..|a + b| - 1] == a + b[..|b| - 1];
    }
  }

  lemma {:induction false} FlattenSnoc<T>(groups: seq<seq<T>>, k: nat)
    requires k < |groups|
    ensures Flatten(groups[..k + 1]) == Flatten(groups[..k]) + groups[k]
  {
    if k > 0 {
      FlattenSnoc(groups[1..], k - 1);
      assert groups[..k + 1][1..] == groups[1..][..k];
      assert groups[..k][1..] == groups[1..][..k - 1];
    }
  }

  /** All columns written over the first `n` groups, in order. */
  ghost function AllWrites(env: Env, rows0: Rows, groups: seq<seq<Indexed>>, n: nat): seq<Cand>
    requires n <= |groups| && forall i | 0 <= i < |groups| :: groups[i] != []
  {
    if n == 0 then []
    else AllWrites(env, rows0, groups, n - 1) + GroupWrites(env, rows0, RowsAfter(env, rows0, groups, n - 1), groups[n - 1])
  }

  /** At group `k` the skip was recorded for the reason that applied. */
  ghost predicate NotedAt(env: Env, cb: Callbacks, rows0: Rows, groups: seq<seq<Indexed>>, k: nat, s: Skipped)
    requires k < |groups| && NonEmpty(groups)
  {
    && RunUpTo(env, cb, rows0, groups, k).Some?
    && NoteFits(env, cb, rows0, RunUpTo(env, cb, rows0, groups, k).value.rows, k, groups[k], s)
  }

  /** Every skip was recorded for the reason that applied when its group came up. */
  ghost predicate AllNoted(env: Env, cb: Callbacks, rows0: Rows, groups: seq<seq<Indexed>>, n: nat, notes: seq<Skipped>)
    requires n <= |groups| && NonEmpty(groups)
  {
    forall s | s in notes :: exists k: nat :: k < n && NotedAt(env, cb, rows0, groups, k, s)
  }

  /** The account and the HLC maximum a list of groups leaves. */
  ghost predicate RunBooks(
      groups: seq<seq<Indexed>>, outcome: Outcome, max: Option<string>, notes: seq<Skipped>, written: seq<Cand>)
  {
    && Booked(Flatten(groups), EMPTY_OUTCOME, outcome, notes, written)
    && max == FoldMax(None, written)
    && (max.Some? ==> IsTimestamp(max.value))
    && forall w | w in written :: exists g :: g in groups && Sourced(g, w)
  }

  /** The write loop over all row groups. */
  method RunGroups(env: Env, cb: Callbacks, groups: seq<seq<Indexed>>, shadow: ShadowMap, rows0: Rows)
    returns (ok: bool, rows: Rows, outcome: Outcome, max: Option<string>, ghost notes: seq<Skipped>, ghost written: seq<Cand>)
    requires IsShadow(env, rows0, shadow)
    requires forall i | 0 <= i < |groups| :: groups[i] != [] && Uniform(groups[i]) && Timestamped(groups[i])
    ensures ok <==> RunUpTo(env, cb, rows0, groups, |groups|).Some?
    ensures ok ==> RunUpTo(env, cb, rows0, groups, |groups|).value == Progress(rows, written)
    ensures ok ==> RunBooks(groups, outcome, max, notes, written)
    ensures ok ==> AllNoted(env, cb, rows0, groups, |groups|, notes)
  {
    hide IsTimestamp, Timestamped, Sourced, Uniform, NoteFits, IsShadow, PolicyStep, GroupRows, Flatten,
         FoldMax, Booked;
    ok, rows, outcome, max, notes, written := true, rows0, EMPTY_OUTCOME, None, [], [];
    StartBooks();
    NothingFolded(None);
    for k := 0 to |groups|
      invariant RunBooks(groups[..k], outcome, max, notes, written)
      invariant RunUpTo(env, cb, rows0, groups, k) == Some(Progress(rows, written))
      invariant AllNoted(env, cb, rows0, groups, k, notes)
      invariant ok
    {
      ghost var outcomeBefore := outcome;
      ghost var newNotes, newWrites;
      ok, rows, outcome, max, newNotes, newWrites :=
        ProcessRowGroup(env, cb, k, groups[k], shadow, rows0, rows, outcome, max);
      if !ok {
        FailureIsFinal(env, cb, rows0, groups, k + 1, |groups|);
        return;
      }
      FlattenSnoc(groups, k);
      BookedJoin(
        Flatten(groups[..k]), groups[k], EMPTY_OUTCOME, outcomeBefore, outcome, notes, newNotes, written, newWrites);
      FoldMaxJoin(None, written, newWrites);
      NotedNext(env, cb, rows0, groups, k, notes, newNotes);
      notes, written := notes + newNotes, written + newWrites;
      assert groups[..k + 1] == groups[..k] + [groups[k]];
    }
    assert groups[..|groups|] == groups;
  }

  lemma NotedNext(
      env: Env, cb: Callbacks, rows0: Rows, groups: seq<seq<Indexed>>, k: nat, notes: seq<Skipped>, more: seq<Skipped>)
    requires k < |groups| && NonEmpty(groups) && AllNoted(env, cb, rows0, groups, k, notes)
    requires RunUpTo(env, cb, rows0, groups, k).Some?
    requires forall s | s in more :: NoteFits(env, cb, rows0, RunUpTo(env, cb, rows0, groups, k).value.rows, k, groups[k], s)
    ensures AllNoted(env, cb, rows0, groups, k + 1, notes + more)
  {
    hide RunUpTo, NoteFits;
    forall s | s in notes + more
      ensures exists j: nat :: j < k + 1 && NotedAt(env, cb, rows0, groups, j, s)
    {
      if s in more {
        assert NotedAt(env, cb, rows0, groups, k, s);
      }
    }
  }

  lemma {:induction false} FailureIsFinal(env: Env, cb: Callbacks, rows0: Rows, groups: seq<seq<Indexed>>, k: nat, n: nat)
    requires k <= n <= |groups| && NonEmpty(groups) && RunUpTo(env, cb, rows0, groups, k).None?
    ensures RunUpTo(env, cb, rows0, groups, n).None?
  {
    if k < n {
      FailureIsFinal(env, cb, rows0, groups, k, n - 1);
    }
  }

  /** Under the accept-everything policy the run is the pure one, and fails exactly on a malformed value. */
  lemma {:induction false} PlainRuns(env: Env, cb: Callbacks, rows0: Rows, groups: seq<seq<Indexed>>, n: nat)
    requires n <= |groups| && NonEmpty(groups) && Plain(env, cb)
    ensures RunUpTo(env, cb, rows0, groups, n).Some? <==> forall i | 0 <= i < n :: GroupDecodes(env, groups[i])
    ensures RunUpTo(env, cb, rows0, groups, n).Some? ==>
              RunUpTo(env, cb, rows0, groups, n).value ==
              Progress(RowsAfter(env, rows0, groups, n), AllWrites(env, rows0, groups, n))
  {
    hide Plain, PolicyStep, GroupDecodes, GroupWrites, GroupEffect, GroupRows;
    if n > 0 {
      PlainRuns(env, cb, rows0, groups, n - 1);
      PlainStep(env, cb, rows0, RowsAfter(env, rows0, groups, n - 1), n - 1, groups[n - 1]);
    }
  }

  lemma StartBooks()
    ensures Booked(Flatten<Indexed>([]), EMPTY_OUTCOME, EMPTY_OUTCOME, [], [])
    ensures CountersMatch(EMPTY_OUTCOME)
  {
  }

  function Positions(n: nat): seq<nat> {
    seq(n, i requires 0 <= i < n => i)
  }

  lemma RemoveAt(b: seq<Indexed>, p: nat)
    requires p < |b|
    ensures multiset(b) == multiset(b[..p] + b[p + 1..]) + multiset{b[p]}
    ensures multiset(ItemIndices(b)) == multiset(ItemIndices(b[..p] + b[p + 1..])) + multiset{b[p].index}
  {
    hide ItemIndices;
    WithoutOne(b, p);
    WithoutOne(ItemIndices(b), p);
    assert ItemIndices(b[..p] + b[p + 1..]) == ItemIndices(b)[..p] + ItemIndices(b)[p + 1..];
  }

  lemma {:induction false} IndicesOfPermutation(a: seq<Indexed>, b: seq<Indexed>)
    requires multiset(a) == multiset(b)
    ensures multiset(ItemIndices(a)) == multiset(ItemIndices(b))
    decreases |a|
  {
    hide ItemIndices;
    assert |a| == |multiset(a)| == |multiset(b)| == |b|;
    if a == [] {
      assert b == [];
    } else {
      var last, n := a[|a| - 1], |a| - 1;
      assert last in multiset(b);
      var p :| 0 <= p < |b| && b[p] == last;
      RemoveAt(a, n);
      RemoveAt(b, p);
      assert multiset(a[..n] + a[n + 1..]) == multiset(a) - multiset{last};
      assert multiset(b[..p] + b[p + 1..]) == multiset(b) - multiset{last};
      IndicesOfPermutation(a[..n] + a[n + 1..], b[..p] + b[p + 1..]);
    }
  }

  /** After the last group every change of the batch is on the books exactly once. */
  lemma BatchAccounted(
      changes: seq<Change>, groups: seq<seq<Indexed>>, outcome: Outcome, notes: seq<Skipped>, written: seq<Cand>)
    requires multiset(Flatten(groups)) == multiset(Tagged(changes))
    requires Booked(Flatten(groups), EMPTY_OUTCOME, outcome, notes, written)
    ensures Accounted(outcome, CandIndices(written), multiset(Positions(|changes|))) && outcome.skipped == notes
  {
    hide Note, NoteAll, Flatten, SkippedIndices, CandIndices, ItemIndices, CountersMatch;
    StartBooks();
    NoteAllBooks(EMPTY_OUTCOME, notes);
    CountersCredit(NoteAll(EMPTY_OUTCOME, notes), |written|);
    IndicesOfPermutation(Flatten(groups), Tagged(changes));
    assert ItemIndices(Tagged(changes)) == Positions(|changes|);
    assert EMPTY_OUTCOME.skipped + notes == notes;
  }

  lemma CountersCredit(o: Outcome, n: nat)
    requires CountersMatch(o)
    ensures CountersMatch(Credit(o, n))
  {
  }

  predicate Rejected(outcome: Outcome, i: nat) {
    exists n :: n in outcome.skipped && n.index == i && Rejecting(n.reason)
  }

  /** The string under "id" in a change's primary-key JSON. */
  function NamedId(env: Env, c: Change): Option<string> {
    match env.parsePks(c.pks)
    case Some(key) => if LOG_ID in key && key[LOG_ID].JString? then Some(key[LOG_ID].s) else None
    case None => None
  }

  /** The ids of delete-log changes that were written or merely lost last-write-wins. */
  method CollectInboundIds(env: Env, changes: seq<Change>, outcome: Outcome) returns (ids: set<string>)
    ensures forall s :: s in ids <==> exists i: nat :: CollectedAt(env, changes, outcome, i, s)
  {
    hide Rejecting, NamedId;
    var rejected: set<nat> := {};
    for k := 0 to |outcome.skipped|
      invariant forall i :: i in rejected <==> exists n :: n in outcome.skipped[..k] && n.index == i && Rejecting(n.reason)
    {
      assert outcome.skipped[..k + 1] == outcome.skipped[..k] + [outcome.skipped[k]];
      if Rejecting(outcome.skipped[k].reason) {
        rejected := rejected + {outcome.skipped[k].index};
      }
    }
    assert outcome.skipped[..|outcome.skipped|] == outcome.skipped;
    ids := {};
    for i := 0 to |changes|
      invariant forall s :: s in ids <==> exists j: nat :: j < i && CollectedAt(env, changes, outcome, j, s)
    {
      assert i in rejected <==> Rejected(outcome, i);
      if changes[i].table == LOG_TABLE && i !in rejected {
        match NamedId(env, changes[i])
        case Some(s) =>
          assert CollectedAt(env, changes, outcome, i, s);
          ids := ids + {s};
        case None =>
      }
    }
  }

  predicate CollectedAt(env: Env, changes: seq<Change>, outcome: Outcome, i: nat, s: string) {
    && i < |changes|
    && changes[i].table == LOG_TABLE
    && !Rejected(outcome, i)
    && NamedId(env, changes[i]) == Some(s)
  }

  lemma NamesLogIdMeans(env: Env, c: Change, s: string)
    ensures NamesLogId(env, c, s) <==> c.table == LOG_TABLE && Admitted(env, c) && NamedId(env, c) == Some(s)
  {
  }

  /** No stored tombstone targets the delete log, so no delete-log insert is ever shadowed. */
  lemma LogNeverShadowed(env: Env, rows: Rows, id: RowId, h: string)
    requires LogTargetsNoLog(env, rows) && id.table == LOG_TABLE
    ensures !Shadowed(env, rows, id, h)
  {
    hide Rank, Deletes.Entry;
  }

  lemma {:induction false} AllWritesAdmitted(env: Env, rows0: Rows, groups: seq<seq<Indexed>>, n: nat)
    requires n <= |groups| && forall i | 0 <= i < |groups| :: groups[i] != [] && Uniform(groups[i])
    ensures forall w | w in AllWrites(env, rows0, groups, n) ::
              Admitted(env, w.change) && exists g :: g in groups && Indexed(w.index, w.change) in g
  {
    hide Admitted, RowsAfter, GroupWrites;
    if n > 0 {
      AllWritesAdmitted(env, rows0, groups, n - 1);
      GroupWritesAdmitted(env, rows0, RowsAfter(env, rows0, groups, n - 1), groups[n - 1]);
    }
  }

  lemma GroupWritesAdmitted(env: Env, rows0: Rows, rows: Rows, group: seq<Indexed>)
    requires Uniform(group)
    ensures forall w | w in GroupWrites(env, rows0, rows, group) ::
              Admitted(env, w.change) && Indexed(w.index, w.change) in group
              && w == SigCand(env, Indexed(w.index, w.change)) && IsComplete(w.change.hlc)
  {
    hide Rank, IsComplete, Identify, Classify, Shadowed, ToSql;
    var c := group[0].change;
    if Identify(env, c.table, c.pks).Known? {
      var columns := Columns(env, c.table);
      var cands := SigCands(env, Eligibles(columns, group));
      EligiblesMembers(columns, group, |group|);
      WinnersAreTheWinning(cands, PriorHlcs(Lookup(rows, RowId(c.table, Identify(env, c.table, c.pks).key))), |cands|);
    }
  }

  /** Under the accept-everything policy a change is rejected exactly when the core does not admit it. */
  lemma PlainRejections(
      env: Env, rows0: Rows, changes: seq<Change>, groups: seq<seq<Indexed>>, outcome: Outcome, written: seq<Cand>, i: nat)
    requires IsGrouping(changes, groups) && LogTargetsNoLog(env, rows0)
    requires Accounted(outcome, CandIndices(written), multiset(Positions(|changes|)))
    requires forall n | n in outcome.skipped :: exists g :: g in groups && Explained(env, rows0, g, n)
    requires forall w | w in written :: Admitted(env, w.change) && exists g :: g in groups && Indexed(w.index, w.change) in g
    requires i < |changes| && changes[i].table == LOG_TABLE
    ensures Rejected(outcome, i) <==> !Admitted(env, changes[i])
  {
    hide Rejecting, Admitted, Shadowed, CountersMatch, SkippedIndices, CandIndices, LogTargetsNoLog, Uniform;
    forall n | n in outcome.skipped && n.index == i
      ensures Rejecting(n.reason) <==> !Admitted(env, changes[i])
    {
      var g :| g in groups && Explained(env, rows0, g, n);
      var x :| x in g && x.index == n.index && SkipFits(env, rows0, x.change, n.reason);
      assert x == Tagged(changes)[i];
      if n.reason == ShadowedByDelete {
        var key, h :| Shadowed(env, rows0, RowId(x.change.table, key), h);
        LogNeverShadowed(env, rows0, RowId(x.change.table, key), h);
      }
    }
    forall w | w in written && w.index == i
      ensures w.change == changes[i]
    {
      var g :| g in groups && Indexed(w.index, w.change) in g;
      assert Indexed(w.index, w.change) == Tagged(changes)[i];
    }
    var position := Booking(outcome, written, |changes|, i);
  }

  /** Where change `i` is on the books: written at the returned position, or skipped. */
  lemma Booking(outcome: Outcome, written: seq<Cand>, n: nat, i: nat) returns (position: Option<nat>)
    requires Accounted(outcome, CandIndices(written), multiset(Positions(n))) && i < n
    ensures position.Some? ==> position.value < |written| && written[position.value].index == i
    ensures position.None? ==> exists s :: s in outcome.skipped && s.index == i
  {
    hide CountersMatch, SkippedIndices, CandIndices;
    assert Positions(n)[i] == i;
    assert i in multiset(Positions(n));
    if i in CandIndices(written) {
      var p :| 0 <= p < |written| && CandIndices(written)[p] == i;
      return Some(p);
    }
    assert i in multiset(SkippedIndices(outcome.skipped));
    var q :| 0 <= q < |outcome.skipped| && SkippedIndices(outcome.skipped)[q] == i;
    assert outcome.skipped[q] in outcome.skipped;
    return None;
  }

  datatype BatchResult = Refused | RolledBack | Committed(outcome: Outcome)

  /** The whole effect of one accept-everything batch whose writes all land. */
  ghost predicate BatchStep(
      env: Env, rows: Rows, changes: seq<Change>, groups: seq<seq<Indexed>>, ids: set<string>, rows': Rows)
  {
    && IsGrouping(changes, groups)
    && (forall s :: s in ids <==> exists c :: c in changes && NamesLogId(env, c, s))
    && rows' == AfterDeletes(env, RowsAfter(env, rows, groups, |groups|), ids)
  }

  predicate LogReadable(rows: Rows) {
    forall l | l in rows && l.table == LOG_TABLE :: Readable(rows[l])
  }

  lemma PlainIds(
      env: Env, rows0: Rows, changes: seq<Change>, groups: seq<seq<Indexed>>, outcome: Outcome, written: seq<Cand>,
      ids: set<string>)
    requires IsGrouping(changes, groups) && LogTargetsNoLog(env, rows0)
    requires Accounted(outcome, CandIndices(written), multiset(Positions(|changes|)))
    requires forall n | n in outcome.skipped :: exists g :: g in groups && Explained(env, rows0, g, n)
    requires forall w | w in written :: Admitted(env, w.change) && exists g :: g in groups && Indexed(w.index, w.change) in g
    requires forall s :: s in ids <==> exists i: nat :: CollectedAt(env, changes, outcome, i, s)
    ensures forall s :: s in ids <==> exists c :: c in changes && NamesLogId(env, c, s)
  {
    hide Rejected, Admitted, Explained, IsGrouping, Accounted, NamedId, NamesLogId, LogTargetsNoLog;
    forall s
      ensures s in ids <==> exists c :: c in changes && NamesLogId(env, c, s)
    {
      if s in ids {
        var i: nat :| CollectedAt(env, changes, outcome, i, s);
        PlainRejections(env, rows0, changes, groups, outcome, written, i);
        NamesLogIdMeans(env, changes[i], s);
      }
      if c :| c in changes && NamesLogId(env, c, s) {
        var i :| 0 <= i < |changes| && changes[i] == c;
        NamesLogIdMeans(env, c, s);
        PlainRejections(env, rows0, changes, groups, outcome, written, i);
        assert CollectedAt(env, changes, outcome, i, s);
      }
    }
  }

  lemma GroupDecodesMeans(env: Env, group: seq<Indexed>)
    requires Uniform(group)
    ensures GroupDecodes(env, group) <==>
            forall x | x in group && Admitted(env, x.change) :: ToSql(env.render, x.change.value).Some?
  {
    hide ToSql, Identify, Classify;
    var columns := Columns(env, group[0].change.table);
    EligiblesMembers(columns, group, |group|);
    if Identify(env, group[0].change.table, group[0].change.pks).Known? {
      assert forall x :: x in Eligibles(columns, group) <==> x in group && Admitted(env, x.change);
    }
  }

  lemma BatchDecodes(env: Env, changes: seq<Change>, groups: seq<seq<Indexed>>)
    requires IsGrouping(changes, groups)
    ensures (forall i | 0 <= i < |groups| :: GroupDecodes(env, groups[i])) <==> Decodable(env, changes)
  {
    hide ToSql, Admitted, GroupDecodes, Uniform;
    forall i | 0 <= i < |groups|
      ensures GroupDecodes(env, groups[i]) <==>
              forall x | x in groups[i] && Admitted(env, x.change) :: ToSql(env.render, x.change.value).Some?
    {
      GroupDecodesMeans(env, groups[i]);
    }
    if forall i | 0 <= i < |groups| :: GroupDecodes(env, groups[i]) {
      forall c | c in changes && Admitted(env, c)
        ensures ToSql(env.render, c.value).Some?
      {
        var n :| 0 <= n < |changes| && changes[n] == c;
        assert Tagged(changes)[n] in Tagged(changes);
        var g :| g in groups && Tagged(changes)[n] in g;
        var i :| 0 <= i < |groups| && groups[i] == g;
        assert GroupDecodes(env, groups[i]);
      }
    }
    if Decodable(env, changes) {
      forall i | 0 <= i < |groups|
        ensures GroupDecodes(env, groups[i])
      {
        assert groups[i] in groups;
        forall x | x in groups[i] && Admitted(env, x.change)
          ensures ToSql(env.render, x.change.value).Some?
        {
          assert x in Tagged(changes);
          assert x.change in changes;
        }
      }
    }
  }

  lemma GroupsTimestamped(changes: seq<Change>, groups: seq<seq<Indexed>>)
    requires IsGrouping(changes, groups) && AllTimestamped(changes)
    ensures forall i | 0 <= i < |groups| :: Timestamped(groups[i])
  {
    hide IsTimestamp, IsComplete, Uniform;
    forall i, x | 0 <= i < |groups| && x in groups[i] && IsComplete(x.change.hlc)
      ensures IsTimestamp(x.change.hlc)
    {
      assert groups[i] in groups && x in Tagged(changes);
      assert x.change in changes;
    }
  }

  /** A committed batch: who wrote what, and that every change is accounted for. */
  ghost predicate Account(changes: seq<Change>, outcome: Outcome, max: Option<string>, written: seq<Cand>) {
    && Accounted(outcome, CandIndices(written), multiset(Positions(|changes|)))
    && max == FoldMax(None, written)
    && (max.Some? ==> IsTimestamp(max.value))
    && forall w | w in written :: IsTimestamp(w.change.hlc) && w.index < |changes| && changes[w.index] == w.change
  }

  /** Every HLC of the batch that claims to be complete is a timestamp. */
  predicate AllTimestamped(changes: seq<Change>) {
    forall c | c in changes && IsComplete(c.hlc) :: IsTimestamp(c.hlc)
  }

  /** What a committed accept-everything batch did, in terms of the pure step. */
  ghost predicate PlainEffect(
      env: Env, changes: seq<Change>, rows: Rows, groups: seq<seq<Indexed>>, ids: set<string>, written: seq<Cand>, rows': Rows)
  {
    LogTargetsNoLog(env, rows) ==>
      && IsGrouping(changes, groups)
      && written == AllWrites(env, rows, groups, |groups|)
      && (LogTargetsNoLog(env, RowsAfter(env, rows, groups, |groups|)) ==> BatchStep(env, rows, changes, groups, ids, rows'))
  }

  /** Exactly the rows the entries `ids` kill are gone, if no entry targets the log; no row changes, in any case. */
  ghost predicate FannedOut(env: Env, rows: Rows, ids: set<string>, rows': Rows) {
    && Within(rows', rows)
    && (forall id | id in rows && id !in rows' :: Killed(env, rows, ids, id))
    && (LogTargetsNoLog(env, rows) ==> forall id | id in rows :: id in rows' <==> !Killed(env, rows, ids, id))
  }

  /** What a committed batch did, whatever the policy and SQLite answered. */
  ghost predicate Effect(
      env: Env, cb: Callbacks, changes: seq<Change>, rows: Rows, groups: seq<seq<Indexed>>, ids: set<string>, outcome: Outcome,
      written: seq<Cand>, rows': Rows)
  {
    && Arranged(changes, groups) && NonEmpty(groups)
    && RunUpTo(env, cb, rows, groups, |groups|).Some?
    && var run := RunUpTo(env, cb, rows, groups, |groups|).value;
       && written == run.written
       && AllNoted(env, cb, rows, groups, |groups|, outcome.skipped)
       && (forall s :: s in ids <==> exists i: nat :: CollectedAt(env, changes, outcome, i, s))
       && FannedOut(env, run.rows, ids, rows')
       && SparedCount(env, run.rows, ids, rows', outcome.report.deleteTargetNewer)
  }

  /** The transaction: row groups, then the fan-out of the delete-log entries they carried. */
  method RunTransaction(env: Env, cb: Callbacks, changes: seq<Change>, rows: Rows)
    returns (ok: bool, rows': Rows, outcome: Outcome, max: Option<string>, ghost groups: seq<seq<Indexed>>,
             ghost ids: set<string>, ghost written: seq<Cand>)
    requires AllTimestamped(changes)
    ensures Arranged(changes, groups) && NonEmpty(groups)
    ensures ok <==> LogReadable(rows) && RunUpTo(env, cb, rows, groups, |groups|).Some?
    ensures ok ==> Account(changes, outcome, max, written)
    ensures ok ==> Effect(env, cb, changes, rows, groups, ids, outcome, written, rows')
    ensures Plain(env, cb) ==> (ok <==> LogReadable(rows) && Decodable(env, changes))
    ensures Plain(env, cb) && ok ==> PlainEffect(env, changes, rows, groups, ids, written, rows')
  {
    hide IsShadow, RunBooks, IsGrouping, AscendingRanks, EarliestRank, Flatten, Account, CollectedAt, AllTimestamped, Killed, CountsSpared,
         Within, Readable, RunUpTo, AllNoted, Arranged, Plain, PlainEffect, Decodable;
    ok, rows', outcome, max, groups, ids, written := true, rows, EMPTY_OUTCOME, None, [], {}, [];
    var groups' := GroupBatch(changes);
    groups := groups';
    ArrangedShape(changes, groups);
    GroupingShape(changes, groups);
    GroupsTimestamped(changes, groups);
    if Plain(env, cb) {
      PlainTransaction(env, cb, changes, rows, groups);
    }
    var shadow, rows1, outcome1;
    ghost var notes;
    ok, shadow := LoadDeleteShadow(env, rows);
    if !ok {
      return;
    }
    ok, rows1, outcome1, max, notes, written := RunGroups(env, cb, groups', shadow, rows);
    if !ok {
      return;
    }
    RunAccount(changes, groups, outcome1, max, notes, written);
    NothingSparedYet(groups, outcome1, max, notes, written);
    var ids' := CollectInboundIds(env, changes, outcome1);
    ids := ids';
    rows', outcome := Propagate(env, rows1, ids', outcome1);
    DeleteCountIsSeparate(changes, outcome1, outcome, max, written);
    SameCollected(env, changes, outcome1, outcome);
    if Plain(env, cb) {
      RunEffect(env, cb, rows, changes, groups, outcome, max, written, ids, rows');
    }
  }

  lemma NothingSparedYet(
      groups: seq<seq<Indexed>>, outcome: Outcome, max: Option<string>, notes: seq<Skipped>, written: seq<Cand>)
    requires RunBooks(groups, outcome, max, notes, written)
    ensures outcome.report.deleteTargetNewer == 0
  {
    hide IsTimestamp, Flatten, FoldMax, NoteAll, Sourced;
    NotesSpareNothing(EMPTY_OUTCOME, notes);
  }

  lemma SameCollected(env: Env, changes: seq<Change>, o: Outcome, o': Outcome)
    requires o'.skipped == o.skipped
    ensures forall i: nat, s :: CollectedAt(env, changes, o', i, s) <==> CollectedAt(env, changes, o, i, s)
  {
    hide Rejecting, NamedId;
  }

  /** `apply_remote_changes` up to the commit, as the copy of the rows it would commit. */
  method ApplyToRows(env: Env, cb: Callbacks, changes: seq<Change>, now: nat, rows: Rows)
    returns (result: BatchResult, rows': Rows, max: Option<string>, ghost groups: seq<seq<Indexed>>, ghost ids: set<string>,
             ghost written: seq<Cand>)
    ensures !result.Committed? ==> rows' == rows && max == None
    ensures result.Committed? ==> Account(changes, result.outcome, max, written)
    ensures result.Refused? <==> !cb.preflightOk || exists c :: c in changes && !Acceptable(env, c, now)
    ensures NonEmpty(groups) && (!result.Refused? && cb.beginOk ==> Arranged(changes, groups))
    ensures result.Committed? <==>
              !result.Refused? && cb.beginOk && cb.beforeCommitOk && LogReadable(rows) && RunUpTo(env, cb, rows, groups, |groups|).Some?
    ensures result.Committed? ==> Effect(env, cb, changes, rows, groups, ids, result.outcome, written, rows')
    ensures Plain(env, cb) && !result.Refused? ==> (result.Committed? <==> LogReadable(rows) && Decodable(env, changes))
    ensures Plain(env, cb) && result.Committed? ==> PlainEffect(env, changes, rows, groups, ids, written, rows')
  {
    hide Account, PlainEffect, Acceptable, LogReadable, Decodable, RunUpTo, Effect, Plain, Arranged;
    result, rows', max, groups, ids, written := Refused, rows, None, [], {}, [];
    var refusal := CheckIdentifiersAndDrift(env, changes, now);
    if refusal.Some? || !cb.preflightOk {
      assert refusal.Some? ==> changes[refusal.value.index] in changes;
      return;
    }
    result := RolledBack;
    AcceptableIsTimestamped(env, changes, now);
    if !cb.beginOk {
      PlainBegins(env, cb);
      return;
    }
    var ok, rows1, outcome, max1;
    ok, rows1, outcome, max1, groups, ids, written := RunTransaction(env, cb, changes, rows);
    PlainBegins(env, cb);
    if ok && cb.beforeCommitOk {
      result, rows', max := Committed(outcome), rows1, max1;
    }
  }

  lemma PlainBegins(env: Env, cb: Callbacks)
    ensures Plain(env, cb) ==> cb.preflightOk && cb.beginOk && cb.beforeCommitOk
  {
  }

  lemma PlainTransaction(env: Env, cb: Callbacks, changes: seq<Change>, rows: Rows, groups: seq<seq<Indexed>>)
    requires Plain(env, cb) && Arranged(changes, groups) && NonEmpty(groups)
    ensures RunUpTo(env, cb, rows, groups, |groups|).Some? <==> Decodable(env, changes)
  {
    hide Plain, IsGrouping, GroupDecodes, Decodable, RunUpTo, RowsAfter, AllWrites;
    PlainRuns(env, cb, rows, groups, |groups|);
    BatchDecodes(env, changes, groups);
  }

  lemma AcceptableIsTimestamped(env: Env, changes: seq<Change>, now: nat)
    requires forall c | c in changes :: Acceptable(env, c, now)
    ensures AllTimestamped(changes)
  {
  }

  lemma RunEffect(
      env: Env, cb: Callbacks, rows: Rows, changes: seq<Change>, groups: seq<seq<Indexed>>, outcome: Outcome,
      max: Option<string>, written: seq<Cand>, ids: set<string>, rows': Rows)
    requires Plain(env, cb) && Effect(env, cb, changes, rows, groups, ids, outcome, written, rows')
    requires Account(changes, outcome, max, written)
    ensures PlainEffect(env, changes, rows, groups, ids, written, rows')
  {
    hide Account, CollectedAt, IsGrouping, LogTargetsNoLog, RowsAfter, AllWrites, NamesLogId, Killed, Plain, RunUpTo, AllNoted;
    PlainRuns(env, cb, rows, groups, |groups|);
    if LogTargetsNoLog(env, rows) {
      RunIds(env, cb, rows, changes, groups, outcome, max, written, ids);
      var rows1 := RowsAfter(env, rows, groups, |groups|);
      if LogTargetsNoLog(env, rows1) {
        assert rows' == AfterDeletes(env, rows1, ids);
      }
    }
  }

  lemma ArrangedShape(changes: seq<Change>, groups: seq<seq<Indexed>>)
    requires Arranged(changes, groups)
    ensures IsGrouping(changes, groups) && multiset(Flatten(groups)) == multiset(Tagged(changes)) && NonEmpty(groups)
  {
  }

  lemma GroupingShape(changes: seq<Change>, groups: seq<seq<Indexed>>)
    requires IsGrouping(changes, groups)
    ensures forall i | 0 <= i < |groups| :: groups[i] != [] && Uniform(groups[i])
  {
  }

  lemma RunAccount(
      changes: seq<Change>, groups: seq<seq<Indexed>>, outcome: Outcome, max: Option<string>, notes: seq<Skipped>,
      written: seq<Cand>)
    requires IsGrouping(changes, groups) && multiset(Flatten(groups)) == multiset(Tagged(changes))
    requires RunBooks(groups, outcome, max, notes, written)
    ensures Account(changes, outcome, max, written) && outcome.skipped == notes
  {
    hide IsTimestamp, Booked, Flatten, Accounted, Uniform;
    BatchAccounted(changes, groups, outcome, notes, written);
    forall w | w in written
      ensures IsTimestamp(w.change.hlc) && w.index < |changes| && changes[w.index] == w.change
    {
      var g :| g in groups && Sourced(g, w);
      assert Indexed(w.index, w.change) in Tagged(changes);
    }
  }

  lemma PlainNoted(
      env: Env, cb: Callbacks, rows: Rows, changes: seq<Change>, groups: seq<seq<Indexed>>, notes: seq<Skipped>)
    requires Plain(env, cb) && IsGrouping(changes, groups) && NonEmpty(groups)
    requires AllNoted(env, cb, rows, groups, |groups|, notes)
    ensures forall n | n in notes :: exists g :: g in groups && Explained(env, rows, g, n)
  {
    hide Plain, Explained, NoteFits, RunUpTo, Uniform;
    forall n | n in notes
      ensures exists g :: g in groups && Explained(env, rows, g, n)
    {
      var k: nat :| k < |groups| && NotedAt(env, cb, rows, groups, k, n);
      PlainNotes(env, cb, rows, RunUpTo(env, cb, rows, groups, k).value.rows, k, groups[k], n);
      assert groups[k] in groups;
    }
  }

  lemma RunIds(
      env: Env, cb: Callbacks, rows: Rows, changes: seq<Change>, groups: seq<seq<Indexed>>, outcome: Outcome,
      max: Option<string>, written: seq<Cand>, ids: set<string>)
    requires Plain(env, cb) && Arranged(changes, groups) && NonEmpty(groups) && LogTargetsNoLog(env, rows)
    requires Account(changes, outcome, max, written) && written == AllWrites(env, rows, groups, |groups|)
    requires AllNoted(env, cb, rows, groups, |groups|, outcome.skipped)
    requires forall s :: s in ids <==> exists i: nat :: CollectedAt(env, changes, outcome, i, s)
    ensures forall s :: s in ids <==> exists c :: c in changes && NamesLogId(env, c, s)
  {
    hide Explained, Accounted, CollectedAt, NamesLogId, LogTargetsNoLog, RowsAfter, AllWrites, FoldMax, IsTimestamp, Plain, AllNoted,
         IsGrouping;
    ArrangedShape(changes, groups);
    GroupingShape(changes, groups);
    AllWritesAdmitted(env, rows, groups, |groups|);
    PlainNoted(env, cb, rows, changes, groups, outcome.skipped);
    PlainIds(env, rows, changes, groups, outcome, written, ids);
  }

  lemma DeleteCountIsSeparate(changes: seq<Change>, o: Outcome, o': Outcome, max: Option<string>, written: seq<Cand>)
    requires Account(changes, o, max, written)
    requires o' == Outcome(o.report.(deleteTargetNewer := o'.report.deleteTargetNewer), o.skipped)
    ensures Account(changes, o', max, written)
  {
    hide IsTimestamp, FoldMax, Tally, SkippedIndices, CandIndices;
    forall c
      ensures Reading(o'.report, c) == Reading(o.report, c)
    {
    }
  }
}
