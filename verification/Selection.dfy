/** Per-column last-write-wins selection among the changes a policy accepted. */
module Selection {
  import opened Common
  import opened Hlc
  import opened Values
  import opened Model
  import opened Reporting

  datatype SignatureWrite = Keep | Replace(sig: Option<Json>)

  /** An accepted change with the value and signature the policy decided on. */
  datatype Cand = Cand(index: nat, change: Change, value: SqlValue, signature: SignatureWrite)

  datatype ColumnDecision = SkipColumn | Accept(value: SqlValue, signature: SignatureWrite)

  function StoredHlc(hlcs: map<string, string>, column: string): string {
    if column in hlcs then hlcs[column] else ""
  }

  /**
   * Candidate `i` wins its column: complete, strictly newer than what is
   * stored, and the first of maximal rank among the complete candidates.
   */
  predicate Wins(cands: seq<Cand>, hlcs: map<string, string>, i: nat)
    requires i < |cands|
  {
    var c := cands[i].change;
    && IsComplete(c.hlc)
    && Rank(c.hlc) > Rank(StoredHlc(hlcs, c.column))
    && forall j | 0 <= j < |cands| && j != i && Rivals(cands[j], cands[i]) ::
        Rank(cands[j].change.hlc) < Rank(c.hlc) || (Rank(cands[j].change.hlc) == Rank(c.hlc) && i < j)
  }

  predicate Rivals(a: Cand, b: Cand) {
    a.change.column == b.change.column && IsComplete(a.change.hlc)
  }

  /** The winners among the first `n` positions, in candidate order. */
  function WinnersUpTo(cands: seq<Cand>, hlcs: map<string, string>, n: nat): seq<Cand>
    requires n <= |cands|
  {
    if n == 0 then []
    else WinnersUpTo(cands, hlcs, n - 1) + if Wins(cands, hlcs, n - 1) then [cands[n - 1]] else []
  }

  function Winners(cands: seq<Cand>, hlcs: map<string, string>): seq<Cand> {
    WinnersUpTo(cands, hlcs, |cands|)
  }

  lemma {:induction false} WinnersAreTheWinning(cands: seq<Cand>, hlcs: map<string, string>, n: nat)
    requires n <= |cands|
    ensures forall w | w in WinnersUpTo(cands, hlcs, n) :: exists i | 0 <= i < n :: cands[i] == w && Wins(cands, hlcs, i)
    ensures forall i | 0 <= i < n && Wins(cands, hlcs, i) :: cands[i] in WinnersUpTo(cands, hlcs, n)
  {
    if n > 0 {
      WinnersAreTheWinning(cands, hlcs, n - 1);
    }
  }

  lemma {:induction false} WinnerColumnsDiffer(cands: seq<Cand>, hlcs: map<string, string>, n: nat)
    requires n <= |cands|
    ensures DistinctColumns(WinnersUpTo(cands, hlcs, n))
  {
    hide Wins;
    if n > 0 {
      WinnerColumnsDiffer(cands, hlcs, n - 1);
      WinnersAreTheWinning(cands, hlcs, n - 1);
      if Wins(cands, hlcs, n - 1) {
        forall w | w in WinnersUpTo(cands, hlcs, n - 1)
          ensures w.change.column != cands[n - 1].change.column
        {
          var i: nat :| i < n - 1 && cands[i] == w && Wins(cands, hlcs, i);
          TwoWinnersDiffer(cands, hlcs, i, n - 1);
        }
      }
    }
  }

  lemma TwoWinnersDiffer(cands: seq<Cand>, hlcs: map<string, string>, i: nat, k: nat)
    requires i < k < |cands| && Wins(cands, hlcs, i) && Wins(cands, hlcs, k)
    ensures cands[i].change.column != cands[k].change.column
  {
    hide Rank, IsComplete;
    var there, back := Rivals(cands[k], cands[i]), Rivals(cands[i], cands[k]);
  }

  predicate DistinctColumns(s: seq<Cand>) {
    forall i, j | 0 <= i < j < |s| :: s[i].change.column != s[j].change.column
  }

  /** Some candidate beats the stored HLC, so its column has a winner at least as new. */
  lemma {:induction false} SomeoneWins(cands: seq<Cand>, hlcs: map<string, string>, j: nat) returns (i: nat)
    requires j < |cands| && IsComplete(cands[j].change.hlc)
    requires Rank(cands[j].change.hlc) > Rank(StoredHlc(hlcs, cands[j].change.column))
    ensures i < |cands| && Wins(cands, hlcs, i) && cands[i].change.column == cands[j].change.column
    ensures Rank(cands[i].change.hlc) >= Rank(cands[j].change.hlc)
  {
    hide Rank;
    i := j;
    for k := 0 to |cands|
      invariant i < |cands| && IsComplete(cands[i].change.hlc) && cands[i].change.column == cands[j].change.column
      invariant Rank(cands[i].change.hlc) >= Rank(cands[j].change.hlc)
      invariant forall m | 0 <= m < k && m != i && Rivals(cands[m], cands[i]) ::
          Rank(cands[m].change.hlc) < Rank(cands[i].change.hlc)
          || (Rank(cands[m].change.hlc) == Rank(cands[i].change.hlc) && i < m)
    {
      if k != i && Rivals(cands[k], cands[i]) && (Rank(cands[k].change.hlc) > Rank(cands[i].change.hlc)
        || (Rank(cands[k].change.hlc) == Rank(cands[i].change.hlc) && k < i)) {
        i := k;
      }
    }
  }

  function DropColumn(s: seq<Cand>, column: string): seq<Cand> {
    if s == [] then []
    else DropColumn(s[..|s| - 1], column) + if s[|s| - 1].change.column == column then [] else [s[|s| - 1]]
  }

  lemma DropColumnAppend(s: seq<Cand>, x: Cand, column: string)
    ensures DropColumn(s + [x], column) == DropColumn(s, column) + if x.change.column == column then [] else [x]
  {
    assert (s + [x])[..|s|] == s;
  }

  lemma {:induction false} DropAbsent(s: seq<Cand>, column: string)
    requires forall i | 0 <= i < |s| :: s[i].change.column != column
    ensures DropColumn(s, column) == s
  {
    if s != [] {
      DropAbsent(s[..|s| - 1], column);
    }
  }

  lemma {:induction false} DropOnly(s: seq<Cand>, p: nat)
    requires p < |s| && DistinctColumns(s)
    ensures DropColumn(s, s[p].change.column) == s[..p] + s[p + 1..]
  {
    var front := s[..|s| - 1];
    if p == |front| {
      DropAbsent(front, s[p].change.column);
    } else {
      DropOnly(front, p);
      assert s[p + 1..] == front[p + 1..] + [s[|s| - 1]];
    }
  }

  /** The first staged candidate for `column`, or the length if there is none. */
  function Position(staged: seq<Cand>, column: string): (p: nat)
    ensures p <= |staged|
    ensures p < |staged| ==> staged[p].change.column == column
    ensures forall i | 0 <= i < p :: staged[i].change.column != column
  {
    if staged == [] || staged[0].change.column == column then 0 else 1 + Position(staged[1..], column)
  }

  /** The HLC a further candidate for `column` has to beat. */
  function RunningHlc(staged: seq<Cand>, hlcs: map<string, string>, column: string): string {
    var p := Position(staged, column);
    if p < |staged| then staged[p].change.hlc else StoredHlc(hlcs, column)
  }

  /** Beating the running HLC is the same as winning over everything seen so far. */
  lemma RunningDecides(cands: seq<Cand>, hlcs: map<string, string>, c: Cand)
    ensures Wins(cands + [c], hlcs, |cands|) <==>
            IsComplete(c.change.hlc) &&
            Rank(c.change.hlc) > Rank(RunningHlc(Winners(cands, hlcs), hlcs, c.change.column))
  {
    hide Rank, IsComplete;
    var all, n, staged := cands + [c], |cands|, Winners(cands, hlcs);
    var p := Position(staged, c.change.column);
    WinnersAreTheWinning(cands, hlcs, n);
    if p < |staged| {
      assert staged[p] in staged;
      var i: nat :| i < n && cands[i] == staged[p] && Wins(cands, hlcs, i);
      assert all[i] == cands[i];
      assert forall j | 0 <= j < n && Rivals(cands[j], c) :: j == i || Rivals(cands[j], cands[i]);
    } else {
      forall j | 0 <= j < n && Rivals(cands[j], c)
        ensures Rank(cands[j].change.hlc) <= Rank(StoredHlc(hlcs, c.change.column))
      {
        if Rank(cands[j].change.hlc) > Rank(StoredHlc(hlcs, c.change.column)) {
          var i := SomeoneWins(cands, hlcs, j);
        }
      }
    }
  }

  /** How one more candidate changes who wins among the earlier ones. */
  lemma EarlierWinners(cands: seq<Cand>, hlcs: map<string, string>, c: Cand, i: nat)
    requires i < |cands|
    ensures Wins(cands + [c], hlcs, i) <==>
            Wins(cands, hlcs, i) && !(Wins(cands + [c], hlcs, |cands|) && cands[i].change.column == c.change.column)
  {
    hide Rank, IsComplete;
    var all, n := cands + [c], |cands|;
    assert forall j | 0 <= j < n :: all[j] == cands[j];
    assert all[n] == c;
    var there, back := Rivals(all[n], all[i]), Rivals(all[i], all[n]);
    if Wins(cands, hlcs, i) && cands[i].change.column == c.change.column {
      assert forall j | 0 <= j < n && Rivals(cands[j], c) :: j == i || Rivals(cands[j], cands[i]);
    }
  }

  /** Adding `c`, which beats its column's winner so far, only drops that winner. */
  lemma {:induction false} WinnersStepBeaten(cands: seq<Cand>, hlcs: map<string, string>, c: Cand, n: nat)
    requires n <= |cands| && Wins(cands + [c], hlcs, |cands|)
    ensures WinnersUpTo(cands + [c], hlcs, n) == DropColumn(WinnersUpTo(cands, hlcs, n), c.change.column)
  {
    hide Wins, DropColumn;
    if n == 0 {
      DropAbsent([], c.change.column);
    } else {
      WinnersStepBeaten(cands, hlcs, c, n - 1);
      EarlierWinners(cands, hlcs, c, n - 1);
      var before := WinnersUpTo(cands, hlcs, n - 1);
      DropColumnAppend(before, cands[n - 1], c.change.column);
      assert before + [] == before;
    }
  }

  lemma {:induction false} WinnersStepLost(cands: seq<Cand>, hlcs: map<string, string>, c: Cand, n: nat)
    requires n <= |cands| && !Wins(cands + [c], hlcs, |cands|)
    ensures WinnersUpTo(cands + [c], hlcs, n) == WinnersUpTo(cands, hlcs, n)
  {
    hide Wins;
    if n > 0 {
      WinnersStepLost(cands, hlcs, c, n - 1);
      EarlierWinners(cands, hlcs, c, n - 1);
    }
  }

  /** The stage/evict step computes the winners of the extended candidate list. */
  lemma WinnersStep(cands: seq<Cand>, hlcs: map<string, string>, c: Cand)
    ensures Winners(cands + [c], hlcs) ==
            if Wins(cands + [c], hlcs, |cands|) then DropColumn(Winners(cands, hlcs), c.change.column) + [c]
            else Winners(cands, hlcs)
  {
    if Wins(cands + [c], hlcs, |cands|) {
      WinnersStepBeaten(cands, hlcs, c, |cands|);
    } else {
      WinnersStepLost(cands, hlcs, c, |cands|);
    }
  }

  /** The accepted ones among the first `n` decisions. */
  function Accepted(decisions: seq<ColumnDecision>, eligible: seq<Indexed>, n: nat): seq<Cand>
    requires n <= |decisions| && n <= |eligible|
  {
    if n == 0 then []
    else
      Accepted(decisions, eligible, n - 1) +
      match decisions[n - 1]
      case SkipColumn => []
      case Accept(value, signature) => [Cand(eligible[n - 1].index, eligible[n - 1].change, value, signature)]
  }

  function CandIndices(s: seq<Cand>): (r: seq<nat>)
    ensures |r| == |s| && forall i | 0 <= i < |r| :: r[i] == s[i].index
  {
    if s == [] then [] else CandIndices(s[..|s| - 1]) + [s[|s| - 1].index]
  }

  lemma WithoutOne<T>(s: seq<T>, p: nat)
    requires p < |s|
    ensures multiset(s) == multiset(s[..p] + s[p + 1..]) + multiset{s[p]}
  {
    assert s == s[..p] + [s[p]] + s[p + 1..];
  }

  lemma CandIndicesRemove(s: seq<Cand>, p: nat)
    requires p < |s|
    ensures multiset(CandIndices(s)) == multiset(CandIndices(s[..p] + s[p + 1..])) + multiset{s[p].index}
  {
    hide CandIndices;
    WithoutOne(CandIndices(s), p);
    CandIndicesWithout(s, p);
  }

  lemma CandIndicesWithout(s: seq<Cand>, p: nat)
    requires p < |s|
    ensures CandIndices(s[..p] + s[p + 1..]) == CandIndices(s)[..p] + CandIndices(s)[p + 1..]
  {
    hide CandIndices;
  }

  function ItemIndices(s: seq<Indexed>): (r: seq<nat>)
    ensures |r| == |s| && forall i | 0 <= i < |r| :: r[i] == s[i].index
  {
    if s == [] then [] else ItemIndices(s[..|s| - 1]) + [s[|s| - 1].index]
  }

  lemma ItemIndicesAppend(s: seq<Indexed>, n: nat)
    requires n < |s|
    ensures ItemIndices(s[..n + 1]) == ItemIndices(s[..n]) + [s[n].index]
  {
  }

  lemma CandIndicesAppend(s: seq<Cand>, c: Cand)
    ensures CandIndices(s + [c]) == CandIndices(s) + [c.index]
  {
  }

  /** Moving an index from the staged pile to the skipped pile loses nothing. */
  predicate Split(notes: seq<Skipped>, staged: seq<Cand>, items: seq<Indexed>) {
    multiset(SkippedIndices(notes)) + multiset(CandIndices(staged)) == multiset(ItemIndices(items))
  }

  lemma SplitSkips(notes: seq<Skipped>, staged: seq<Cand>, items: seq<Indexed>, n: nat, s: Skipped)
    requires n < |items| && Split(notes, staged, items[..n]) && s.index == items[n].index
    ensures Split(notes + [s], staged, items[..n + 1])
  {
    ItemIndicesAppend(items, n);
    IndicesConcat(notes, [s]);
    assert SkippedIndices([s]) == [s.index];
  }

  lemma SplitStages(notes: seq<Skipped>, staged: seq<Cand>, items: seq<Indexed>, n: nat, c: Cand)
    requires n < |items| && Split(notes, staged, items[..n]) && c.index == items[n].index
    ensures Split(notes, staged + [c], items[..n + 1])
  {
    ItemIndicesAppend(items, n);
    CandIndicesAppend(staged, c);
  }

  lemma SplitEvicts(notes: seq<Skipped>, staged: seq<Cand>, items: seq<Indexed>, p: nat, s: Skipped)
    requires p < |staged| && Split(notes, staged, items) && s.index == staged[p].index
    ensures Split(notes + [s], staged[..p] + staged[p + 1..], items)
  {
    CandIndicesRemove(staged, p);
    IndicesConcat(notes, [s]);
    assert SkippedIndices([s]) == [s.index];
  }

  function CandAt(decisions: seq<ColumnDecision>, eligible: seq<Indexed>, i: nat): Cand
    requires i < |decisions| == |eligible| && decisions[i].Accept?
  {
    Cand(eligible[i].index, eligible[i].change, decisions[i].value, decisions[i].signature)
  }

  /** Position `i` is accepted, complete and newer than what is stored. */
  predicate Contends(decisions: seq<ColumnDecision>, eligible: seq<Indexed>, hlcs: map<string, string>, i: nat)
    requires i < |decisions| == |eligible|
  {
    && decisions[i].Accept?
    && IsComplete(eligible[i].change.hlc)
    && Rank(eligible[i].change.hlc) > Rank(StoredHlc(hlcs, eligible[i].change.column))
  }

  predicate SameColumn(eligible: seq<Indexed>, i: nat, j: nat)
    requires i < |eligible| && j < |eligible|
  {
    eligible[i].change.column == eligible[j].change.column
  }

  /** Position `i` contends, and among the first `n` positions no contender of its column is newer or an earlier equal. */
  predicate Leads(decisions: seq<ColumnDecision>, eligible: seq<Indexed>, hlcs: map<string, string>, n: nat, i: nat)
    requires i < n <= |decisions| == |eligible|
  {
    && Contends(decisions, eligible, hlcs, i)
    && forall j | 0 <= j < n && SameColumn(eligible, i, j) && Contends(decisions, eligible, hlcs, j) ::
        Rank(eligible[j].change.hlc) < Rank(eligible[i].change.hlc)
        || (Rank(eligible[j].change.hlc) == Rank(eligible[i].change.hlc) && i <= j)
  }

  /** A change loses to the batch when a contender of its column came by then, and to the store otherwise. */
  function LossReason(decisions: seq<ColumnDecision>, eligible: seq<Indexed>, hlcs: map<string, string>, i: nat): SkipReason
    requires i < |decisions| == |eligible|
  {
    if decisions[i].SkipColumn? then PolicySkip
    else if exists j :: 0 <= j <= i && SameColumn(eligible, i, j) && Contends(decisions, eligible, hlcs, j) then SupersededInBatch
    else Stale
  }

  /** What is staged are leaders among the first `n` positions. */
  ghost predicate Staging(
      decisions: seq<ColumnDecision>, eligible: seq<Indexed>, hlcs: map<string, string>, n: nat, staged: seq<Cand>, kept: seq<nat>)
    requires n <= |decisions| == |eligible|
  {
    && |kept| == |staged|
    && forall p | 0 <= p < |kept| ::
         kept[p] < n && Leads(decisions, eligible, hlcs, n, kept[p]) && staged[p] == CandAt(decisions, eligible, kept[p])
  }

  /** What is noted does not lead, and is noted for its own reason. */
  ghost predicate Noting(
      decisions: seq<ColumnDecision>, eligible: seq<Indexed>, hlcs: map<string, string>, n: nat, notes: seq<Skipped>, at: seq<nat>)
    requires n <= |decisions| == |eligible|
  {
    && |at| == |notes|
    && forall p | 0 <= p < |at| ::
         at[p] < n && !Leads(decisions, eligible, hlcs, n, at[p])
         && notes[p] == Skipped(eligible[at[p]].index, LossReason(decisions, eligible, hlcs, at[p]))
  }

  ghost predicate Placed(
      decisions: seq<ColumnDecision>, eligible: seq<Indexed>, hlcs: map<string, string>, n: nat,
      staged: seq<Cand>, kept: seq<nat>, notes: seq<Skipped>, at: seq<nat>)
  {
    && n <= |decisions| == |eligible|
    && Staging(decisions, eligible, hlcs, n, staged, kept)
    && Noting(decisions, eligible, hlcs, n, notes, at)
    && forall i | 0 <= i < n :: i in kept || i in at
  }

  /** Whoever contends has a leader in its column, and leaders are staged. */
  lemma {:induction false} ContenderIsStaged(
      decisions: seq<ColumnDecision>, eligible: seq<Indexed>, hlcs: map<string, string>, n: nat,
      staged: seq<Cand>, kept: seq<nat>, notes: seq<Skipped>, at: seq<nat>, j: nat)
    requires Placed(decisions, eligible, hlcs, n, staged, kept, notes, at)
    requires j < n && Contends(decisions, eligible, hlcs, j)
    ensures exists p :: 0 <= p < |staged| && staged[p].change.column == eligible[j].change.column
  {
    hide Rank, LossReason, Contends;
    var i: nat := j;
    for m: nat := 0 to n
      invariant i < n && SameColumn(eligible, j, i) && Contends(decisions, eligible, hlcs, i)
      invariant forall o | 0 <= o < m && SameColumn(eligible, i, o) && Contends(decisions, eligible, hlcs, o) ::
                  Rank(eligible[o].change.hlc) < Rank(eligible[i].change.hlc)
                  || (Rank(eligible[o].change.hlc) == Rank(eligible[i].change.hlc) && i <= o)
    {
      if SameColumn(eligible, i, m) && Contends(decisions, eligible, hlcs, m)
         && !(Rank(eligible[m].change.hlc) < Rank(eligible[i].change.hlc)
              || (Rank(eligible[m].change.hlc) == Rank(eligible[i].change.hlc) && i <= m)) {
        i := m;
      }
    }
    assert Leads(decisions, eligible, hlcs, n, i);
    assert i in kept;
    var p :| 0 <= p < |kept| && kept[p] == i;
    assert staged[p].change.column == eligible[j].change.column;
  }

  /** One more position that does not contend, or does not beat a staged one, changes no leader. */
  lemma LeadersStay(
      decisions: seq<ColumnDecision>, eligible: seq<Indexed>, hlcs: map<string, string>, n: nat, i: nat)
    requires i < n < |decisions| == |eligible|
    ensures Leads(decisions, eligible, hlcs, n + 1, i) ==> Leads(decisions, eligible, hlcs, n, i)
    ensures Leads(decisions, eligible, hlcs, n, i) ==>
              (Leads(decisions, eligible, hlcs, n + 1, i) <==>
               !(SameColumn(eligible, i, n) && Contends(decisions, eligible, hlcs, n)
                 && Rank(eligible[n].change.hlc) > Rank(eligible[i].change.hlc)))
  {
    hide Rank, Contends;
  }

  lemma NoneLeftOut(n: nat, before: seq<nat>, more: seq<nat>, kept: seq<nat>, at: seq<nat>)
    requires forall i | 0 <= i < n :: i in kept || i in at
    requires n in before || n in more
    requires forall i | i in kept || i in at :: i in before || i in more
    ensures forall i | 0 <= i < n + 1 :: i in before || i in more
  {
  }

  lemma NotingGrows(
      decisions: seq<ColumnDecision>, eligible: seq<Indexed>, hlcs: map<string, string>, n: nat, notes: seq<Skipped>, at: seq<nat>)
    requires n < |decisions| == |eligible| && Noting(decisions, eligible, hlcs, n, notes, at)
    ensures Noting(decisions, eligible, hlcs, n + 1, notes, at)
  {
    hide Leads, LossReason;
    forall p | 0 <= p < |at|
      ensures !Leads(decisions, eligible, hlcs, n + 1, at[p])
    {
      LeadersStay(decisions, eligible, hlcs, n, at[p]);
    }
  }

  lemma StagingGrows(
      decisions: seq<ColumnDecision>, eligible: seq<Indexed>, hlcs: map<string, string>, n: nat, staged: seq<Cand>, kept: seq<nat>)
    requires n < |decisions| == |eligible| && Staging(decisions, eligible, hlcs, n, staged, kept)
    requires forall p | 0 <= p < |kept| :: Leads(decisions, eligible, hlcs, n + 1, kept[p])
    ensures Staging(decisions, eligible, hlcs, n + 1, staged, kept)
  {
    hide Leads;
  }

  lemma NoteOneMore(
      decisions: seq<ColumnDecision>, eligible: seq<Indexed>, hlcs: map<string, string>, n: nat, notes: seq<Skipped>, at: seq<nat>,
      i: nat)
    requires n <= |decisions| == |eligible| && Noting(decisions, eligible, hlcs, n, notes, at)
    requires i < n && !Leads(decisions, eligible, hlcs, n, i)
    ensures Noting(decisions, eligible, hlcs, n,
                   notes + [Skipped(eligible[i].index, LossReason(decisions, eligible, hlcs, i))], at + [i])
  {
    hide Leads, LossReason;
  }

  /** The next position does not lead and displaces nobody. */
  lemma PlaceLoser(
      decisions: seq<ColumnDecision>, eligible: seq<Indexed>, hlcs: map<string, string>, n: nat,
      staged: seq<Cand>, kept: seq<nat>, notes: seq<Skipped>, at: seq<nat>)
    requires Placed(decisions, eligible, hlcs, n, staged, kept, notes, at)
    requires n < |decisions|
    requires !Leads(decisions, eligible, hlcs, n + 1, n)
    requires forall p | 0 <= p < |kept| :: kept[p] < n && Leads(decisions, eligible, hlcs, n + 1, kept[p])
    ensures Placed(decisions, eligible, hlcs, n + 1, staged, kept,
                   notes + [Skipped(eligible[n].index, LossReason(decisions, eligible, hlcs, n))], at + [n])
  {
    hide Leads, LossReason, Staging, Noting;
    StagingGrows(decisions, eligible, hlcs, n, staged, kept);
    NotingGrows(decisions, eligible, hlcs, n, notes, at);
    NoteOneMore(decisions, eligible, hlcs, n + 1, notes, at, n);
    NoneLeftOut(n, kept, at + [n], kept, at);
  }

  lemma StageOneMore(
      decisions: seq<ColumnDecision>, eligible: seq<Indexed>, hlcs: map<string, string>, n: nat, staged: seq<Cand>, kept: seq<nat>,
      i: nat)
    requires n <= |decisions| == |eligible| && Staging(decisions, eligible, hlcs, n, staged, kept)
    requires i < n && Leads(decisions, eligible, hlcs, n, i)
    ensures decisions[i].Accept?
    ensures Staging(decisions, eligible, hlcs, n, staged + [CandAt(decisions, eligible, i)], kept + [i])
  {
    hide Leads;
    LeaderContends(decisions, eligible, hlcs, n, i);
  }

  lemma OthersStay(
      decisions: seq<ColumnDecision>, eligible: seq<Indexed>, hlcs: map<string, string>, n: nat, staged: seq<Cand>, kept: seq<nat>)
    requires n < |decisions| == |eligible| && Staging(decisions, eligible, hlcs, n, staged, kept)
    requires forall p | 0 <= p < |kept| :: kept[p] < n ==> !SameColumn(eligible, kept[p], n)
    ensures Staging(decisions, eligible, hlcs, n + 1, staged, kept)
  {
    hide Leads;
    forall p | 0 <= p < |kept|
      ensures Leads(decisions, eligible, hlcs, n + 1, kept[p])
    {
      LeadersStay(decisions, eligible, hlcs, n, kept[p]);
    }
  }

  /** The next position leads a column that had no leader. */
  lemma PlaceLeader(
      decisions: seq<ColumnDecision>, eligible: seq<Indexed>, hlcs: map<string, string>, n: nat,
      staged: seq<Cand>, kept: seq<nat>, notes: seq<Skipped>, at: seq<nat>)
    requires Placed(decisions, eligible, hlcs, n, staged, kept, notes, at)
    requires n < |decisions| && Leads(decisions, eligible, hlcs, n + 1, n)
    requires forall p | 0 <= p < |kept| :: kept[p] < n ==> !SameColumn(eligible, kept[p], n)
    ensures decisions[n].Accept?
    ensures Placed(decisions, eligible, hlcs, n + 1, staged + [CandAt(decisions, eligible, n)], kept + [n], notes, at)
  {
    hide Leads, LossReason, Staging, Noting, SameColumn;
    OthersStay(decisions, eligible, hlcs, n, staged, kept);
    StageOneMore(decisions, eligible, hlcs, n + 1, staged, kept, n);
    NotingGrows(decisions, eligible, hlcs, n, notes, at);
    assert (kept + [n])[|kept|] == n;
    NoneLeftOut(n, kept + [n], at, kept, at);
  }

  lemma LeaderContends(decisions: seq<ColumnDecision>, eligible: seq<Indexed>, hlcs: map<string, string>, n: nat, i: nat)
    requires i < n <= |decisions| == |eligible| && Leads(decisions, eligible, hlcs, n, i)
    ensures Contends(decisions, eligible, hlcs, i) && decisions[i].Accept?
  {
    hide Rank;
  }

  lemma LeaderLostToBatch(decisions: seq<ColumnDecision>, eligible: seq<Indexed>, hlcs: map<string, string>, n: nat, i: nat)
    requires i < n <= |decisions| == |eligible| && Leads(decisions, eligible, hlcs, n, i)
    ensures LossReason(decisions, eligible, hlcs, i) == SupersededInBatch
  {
    hide Rank;
    assert SameColumn(eligible, i, i);
  }

  lemma StagingWithout(
      decisions: seq<ColumnDecision>, eligible: seq<Indexed>, hlcs: map<string, string>, n: nat, staged: seq<Cand>, kept: seq<nat>,
      p: nat)
    requires n <= |decisions| == |eligible| && Staging(decisions, eligible, hlcs, n, staged, kept) && p < |staged|
    ensures Staging(decisions, eligible, hlcs, n, staged[..p] + staged[p + 1..], kept[..p] + kept[p + 1..])
    ensures forall i | i in kept :: i in kept[..p] + kept[p + 1..] || i == kept[p]
  {
    hide Leads;
    var kept' := kept[..p] + kept[p + 1..];
    forall i | i in kept && i != kept[p]
      ensures i in kept'
    {
      var q :| 0 <= q < |kept| && kept[q] == i;
      assert if q < p then kept'[q] == i else kept'[q - 1] == i;
    }
  }

  /** A leader that gives way moves from the staged to the noted. */
  lemma Displace(
      decisions: seq<ColumnDecision>, eligible: seq<Indexed>, hlcs: map<string, string>, n: nat,
      staged: seq<Cand>, kept: seq<nat>, notes: seq<Skipped>, at: seq<nat>, p: nat)
    requires Placed(decisions, eligible, hlcs, n, staged, kept, notes, at)
    requires p < |staged| && n < |decisions|
    requires Leads(decisions, eligible, hlcs, n + 1, n)
    requires forall q | 0 <= q < |kept| :: kept[q] < n ==> (SameColumn(eligible, kept[q], n) <==> q == p)
    ensures decisions[n].Accept?
    ensures Placed(decisions, eligible, hlcs, n + 1, staged[..p] + staged[p + 1..] + [CandAt(decisions, eligible, n)],
                   kept[..p] + kept[p + 1..] + [n], notes + [Skipped(staged[p].index, SupersededInBatch)], at + [kept[p]])
  {
    hide Leads, LossReason, Noting, SameColumn;
    var staged', kept' := staged[..p] + staged[p + 1..], kept[..p] + kept[p + 1..];
    LeaderLostToBatch(decisions, eligible, hlcs, n, kept[p]);
    Overtaken(decisions, eligible, hlcs, n, kept[p]);
    StagingWithout(decisions, eligible, hlcs, n, staged, kept, p);
    OthersStay(decisions, eligible, hlcs, n, staged', kept');
    StageOneMore(decisions, eligible, hlcs, n + 1, staged', kept', n);
    NotingGrows(decisions, eligible, hlcs, n, notes, at);
    NoteOneMore(decisions, eligible, hlcs, n + 1, notes, at, kept[p]);
    Regrouped(n, kept, kept', at, kept[p]);
  }

  lemma Regrouped(n: nat, kept: seq<nat>, kept': seq<nat>, at: seq<nat>, i: nat)
    requires forall k | 0 <= k < n :: k in kept || k in at
    requires forall k | k in kept :: k in kept' || k == i
    ensures forall k | 0 <= k < n + 1 :: k in kept' + [n] || k in at + [i]
  {
    assert (kept' + [n])[|kept'|] == n;
    assert (at + [i])[|at|] == i;
  }

  lemma Overtaken(decisions: seq<ColumnDecision>, eligible: seq<Indexed>, hlcs: map<string, string>, n: nat, i: nat)
    requires i < n < |decisions| == |eligible| && SameColumn(eligible, i, n)
    requires Leads(decisions, eligible, hlcs, n + 1, n) && Leads(decisions, eligible, hlcs, n, i)
    ensures !Leads(decisions, eligible, hlcs, n + 1, i)
  {
    hide Rank, IsComplete;
    assert SameColumn(eligible, n, i) && Contends(decisions, eligible, hlcs, i) && Contends(decisions, eligible, hlcs, n);
  }

  /** The running comparison decides whether the next position leads. */
  lemma NextLeads(
      decisions: seq<ColumnDecision>, eligible: seq<Indexed>, hlcs: map<string, string>, n: nat,
      staged: seq<Cand>, kept: seq<nat>, notes: seq<Skipped>, at: seq<nat>)
    requires Placed(decisions, eligible, hlcs, n, staged, kept, notes, at)
    requires n < |decisions| && decisions[n].Accept?
    ensures Leads(decisions, eligible, hlcs, n + 1, n) <==>
            IsComplete(eligible[n].change.hlc)
            && Rank(eligible[n].change.hlc) > Rank(RunningHlc(staged, hlcs, eligible[n].change.column))
  {
    hide Rank, LossReason, IsComplete;
    var p := Position(staged, eligible[n].change.column);
    if p < |staged| {
      var i := kept[p];
      assert SameColumn(eligible, i, n) && SameColumn(eligible, n, i) && Contends(decisions, eligible, hlcs, i);
      assert forall j | 0 <= j < n :: SameColumn(eligible, n, j) <==> SameColumn(eligible, i, j);
    } else {
      forall j | 0 <= j < n && SameColumn(eligible, n, j)
        ensures !Contends(decisions, eligible, hlcs, j)
      {
        if Contends(decisions, eligible, hlcs, j) {
          ContenderIsStaged(decisions, eligible, hlcs, n, staged, kept, notes, at, j);
        }
      }
    }
  }

  lemma StagedContends(
      decisions: seq<ColumnDecision>, eligible: seq<Indexed>, hlcs: map<string, string>, n: nat,
      staged: seq<Cand>, kept: seq<nat>, notes: seq<Skipped>, at: seq<nat>, p: nat)
    requires Placed(decisions, eligible, hlcs, n, staged, kept, notes, at) && p < |staged| && n < |decisions|
    requires staged[p].change.column == eligible[n].change.column
    ensures p < |kept| && kept[p] < n && SameColumn(eligible, n, kept[p]) && Contends(decisions, eligible, hlcs, kept[p])
  {
    hide Noting, Leads, Contends;
    LeaderContends(decisions, eligible, hlcs, n, kept[p]);
  }

  lemma NobodyContends(
      decisions: seq<ColumnDecision>, eligible: seq<Indexed>, hlcs: map<string, string>, n: nat,
      staged: seq<Cand>, kept: seq<nat>, notes: seq<Skipped>, at: seq<nat>)
    requires Placed(decisions, eligible, hlcs, n, staged, kept, notes, at) && n < |decisions|
    requires Position(staged, eligible[n].change.column) == |staged|
    ensures forall j | 0 <= j < n && SameColumn(eligible, n, j) :: !Contends(decisions, eligible, hlcs, j)
  {
    hide Staging, Noting, Contends;
    forall j | 0 <= j < n && SameColumn(eligible, n, j)
      ensures !Contends(decisions, eligible, hlcs, j)
    {
      if Contends(decisions, eligible, hlcs, j) {
        ContenderIsStaged(decisions, eligible, hlcs, n, staged, kept, notes, at, j);
      }
    }
  }

  /** Why the next position loses is visible from what is staged. */
  lemma NextLosesTo(
      decisions: seq<ColumnDecision>, eligible: seq<Indexed>, hlcs: map<string, string>, n: nat,
      staged: seq<Cand>, kept: seq<nat>, notes: seq<Skipped>, at: seq<nat>)
    requires Placed(decisions, eligible, hlcs, n, staged, kept, notes, at)
    requires n < |decisions| && decisions[n].Accept? && !Leads(decisions, eligible, hlcs, n + 1, n)
    ensures LossReason(decisions, eligible, hlcs, n) ==
            if Position(staged, eligible[n].change.column) < |staged| then SupersededInBatch else Stale
  {
    hide Rank, IsComplete, Staging, Noting, Leads, Contends;
    NextLeads(decisions, eligible, hlcs, n, staged, kept, notes, at);
    var p := Position(staged, eligible[n].change.column);
    if p < |staged| {
      StagedContends(decisions, eligible, hlcs, n, staged, kept, notes, at, p);
    } else {
      NobodyContends(decisions, eligible, hlcs, n, staged, kept, notes, at);
      Uncontending(decisions, eligible, hlcs, n);
    }
  }

  lemma Uncontending(decisions: seq<ColumnDecision>, eligible: seq<Indexed>, hlcs: map<string, string>, n: nat)
    requires n < |decisions| == |eligible| && decisions[n].Accept?
    ensures Contends(decisions, eligible, hlcs, n) <==>
            IsComplete(eligible[n].change.hlc) && Rank(eligible[n].change.hlc) > Rank(StoredHlc(hlcs, eligible[n].change.column))
  {
    hide Rank, IsComplete;
  }

  /** A change the running comparison or the policy turns down. */
  lemma PlaceNext(
      decisions: seq<ColumnDecision>, eligible: seq<Indexed>, hlcs: map<string, string>, n: nat,
      staged: seq<Cand>, kept: seq<nat>, notes: seq<Skipped>, at: seq<nat>)
    requires Placed(decisions, eligible, hlcs, n, staged, kept, notes, at) && n < |decisions|
    requires decisions[n].SkipColumn? || !IsComplete(eligible[n].change.hlc)
             || Rank(eligible[n].change.hlc) <= Rank(RunningHlc(staged, hlcs, eligible[n].change.column))
    ensures Placed(decisions, eligible, hlcs, n + 1, staged, kept,
                   notes + [Skipped(eligible[n].index, LossReason(decisions, eligible, hlcs, n))], at + [n])
    ensures LossReason(decisions, eligible, hlcs, n) ==
            if decisions[n].SkipColumn? then PolicySkip
            else if Position(staged, eligible[n].change.column) < |staged| then SupersededInBatch else Stale
  {
    hide Rank, IsComplete, Placed, RunningHlc;
    if decisions[n].Accept? {
      NextLeads(decisions, eligible, hlcs, n, staged, kept, notes, at);
      NextLosesTo(decisions, eligible, hlcs, n, staged, kept, notes, at);
    }
    KeptLead(decisions, eligible, hlcs, n, staged, kept, notes, at);
    PlaceLoser(decisions, eligible, hlcs, n, staged, kept, notes, at);
  }

  lemma KeptLead(
      decisions: seq<ColumnDecision>, eligible: seq<Indexed>, hlcs: map<string, string>, n: nat,
      staged: seq<Cand>, kept: seq<nat>, notes: seq<Skipped>, at: seq<nat>)
    requires Placed(decisions, eligible, hlcs, n, staged, kept, notes, at) && n < |decisions|
    requires decisions[n].SkipColumn? || !IsComplete(eligible[n].change.hlc)
             || Rank(eligible[n].change.hlc) <= Rank(RunningHlc(staged, hlcs, eligible[n].change.column))
    ensures forall p | 0 <= p < |kept| :: kept[p] < n && Leads(decisions, eligible, hlcs, n + 1, kept[p])
  {
    hide Rank, IsComplete, LossReason, Leads, Noting;
    forall p | 0 <= p < |kept|
      ensures kept[p] < n && Leads(decisions, eligible, hlcs, n + 1, kept[p])
    {
      LeadersStay(decisions, eligible, hlcs, n, kept[p]);
      if SameColumn(eligible, kept[p], n) && Contends(decisions, eligible, hlcs, n) {
        var q := Position(staged, eligible[n].change.column);
        assert q <= p;
        TwoLeaders(decisions, eligible, hlcs, n, kept[p], kept[q]);
      }
    }
  }

  lemma TwoLeaders(decisions: seq<ColumnDecision>, eligible: seq<Indexed>, hlcs: map<string, string>, n: nat, i: nat, j: nat)
    requires i < n <= |decisions| == |eligible| && j < n && SameColumn(eligible, i, j)
    requires Leads(decisions, eligible, hlcs, n, i) && Leads(decisions, eligible, hlcs, n, j)
    ensures i == j
  {
    hide Rank, IsComplete;
    assert SameColumn(eligible, j, i);
  }

  /** A change that beats the running HLC, with or without somebody to displace. */
  lemma PlaceWinner(
      decisions: seq<ColumnDecision>, eligible: seq<Indexed>, hlcs: map<string, string>, n: nat,
      staged: seq<Cand>, kept: seq<nat>, notes: seq<Skipped>, at: seq<nat>, p: nat)
    requires Placed(decisions, eligible, hlcs, n, staged, kept, notes, at) && DistinctColumns(staged)
    requires n < |decisions| && decisions[n].Accept? && IsComplete(eligible[n].change.hlc)
    requires Rank(eligible[n].change.hlc) > Rank(RunningHlc(staged, hlcs, eligible[n].change.column))
    requires p == Position(staged, eligible[n].change.column)
    ensures p < |staged| ==>
              Placed(decisions, eligible, hlcs, n + 1, staged[..p] + staged[p + 1..] + [CandAt(decisions, eligible, n)],
                     kept[..p] + kept[p + 1..] + [n], notes + [Skipped(staged[p].index, SupersededInBatch)], at + [kept[p]])
    ensures p == |staged| ==>
              Placed(decisions, eligible, hlcs, n + 1, staged + [CandAt(decisions, eligible, n)], kept + [n], notes, at)
  {
    hide Rank, IsComplete, RunningHlc, Leads, LossReason;
    NextLeads(decisions, eligible, hlcs, n, staged, kept, notes, at);
    if p < |staged| {
      Displace(decisions, eligible, hlcs, n, staged, kept, notes, at, p);
    } else {
      PlaceLeader(decisions, eligible, hlcs, n, staged, kept, notes, at);
    }
  }

  /** The loop's state before decision `k`. */
  ghost predicate Selecting(
      decisions: seq<ColumnDecision>, eligible: seq<Indexed>, hlcs: map<string, string>, outcome: Outcome, k: nat,
      staged: seq<Cand>, outcome': Outcome, notes: seq<Skipped>, kept: seq<nat>, at: seq<nat>)
  {
    && k <= |decisions| == |eligible|
    && staged == Winners(Accepted(decisions, eligible, k), hlcs)
    && Split(notes, staged, eligible[..k])
    && Placed(decisions, eligible, hlcs, k, staged, kept, notes, at)
    && outcome' == NoteAll(outcome, notes)
  }

  lemma SelectNothing(decisions: seq<ColumnDecision>, eligible: seq<Indexed>, hlcs: map<string, string>, outcome: Outcome)
    requires |decisions| == |eligible|
    ensures Selecting(decisions, eligible, hlcs, outcome, 0, [], outcome, [], [], [])
  {
    NothingNoted(outcome);
    NoWinners(hlcs);
    NothingPlaced(decisions, eligible, hlcs);
    assert eligible[..0] == [];
  }

  /** How decision `k` changes the winners, by the running comparison. */
  lemma WinnersNow(
      decisions: seq<ColumnDecision>, eligible: seq<Indexed>, hlcs: map<string, string>, k: nat, staged: seq<Cand>)
    requires k < |decisions| == |eligible| && staged == Winners(Accepted(decisions, eligible, k), hlcs)
    ensures DistinctColumns(staged)
    ensures decisions[k].SkipColumn? ==> Winners(Accepted(decisions, eligible, k + 1), hlcs) == staged
    ensures decisions[k].Accept? ==>
              Winners(Accepted(decisions, eligible, k + 1), hlcs) ==
              if IsComplete(eligible[k].change.hlc)
                 && Rank(eligible[k].change.hlc) > Rank(RunningHlc(staged, hlcs, eligible[k].change.column))
              then DropColumn(staged, eligible[k].change.column) + [CandAt(decisions, eligible, k)]
              else staged
  {
    hide Wins, Winners, Rank, IsComplete, DropColumn, RunningHlc;
    var cands := Accepted(decisions, eligible, k);
    DistinctWinners(cands, hlcs);
    if decisions[k].Accept? {
      RunningDecides(cands, hlcs, CandAt(decisions, eligible, k));
      WinnersStep(cands, hlcs, CandAt(decisions, eligible, k));
    } else {
      assert cands + [] == cands;
    }
  }

  /** A decision that is turned down is noted; nothing else changes. */
  lemma SelectLoser(
      decisions: seq<ColumnDecision>, eligible: seq<Indexed>, hlcs: map<string, string>, outcome: Outcome, k: nat,
      staged: seq<Cand>, outcome': Outcome, notes: seq<Skipped>, kept: seq<nat>, at: seq<nat>, s: Skipped)
    requires Selecting(decisions, eligible, hlcs, outcome, k, staged, outcome', notes, kept, at) && k < |decisions|
    requires decisions[k].SkipColumn? || !IsComplete(eligible[k].change.hlc)
             || Rank(eligible[k].change.hlc) <= Rank(RunningHlc(staged, hlcs, eligible[k].change.column))
    requires s.index == eligible[k].index
    requires s.reason == if decisions[k].SkipColumn? then PolicySkip
                         else if Position(staged, eligible[k].change.column) < |staged| then SupersededInBatch else Stale
    ensures Selecting(decisions, eligible, hlcs, outcome, k + 1, staged, Note(outcome', s), notes + [s], kept, at + [k])
  {
    hide Winners, Accepted, Rank, IsComplete, DropColumn, RunningHlc, Note, NoteAll, Split, Placed, LossReason;
    WinnersNow(decisions, eligible, hlcs, k, staged);
    PlaceNext(decisions, eligible, hlcs, k, staged, kept, notes, at);
    NoteAllAppend(outcome, notes, s);
    SplitSkips(notes, staged, eligible, k, s);
  }

  /** A decision that wins is staged; one it beats is noted and gives up its place. */
  lemma SelectWinner(
      decisions: seq<ColumnDecision>, eligible: seq<Indexed>, hlcs: map<string, string>, outcome: Outcome, k: nat,
      staged: seq<Cand>, outcome': Outcome, notes: seq<Skipped>, kept: seq<nat>, at: seq<nat>, p: nat)
    requires Selecting(decisions, eligible, hlcs, outcome, k, staged, outcome', notes, kept, at)
    requires k < |decisions| && decisions[k].Accept? && IsComplete(eligible[k].change.hlc)
    requires Rank(eligible[k].change.hlc) > Rank(RunningHlc(staged, hlcs, eligible[k].change.column))
    requires p == Position(staged, eligible[k].change.column)
    ensures p == |staged| ==>
              Selecting(decisions, eligible, hlcs, outcome, k + 1, staged + [CandAt(decisions, eligible, k)], outcome', notes,
                        kept + [k], at)
    ensures p < |staged| ==>
              var s := Skipped(staged[p].index, SupersededInBatch);
              p < |kept| && Selecting(decisions, eligible, hlcs, outcome, k + 1, staged[..p] + staged[p + 1..] + [CandAt(decisions, eligible, k)],
                        Note(outcome', s), notes + [s], kept[..p] + kept[p + 1..] + [k], at + [kept[p]])
  {
    hide Winners, Accepted, Rank, IsComplete, DropColumn, RunningHlc, Note, NoteAll, Split, Placed;
    WinnersNow(decisions, eligible, hlcs, k, staged);
    KeptLength(decisions, eligible, hlcs, k, staged, kept, notes, at);
    PlaceWinner(decisions, eligible, hlcs, k, staged, kept, notes, at, p);
    var cand := CandAt(decisions, eligible, k);
    if p < |staged| {
      var s := Skipped(staged[p].index, SupersededInBatch);
      DropOnly(staged, p);
      SplitEvicts(notes, staged, eligible[..k], p, s);
      NoteAllAppend(outcome, notes, s);
      SplitStages(notes + [s], staged[..p] + staged[p + 1..], eligible, k, cand);
    } else {
      DropAbsent(staged, eligible[k].change.column);
      SplitStages(notes, staged, eligible, k, cand);
    }
  }

  lemma KeptLength(
      decisions: seq<ColumnDecision>, eligible: seq<Indexed>, hlcs: map<string, string>, n: nat,
      staged: seq<Cand>, kept: seq<nat>, notes: seq<Skipped>, at: seq<nat>)
    requires Placed(decisions, eligible, hlcs, n, staged, kept, notes, at)
    ensures |kept| == |staged|
  {
  }

  /**
   * The in-place stage/evict loop. It returns exactly the winners of the
   * accepted candidates; every decision is staged or skipped exactly once,
   * and each skip is recorded for its own reason.
   */
  method SelectStagedColumns(
      decisions: seq<ColumnDecision>, eligible: seq<Indexed>, hlcs: map<string, string>, outcome: Outcome)
    returns (ok: bool, staged: seq<Cand>, outcome': Outcome, ghost notes: seq<Skipped>, ghost kept: seq<nat>, ghost at: seq<nat>)
    ensures ok <==> |decisions| == |eligible|
    ensures !ok ==> outcome' == outcome
    ensures ok ==> staged == Winners(Accepted(decisions, eligible, |eligible|), hlcs)
    ensures ok ==> Split(notes, staged, eligible)
    ensures ok ==> Placed(decisions, eligible, hlcs, |eligible|, staged, kept, notes, at)
    ensures ok ==> outcome' == NoteAll(outcome, notes)
  {
    hide Winners, Accepted, Rank, IsComplete, RunningHlc, Note, NoteAll, Split, Placed;
    ok, staged, outcome', notes, kept, at := |decisions| == |eligible|, [], outcome, [], [], [];
    if !ok {
      return;
    }
    SelectNothing(decisions, eligible, hlcs, outcome);
    for k := 0 to |decisions|
      invariant Selecting(decisions, eligible, hlcs, outcome, k, staged, outcome', notes, kept, at)
    {
      var index, change := eligible[k].index, eligible[k].change;
      if decisions[k].SkipColumn? {
        var refused := Skipped(index, PolicySkip);
        SelectLoser(decisions, eligible, hlcs, outcome, k, staged, outcome', notes, kept, at, refused);
        outcome', notes, at := Note(outcome', refused), notes + [refused], at + [k];
        continue;
      }
      var cand := Cand(index, change, decisions[k].value, decisions[k].signature);
      var pos := Position(staged, change.column);
      if !IsComplete(change.hlc) || !Newer(change.hlc, RunningHlc(staged, hlcs, change.column)) {
        var loss := Skipped(index, if pos < |staged| then SupersededInBatch else Stale);
        SelectLoser(decisions, eligible, hlcs, outcome, k, staged, outcome', notes, kept, at, loss);
        outcome', notes, at := Note(outcome', loss), notes + [loss], at + [k];
        continue;
      }
      SelectWinner(decisions, eligible, hlcs, outcome, k, staged, outcome', notes, kept, at, pos);
      if pos < |staged| {
        var evicted := Skipped(staged[pos].index, SupersededInBatch);
        outcome', notes := Note(outcome', evicted), notes + [evicted];
        staged := staged[..pos] + staged[pos + 1..];
        kept, at := kept[..pos] + kept[pos + 1..], at + [kept[pos]];
      }
      staged, kept := staged + [cand], kept + [k];
    }
    assert eligible[..|eligible|] == eligible;
  }

  lemma NothingPlaced(decisions: seq<ColumnDecision>, eligible: seq<Indexed>, hlcs: map<string, string>)
    requires |decisions| == |eligible|
    ensures Placed(decisions, eligible, hlcs, 0, [], [], [], [])
  {
  }

  lemma NoWinners(hlcs: map<string, string>)
    ensures Winners([], hlcs) == [] && Split([], [], [])
  {
  }

  lemma DistinctWinners(cands: seq<Cand>, hlcs: map<string, string>)
    ensures DistinctColumns(Winners(cands, hlcs))
  {
    WinnerColumnsDiffer(cands, hlcs, |cands|);
  }
}
