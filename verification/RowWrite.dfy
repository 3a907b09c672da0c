/** What a row looks like after its winners are written, and the two writers. */
module RowWrite {
  import opened Common
  import opened Hlc
  import opened Values
  import opened Model
  import opened Selection

  function PutValues(m: map<string, SqlValue>, staged: seq<Cand>): map<string, SqlValue> {
    if staged == [] then m
    else
      var s := staged[|staged| - 1];
      PutValues(m, staged[..|staged| - 1])[s.change.column := s.value]
  }

  function PutHlcs(m: map<string, string>, staged: seq<Cand>): map<string, string> {
    if staged == [] then m
    else
      var s := staged[|staged| - 1];
      PutHlcs(m, staged[..|staged| - 1])[s.change.column := s.change.hlc]
  }

  function PutSig(m: map<string, Json>, s: Cand): map<string, Json> {
    match s.signature
    case Keep => m
    case Replace(Some(sig)) => m[s.change.column := sig]
    case Replace(None) => m - {s.change.column}
  }

  function PutSigs(m: map<string, Json>, staged: seq<Cand>): map<string, Json> {
    if staged == [] then m else PutSig(PutSigs(m, staged[..|staged| - 1]), staged[|staged| - 1])
  }

  predicate Stages(staged: seq<Cand>, column: string) {
    exists i :: 0 <= i < |staged| && staged[i].change.column == column
  }

  function SigAfter(m: map<string, Json>, s: Cand): Option<Json> {
    match s.signature
    case Keep => if s.change.column in m then Some(m[s.change.column]) else None
    case Replace(sig) => sig
  }

  function CellOf<V>(m: map<string, V>, column: string): Option<V> {
    if column in m then Some(m[column]) else None
  }

  /** A staged column holds its winner's value and HLC, every other column keeps what it had. */
  lemma {:induction false} PutCells(values: map<string, SqlValue>, hlcs: map<string, string>, staged: seq<Cand>)
    requires DistinctColumns(staged)
    ensures forall i | 0 <= i < |staged| ::
              CellOf(PutValues(values, staged), staged[i].change.column) == Some(staged[i].value)
              && CellOf(PutHlcs(hlcs, staged), staged[i].change.column) == Some(staged[i].change.hlc)
    ensures forall column | !Stages(staged, column) ::
              CellOf(PutValues(values, staged), column) == CellOf(values, column)
              && CellOf(PutHlcs(hlcs, staged), column) == CellOf(hlcs, column)
  {
    if staged != [] {
      var front := staged[..|staged| - 1];
      PutCells(values, hlcs, front);
      assert forall column | Stages(front, column) :: Stages(staged, column);
    }
  }

  /** The same for the signature map, column by column. */
  lemma {:induction false} PutSigCells(sigs: map<string, Json>, staged: seq<Cand>)
    requires DistinctColumns(staged)
    ensures forall i | 0 <= i < |staged| ::
              CellOf(PutSigs(sigs, staged), staged[i].change.column) == SigAfter(sigs, staged[i])
    ensures forall column | !Stages(staged, column) :: CellOf(PutSigs(sigs, staged), column) == CellOf(sigs, column)
  {
    if staged != [] {
      var front := staged[..|staged| - 1];
      PutSigCells(sigs, front);
      assert forall column | Stages(front, column) :: Stages(staged, column);
      assert !Stages(front, staged[|staged| - 1].change.column);
    }
  }

  /** The newest staged HLC; among equals the last, as the iterator maximum returns. */
  function MaxHlc(staged: seq<Cand>): (h: string)
    requires staged != []
  {
    var last := staged[|staged| - 1].change.hlc;
    if |staged| == 1 then last
    else
      var earlier := MaxHlc(staged[..|staged| - 1]);
      if Newer(earlier, last) then earlier else last
  }

  lemma {:induction false} MaxHlcIsMaximal(staged: seq<Cand>) returns (at: nat)
    requires staged != []
    ensures at < |staged| && staged[at].change.hlc == MaxHlc(staged)
    ensures forall i | 0 <= i < |staged| :: Rank(staged[i].change.hlc) <= Rank(MaxHlc(staged))
    ensures forall i | at < i < |staged| :: Rank(staged[i].change.hlc) < Rank(MaxHlc(staged))
  {
    hide Rank, Newer;
    var front, last := staged[..|staged| - 1], staged[|staged| - 1].change.hlc;
    at := |front|;
    if front != [] {
      var best := MaxHlcIsMaximal(front);
      forall i | 0 <= i < |front|
        ensures Rank(staged[i].change.hlc) <= Rank(MaxHlc(front))
        ensures best < i ==> Rank(staged[i].change.hlc) < Rank(MaxHlc(front))
      {
        assert staged[i] == front[i];
      }
      assert staged[best] == front[best];
      if Newer(MaxHlc(front), last) {
        at := best;
      }
    }
  }

  const EMPTY_ROW := Row(None, map[], map[], map[])

  /** The row HLC after a write: the newest staged HLC unless the row was already newer. */
  function RowHlcAfter(prior: Option<Row>, staged: seq<Cand>): string
    requires staged != []
  {
    var newest := MaxHlc(staged);
    if prior.Some? && Newer(prior.value.hlc.GetOr(""), newest) then prior.value.hlc.GetOr("") else newest
  }

  function MergedRow(prior: Option<Row>, staged: seq<Cand>, hasSigs: bool): Row
    requires staged != []
  {
    var base := prior.GetOr(EMPTY_ROW);
    Row(
      Some(RowHlcAfter(prior, staged)),
      PutValues(base.values, staged),
      PutHlcs(base.hlcs, staged),
      if hasSigs then PutSigs(base.sigs, staged) else base.sigs)
  }

  /** Without a replacement the signature map stays as it is, so skipping the rewrite is sound. */
  lemma {:induction false} KeepsLeaveSigs(m: map<string, Json>, staged: seq<Cand>)
    requires forall s | s in staged :: s.signature.Keep?
    ensures PutSigs(m, staged) == m
  {
    if staged != [] {
      KeepsLeaveSigs(m, staged[..|staged| - 1]);
    }
  }

  method BuildSigsForInsert(staged: seq<Cand>) returns (sigs: map<string, Json>)
    requires DistinctColumns(staged)
    ensures sigs == PutSigs(map[], staged)
  {
    sigs := map[];
    for i := 0 to |staged|
      invariant sigs == PutSigs(map[], staged[..i])
      invariant forall column | column in sigs :: Stages(staged[..i], column)
    {
      assert staged[..i + 1][..i] == staged[..i];
      assert forall column | Stages(staged[..i], column) :: Stages(staged[..i + 1], column);
      assert !Stages(staged[..i], staged[i].change.column);
      match staged[i].signature
      case Replace(Some(sig)) =>
        sigs := sigs[staged[i].change.column := sig];
        assert staged[..i + 1][i].change.column == staged[i].change.column;
      case _ =>
    }
    assert staged[..|staged|] == staged;
  }

  method MergeSigs(existing: map<string, Json>, staged: seq<Cand>) returns (sigs: map<string, Json>)
    ensures sigs == PutSigs(existing, staged)
  {
    sigs := existing;
    for i := 0 to |staged|
      invariant sigs == PutSigs(existing, staged[..i])
    {
      assert staged[..i + 1][..i] == staged[..i];
      match staged[i].signature
      case Replace(Some(sig)) => sigs := sigs[staged[i].change.column := sig];
      case Replace(None) => sigs := sigs - {staged[i].change.column};
      case Keep =>
    }
    assert staged[..|staged|] == staged;
  }

  /** The INSERT writer: staged columns, then the row's own metadata. */
  method WriteInsert(staged: seq<Cand>, hlcs: map<string, string>, rowHlc: string, hasSigs: bool) returns (row: Row)
    requires DistinctColumns(staged)
    ensures row == Row(Some(rowHlc), PutValues(map[], staged), hlcs, if hasSigs then PutSigs(map[], staged) else map[])
  {
    var values: map<string, SqlValue> := map[];
    for i := 0 to |staged|
      invariant values == PutValues(map[], staged[..i])
    {
      assert staged[..i + 1][..i] == staged[..i];
      values := values[staged[i].change.column := staged[i].value];
    }
    assert staged[..|staged|] == staged;
    var sigs := map[];
    if hasSigs {
      sigs := BuildSigsForInsert(staged);
    }
    row := Row(Some(rowHlc), values, hlcs, sigs);
  }

  /** The UPDATE writer: it leaves the signature map alone unless a winner replaces its entry. */
  method WriteUpdate(prior: Row, staged: seq<Cand>, hlcs: map<string, string>, rowHlc: string, hasSigs: bool)
    returns (row: Row)
    ensures row == Row(Some(rowHlc), PutValues(prior.values, staged), hlcs,
                       if hasSigs then PutSigs(prior.sigs, staged) else prior.sigs)
  {
    var values := prior.values;
    for i := 0 to |staged|
      invariant values == PutValues(prior.values, staged[..i])
    {
      assert staged[..i + 1][..i] == staged[..i];
      values := values[staged[i].change.column := staged[i].value];
    }
    assert staged[..|staged|] == staged;
    var sigs := prior.sigs;
    if hasSigs && exists s | s in staged :: s.signature.Replace? {
      sigs := MergeSigs(prior.sigs, staged);
    } else if hasSigs {
      KeepsLeaveSigs(prior.sigs, staged);
    }
    row := Row(Some(rowHlc), values, hlcs, sigs);
  }

  method InsertHlcs(hlcs: map<string, string>, staged: seq<Cand>) returns (after: map<string, string>)
    ensures after == PutHlcs(hlcs, staged)
  {
    after := hlcs;
    for i := 0 to |staged|
      invariant after == PutHlcs(hlcs, staged[..i])
    {
      assert staged[..i + 1][..i] == staged[..i];
      after := after[staged[i].change.column := staged[i].change.hlc];
    }
    assert staged[..|staged|] == staged;
  }
}
