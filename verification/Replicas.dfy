/** A replica: its committed rows and its local clock. */
module Replicas {
  import opened Common
  import opened Hlc
  import opened Model
  import opened Reporting
  import opened Selection
  import opened RowMerge
  import opened Policy
  import opened Engine
  import opened Clock
  import opened Preflight
  import opened ApplyBatch
  import opened Obedience

  datatype ApplyResult =
    | Refused
    | RolledBack
    | Applied(outcome: Outcome)
    | PostCommitClockAdvance(outcome: Outcome)
  {
    /** The batch is committed, whether or not the clock could follow. */
    predicate Lands() {
      Applied? || PostCommitClockAdvance?
    }
  }

  class Replica {
    var rows: Rows
    const clock: HlcService

    constructor (clock: HlcService)
      ensures rows == map[] && this.clock == clock
    {
      rows := map[];
      this.clock := clock;
    }

    /**
     * One call: preflight, one transaction, then the clock. `now` is the
     * physical time at preflight, `later` at the clock advance.
     */
    method ApplyRemoteChanges(env: Env, cb: Callbacks, changes: seq<Change>, now: nat, later: nat)
      returns (result: ApplyResult, ghost groups: seq<seq<Indexed>>, ghost ids: set<string>, ghost written: seq<Cand>)
      modifies this, clock
      ensures result.Refused? <==> !cb.preflightOk || exists c :: c in changes && !Acceptable(env, c, now)
      ensures Plain(env, cb) && !result.Refused? ==> (result.Lands() <==> LogReadable(old(rows)) && Decodable(env, changes))
      ensures !result.Lands() ==> rows == old(rows) && clock.last == old(clock.last)
      ensures result.Lands() ==> exists max :: Account(changes, result.outcome, max, written)
      ensures result.Applied? ==> forall w | w in written :: Time(w.change.hlc) <= clock.last
      ensures result.Applied? && written == [] ==> clock.last == old(clock.last)
      ensures clock.last >= old(clock.last)
      ensures result.PostCommitClockAdvance? <==>
                result.Lands() && exists w :: w in written && !clock.Tolerates(w.change.hlc, later)
      ensures forall slack: nat |
                AcceptsWithin(env, slack) && Masked(env.counterUnit, now) + slack <= Masked(clock.counterUnit, later) ::
                !result.PostCommitClockAdvance?
      ensures Plain(env, cb) && result.Lands() ==> PlainEffect(env, changes, old(rows), groups, ids, written, rows)
      ensures NonEmpty(groups) && (!result.Refused? && cb.beginOk ==> Arranged(changes, groups))
      ensures result.Lands() <==>
                !result.Refused? && cb.beginOk && cb.beforeCommitOk && LogReadable(old(rows))
                && RunUpTo(env, cb, old(rows), groups, |groups|).Some?
      ensures result.Lands() ==> Effect(env, cb, changes, old(rows), groups, ids, result.outcome, written, rows)
      ensures result.Lands() ==> Obeyed(env, cb, old(rows), groups, ids, rows)
    {
      hide Plain, PlainEffect, Account, Acceptable, IsTimestamp, Time, LogReadable, Decodable, AcceptsWithin, Masked, Rank,
           Effect, Obeyed, Arranged, RunUpTo;
      var batch, rows', max;
      batch, rows', max, groups, ids, written := ApplyToRows(env, cb, changes, now, rows);
      if batch.Refused? {
        return ApplyResult.Refused, groups, ids, written;
      }
      if batch.RolledBack? {
        return ApplyResult.RolledBack, groups, ids, written;
      }
      BatchObeys(env, cb, changes, rows, groups, ids, batch.outcome, written, rows');
      rows := rows';
      result := Applied(batch.outcome);
      MaxCoversWrites(changes, batch.outcome, max, written);
      if max.Some? {
        TimestampsOutrankTheEmpty(max.value);
        EmptyRank();
        MaxDecidesDrift(clock, max.value, written, later);
        DriftWasChecked(env, clock, changes, max.value, now, later);
        var advance := clock.AdvancePastRemote(max.value, later);
        if advance != Advanced {
          result := PostCommitClockAdvance(batch.outcome);
        }
      }
    }
  }

  lemma {:induction false} FoldMaxCovers(written: seq<Cand>)
    ensures FoldMax(None, written).Some? <==> written != []
    ensures forall w | w in written :: Rank(w.change.hlc) <= Rank(FoldMax(None, written).value)
    ensures written != [] ==> exists w :: w in written && w.change.hlc == FoldMax(None, written).value
  {
    hide Rank, Newer;
    if written != [] {
      var front, last := written[..|written| - 1], written[|written| - 1];
      FoldMaxCovers(front);
      assert forall w :: w in written <==> w in front || w == last;
      assert last in written;
    }
  }

  lemma RankBoundsTime(a: string, b: string)
    requires Rank(a) <= Rank(b)
    ensures Time(a) <= Time(b)
  {
    hide Time, Node;
  }

  lemma MaxCoversWrites(changes: seq<Change>, outcome: Outcome, max: Option<string>, written: seq<Cand>)
    requires Account(changes, outcome, max, written)
    ensures max.Some? <==> written != []
    ensures max.Some? ==> IsTimestamp(max.value) && forall w | w in written :: Time(w.change.hlc) <= Time(max.value)
    ensures max.Some? ==> exists c :: c in changes && c.hlc == max.value
    ensures max.Some? ==> exists w :: w in written && w.change.hlc == max.value
  {
    hide IsTimestamp, Rank, FoldMax, Accounted;
    FoldMaxCovers(written);
    forall w | w in written
      ensures max.Some? && Time(w.change.hlc) <= Time(max.value)
    {
      RankBoundsTime(w.change.hlc, max.value);
    }
    if max.Some? {
      var w :| w in written && w.change.hlc == max.value;
      assert changes[w.index] in changes;
    }
  }

  lemma MaxDecidesDrift(clock: HlcService, max: string, written: seq<Cand>, later: nat)
    requires exists w :: w in written && w.change.hlc == max
    requires forall w | w in written :: Time(w.change.hlc) <= Time(max)
    ensures clock.Tolerates(max, later) <==> forall w | w in written :: clock.Tolerates(w.change.hlc, later)
  {
    hide Time, Masked;
  }

  lemma DriftWasChecked(env: Env, clock: HlcService, changes: seq<Change>, hlc: string, now: nat, later: nat)
    requires forall c | c in changes :: Acceptable(env, c, now)
    requires IsTimestamp(hlc) && exists c :: c in changes && c.hlc == hlc
    ensures forall slack: nat |
              AcceptsWithin(env, slack) && Masked(env.counterUnit, now) + slack <= Masked(clock.counterUnit, later) ::
              clock.Tolerates(hlc, later)
  {
    hide IsTimestamp, Time, Masked, SafeIdentifier;
  }

  /** Within one open: whatever a call wrote, the next local timestamp is strictly newer. */
  method ApplyThenWrite(r: Replica, env: Env, cb: Callbacks, changes: seq<Change>, now: nat, later: nat, reading: nat)
    returns (result: ApplyResult, t: Timestamp, ghost written: seq<Cand>)
    modifies r, r.clock
    ensures result.Applied? ==> forall w | w in written :: StampRank(t) > Rank(w.change.hlc)
    ensures result.Applied? ==> exists max :: Account(changes, result.outcome, max, written)
  {
    hide Account, PlainEffect, Plain, Rank, Time, StampRank, Effect, Obeyed, Arranged, RunUpTo;
    ghost var groups, ids;
    result, groups, ids, written := r.ApplyRemoteChanges(env, cb, changes, now, later);
    ghost var before := r.clock.last;
    t := r.clock.NewTimestamp(reading);
    if result.Applied? {
      forall w | w in written
        ensures StampRank(t) > Rank(w.change.hlc)
      {
        NextTimestampDominates(w.change.hlc, before, t);
      }
    }
  }
}
