/** The structural preflight: every check that can refuse a batch before it writes. */
module Preflight {
  import opened Common
  import opened Hlc
  import opened Model
  import opened Clock

  datatype Refusal = UnsafeTable(index: nat) | UnsafeColumn(index: nat) | InvalidHlc(index: nat) | DriftTooLarge(index: nat)

  /** How far an HLC lies beyond the local clock's masked reading; undefined for what is no timestamp. */
  function RemoteDrift(env: Env, hlc: string, now: nat): Option<nat> {
    var local := Masked(env.counterUnit, now);
    if IsTimestamp(hlc) && Time(hlc) > local then Some(Time(hlc) - local) else None
  }

  predicate Acceptable(env: Env, c: Change, now: nat) {
    && SafeIdentifier(env, c.table)
    && SafeIdentifier(env, c.column)
    && (IsComplete(c.hlc) ==> IsTimestamp(c.hlc))
    && (RemoteDrift(env, c.hlc, now).Some? ==> env.withinTolerance(RemoteDrift(env, c.hlc, now).value))
  }

  /**
   * The preflight compares durations where the clock compares its own units;
   * a difference the one accepts exceeds what the other does by at most `slack`.
   */
  ghost predicate AcceptsWithin(env: Env, slack: nat) {
    forall ticks: nat | env.withinTolerance(ticks) :: ticks <= MAX_REMOTE_HLC_DRIFT + slack
  }

  /** The first unacceptable change refuses the batch; otherwise every change is acceptable. */
  method CheckIdentifiersAndDrift(env: Env, changes: seq<Change>, now: nat) returns (refusal: Option<Refusal>)
    ensures refusal.None? <==> forall c | c in changes :: Acceptable(env, c, now)
    ensures refusal.Some? ==> refusal.value.index < |changes| && !Acceptable(env, changes[refusal.value.index], now)
                              && forall c | c in changes[..refusal.value.index] :: Acceptable(env, c, now)
  {
    hide IsTimestamp, SafeIdentifier, Time, IsComplete, Masked;
    for i := 0 to |changes|
      invariant forall c | c in changes[..i] :: Acceptable(env, c, now)
    {
      var change := changes[i];
      assert change in changes;
      if !SafeIdentifier(env, change.table) {
        return Some(UnsafeTable(i));
      }
      if !SafeIdentifier(env, change.column) {
        return Some(UnsafeColumn(i));
      }
      if IsComplete(change.hlc) && !IsTimestamp(change.hlc) {
        return Some(InvalidHlc(i));
      }
      var drift := RemoteDrift(env, change.hlc, now);
      if drift.Some? && !env.withinTolerance(drift.value) {
        return Some(DriftTooLarge(i));
      }
      assert changes[..i + 1] == changes[..i] + [change];
    }
    return None;
  }
}
