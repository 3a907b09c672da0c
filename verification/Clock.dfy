/** The local hybrid logical clock, as far as its contract goes. */
module Clock {
  import opened Hlc

  /** Twelve hours, in the clock's 2^-32 second units. */
  const MAX_REMOTE_HLC_DRIFT: nat := 12 * 60 * 60 * 0x1_0000_0000

  /** A timestamp the local clock issued. */
  datatype Timestamp = Timestamp(time: nat, node: nat)

  function StampRank(t: Timestamp): nat {
    t.time * TWO_POW_128 + t.node
  }

  /** A physical reading without the low bits the clock uses as its counter, which number `unit` values. */
  function Masked(unit: nat, reading: nat): (m: nat)
    ensures m <= reading
  {
    if unit == 0 then reading else reading - reading % unit
  }

  /** Masking rounds down to a multiple of the unit. */
  lemma MaskedMeans(unit: nat, reading: nat) returns (q: nat)
    requires unit > 0
    ensures Masked(unit, reading) == q * unit && q * unit <= reading < q * unit + unit
  {
    q := reading / unit;
  }

  datatype Advance = Advanced | Unparseable | OutOfTolerance

  /** The clock only moves forward. */
  class HlcService {
    var last: nat
    const node: nat
    const counterUnit: nat

    constructor (node: nat, counterUnit: nat)
      ensures last == 0 && this.node == node && this.counterUnit == counterUnit
    {
      last := 0;
      this.node, this.counterUnit := node, counterUnit;
    }

    /** Draw a timestamp at physical time `reading`. */
    method NewTimestamp(reading: nat) returns (t: Timestamp)
      modifies this
      ensures t == Timestamp(last, node) && last > old(last)
    {
      last := if reading > last then reading else last + 1;
      t := Timestamp(last, node);
    }

    /** The clock's own drift test, in its own units. */
    predicate Tolerates(hlc: string, reading: nat) {
      Time(hlc) <= Masked(counterUnit, reading) + MAX_REMOTE_HLC_DRIFT
    }

    /** Move past a received timestamp unless it is too far ahead of `reading`. */
    method AdvancePastRemote(hlc: string, reading: nat) returns (r: Advance)
      modifies this
      ensures hlc == "" ==> r == Advanced && last == old(last)
      ensures hlc != "" && !IsTimestamp(hlc) ==> r == Unparseable
      ensures IsTimestamp(hlc) ==> r == if Tolerates(hlc, reading) then Advanced else OutOfTolerance
      ensures if r == Advanced && hlc != "" then last >= old(last) && last >= Time(hlc) else last == old(last)
    {
      hide Time;
      if hlc == "" {
        return Advanced;
      }
      if !IsTimestamp(hlc) {
        return Unparseable;
      }
      if Time(hlc) > Masked(counterUnit, reading) + MAX_REMOTE_HLC_DRIFT {
        return OutOfTolerance;
      }
      last := if Time(hlc) > last then Time(hlc) else last;
      r := Advanced;
    }
  }

  /** A later local timestamp is strictly newer than anything whose time the clock has covered. */
  lemma NextTimestampDominates(hlc: string, before: nat, t: Timestamp)
    requires Time(hlc) <= before < t.time
    ensures StampRank(t) > Rank(hlc)
  {
    hide Time, Node;
    assert Node(hlc) < TWO_POW_128;
  }
}
