/** The closed form of one blinker: where it stands any number of ticks after it was added. */
module BlinkTiming {
  import opened Machine
  import opened BlinkSpec

  /** How many ticks a length word really lasts: a length whose first decrement is not positive
      as a signed word expires at once. */
  function Effective(length: uint16): (e: nat)
    ensures 1 <= e <= 0x8000
  {
    if 1 <= length <= 0x8000 then length else 1
  }

  ghost function Ticks(n: Slot, t: nat): Slot {
    if t == 0 then n else TickSlot(Ticks(n, t - 1))
  }

  function Period(n: Slot): (p: nat)
    ensures p >= 2
  {
    Effective(n.onLength) + Effective(n.offLength)
  }

  /** The node `m` ticks into its period: on for the on-time, then off for the off-time. */
  function AtPhase(n: Slot, m: nat): Slot
    requires m < Period(n)
  {
    var on := Effective(n.onLength);
    n.(status := if m < on then 1 else 0,
       countdown := if m == 0 then n.onLength
                    else if m < on then on - m
                    else if m == on then n.offLength
                    else Period(n) - m)
  }

  lemma PhaseStep(n: Slot, m: nat)
    requires m < Period(n)
    ensures TickSlot(AtPhase(n, m)) == AtPhase(n, if m + 1 == Period(n) then 0 else m + 1)
  {
  }

  lemma NextPhase(t: nat, p: nat)
    requires p > 0
    ensures (t + 1) % p == if t % p + 1 == p then 0 else t % p + 1
  {
    var q, m := t / p, t % p;
    assert t == q * p + m;
    if m + 1 == p {
      assert t + 1 == q * p + p == (q + 1) * p + 0;
      Division(q + 1, 0, p);
    } else {
      assert t + 1 == q * p + (m + 1);
      Division(q, m + 1, p);
    }
  }

  ghost function Phase(n: Slot, t: nat): (m: nat)
    ensures m < Period(n)
  {
    t % Period(n)
  }

  lemma PhaseAfter(n: Slot, t: nat)
    ensures Phase(n, 0) == 0
    ensures Phase(n, t + 1) == if Phase(n, t) + 1 == Period(n) then 0 else Phase(n, t) + 1
  {
    NextPhase(t, Period(n));
  }

  /** For every tick count and all lengths: `t` ticks after it started, a blinker is where `t`
      modulo its period puts it. */
  lemma {:induction false} ClosedForm(b: Slot, next: nat, t: nat)
    ensures var n := Started(b, next); Ticks(n, t) == AtPhase(n, Phase(n, t))
  {
    hide Phase, Period, TickSlot;
    var n := Started(b, next);
    if t == 0 {
      PhaseAfter(n, 0);
    } else {
      ClosedForm(b, next, t - 1);
      PhaseAfter(n, t - 1);
      PhaseStep(n, Phase(n, t - 1));
    }
  }

  ghost predicate OnAt(b: Slot, t: nat) {
    Ticks(Started(b, 0), t).status == 1
  }

  lemma OnByPhase(b: Slot, t: nat)
    ensures OnAt(b, t) <==> t % (Effective(b.onLength) + Effective(b.offLength)) < Effective(b.onLength)
  {
    ClosedForm(b, 0, t);
  }

  lemma OnWithinPeriod(b: Slot, t: nat)
    requires t <= Effective(b.onLength) + Effective(b.offLength)
    ensures OnAt(b, t) <==> t < Effective(b.onLength) || t == Effective(b.onLength) + Effective(b.offLength)
  {
    hide OnAt, Effective;
    OnByPhase(b, t);
    var p := Effective(b.onLength) + Effective(b.offLength);
    if t < p {
      Division(0, t, p);
    } else {
      Division(1, 0, p);
    }
  }

  /** With lengths in 1..0x8000 a blinker is on for exactly the first onLength ticks of every
      onLength + offLength. */
  lemma OnForOnLength(b: Slot, t: nat)
    requires 1 <= b.onLength <= 0x8000 && 1 <= b.offLength <= 0x8000
    ensures OnAt(b, t) <==> t % (b.onLength + b.offLength) < b.onLength
  {
    hide OnAt;
    OnByPhase(b, t);
  }

  /** Through the first period the blinker is on for onLength ticks, off for offLength, then on again. */
  ghost predicate FirstPeriodAsSaid(b: Slot) {
    && b.onLength > 0
    && forall t: nat :: t <= b.onLength + b.offLength ==>
         (OnAt(b, t) <==> t < b.onLength || t == b.onLength + b.offLength)
  }

  /** The lengths mean what they say if and only if both lie in 1..0x8000. */
  lemma LengthsAreExactIff(b: Slot)
    ensures FirstPeriodAsSaid(b) <==> (1 <= b.onLength <= 0x8000 && 1 <= b.offLength <= 0x8000)
  {
    hide OnAt;
    var on, off := Effective(b.onLength), Effective(b.offLength);
    if on == b.onLength && off == b.offLength {
      forall t: nat | t <= b.onLength + b.offLength
        ensures OnAt(b, t) <==> t < b.onLength || t == b.onLength + b.offLength
      {
        OnWithinPeriod(b, t);
      }
    } else if on == b.onLength {
      OnWithinPeriod(b, on);
      OnWithinPeriod(b, on + off);
      assert !OnAt(b, on) && OnAt(b, on + 1);
    } else {
      OnWithinPeriod(b, 1);
      assert !OnAt(b, 1);
    }
  }

  /** Lengths for which they do not: on for 0x8001 ticks, and on for none. */
  lemma LengthsFail(b: Slot)
    ensures !FirstPeriodAsSaid(b.(onLength := 0x8001)) && !FirstPeriodAsSaid(b.(onLength := 0))
  {
    LengthsAreExactIff(b.(onLength := 0x8001));
    LengthsAreExactIff(b.(onLength := 0));
  }
}
