/** Reconnect delays and wrapping 32-bit deadlines of the WiFi client. */
module WiFiBackoff {
  import opened Bytes

  const WRAP := 0x1_0000_0000
  const HALF := 0x8000_0000

  datatype Policy = Policy(enabled: bool, maximumAttempts: uint32, initialDelay: uint32, maximumDelay: uint32,
                           multiplier: real, connectionTimeout: uint32)

  /** What configuration validation demands of a policy. */
  predicate ValidPolicy(p: Policy) {
    p.multiplier >= 1.0 && p.initialDelay <= p.maximumDelay
  }

  type SoundPolicy = p: Policy | ValidPolicy(p) witness Policy(false, 0, 0, 0, 1.0, 0)

  // ---- Delays ----

  function Power(base: real, exponent: nat): real {
    if exponent == 0 then 1.0 else base * Power(base, exponent - 1)
  }

  /** The delay before attempt `n`, not yet limited. */
  function Unlimited(p: Policy, n: uint32): real {
    if n > 1 then p.initialDelay as real * Power(p.multiplier, n - 1) else p.initialDelay as real
  }

  function Minimum(x: real, y: real): real { if y < x then y else x }

  function Delay(p: Policy, n: uint32): uint32
    requires ValidPolicy(p)
  {
    UnlimitedAtLeastInitial(p, n);
    Minimum(Unlimited(p, n), p.maximumDelay as real).Floor
  }

  lemma {:induction false} PowerGrows(base: real, less: nat, more: nat)
    requires base >= 1.0 && less <= more
    ensures 1.0 <= Power(base, less) <= Power(base, more)
    decreases more
  {
    if more > 0 {
      PowerGrows(base, if less == more then less - 1 else less, more - 1);
      Scale(Power(base, more - 1), 1.0, base);
      if less == more { assert Power(base, less) == base * Power(base, less - 1); }
    }
  }

  lemma Scale(x: real, a: real, b: real)
    requires 0.0 <= x && a <= b
    ensures a * x <= b * x && x * a <= x * b
  {
    assert 0.0 <= (b - a) * x == b * x - a * x;
  }

  lemma UnlimitedAtLeastInitial(p: Policy, n: uint32)
    requires ValidPolicy(p)
    ensures p.initialDelay as real <= Unlimited(p, n)
  {
    if n > 1 {
      PowerGrows(p.multiplier, 0, n - 1);
      var initial := p.initialDelay as real;
      Scale(initial, 1.0, Power(p.multiplier, n - 1));
      assert initial * 1.0 == initial;
      assert Unlimited(p, n) == initial * Power(p.multiplier, n - 1);
    }
  }

  lemma UnlimitedGrows(p: Policy, less: uint32, more: uint32)
    requires ValidPolicy(p) && less <= more
    ensures Unlimited(p, less) <= Unlimited(p, more)
  {
    if less <= 1 {
      UnlimitedAtLeastInitial(p, more);
    } else {
      PowerGrows(p.multiplier, less - 1, more - 1);
      Scale(p.initialDelay as real, Power(p.multiplier, less - 1), Power(p.multiplier, more - 1));
    }
  }

  /** Every delay lies between the initial and the maximum delay and none is shorter than an earlier one. */
  lemma DelaysGrowWithinBounds(p: Policy, less: uint32, more: uint32)
    requires ValidPolicy(p) && less <= more
    ensures p.initialDelay <= Delay(p, less) <= Delay(p, more) <= p.maximumDelay
    ensures Delay(p, 1) == p.initialDelay
  {
    UnlimitedAtLeastInitial(p, less);
    UnlimitedAtLeastInitial(p, more);
    UnlimitedGrows(p, less, more);
  }

  /** The delay before attempt `n` as a geometric progression: the initial delay, then each the multiplier times the one
      before. */
  function Geometric(p: Policy, n: uint32): real {
    if n <= 1 then p.initialDelay as real else Geometric(p, n - 1) * p.multiplier
  }

  lemma {:induction false} UnlimitedIsGeometric(p: Policy, n: uint32)
    ensures Unlimited(p, n) == Geometric(p, n)
  {
    if n > 1 {
      UnlimitedIsGeometric(p, n - 1);
      var (initial, power) := (p.initialDelay as real, Power(p.multiplier, n - 2));
      assert Power(p.multiplier, n - 1) == p.multiplier * power;
      assert n == 2 ==> power == 1.0;
      assert initial * (p.multiplier * power) == initial * power * p.multiplier;
    }
  }

  /** The delay is that progression, limited by the maximum delay and cut to whole milliseconds. */
  lemma DelayIsGeometric(p: Policy, n: uint32)
    requires ValidPolicy(p)
    ensures if Geometric(p, n) >= p.maximumDelay as real then Delay(p, n) == p.maximumDelay
            else Delay(p, n) as real <= Geometric(p, n) < (Delay(p, n) + 1) as real
  {
    UnlimitedIsGeometric(p, n);
    hide Geometric, Unlimited;
  }

  lemma {:induction false} PowerAboveLine(base: real, n: nat)
    requires base >= 1.0
    ensures 1.0 + n as real * (base - 1.0) <= Power(base, n)
  {
    if n > 0 {
      PowerAboveLine(base, n - 1);
      PowerGrows(base, 0, n - 1);
      Scale(base - 1.0, 1.0, Power(base, n - 1));
      assert Power(base, n) == Power(base, n - 1) + (base - 1.0) * Power(base, n - 1);
    }
  }

  lemma LineReaches(initial: real, steps: real, growth: real, power: real, maximum: real)
    requires 0.0 <= initial && initial * steps * growth >= maximum - initial && 1.0 + steps * growth <= power
    ensures initial * power >= maximum
  {
    var line := steps * growth;
    assert initial * line == initial * steps * growth;
    Scale(initial, 1.0 + line, power);
    assert initial * (1.0 + line) == initial + initial * line;
  }

  /** The straight line below the growing delays has reached the maximum delay. */
  predicate Saturated(p: Policy, n: uint32) {
    n > 1 &&
    p.initialDelay as real * (n - 1) as real * (p.multiplier - 1.0) >= p.maximumDelay as real - p.initialDelay as real
  }

  /** A growing backoff reaches the maximum: once initial * (n - 1) * (multiplier - 1) covers the distance from the
      initial to the maximum delay, every delay is the maximum delay. */
  lemma BackoffSaturates(p: Policy, n: uint32)
    requires ValidPolicy(p) && Saturated(p, n)
    ensures Delay(p, n) == p.maximumDelay
  {
    PowerAboveLine(p.multiplier, n - 1);
    SaturatedUnlimited(p, n);
  }

  lemma SaturatedUnlimited(p: Policy, n: uint32)
    requires ValidPolicy(p) && Saturated(p, n)
    requires 1.0 + (n - 1) as real * (p.multiplier - 1.0) <= Power(p.multiplier, n - 1)
    ensures Unlimited(p, n) >= p.maximumDelay as real
  {
    hide Power;
    LineReaches(p.initialDelay as real, (n - 1) as real, p.multiplier - 1.0, Power(p.multiplier, n - 1),
                p.maximumDelay as real);
  }

  // ---- Deadlines on a clock that wraps ----

  /** The wrapped difference read as a signed number is not negative. */
  predicate TimeReached(now: uint32, target: uint32) {
    (now - target) % WRAP < HALF
  }

  function Clock(time: nat): uint32 { time % WRAP }

  function Deadline(now: uint32, delay: uint32): uint32 { (now + delay) % WRAP }

  lemma WrappedDifference(time: int, target: int)
    requires 0 <= time && 0 <= target && -WRAP < time - target < WRAP
    ensures (time % WRAP - target % WRAP) % WRAP == if time < target then time - target + WRAP else time - target
  {
  }

  /** A deadline set at `start` is not reached before its time and is reached for 2^31 milliseconds from then on, across
      clock wrap, exactly when the delay is at most 2^31 milliseconds; a longer one counts as reached at once. */
  lemma DeadlineKeptIff(start: nat, delay: uint32)
    ensures var target := Deadline(Clock(start), delay);
            && (forall time: nat :: start + delay <= time < start + delay + HALF ==> TimeReached(Clock(time), target))
            && ((forall time: nat :: start <= time < start + delay ==> !TimeReached(Clock(time), target)) <==>
                delay <= HALF)
            && (delay > HALF ==> TimeReached(Clock(start), target))
  {
    DeadlineTarget(start, delay);
    forall time: nat | start <= time < start + delay + HALF
      ensures TimeReached(Clock(time), Deadline(Clock(start), delay)) <==>
              time >= start + delay || start + delay - time > HALF
    {
      WrappedDifference(time, start + delay);
    }
  }

  lemma DeadlineTarget(start: nat, delay: uint32)
    ensures Deadline(Clock(start), delay) == (start + delay) % WRAP
  {
  }
}
