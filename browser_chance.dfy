/** The chance primitives of the browser engine. Each `Math.random()` draw is
    an input `u` with 0 <= u < 1; reals are exact here, so floating-point
    rounding is not modelled. */
module BrowserChance {
  const Two31: int := 0x8000_0000
  const Two32: int := 0x1_0000_0000

  /** Truncation toward zero, the first step of ECMAScript ToInt32. */
  function Truncate(v: real): int {
    if v >= 0.0 then v.Floor else -((-v).Floor)
  }

  /** ECMAScript ToInt32 of an integer: reduce modulo 2^32 into the signed range. */
  function ToInt32(k: int): (r: int)
    ensures -Two31 <= r < Two31
    ensures (k - r) % Two32 == 0
    ensures -Two31 <= k < Two31 ==> r == k
  {
    var m := k % Two32;
    if m >= Two31 then m - Two32 else m
  }

  /** `Math.random() * n`. */
  function Scaled(u: real, n: int): real {
    u * (n as real)
  }

  /** `randomToN(n)`, that is `(Math.random() * n) | 0`. */
  function RandomToN(u: real, n: int): int
    requires 0.0 <= u < 1.0
  {
    ToInt32(Truncate(Scaled(u, n)))
  }

  /** For every positive `n` up to 2^31 the draw is an index in [0, n). */
  lemma RandomToNInRange(u: real, n: int)
    requires 0.0 <= u < 1.0 && 0 < n <= Two31
    ensures 0 <= RandomToN(u, n) < n
  {
    ScaledBelow(u, n);
    FloorBelow(Scaled(u, n), n);
  }

  lemma FloorBelow(v: real, n: int)
    requires 0.0 <= v < n as real
    ensures 0 <= v.Floor < n
  {
  }

  /** 0 <= u < 1 scales `n` into [0, n), one unit at a time. */
  lemma {:induction false} ScaledBelow(u: real, n: int)
    requires 0.0 <= u < 1.0 && 0 < n
    ensures 0.0 <= Scaled(u, n) < n as real
    decreases n
  {
    if n > 1 {
      ScaledBelow(u, n - 1);
      assert Scaled(u, n) == Scaled(u, n - 1) + u;
    }
  }

  /** `wouldOccurWithChance(chance)`: a draw from [0, 100) below `chance * 100`. */
  function WouldOccurWithChance(u: real, chance: real): bool
    requires 0.0 <= u < 1.0
  {
    (RandomToN(u, 100) as real) < chance * 100.0
  }

  /** A chance of 0 (or less) never occurs. */
  lemma NeverWithChanceZero(u: real, chance: real)
    requires 0.0 <= u < 1.0 && chance <= 0.0
    ensures !WouldOccurWithChance(u, chance)
  {
    RandomToNInRange(u, 100);
  }

  /** A chance of 1 (or more) always occurs. */
  lemma AlwaysWithChanceOne(u: real, chance: real)
    requires 0.0 <= u < 1.0 && chance >= 1.0
    ensures WouldOccurWithChance(u, chance)
  {
    RandomToNInRange(u, 100);
  }

  /** For a chance that is a whole percentage the event is exactly `u < chance`,
      so a uniform `u` makes it occur with probability `chance`. */
  lemma ChanceIsThreshold(u: real, percent: int)
    requires 0.0 <= u < 1.0 && 0 <= percent <= 100
    ensures WouldOccurWithChance(u, percent as real / 100.0) <==> u < percent as real / 100.0
  {
    RandomToNInRange(u, 100);
    var v := u * 100.0;
    assert RandomToN(u, 100) == v.Floor;
    assert v.Floor < percent <==> v < percent as real;
  }

  /** A larger chance occurs whenever a smaller one does. */
  lemma ChanceMonotone(u: real, low: real, high: real)
    requires 0.0 <= u < 1.0 && low <= high
    ensures WouldOccurWithChance(u, low) ==> WouldOccurWithChance(u, high)
  {
  }
}
