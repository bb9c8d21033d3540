/** Powers of two: the side length of a quadtree level and the step sizes of the driver. */
module Powers {

  function Pow2(n: nat): (p: nat)
    ensures p >= 1
  {
    if n == 0 then 1 else 2 * Pow2(n - 1)
  }

  ghost predicate IsPow2(p: int) {
    exists n: nat :: Pow2(n) == p
  }

  lemma {:induction false} Pow2Monotone(a: nat, b: nat)
    requires a <= b
    ensures Pow2(a) <= Pow2(b)
  {
    if a < b {
      Pow2Monotone(a, b - 1);
    }
  }

  /** The least level whose side length covers n: Math.Ceiling(Math.Log2(n)) for n >= 1. */
  function CeilLog2(n: nat): (level: nat)
    ensures n <= Pow2(level)
    ensures level == 0 || Pow2(level - 1) < n
  {
    if n <= 1 then 0 else 1 + CeilLog2((n + 1) / 2)
  }

  /** The least covering level is the only level that covers n while the one below does not. */
  lemma CeilLog2Unique(n: nat, level: nat)
    requires n <= Pow2(level) && (level == 0 || Pow2(level - 1) < n)
    ensures level == CeilLog2(n)
  {
    var least := CeilLog2(n);
    if level < least {
      Pow2Monotone(level, least - 1);
    } else if least < level {
      Pow2Monotone(least, level - 1);
    }
  }

  /** A level that covers n is no lower than the least covering level. */
  lemma {:induction false} CeilLog2AtMost(n: nat, k: nat)
    requires n <= Pow2(k)
    ensures CeilLog2(n) <= k
  {
    if n > 1 {
      CeilLog2AtMost((n + 1) / 2, k - 1);
    }
  }

  /** GetLargestPowerOf2: the largest power of two that is at most n (1 when n < 2). */
  method GetLargestPowerOf2(n: int) returns (power: int)
    ensures IsPow2(power)
    ensures n >= 1 ==> power <= n < 2 * power
    ensures n < 1 ==> power == 1
  {
    power := 1;
    ghost var k: nat := 0;
    while power * 2 <= n
      invariant power == Pow2(k)
      invariant n >= 1 ==> power <= n
      invariant n < 1 ==> power == 1
      decreases n - power
    {
      power := power * 2;
      k := k + 1;
    }
  }
}
