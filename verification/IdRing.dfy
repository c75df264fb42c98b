/** The circle of Chord identifiers and its clockwise arithmetic.

    Identifiers are the numbers 0 .. N-1 with N = 2^M and M = 8 * KEY_LEN.  The key length
    is left open, so everything proved here holds for every length of at least one byte. */
module IdRing {

  type Positive = k: int | k >= 1 witness 1

  const KEY_LEN: Positive
  const M: nat := 8 * KEY_LEN

  function Pow2(k: nat): (p: nat)
    ensures p >= 1
  {
    if k == 0 then 1 else 2 * Pow2(k - 1)
  }

  const N: nat := Pow2(M)

  type Id = x: int | 0 <= x < N witness 0

  lemma {:induction false} Pow2Monotone(j: nat, k: nat)
    requires j <= k
    ensures Pow2(j) <= Pow2(k)
  {
    if j < k {
      Pow2Monotone(j, k - 1);
    }
  }

  /** 2^i, the least clockwise distance that finger i may span. */
  function Gap(i: nat): (g: nat)
    requires i < M
    ensures 1 <= g && 2 * g <= N
    ensures i == 0 ==> g == 1
    ensures i > 0 ==> g >= 2
  {
    Pow2Monotone(i, M - 1);
    Pow2(i)
  }

  /** Steps clockwise from a to b; zero when they coincide. */
  function Dist(a: Id, b: Id): (d: nat)
    ensures d < N
  {
    if a <= b then b - a else b - a + N
  }

  /** Like Dist, but a full turn when a and b coincide. */
  function Span(a: Id, b: Id): (d: nat)
    ensures 1 <= d <= N
  {
    if a == b then N else Dist(a, b)
  }

  function Forward(a: Id, d: nat): (b: Id)
    requires d < N
    ensures Dist(a, b) == d
  {
    if a + d < N then a + d else a + d - N
  }

  function Back(a: Id, d: nat): (b: Id)
    requires d < N
    ensures Dist(b, a) == d
  {
    if d <= a then a - d else a - d + N
  }

  /** target lies in (lower, upper) */
  predicate StrictlyBetween(target: Id, lower: Id, upper: Id) {
    if lower < upper then lower < target && target < upper
    else lower < target || target < upper
  }

  /** target lies in (lower, upper] */
  predicate LeftOpenRightClosed(target: Id, lower: Id, upper: Id) {
    if lower < upper then lower < target && target <= upper
    else lower < target || target <= upper
  }

  /** target lies in [lower, upper) */
  predicate LeftClosedRightOpen(target: Id, lower: Id, upper: Id) {
    if lower < upper then lower <= target && target < upper
    else lower <= target || target < upper
  }

  lemma IntervalsAreCyclic(t: Id, lo: Id, hi: Id)
    ensures StrictlyBetween(t, lo, hi) <==> 0 < Dist(lo, t) < Span(lo, hi)
    ensures LeftOpenRightClosed(t, lo, hi) <==> Span(lo, t) <= Span(lo, hi)
    ensures LeftClosedRightOpen(t, lo, hi) <==> Dist(lo, t) < Span(lo, hi)
  {
  }
}
