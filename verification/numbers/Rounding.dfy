/**
 Rounding to the nearest, ties to even (roundTiesToEven, section 4.3.1 of IEEE 754-2008), on decimals held as exact
 scaled integers: coefficient / 10^scale.
 */
module Rounding {
  function Pow10(n: nat): (p: nat)
    ensures p >= 1
  {
    if n == 0 then 1 else 10 * Pow10(n - 1)
  }

  lemma {:induction false} Pow10Adds(a: nat, b: nat)
    ensures Pow10(a + b) == Pow10(a) * Pow10(b)
  {
    if a > 0 {
      Pow10Adds(a - 1, b);
      Product3(10, Pow10(a - 1), Pow10(b));
    }
  }

  lemma {:induction false} Product3(a: int, b: int, c: int)
    ensures (a * b) * c == a * (b * c) == b * (a * c)
  {
  }

  // ---------------------------------------------------------------------------
  // Quotients
  // ---------------------------------------------------------------------------

  function Abs(n: int): nat { if n < 0 then -n else n }

  /** n / d rounded on the magnitude, as decimals are: half to even. */
  function RoundHalfEven(n: int, d: int): int
    requires d > 0
  {
    if n < 0 then -RoundHalfEvenMagnitude(-n, d) else RoundHalfEvenMagnitude(n, d)
  }

  function RoundHalfEvenMagnitude(n: nat, d: int): (r: int)
    requires d > 0
    ensures r >= 0
  {
    var q, r := n / d, n % d;
    if 2 * r < d then q else if 2 * r > d then q + 1 else if q % 2 == 0 then q else q + 1
  }

  function RoundHalfUpMagnitude(n: nat, d: int): int
    requires d > 0
  {
    if 2 * (n % d) >= d then n / d + 1 else n / d
  }

  /** `k` is within half a unit of n / d, and even if it is exactly half a unit away. */
  ghost predicate NearestEven(n: int, d: int, k: int) {
    var twice := 2 * (n - k * d);
    -d <= twice <= d && (twice == d || twice == -d ==> k % 2 == 0)
  }

  lemma {:induction false} MagnitudeIsNearest(n: nat, d: int)
    requires d > 0
    ensures NearestEven(n, d, RoundHalfEvenMagnitude(n, d))
  {
    var q, r := n / d, n % d;
    assert n == q * d + r;
    assert (q + 1) * d == q * d + d;
  }

  lemma {:induction false} NearestIsUnique(n: int, d: int, k: int, j: int)
    requires d > 0 && NearestEven(n, d, k) && NearestEven(n, d, j)
    ensures k == j
  {
    var gap := k - j;
    assert gap * d == k * d - j * d;
    assert -2 * d <= 2 * (gap * d) <= 2 * d;
    GapAtMostOne(gap, d);
  }

  lemma {:induction false} GapAtMostOne(gap: int, d: int)
    requires d > 0 && -d <= gap * d <= d
    ensures -1 <= gap <= 1
  {
    if gap >= 2 {
      AtMost(2, gap, d);
    } else if gap <= -2 {
      AtMost(gap, -2, d);
    }
  }

  /** Rounding yields the one integer within half a unit that is even on a tie, for either sign. */
  lemma {:induction false} RoundsToNearestEven(n: int, d: int, k: int)
    requires d > 0
    ensures k == RoundHalfEven(n, d) <==> NearestEven(n, d, k)
  {
    RoundIsNearest(n, d);
    if NearestEven(n, d, k) {
      NearestIsUnique(n, d, k, RoundHalfEven(n, d));
    }
  }

  lemma {:induction false} RoundIsNearest(n: int, d: int)
    requires d > 0
    ensures NearestEven(n, d, RoundHalfEven(n, d))
  {
    var m := RoundHalfEvenMagnitude(Abs(n), d);
    MagnitudeIsNearest(Abs(n), d);
    hide RoundHalfEvenMagnitude;
    if n < 0 {
      NearestOfNegated(-n, d, m);
    }
  }

  lemma {:induction false} NearestOfNegated(n: int, d: int, k: int)
    requires NearestEven(n, d, k)
    ensures NearestEven(-n, d, -k)
  {
    assert (-k) * d == -(k * d);
  }

  lemma {:induction false} RoundIsOdd(n: int, d: int)
    requires d > 0
    ensures RoundHalfEven(-n, d) == -RoundHalfEven(n, d)
    ensures RoundHalfEven(Abs(n), d) == Abs(RoundHalfEven(n, d))
  {
    RoundsToNearestEven(0, d, 0);
  }

  lemma {:induction false} RoundIsMonotone(m: int, n: int, d: int)
    requires d > 0 && m <= n
    ensures RoundHalfEven(m, d) <= RoundHalfEven(n, d)
  {
    var j, k := RoundHalfEven(m, d), RoundHalfEven(n, d);
    RoundsToNearestEven(m, d, j);
    RoundsToNearestEven(n, d, k);
    if j > k {
      OneApart(j, k, d);
      RoundsToNearestEven(n, d, j);
    }
  }

  lemma {:induction false} OneApart(j: int, k: int, d: int)
    requires j > k && d > 0
    ensures j * d >= k * d + d
  {
    AtMost(k + 1, j, d);
  }

  lemma {:induction false} AtMost(a: int, b: int, c: int)
    requires a <= b && c >= 0
    ensures a * c <= b * c
  {
  }

  /** Half-up gives a different result exactly at midpoints whose kept digit is even. */
  lemma {:induction false} HalfUpDiffersAtEvenMidpoints(n: nat, d: int)
    requires d > 0
    ensures RoundHalfUpMagnitude(n, d) != RoundHalfEvenMagnitude(n, d) <==> 2 * (n % d) == d && (n / d) % 2 == 0
  {
  }

  // ---------------------------------------------------------------------------
  // Decimals
  // ---------------------------------------------------------------------------

  /** coefficient / 10^scale */
  datatype Decimal = Decimal(coefficient: int, scale: nat)

  predicate SameValue(a: Decimal, b: Decimal) {
    a.coefficient * Pow10(b.scale) == b.coefficient * Pow10(a.scale)
  }

  /** The value in units of 10^-precision. */
  function Quantize(v: Decimal, precision: nat): int {
    RoundHalfEven(v.coefficient * Pow10(precision), Pow10(v.scale))
  }

  /** A value that has no more places than asked for is kept exactly. */
  lemma {:induction false} QuantizeIsExact(v: Decimal, precision: nat)
    requires v.scale <= precision
    ensures SameValue(Decimal(Quantize(v, precision), precision), v)
  {
    hide RoundHalfEven;
    var k, d := v.coefficient * Pow10(precision - v.scale), Pow10(v.scale);
    Pow10Adds(precision - v.scale, v.scale);
    Product3(v.coefficient, Pow10(precision - v.scale), d);
    assert NearestEven(k * d, d, k);
    RoundsToNearestEven(k * d, d, k);
    Product3(v.coefficient, Pow10(precision - v.scale), d);
  }

  /** No other number of that many places is nearer to the value; at half way it is the even one. */
  lemma {:induction false} QuantizeIsNearest(v: Decimal, precision: nat, other: int)
    ensures var n, d, k := v.coefficient * Pow10(precision), Pow10(v.scale), Quantize(v, precision);
            && Abs(n - k * d) <= Abs(n - other * d)
            && (other != k && Abs(n - k * d) == Abs(n - other * d) ==> k % 2 == 0)
  {
    hide RoundHalfEven;
    var n, d, k := v.coefficient * Pow10(precision), Pow10(v.scale), Quantize(v, precision);
    RoundsToNearestEven(n, d, k);
    NearerByGap(n, d, k, other);
  }

  lemma {:induction false} NearerByGap(n: int, d: nat, k: int, other: int)
    requires d > 0 && NearestEven(n, d, k)
    ensures Abs(n - k * d) <= Abs(n - other * d)
    ensures other != k && Abs(n - k * d) == Abs(n - other * d) ==> k % 2 == 0
  {
    if other > k {
      AtMost(k + 1, other, d);
      assert (k + 1) * d == k * d + d;
    } else if other < k {
      AtMost(other, k - 1, d);
      assert (k - 1) * d == k * d - d;
    }
  }

  lemma {:induction false} NearestScales(n: int, d: int, k: int, c: int)
    requires c > 0
    ensures NearestEven(n * c, d * c, k) <==> NearestEven(n, d, k)
  {
    hide NearestEven;
    var t := 2 * (n - k * d);
    ScaledGap(n, d, k, c);
    CompareProducts(t, d, c);
    CompareProducts(-d, t, c);
    NearestByGap(n, d, k, t);
    NearestByGap(n * c, d * c, k, t * c);
  }

  lemma {:induction false} ScaledGap(n: int, d: int, k: int, c: int)
    ensures 2 * (n * c - k * (d * c)) == 2 * (n - k * d) * c && (-d) * c == -(d * c)
  {
    assert k * (d * c) == (k * d) * c;
  }

  lemma {:induction false} NearestByGap(n: int, d: int, k: int, gap: int)
    requires gap == 2 * (n - k * d)
    ensures NearestEven(n, d, k) <==> -d <= gap <= d && ((gap == d || gap == -d) ==> k % 2 == 0)
  {
  }

  lemma {:induction false} CompareProducts(a: int, b: int, c: int)
    requires c > 0
    ensures a <= b <==> a * c <= b * c
    ensures a == b <==> a * c == b * c
  {
    if a < b {
      LessTimes(a, b, c);
    } else if b < a {
      LessTimes(b, a, c);
    }
  }

  lemma {:induction false} LessTimes(a: int, b: int, c: int)
    requires a < b && c > 0
    ensures a * c < b * c
  {
    assert (b - a) * c > 0;
  }

  /** Rounding depends on the value alone, not on how many trailing zeros it is written with. */
  lemma {:induction false} QuantizeDependsOnValue(a: Decimal, b: Decimal, precision: nat)
    requires SameValue(a, b)
    ensures Quantize(a, precision) == Quantize(b, precision)
  {
    var p, k := Pow10(precision), Quantize(a, precision);
    var da, db := Pow10(a.scale), Pow10(b.scale);
    CrossScales(a.coefficient, b.coefficient, da, db, p, k);
    RoundsToNearestEven(a.coefficient * p, da, k);
    RoundsToNearestEven(b.coefficient * p, db, k);
  }

  lemma {:induction false} CrossScales(a: int, b: int, da: int, db: int, p: int, k: int)
    requires da > 0 && db > 0 && a * db == b * da
    ensures NearestEven(a * p, da, k) <==> NearestEven(b * p, db, k)
  {
    hide NearestEven;
    NearestScales(a * p, da, k, db);
    NearestScales(b * p, db, k, da);
    Product3(a, p, db);
    Product3(b, p, da);
    Product3(p, a, db);
    Product3(p, b, da);
  }

  lemma {:induction false} SameValueIsTransitive(a: Decimal, b: Decimal, c: Decimal)
    requires SameValue(a, b) && SameValue(b, c)
    ensures SameValue(a, c)
  {
    var x, y, z := Pow10(a.scale), Pow10(b.scale), Pow10(c.scale);
    assert (a.coefficient * z) * y == (c.coefficient * x) * y by {
      Product3(a.coefficient, z, y);
      Product3(a.coefficient, y, z);
      Product3(b.coefficient, x, z);
      Product3(b.coefficient, z, x);
      Product3(c.coefficient, y, x);
      Product3(c.coefficient, x, y);
    }
    CompareProducts(a.coefficient * z, c.coefficient * x, y);
  }

  // ---------------------------------------------------------------------------
  // Visible precision
  // ---------------------------------------------------------------------------

  /** The limits a formatter works with: a maximum below the minimum is raised to it. */
  function ClampMax(minimum: nat, maximum: nat): nat { if maximum < minimum then minimum else maximum }

  /** Drops trailing zeros of a fraction down to `minimum` digits: what is left, and how many digits that is. */
  function Trim(units: nat, digits: nat, minimum: nat): (r: (nat, nat)) {
    if digits > minimum && units % 10 == 0 then Trim(units / 10, digits - 1, minimum) else (units, digits)
  }

  lemma {:induction false} TrimKeepsValue(units: nat, digits: nat, minimum: nat)
    requires minimum <= digits
    ensures var (kept, visible) := Trim(units, digits, minimum);
            && minimum <= visible <= digits && units == kept * Pow10(digits - visible)
            && (visible > minimum ==> kept % 10 != 0)
  {
    if digits > minimum && units % 10 == 0 {
      TrimKeepsValue(units / 10, digits - 1, minimum);
      var (kept, visible) := Trim(units / 10, digits - 1, minimum);
      Product3(10, kept, Pow10(digits - 1 - visible));
    }
  }

  /** The magnitude shown, in units of its last visible digit, and the number of visible fraction digits. */
  function VisibleForm(v: Decimal, minimum: nat, maximum: nat): (nat, nat) {
    var m := ClampMax(minimum, maximum);
    Trim(Abs(Quantize(v, m)), m, minimum)
  }

  lemma {:induction false} CoarserIsNearest(x: int, d: int, k: int, c: int)
    requires d > 0 && c >= 2 && NearestEven(x * c, d, k * c)
    ensures NearestEven(x, d, k)
  {
    var t := x - k * d;
    assert (k * c) * d == (k * d) * c;
    assert x * c - (k * c) * d == t * c;
    assert t > 0 ==> t * c >= 2 * t;
    assert t < 0 ==> t * c <= 2 * t;
  }

  /**
   Rounding at the maximum and then trimming zeros gives what rounding at the visible precision gives directly, for
   every value and all limits.
   */
  lemma {:induction false} RoundThenTrimIsRound(v: Decimal, minimum: nat, maximum: nat)
    ensures var (kept, visible) := VisibleForm(v, minimum, maximum);
            kept == Quantize(Decimal(Abs(v.coefficient), v.scale), visible)
  {
    var m := ClampMax(minimum, maximum);
    var a, d := Abs(v.coefficient), Pow10(v.scale);
    var all := Quantize(Decimal(a, v.scale), m);
    MagnitudeOfQuantized(v, m);
    TrimKeepsValue(all, m, minimum);
    var (kept, visible) := VisibleForm(v, minimum, maximum);
    if visible < m {
      var c, x := Pow10(m - visible), a * Pow10(visible);
      Pow10Adds(visible, m - visible);
      Product3(a, Pow10(visible), c);
      RoundsToNearestEven(x * c, d, all);
      AtLeastTen(m - visible);
      CoarserIsNearest(x, d, kept, c);
      RoundsToNearestEven(x, d, kept);
    }
  }

  lemma {:induction false} AtLeastTen(n: nat)
    requires n > 0
    ensures Pow10(n) >= 10
  {
  }

  lemma {:induction false} MagnitudeOfQuantized(v: Decimal, precision: nat)
    ensures Quantize(Decimal(Abs(v.coefficient), v.scale), precision) == Abs(Quantize(v, precision))
  {
    var p := Pow10(precision);
    RoundIsOdd(v.coefficient * p, Pow10(v.scale));
    assert Abs(v.coefficient) * p == Abs(v.coefficient * p) by {
      assert v.coefficient < 0 ==> (-v.coefficient) * p == -(v.coefficient * p);
      assert v.coefficient > 0 ==> v.coefficient * p >= 0;
      assert v.coefficient < 0 ==> v.coefficient * p <= 0;
    }
  }

  // ---------------------------------------------------------------------------
  // Rounding to the digits of the decimal context
  // ---------------------------------------------------------------------------

  /** Results of decimal arithmetic, `abs` and negation included, keep this many digits. */
  const CONTEXT_PRECISION := 28

  function DigitCount(n: nat): (k: nat)
    ensures k >= 1
  {
    if n < 10 then 1 else 1 + DigitCount(n / 10)
  }

  lemma {:induction false} DigitCountBounds(n: nat, k: nat)
    ensures n >= Pow10(k) ==> DigitCount(n) > k
    ensures k > 0 && n < Pow10(k) ==> DigitCount(n) <= k
    decreases k
  {
    if k > 0 {
      DigitCountBounds(n / 10, k - 1);
    }
  }

  /** The digits of a coefficient beyond those the context keeps. */
  function Excess(n: nat): nat {
    if DigitCount(n) > CONTEXT_PRECISION then DigitCount(n) - CONTEXT_PRECISION else 0
  }

  /** A magnitude rounded half-even to the digits of the context, at the same scale. */
  function Kept(n: nat): nat {
    RoundHalfEvenMagnitude(n, Pow10(Excess(n))) * Pow10(Excess(n))
  }

  /** `abs(v)` */
  function ContextAbs(v: Decimal): Decimal { Decimal(Kept(Abs(v.coefficient)), v.scale) }

  /** `-v` */
  function ContextNegated(v: Decimal): Decimal {
    Decimal(if v.coefficient < 0 then Kept(-v.coefficient) else 0 - Kept(v.coefficient), v.scale)
  }

  /** Up to 28 digits nothing is rounded. */
  lemma {:induction false} ShortIsKept(n: nat)
    requires n < Pow10(CONTEXT_PRECISION)
    ensures Excess(n) == 0 && Kept(n) == n
  {
    DigitCountBounds(n, CONTEXT_PRECISION);
    assert Pow10(0) == 1;
    assert n / 1 == n && n % 1 == 0;
  }

  /**
   The value that the context keeps lies halfway between two results, and rounding it to the even one goes the other
   way than rounding the value itself.
   */
  ghost predicate SecondRoundingErrs(v: Decimal, precision: nat) {
    var a, c := Abs(v.coefficient), Kept(Abs(v.coefficient));
    var n, d := c * Pow10(precision), Pow10(v.scale);
    2 * (n % d) == d && if (n / d) % 2 == 0 then a > c else a < c
  }

  /** Where a number within half a grid step of y = k * d + r * g is rounded to, on a scale of d = g * t, t even. */
  function Settled(x: int, y: int, k: int, r: int, t: int): int {
    if 2 * r < t then k
    else if 2 * r > t then k + 1
    else if x > y then k + 1
    else if x < y then k
    else if k % 2 == 0 then k else k + 1
  }

  lemma {:induction false} NearGridPoint(x: int, y: int, k: int, r: int, g: int, t: int, d: int)
    requires g > 0 && t > 0 && t % 2 == 0 && 0 <= r < t && d == t * g && y == k * d + r * g
    requires -g <= 2 * (x - y) <= g
    ensures RoundHalfEven(x, d) == Settled(x, y, k, r, t)
  {
    var s := r * g;
    AtMost(0, r, g);
    AtMost(1, t, g);
    assert (k + 1) * d == k * d + d;
    GridSides(r, g, t, d);
    assert NearestEven(x, d, Settled(x, y, k, r, t));
    RoundsToNearestEven(x, d, Settled(x, y, k, r, t));
  }

  lemma {:induction false} GridSides(r: int, g: int, t: int, d: int)
    requires g > 0 && t % 2 == 0 && 0 <= r < t && d == t * g
    ensures 2 * r < t ==> 2 * (r * g) + 2 * g <= d
    ensures 2 * r > t ==> 2 * (r * g) >= d + 2 * g && r * g + g <= d
    ensures 2 * r == t ==> 2 * (r * g) == d
  {
    SumTimes(r, r, g);
    SumTimes(2 * r, 2, g);
    SumTimes(t, 2, g);
    SumTimes(r, 1, g);
    hide *;
    if 2 * r < t {
      AtMost(2 * r + 2, t, g);
    } else if 2 * r > t {
      AtMost(t + 2, 2 * r, g);
      AtMost(r + 1, t, g);
    }
  }

  lemma {:induction false} SumTimes(a: int, b: int, g: int)
    ensures (a + b) * g == a * g + b * g
  {
  }

  lemma {:induction false} QuotientIs(x: int, d: int, q: int, r: int)
    requires 0 <= r < d && x == q * d + r
    ensures x / d == q && x % d == r
  {
    var gap := x / d - q;
    assert gap * d == r - x % d by {
      assert x == (x / d) * d + x % d;
      assert gap * d == (x / d) * d - q * d;
    }
    if gap >= 1 {
      AtMost(1, gap, d);
    } else if gap <= -1 {
      AtMost(gap, -1, d);
    }
  }

  lemma {:induction false} KeptIsNear(n: nat)
    ensures var q: int := Pow10(Excess(n)); Kept(n) == RoundHalfEven(n, q) * q && -q <= 2 * (n - Kept(n)) <= q
    ensures Excess(n) > 0 ==> Kept(n) >= Pow10(CONTEXT_PRECISION - 1 + Excess(n))
  {
    var e := Excess(n);
    var q := Pow10(e);
    RoundIsNearest(n, q);
    if e > 0 {
      DigitCountBounds(n, DigitCount(n) - 1);
      DigitCountFloor(n);
      var least := Pow10(CONTEXT_PRECISION - 1);
      Pow10Adds(CONTEXT_PRECISION - 1, e);
      RoundIsMonotone(least * q, n, q);
      RoundsToNearestEven(least * q, q, least);
      AtMost(least, RoundHalfEven(n, q), q);
    }
  }

  lemma {:induction false} DigitCountFloor(n: nat)
    requires n > 0
    ensures n >= Pow10(DigitCount(n) - 1)
  {
    if n >= 10 {
      DigitCountFloor(n / 10);
    }
  }

  /** The kept digits are finer than the precision: the kept value is a point of a grid that holds all halfway points. */
  lemma {:induction false} KeptIsFiner(a: nat, precision: nat, scale: nat) returns (units: int, g: int, t: int)
    requires Excess(a) + precision < scale
    ensures g > 0 && t > 0 && t % 2 == 0 && Pow10(scale) == t * g
    ensures Kept(a) * Pow10(precision) == units * g
    ensures -g <= 2 * (a * Pow10(precision) - Kept(a) * Pow10(precision)) <= g
  {
    hide Excess;
    hide Kept;
    hide Pow10;
    hide RoundHalfEven;
    var e := Excess(a);
    var q, p, c := Pow10(e), Pow10(precision), Kept(a);
    units, g, t := RoundHalfEven(a, q), Pow10(e + precision), Pow10(scale - precision - e);
    KeptIsNear(a);
    Pow10Adds(e, precision);
    Pow10Adds(scale - precision - e, e + precision);
    EvenPower(scale - precision - e);
    Product3(units, q, p);
    OnGrid(a, c, q, p);
  }

  lemma {:induction false} OnGrid(a: int, c: int, q: int, p: int)
    requires -q <= 2 * (a - c) <= q && p > 0
    ensures -(q * p) <= 2 * (a * p - c * p) <= q * p
  {
    Spread(a - c, q, p);
    Distribute(a, c, p);
  }

  lemma {:induction false} EvenPower(n: nat)
    requires n > 0
    ensures Pow10(n) % 2 == 0
  {
    var half: int := 5 * Pow10(n - 1);
    assert Pow10(n) == 2 * half;
    hide *;
    Doubled(half);
  }

  lemma {:induction false} Doubled(n: int)
    ensures (2 * n) % 2 == 0
  {
  }

  lemma {:induction false} Distribute(a: int, b: int, c: int)
    ensures (a - b) * c == a * c - b * c
  {
  }

  lemma {:induction false} SplitUnits(units: int, t: int, g: int)
    requires t > 0
    ensures units * g == (units / t) * (t * g) + (units % t) * g
  {
    var k, r := units / t, units % t;
    assert units == k * t + r;
    assert (k * t + r) * g == (k * t) * g + r * g;
    Product3(k, t, g);
  }

  lemma {:induction false} Spread(gap: int, q: int, p: int)
    requires -q <= 2 * gap <= q && p > 0
    ensures -(q * p) <= 2 * (gap * p) <= q * p
  {
    AtMost(2 * gap, q, p);
    AtMost(-q, 2 * gap, p);
    assert (2 * gap) * p == 2 * (gap * p);
    assert (-q) * p == -(q * p);
  }

  lemma {:induction false} TwiceOnGrid(x: int, y: int, units: int, g: int, t: int, d: int)
    requires g > 0 && t > 0 && t % 2 == 0 && d == t * g && y == units * g && -g <= 2 * (x - y) <= g
    ensures d > 0
    ensures RoundHalfEven(x, d) == RoundHalfEven(y, d) <==>
            !(2 * (y % d) == d && if (y / d) % 2 == 0 then x > y else x < y)
  {
    hide RoundHalfEven;
    var k, r := units / t, units % t;
    SplitUnits(units, t, g);
    GridSides(r, g, t, d);
    AtMost(0, r, g);
    AtMost(1, t, g);
    NearGridPoint(x, y, k, r, g, t, d);
    NearGridPoint(y, y, k, r, g, t, d);
    BelowGrid(r, g, t);
    QuotientIs(y, d, k, r * g);
  }

  lemma {:induction false} BelowGrid(r: int, g: int, t: int)
    requires g > 0 && r < t
    ensures r * g < t * g
  {
    LessTimes(r, t, g);
  }

  lemma {:induction false} SecondRoundingWhenFiner(v: Decimal, precision: nat)
    requires Excess(Abs(v.coefficient)) + precision < v.scale
    ensures Quantize(ContextAbs(v), precision) == Quantize(Decimal(Abs(v.coefficient), v.scale), precision) <==>
            !SecondRoundingErrs(v, precision)
  {
    hide Excess;
    hide Kept;
    hide RoundHalfEven;
    var a, c, p := Abs(v.coefficient), Kept(Abs(v.coefficient)), Pow10(precision);
    var units, g, t := KeptIsFiner(a, precision, v.scale);
    TwiceOnGrid(a * p, c * p, units, g, t, Pow10(v.scale));
    CompareProducts(a, c, p);
    CompareProducts(c, a, p);
  }

  lemma {:induction false} KeptIsCoarser(a: nat, precision: nat, scale: nat) returns (units: int, j: nat)
    requires Excess(a) > 0 && Excess(a) + precision >= scale
    ensures j == Excess(a) + precision - scale
    ensures Kept(a) * Pow10(precision) == (units * Pow10(j)) * Pow10(scale)
    ensures units == RoundHalfEven(a, Pow10(Excess(a)))
    ensures j == 0 ==> Pow10(scale) == Pow10(Excess(a)) * Pow10(precision)
  {
    hide Excess;
    hide Kept;
    var e := Excess(a);
    units, j := RoundHalfEven(a, Pow10(e)), e + precision - scale;
    KeptIsNear(a);
    Pow10Adds(e, precision);
    Pow10Adds(j, scale);
    hide *;
    Product3(units, Pow10(e), Pow10(precision));
    Product3(units, Pow10(j), Pow10(scale));
  }

  lemma {:induction false} SecondRoundingWhenCoarser(v: Decimal, precision: nat)
    requires var e := Excess(Abs(v.coefficient)); e > 0 && e + precision >= v.scale
    requires Quantize(ContextAbs(v), precision) < Pow10(CONTEXT_PRECISION)
    ensures Quantize(ContextAbs(v), precision) == Quantize(Decimal(Abs(v.coefficient), v.scale), precision)
    ensures !SecondRoundingErrs(v, precision)
  {
    hide Excess;
    hide Kept;
    hide RoundHalfEven;
    hide Pow10;
    var a := Abs(v.coefficient);
    var c, p, d := Kept(a), Pow10(precision), Pow10(v.scale);
    var units, j := KeptIsCoarser(a, precision, v.scale);
    var k := units * Pow10(j);
    QuotientIs(c * p, d, k, 0);
    ExactQuotient(c * p, d, k);
    if j == 0 {
      PowerOfZero();
      SameGrid(a, Pow10(Excess(a)), p, d, units);
    } else {
      KeptIsNear(a);
      TooManyDigits(c, p, d, k, Excess(a), precision, v.scale);
    }
  }

  lemma {:induction false} PowerOfZero()
    ensures Pow10(0) == 1
  {
  }

  lemma {:induction false} SameGrid(a: int, q: int, p: int, d: int, units: int)
    requires q > 0 && p > 0 && d == q * p && units == RoundHalfEven(a, q)
    ensures d > 0 && RoundHalfEven(a * p, d) == units
  {
    hide RoundHalfEven;
    AtMost(1, q, p);
    RoundsToNearestEven(a, q, units);
    NearestScales(a, q, units, p);
    RoundsToNearestEven(a * p, d, units);
  }

  lemma {:induction false} ExactQuotient(n: int, d: int, k: int)
    requires d > 0 && n == k * d
    ensures RoundHalfEven(n, d) == k
  {
    RoundsToNearestEven(n, d, k);
  }

  /** A result coarser than the precision by a digit or more has too many digits to be one. */
  lemma {:induction false} TooManyDigits(c: int, p: int, d: int, k: int, e: nat, precision: nat, scale: nat)
    requires c >= Pow10(CONTEXT_PRECISION - 1 + e) && e + precision > scale
    requires p == Pow10(precision) && d == Pow10(scale) && c * p == k * d
    ensures k >= Pow10(CONTEXT_PRECISION)
  {
    var least := Pow10(CONTEXT_PRECISION - 1 + e);
    AtMost(least, c, p);
    Pow10Adds(CONTEXT_PRECISION - 1 + e, precision);
    var more := CONTEXT_PRECISION - 1 + e + precision - scale;
    Pow10Adds(more, scale);
    assert Pow10(more) * d <= k * d;
    if k < Pow10(more) {
      LessTimes(k, Pow10(more), d);
    }
    Pow10Grows(CONTEXT_PRECISION, more);
  }

  lemma {:induction false} Pow10Grows(a: nat, b: nat)
    requires a <= b
    ensures Pow10(a) <= Pow10(b)
  {
    if a < b {
      Pow10Grows(a, b - 1);
    }
  }

  /**
   Rounding first to the digits of the context and then to the precision gives what rounding once gives, except where
   the first step stops halfway and the second goes on the wrong way.
   */
  lemma {:induction false} RoundingTwice(v: Decimal, precision: nat)
    requires Quantize(ContextAbs(v), precision) < Pow10(CONTEXT_PRECISION)
    ensures Quantize(ContextAbs(v), precision) == Abs(Quantize(v, precision)) <==> !SecondRoundingErrs(v, precision)
  {
    hide Quantize;
    hide SecondRoundingErrs;
    MagnitudeOfQuantized(v, precision);
    var a := Abs(v.coefficient);
    if a < Pow10(CONTEXT_PRECISION) {
      ShortValuesAreRoundedOnce(v, precision);
    } else {
      DigitCountBounds(a, CONTEXT_PRECISION);
      if Excess(a) + precision < v.scale {
        SecondRoundingWhenFiner(v, precision);
      } else {
        SecondRoundingWhenCoarser(v, precision);
      }
    }
  }

  /** A value of at most 28 digits is rounded once. */
  lemma {:induction false} ShortValuesAreRoundedOnce(v: Decimal, precision: nat)
    requires Abs(v.coefficient) < Pow10(28)
    ensures ContextAbs(v) == Decimal(Abs(v.coefficient), v.scale) && !SecondRoundingErrs(v, precision)
  {
    ShortIsKept(Abs(v.coefficient));
  }
}
