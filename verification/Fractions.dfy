/** The double arithmetic that turns a decimal fraction of a unit into nanoseconds, and how far it
    strays from the fraction's value. */
module Fractions {
  import opened Bytes
  import opened Decimal
  import opened Double

  const HOUR := 3600_000_000_000

  /** Ten to the k as the digit loop computes it, multiplying by ten each time. */
  function ScaleOf(k: nat): (d: Double)
    ensures d.Infinite? || d.value >= 1.0
  {
    if k == 0 then
      IntExact(1);
      OfInt(1)
    else
      ScaleGrows(ScaleOf(k - 1), 0);
      Mul(ScaleOf(k - 1), Finite(10.0))
  }

  lemma {:induction false} ScaleGrows(d: Double, j: int)
    requires 0 <= j <= 960
    requires d.Infinite? || d.value >= Pow2(j)
    ensures var r := Mul(d, Finite(10.0)); r.Infinite? || (r.value >= Pow2(j) && r.value >= 1.0)
  {
    Small();
    hide Round, Pow2;
    Pow2Grows(0, j);
    if d.Finite? {
      var x := Product(d.value, 10.0);
      if Round(x).Finite? {
        RoundAbove(x, j);
      }
    }
  }

  lemma {:induction false} StepsFinite(f: nat, k: nat, unit: nat)
    requires f <= INT64_MAX && unit <= HOUR
    ensures OfInt(f).Finite? && OfInt(f).value <= Pow2(63)
    ensures OfInt(unit).Finite?
    ensures var q := Div(OfInt(unit), ScaleOf(k));
            q.Finite? && q.value <= Pow2(42) && Mul(OfInt(f), q).Finite?
  {
    Powers();
    hide Round, Pow2, ScaleOf;
    RoundBelow(f as real, 63);
    RoundBelow(unit as real, 42);
    var s := ScaleOf(k);
    var q := Div(OfInt(unit), s);
    if s.Finite? {
      ByOne(OfInt(unit).value, s.value);
      RoundBelow(Ratio(OfInt(unit).value, s.value), 42);
    }
    Pow2Add(63, 42);
    MulBelow(OfInt(f), q, 63, 42);
  }

  lemma {:induction false} MulBelow(a: Double, b: Double, i: nat, j: nat)
    requires a.Finite? && b.Finite? && i + j <= 960 && a.value <= Pow2(i) && b.value <= Pow2(j)
    ensures Mul(a, b).Finite? && Mul(a, b).value <= Pow2(i + j)
  {
    hide Round, Pow2;
    Pow2Add(i, j);
    Products(a.value, Pow2(i), b.value, Pow2(j));
    RoundBelow(Product(a.value, b.value), i + j);
  }

  lemma {:induction false} Powers()
    ensures Pow2(63) == 9223372036854775808.0 && Pow2(42) == 4398046511104.0
  {
    Pow2Values();
    Small();
    hide Pow2;
    Pow2Add(32, 8);
    Pow2Add(1, 1);
    Pow2Add(40, 2);
    Pow2Add(53, 8);
    Pow2Add(61, 2);
  }

  lemma {:induction false} ByOne(x: real, s: real)
    requires x >= 0.0 && s >= 1.0
    ensures 0.0 <= x / s <= x
  {}

  lemma {:induction false} Products(a: real, b: real, c: real, d: real)
    requires 0.0 <= a <= b && 0.0 <= c <= d
    ensures 0.0 <= a * c <= b * d
  {
    MulLe(a, b, c);
    MulLe(c, d, b);
  }

  /** The nanoseconds of the fraction f over ten to the k of a unit, as the expression
      (int64_t)((double)f * ((double)unit / scale)) gives them. */
  function Part(f: nat, k: nat, unit: nat): nat
    requires f <= INT64_MAX && unit <= HOUR
  {
    Trunc(Computed(f, k, unit))
  }

  function Computed(f: nat, k: nat, unit: nat): (d: Double)
    requires f <= INT64_MAX && unit <= HOUR
    ensures d.Finite?
  {
    StepsFinite(f, k, unit);
    Mul(OfInt(f), Div(OfInt(unit), ScaleOf(k)))
  }

  // ------------------------------------------------------------- relative errors

  /** Half a unit in the last place of 1. */
  const ULP := 1.0 / 9007199254740992.0

  /** a is b to within i times the relative error of one rounding. */
  ghost predicate Near(a: real, b: real, i: nat) {
    Abs(a - b) <= b * (i as real * ULP)
  }

  lemma {:induction false} Chain(a: real, b: real, c: real, i: nat, j: nat)
    requires Near(a, b, i) && Near(b, c, j) && i <= 200 && j <= 200 && c >= 0.0
    ensures Near(a, c, i + j + 1)
  {
    var r, s := i as real * ULP, j as real * ULP;
    Widened(b, c, r, s);
    Summed(c, i, j);
  }

  lemma {:induction false} Widened(b: real, c: real, r: real, s: real)
    requires 0.0 <= s <= 200.0 * ULP && 0.0 <= r <= 200.0 * ULP && c >= 0.0 && Abs(b - c) <= c * s
    ensures b * r <= c * r + c * ULP
  {
    SmallProduct(s, r);
    MulLe(b, c + c * s, r);
    Distributes(c, c * s, r);
    MulLe(s * r, ULP, c);
    Regroup(c, s, r);
    Commutes(s * r, c);
  }

  lemma {:induction false} SmallProduct(s: real, r: real)
    requires 0.0 <= s <= 200.0 * ULP && 0.0 <= r <= 200.0 * ULP
    ensures s * r <= ULP
  {
    Products(s, 1.0 / 200.0, r, 200.0 * ULP);
  }

  lemma {:induction false} Summed(c: real, i: nat, j: nat)
    ensures c * ((i + j + 1) as real * ULP) == c * (i as real * ULP) + c * (j as real * ULP) + c * ULP
  {
    assert (i + j + 1) as real * ULP == i as real * ULP + j as real * ULP + ULP;
    Spread(c, i as real * ULP, j as real * ULP, ULP);
  }

  lemma {:induction false} Spread(c: real, x: real, y: real, z: real)
    ensures c * (x + y + z) == c * x + c * y + c * z
  {}

  lemma {:induction false} NearTimes(a: real, b: real, c: real, i: nat)
    requires Near(a, b, i) && c >= 0.0
    ensures Near(a * c, b * c, i)
  {
    var r := i as real * ULP;
    Distributes(a, b, c);
    AbsTimes(a - b, c);
    MulLe(Abs(a - b), b * r, c);
    Swap(b, r, c);
  }

  lemma {:induction false} AbsTimes(d: real, c: real)
    requires c >= 0.0
    ensures Abs(d * c) == Abs(d) * c
  {
    if d >= 0.0 {
      MulLe(0.0, d, c);
    } else {
      MulLe(d, 0.0, c);
    }
  }

  lemma {:induction false} Swap(a: real, b: real, c: real)
    ensures a * b * c == a * c * b
  {}

  lemma {:induction false} NearBoth(a: nonneg, b: nonneg, c: nonneg, d: nonneg, i: nat, j: nat)
    requires Near(a, b, i) && Near(c, d, j) && i <= 200 && j <= 200
    ensures Near(Product(a, c), Product(b, d), i + j + 1)
  {
    NearTimes(a, b, c, i);
    NearTimes(c, d, b, j);
    Commutes(b, c);
    Commutes(b, d);
    Products(0.0, b, 0.0, d);
    Chain(a * c, b * c, b * d, i, j);
  }

  lemma {:induction false} Commutes(a: real, b: real)
    ensures a * b == b * a
  {}

  /** Dividing by something near divides to something near. */
  lemma {:induction false} NearUnder(n: nonneg, s: nonneg, t: nonneg, i: nat)
    requires Near(s, t, i) && i <= 200 && s > 0.0 && t > 0.0
    ensures Near(Ratio(n, s), Ratio(n, t), 2 * i)
  {
    hide Abs;
    Divided(n, s);
    Divided(n, t);
    HalfAtLeast(s, t, i);
    AbsSwaps(s, t);
    Under(n / s, n / t, s, t, i as real * ULP);
    assert (2 * i) as real * ULP == 2.0 * (i as real * ULP);
  }

  lemma {:induction false} AbsSwaps(s: real, t: real)
    ensures Abs(s - t) == Abs(t - s)
  {}

  lemma {:induction false} AbsSame(a: real, b: real)
    requires a == b
    ensures Abs(a) == Abs(b)
  {}

  lemma {:induction false} Under(x: real, y: real, s: real, t: real, r: real)
    requires x * s == y * t && s > 0.0 && y >= 0.0 && r >= 0.0
    requires 0.0 < t <= 2.0 * s && Abs(t - s) <= t * r
    ensures Abs(x - y) <= y * (2.0 * r)
  {
    hide Abs;
    var a, b := x - y, t - s;
    Cross(x, y, s, t);
    SameProducts(a, s, b, y);
    MulLe(Abs(b), t * r, y);
    TwiceUnder(y, s, t, r);
    LessOrSame(Abs(a), y * (2.0 * r), s);
  }

  lemma {:induction false} SameProducts(a: real, s: real, b: real, y: real)
    requires a * s == b * y && s >= 0.0 && y >= 0.0
    ensures Abs(a) * s == Abs(b) * y
  {
    hide Abs;
    AbsTimes(a, s);
    AbsTimes(b, y);
    AbsSame(a * s, b * y);
  }

  lemma {:induction false} TwiceUnder(y: real, s: real, t: real, r: real)
    requires y >= 0.0 && r >= 0.0 && t <= 2.0 * s
    ensures t * r * y <= y * (2.0 * r) * s
  {
    MulLe(0.0, r, y);
    MulLe(t, 2.0 * s, r * y);
    Grouped(t, r, y, s);
  }

  lemma {:induction false} Cross(x: real, y: real, s: real, t: real)
    requires x * s == y * t
    ensures (x - y) * s == (t - s) * y
  {}

  lemma {:induction false} Grouped(t: real, r: real, y: real, s: real)
    ensures t * r * y == t * (r * y) && 2.0 * s * (r * y) == y * (2.0 * r) * s
  {}

  lemma {:induction false} LessOrSame(a: real, b: real, s: real)
    requires s > 0.0 && a * s <= b * s
    ensures a <= b
  {
    if a > b {
      MulLess(b, a, s);
    }
  }

  lemma {:induction false} HalfAtLeast(s: real, t: real, i: nat)
    requires Near(s, t, i) && i <= 200 && t > 0.0
    ensures t <= 2.0 * s && s <= 2.0 * t
  {
    WithinHalf(s, t, i as real * ULP);
  }

  lemma {:induction false} WithinHalf(s: real, t: real, r: real)
    requires Abs(s - t) <= t * r && r <= 0.5 && t > 0.0
    ensures t <= 2.0 * s && s <= 2.0 * t
  {
    Commutes(t, r);
    MulLe(r, 0.5, t);
  }

  lemma {:induction false} RoundIsNear(x: real)
    requires Pow2(-1022) <= x < Pow2(1023)
    ensures Round(x).Finite? && Near(Round(x).value, x, 1)
  {
    hide Round, Pow2;
    RoundNormal(x);
    Pow2Values();
    assert Pow2(-53) == ULP;
  }

  // ------------------------------------------------------------------ the scale

  const FAR: nat := 36

  lemma {:induction false} ScaleUnfolds(k: nat)
    ensures ScaleOf(0) == Finite(1.0)
    ensures k > 0 ==> ScaleOf(k) == Mul(ScaleOf(k - 1), Finite(10.0))
  {
    hide Round;
    IntExact(1);
  }

  /** Ten to the k lies between the powers of eight and sixteen. */
  lemma {:induction false} Pow10Powers(k: nat)
    ensures Pow2(3 * k) <= Pow10(k) as real <= Pow2(4 * k)
  {
    Small();
    hide Pow2;
    if k > 0 {
      Pow10Powers(k - 1);
      Pow2Add(3 * (k - 1), 3);
      Pow2Add(4 * (k - 1), 4);
      Eight();
    }
  }

  lemma {:induction false} Eight()
    ensures Pow2(3) == 8.0
  {
    assert Pow2(2) == 4.0;
  }

  lemma {:induction false} ScaleNear(k: nat)
    requires k <= FAR
    ensures ScaleOf(k).Finite? && Near(ScaleOf(k).value, Pow10(k) as real, 2 * k)
  {
    ScaleUnfolds(k);
    hide ScaleOf, Near, Pow10, Mul;
    if k > 0 {
      ScaleNear(k - 1);
      Pow10Next(k);
      ScaleStep(ScaleOf(k - 1), Pow10(k - 1) as real, k - 1);
    } else {
      ScaleStart();
    }
  }

  lemma {:induction false} ScaleStart()
    ensures Near(1.0, Pow10(0) as real, 0)
  {}

  lemma {:induction false} ScaleStep(d: Double, t: real, k: nat)
    requires d.Finite? && k < FAR && t == Pow10(k) as real && d.value >= 1.0 && Near(d.value, t, 2 * k)
    ensures var r := Mul(d, Finite(10.0)); r.Finite? && Near(r.value, t * 10.0, 2 * k + 2)
  {
    hide Round, Pow2, Near, Pow10;
    var x := Product(d.value, 10.0);
    ScaleRange(d.value, t, k);
    RoundIsNear(x);
    NearTimes(d.value, t, 10.0, 2 * k);
    Chain(Round(x).value, x, t * 10.0, 1, 2 * k);
  }

  lemma {:induction false} Pow10Next(k: nat)
    requires k > 0
    ensures Pow10(k) as real == Pow10(k - 1) as real * 10.0
  {}

  lemma {:induction false} ScaleRange(s: real, t: real, k: nat)
    requires k <= FAR && t == Pow10(k) as real && s >= 1.0 && Near(s, t, 2 * k)
    ensures Pow2(-1022) <= s * 10.0 < Pow2(1023)
  {
    Small();
    hide Pow2, Near, Pow10;
    HalfAtLeast(s, t, 2 * k);
    Pow10Powers(k);
    Pow2Grows(-1022, 0);
    Pow2Grows(4 * k, 200);
    Doubled5(200);
    Pow2Grows(205, 1023);
  }

  lemma {:induction false} Doubled5(e: int)
    ensures Pow2(e + 5) == 32.0 * Pow2(e)
  {
    hide Pow2;
    Pow2Next(e);
    Pow2Next(e + 1);
    Pow2Next(e + 2);
    Pow2Next(e + 3);
    Pow2Next(e + 4);
  }

  /** Far out the scale is huge, or infinite. */
  lemma {:induction false} ScaleFar(k: nat)
    requires k >= FAR
    ensures ScaleOf(k).Finite? ==> ScaleOf(k).value >= Pow2(107)
  {
    ScaleUnfolds(k);
    hide Round, Pow2, ScaleOf, Near, Pow10;
    if k == FAR {
      ScaleNear(k);
      Pow10Powers(k);
      HalfAtLeast(ScaleOf(k).value, Pow10(k) as real, 2 * k);
      Pow2Next(107);
    } else {
      ScaleFar(k - 1);
      ScaleGrows(ScaleOf(k - 1), 107);
    }
  }

  // -------------------------------------------------------------------- the part

  /** A unit over ten to the k. */
  function Share(unit: nat, k: nat): nonneg {
    Ratio(unit as real, Pow10(k) as real)
  }

  /** f of those. */
  function Named(f: nat, k: nat, unit: nat): nonneg {
    Product(f as real, Share(unit, k))
  }

  lemma {:induction false} NamedBelow(f: nat, k: nat, unit: nat)
    requires f < Pow10(k)
    ensures Named(f, k, unit) <= unit as real && (unit > 0 ==> Named(f, k, unit) < unit as real)
  {
    hide Pow10, Product, Ratio;
    FractionBelow(f as real, unit as real, Pow10(k) as real);
  }

  lemma {:induction false} FractionBelow(f: nonneg, n: nonneg, t: nonneg)
    requires f < t
    ensures Product(f, Ratio(n, t)) <= n && (n > 0.0 ==> Product(f, Ratio(n, t)) < n)
  {
    var x := Ratio(n, t);
    Divided(n, t);
    Commutes(x, t);
    MulLe(f, t, x);
    if n > 0.0 {
      PositiveFactor(x, t);
      MulLess(f, t, x);
    }
  }

  lemma {:induction false} PositiveFactor(x: nonneg, t: nonneg)
    requires x * t > 0.0
    ensures x > 0.0
  {}

  lemma {:induction false} NearPart(f: nat, k: nat, unit: nat)
    requires 0 < f <= INT64_MAX && f < Pow10(k) && 0 < unit <= HOUR && k <= FAR
    ensures Near(Computed(f, k, unit).value, Named(f, k, unit), 4 * k + 6)
  {
    StepsFinite(f, k, unit);
    hide Round, Pow2, ScaleOf, Near, Pow10, Share;
    var q := Div(OfInt(unit), ScaleOf(k));
    NearQuotient(k, unit);
    FirstFactor(f);
    NearProduct(OfInt(f), f as real, q, Share(unit, k), k);
  }

  lemma {:induction false} NearQuotient(k: nat, unit: nat)
    requires 0 < unit <= HOUR && k <= FAR
    ensures OfInt(unit).Finite?
    ensures var q := Div(OfInt(unit), ScaleOf(k));
            q.Finite? && q.value >= Pow2(-145) && Near(q.value, Share(unit, k), 4 * k + 2)
  {
    ScaleNear(k);
    IntExact(unit);
    NearDivided(unit, ScaleOf(k), Pow10(k) as real, k);
  }

  lemma {:induction false} NearDivided(unit: nat, d: Double, t: nonneg, k: nat)
    requires 0 < unit <= HOUR && k <= FAR && t == Pow10(k) as real && OfInt(unit) == Finite(unit as real)
    requires d.Finite? && d.value >= 1.0 && Near(d.value, t, 2 * k)
    ensures var q := Div(OfInt(unit), d);
            q.Finite? && q.value >= Pow2(-145) && Near(q.value, Ratio(unit as real, t), 4 * k + 2)
  {
    hide Round, Pow2, Near, Pow10, Ratio;
    NearUnder(unit as real, d.value, t, 2 * k);
    QuotientRange(d.value, t, k, unit);
    var x := Ratio(unit as real, d.value);
    RoundIsNear(x);
    RoundAbove(x, -145);
    Chain(Round(x).value, x, Ratio(unit as real, t), 1, 4 * k);
  }

  lemma {:induction false} NearProduct(a: Double, b: nonneg, c: Double, d: nonneg, k: nat)
    requires a.Finite? && c.Finite? && k <= FAR
    requires 1.0 <= a.value <= Pow2(63) && Pow2(-145) <= c.value <= Pow2(42)
    requires Near(a.value, b, 1) && Near(c.value, d, 4 * k + 2)
    ensures Mul(a, c).Finite? && Near(Mul(a, c).value, Product(b, d), 4 * k + 6)
  {
    hide Round, Pow2, Near;
    var y := Product(a.value, c.value);
    NearBoth(a.value, b, c.value, d, 1, 4 * k + 2);
    ProductRange(a.value, c.value);
    RoundIsNear(y);
    Chain(Round(y).value, y, Product(b, d), 1, 4 * k + 4);
  }

  lemma {:induction false} QuotientRange(s: nonneg, t: real, k: nat, unit: nat)
    requires k <= FAR && t == Pow10(k) as real && s >= 1.0 && Near(s, t, 2 * k) && 0 < unit <= HOUR
    ensures var x := Ratio(unit as real, s); Pow2(-145) <= x && Pow2(-1022) <= x < Pow2(1023)
  {
    Powers();
    hide Pow2, Near, Ratio;
    HalfAtLeast(s, t, 2 * k);
    Pow10Powers(k);
    Pow2Grows(4 * k, 144);
    Pow2Next(144);
    RatioRange(unit as real, s, 145, 42);
    Pow2Grows(-1022, -145);
    Pow2Grows(42, 1022);
    Pow2Next(1022);
  }

  lemma {:induction false} RatioRange(n: nonneg, s: nonneg, i: int, j: int)
    requires 1.0 <= n <= Pow2(j) && 1.0 <= s <= Pow2(i)
    ensures Pow2(-i) <= Ratio(n, s) <= Pow2(j)
  {
    Small();
    hide Pow2;
    Pow2Add(-i, i);
    Divided(n, s);
    ByOne(n, s);
    AtLeastInverse(Ratio(n, s), s, Pow2(-i), Pow2(i));
  }

  lemma {:induction false} AtLeastInverse(x: real, s: real, a: real, b: real)
    requires x * s >= 1.0 && 0.0 < s <= b && a * b == 1.0 && a > 0.0
    ensures a <= x
  {
    if x < a {
      MulLess(x, a, s);
      MulLe(s, b, a);
      Commutes(s, a);
      Commutes(b, a);
    }
  }

  lemma {:induction false} FirstFactor(f: nat)
    requires 0 < f <= INT64_MAX
    ensures OfInt(f).Finite? && 1.0 <= OfInt(f).value <= Pow2(63) && Near(OfInt(f).value, f as real, 1)
  {
    Powers();
    Small();
    hide Round, Pow2, Near;
    Pow2Grows(-1022, 0);
    Pow2Grows(63, 1022);
    Pow2Next(1022);
    RoundIsNear(f as real);
    RoundAbove(f as real, 0);
    RoundBelow(f as real, 63);
  }

  lemma {:induction false} ProductRange(g: nonneg, q: nonneg)
    requires 1.0 <= g <= Pow2(63) && Pow2(-145) <= q <= Pow2(42)
    ensures Pow2(-1022) <= Product(g, q) < Pow2(1023)
  {
    hide Pow2;
    ProductBounds(g, q, 63, 42);
    Pow2Grows(-1022, -145);
    Pow2Grows(105, 1022);
    Pow2Next(1022);
  }

  lemma {:induction false} ProductBounds(g: nonneg, q: nonneg, i: nat, j: nat)
    requires 1.0 <= g <= Pow2(i) && q <= Pow2(j)
    ensures q <= Product(g, q) <= Pow2(i + j)
  {
    hide Pow2;
    Pow2Add(i, j);
    MulLe(1.0, g, q);
    Products(g, Pow2(i), q, Pow2(j));
  }

  lemma {:induction false} FarPart(f: nat, k: nat, unit: nat)
    requires f <= INT64_MAX && unit <= HOUR && k >= FAR
    ensures Part(f, k, unit) == 0
  {
    StepsFinite(f, k, unit);
    PartIs(f, k, unit);
    ComputedIs(f, k, unit);
    hide *;
    ScaleFar(k);
    Powers();
    RoundBelow(unit as real, 42);
    OfIntIs(unit);
    FarQuotient(OfInt(unit), ScaleOf(k));
    FarProduct(OfInt(f), Div(OfInt(unit), ScaleOf(k)));
    Quarter();
  }

  lemma {:induction false} OfIntIs(n: nat)
    ensures OfInt(n) == Round(n as real)
  {}

  lemma {:induction false} ComputedIs(f: nat, k: nat, unit: nat)
    requires f <= INT64_MAX && unit <= HOUR
    ensures OfInt(f).Finite? && OfInt(unit).Finite? && Div(OfInt(unit), ScaleOf(k)).Finite?
    ensures Computed(f, k, unit) == Mul(OfInt(f), Div(OfInt(unit), ScaleOf(k)))
  {
    StepsFinite(f, k, unit);
    hide OfInt, Div, ScaleOf, Mul;
  }

  lemma {:induction false} FarQuotient(a: Double, s: Double)
    requires a.Finite? && a.value <= Pow2(42)
    requires s.Finite? ==> s.value >= Pow2(107)
    ensures Div(a, s).Finite? && Div(a, s).value <= Pow2(-65)
  {
    hide Round, Pow2;
    if s.Finite? {
      Pow2Add(-65, 107);
      AtMostQuotient(a.value, s.value, Pow2(-65), Pow2(107));
      RoundBelow(Ratio(a.value, s.value), -65);
    }
  }

  lemma {:induction false} AtMostQuotient(n: nonneg, s: nonneg, a: real, b: real)
    requires n <= a * b && 0.0 < b <= s && a > 0.0
    ensures Ratio(n, s) <= a
  {
    var x := Ratio(n, s);
    Divided(n, s);
    if x > a {
      MulLess(a, x, s);
      MulLe(b, s, a);
      Commutes(s, a);
      Commutes(b, a);
    }
  }

  lemma {:induction false} FarProduct(a: Double, b: Double)
    requires a.Finite? && b.Finite? && a.value <= Pow2(63) && b.value <= Pow2(-65)
    ensures Mul(a, b).Finite? && Mul(a, b).value <= Pow2(-2)
  {
    hide Round, Pow2;
    Pow2Add(63, -65);
    ProductsBelow(a.value, b.value, Pow2(63), Pow2(-65), Pow2(-2));
    RoundBelow(Product(a.value, b.value), -2);
  }

  lemma {:induction false} ProductsBelow(x: nonneg, y: nonneg, b: real, d: real, e: real)
    requires x <= b && y <= d && e == b * d
    ensures Product(x, y) <= e
  {
    Products(x, b, y, d);
  }

  lemma {:induction false} FarNamed(f: nat, k: nat, unit: nat)
    requires f <= INT64_MAX && unit <= HOUR && k >= FAR
    ensures Named(f, k, unit) <= Pow2(-2)
  {
    Powers();
    Small();
    hide Pow2;
    Pow10Powers(k);
    Pow2Grows(107, 3 * k);
    Pow2Add(-65, 107);
    AtMostQuotient(unit as real, Pow10(k) as real, Pow2(-65), Pow2(107));
    Pow2Add(63, -65);
    ProductsBelow(f as real, Share(unit, k), Pow2(63), Pow2(-65), Pow2(-2));
  }

  /** The value of any fraction, truncated, with less than a tenth of a nanosecond of rounding: never more
      than a unit, at most 0.07 above what the digits name and less than 1.07 below. */
  lemma {:induction false} PartClose(f: nat, k: nat, unit: nat)
    requires f <= INT64_MAX && f < Pow10(k) && 0 < unit <= HOUR
    ensures -1.07 < Part(f, k, unit) as real - Named(f, k, unit) <= 0.07
    ensures Part(f, k, unit) <= unit
  {
    hide Computed, Named, Near, Pow10, Part;
    NamedBelow(f, k, unit);
    PartIs(f, k, unit);
    if f == 0 {
      NoFraction(k, unit);
    } else if k >= FAR {
      FarClose(f, k, unit);
    } else {
      NearClose(f, k, unit);
      Truncated(Computed(f, k, unit).value, Named(f, k, unit), unit);
    }
  }

  lemma {:induction false} FarClose(f: nat, k: nat, unit: nat)
    requires f <= INT64_MAX && 0 < unit <= HOUR && k >= FAR
    ensures Part(f, k, unit) == 0 && 0.0 <= Named(f, k, unit) <= 0.25
  {
    hide Computed, Named, Part;
    FarPart(f, k, unit);
    FarNamed(f, k, unit);
    Quarter();
  }

  lemma {:induction false} NearClose(f: nat, k: nat, unit: nat)
    requires 0 < f <= INT64_MAX && f < Pow10(k) && 0 < unit <= HOUR && k < FAR
    ensures -0.07 < Computed(f, k, unit).value - Named(f, k, unit) < 0.07
  {
    hide Computed, Named, Near, Pow10;
    NamedBelow(f, k, unit);
    NearPart(f, k, unit);
    NearMeans(Computed(f, k, unit).value, Named(f, k, unit), 4 * k + 6);
  }

  lemma {:induction false} PartIs(f: nat, k: nat, unit: nat)
    requires f <= INT64_MAX && unit <= HOUR
    ensures Part(f, k, unit) == Computed(f, k, unit).value.Floor
  {}

  lemma {:induction false} Truncated(p: nonneg, v: nonneg, unit: nat)
    requires -0.07 < p - v < 0.07 && v < unit as real
    ensures -1.07 < p.Floor as real - v <= 0.07 && p.Floor <= unit
  {}

  lemma {:induction false} Quarter()
    ensures Pow2(-2) == 0.25
  {
    assert Pow2(-1) == 0.5;
  }

  lemma {:induction false} NearMeans(p: real, v: real, i: nat)
    requires Near(p, v, i) && 0.0 <= v <= HOUR as real && i <= 150
    ensures -0.07 < p - v < 0.07
  {
    Products(v, 3600_000_000_000.0, i as real * ULP, 150.0 * ULP);
  }

  lemma {:induction false} NoFraction(k: nat, unit: nat)
    requires unit <= HOUR
    ensures Part(0, k, unit) == 0 && Named(0, k, unit) == 0.0
  {
    StepsFinite(0, k, unit);
    hide Round, ScaleOf, Pow2;
    IntExact(0);
    var q := Div(OfInt(unit), ScaleOf(k)).value;
    assert Product(0.0, q) == 0.0;
    assert OfInt(0) == Round(0.0);
  }

  /** Digits dropped behind k of them: what they name lies less than one share of a unit above. */
  lemma {:induction false} NamedWithin(f: nat, k: nat, g: nat, n: nat, unit: nat)
    requires k <= n && f * Pow10(n - k) <= g < (f + 1) * Pow10(n - k)
    ensures Named(f, k, unit) <= Named(g, n, unit) <= Named(f, k, unit) + Share(unit, k)
  {
    Shares(unit, k, n);
    hide Pow10, Product, Share;
    Bracket(f, g, Pow10(n - k), Share(unit, n), Share(unit, k));
  }

  lemma {:induction false} Shares(unit: nat, k: nat, n: nat)
    requires k <= n
    ensures Share(unit, k) == Product(Share(unit, n), Pow10(n - k) as real)
  {
    Pow10Add(k, n - k);
    hide Pow10, Ratio, Product;
    TimesAsReal(Pow10(n), Pow10(k), Pow10(n - k));
    Refined(unit as real, Pow10(k) as real, Pow10(n - k) as real, Pow10(n) as real);
  }

  lemma {:induction false} TimesAsReal(p: nat, a: nat, b: nat)
    requires p == a * b
    ensures p as real == a as real * b as real
  {}

  lemma {:induction false} ShareSmall(unit: nat, k: nat)
    requires unit <= HOUR && Pow10(k) > INT64_MAX / 10
    ensures Share(unit, k) <= 0.005
  {
    hide Pow10, Ratio;
    RatioSmall(unit as real, Pow10(k) as real, 0.005);
  }

  lemma {:induction false} RatioSmall(n: nonneg, t: nonneg, e: real)
    requires t > 922_337_203_685_477_580.0 && n <= 922_337_203_685_477_580.0 * e && e > 0.0
    ensures Ratio(n, t) <= e
  {
    AtMostQuotient(n, t, e, 922_337_203_685_477_580.0);
  }

  lemma {:induction false} Refined(n: nonneg, t: nonneg, m: nonneg, tm: nonneg)
    requires t > 0.0 && m > 0.0 && tm > 0.0 && tm == t * m
    ensures Ratio(n, t) == Product(Ratio(n, tm), m)
  {
    var x, y := Ratio(n, t), Ratio(n, tm);
    Divided(n, t);
    Divided(n, tm);
    SameQuotient(x, y, t, m);
  }

  lemma {:induction false} SameQuotient(x: real, y: real, t: real, m: real)
    requires t > 0.0 && x * t == y * (t * m)
    ensures x == y * m
  {
    var z := y * m;
    assert y * (t * m) == z * t;
    var d := x - z;
    assert d * t == x * t - z * t;
    assert d == 0.0;
  }

  lemma {:induction false} Bracket(f: nat, g: nat, m: nat, fine: nonneg, coarse: nonneg)
    requires f * m <= g < (f + 1) * m && coarse == Product(fine, m as real)
    ensures Product(f as real, coarse) <= Product(g as real, fine) <= Product(f as real, coarse) + coarse
  {
    InSteps(f, m, fine, coarse);
    var lo, hi := f * m, (f + 1) * m;
    StepsBetween(lo, g, hi, fine);
  }

  lemma {:induction false} StepsBetween(lo: nat, g: nat, hi: nat, fine: nonneg)
    requires lo <= g < hi
    ensures lo as real * fine <= Product(g as real, fine) <= hi as real * fine
  {
    MulLe(lo as real, g as real, fine);
    MulLe(g as real, hi as real, fine);
  }

  lemma {:induction false} InSteps(f: nat, m: nat, fine: real, coarse: real)
    requires coarse == fine * m as real
    ensures (f * m) as real * fine == f as real * coarse
    ensures ((f + 1) * m) as real * fine == f as real * coarse + coarse
  {
    var x, y := f as real, m as real;
    assert (f * m) as real == x * y;
    assert ((f + 1) * m) as real == x * y + y;
    Associates(x, y, fine);
    Distributes(x * y, y, fine);
  }

  lemma {:induction false} Associates(x: real, y: real, z: real)
    ensures x * y * z == x * (z * y)
  {}

  // ---------------------------------------------------------- exact fractions

  lemma {:induction false} Pow10Grows(j: nat, k: nat)
    requires j <= k
    ensures Pow10(j) <= Pow10(k)
  {
    if j < k {
      Pow10Grows(j, k - 1);
    }
  }

  lemma {:induction false} FewDigits(unit: nat, k: nat)
    requires 0 < unit <= HOUR && unit % Pow10(k) == 0
    ensures k <= 12 && Pow10(k) <= 1_000_000_000_000
  {
    assert Pow10(13) == 10_000_000_000_000;
    assert Pow10(12) == 1_000_000_000_000;
    if k >= 13 {
      Pow10Grows(13, k);
      SmallRemainder(unit, Pow10(k));
    } else {
      Pow10Grows(k, 12);
    }
  }

  lemma {:induction false} SmallRemainder(a: nat, b: nat)
    requires a < b
    ensures a % b == a
  {}

  lemma {:induction false} ScaleExact(k: nat)
    requires k <= 12
    ensures ScaleOf(k) == Finite(Pow10(k) as real)
  {
    ScaleUnfolds(k);
    hide Round, ScaleOf;
    if k > 0 {
      ScaleExact(k - 1);
      Pow10Next(k);
      assert Pow10(12) == 1_000_000_000_000;
      Pow10Grows(k, 12);
      IntExact(Pow10(k));
      assert Product(Pow10(k - 1) as real, 10.0) == Pow10(k) as real;
    }
  }

  /** Where the digits divide the unit the double arithmetic is exact. */
  lemma {:induction false} PartExact(f: nat, k: nat, unit: nat)
    requires f <= INT64_MAX && f < Pow10(k) && 0 < unit <= HOUR && unit % Pow10(k) == 0
    ensures Part(f, k, unit) == f * (unit / Pow10(k))
  {
    FewDigits(unit, k);
    ScaleExact(k);
    hide Part, ScaleOf, Pow10;
    var n := Whole(unit, Pow10(k), f);
    IntegersOnly(f, k, unit, Pow10(k), n);
  }

  lemma {:induction false} IntegersOnly(f: nat, k: nat, unit: nat, t: nat, n: nat)
    requires t > 0 && unit == n * t && f < t <= 1_000_000_000_000 && unit <= HOUR && f * n <= unit
    requires f <= INT64_MAX && ScaleOf(k) == Finite(t as real)
    ensures Part(f, k, unit) == f * n
  {
    StepsFinite(f, k, unit);
    ExactRatio(unit, n, t);
    ExactProduct(f, n);
    hide Round, ScaleOf, Product, Ratio;
    IntExact(unit);
    IntExact(n);
    IntExact(f);
    IntExact(f * n);
  }

  lemma {:induction false} Whole(unit: nat, t: nat, f: nat) returns (n: nat)
    requires t > 0 && unit % t == 0 && f < t
    ensures n == unit / t && unit == n * t && 0 <= f * n <= unit && f * n == f * (unit / t)
  {
    n := unit / t;
    MulGrows(f, t, n);
  }

  lemma {:induction false} ExactRatio(unit: nat, n: nat, t: nat)
    requires t > 0 && unit == n * t
    ensures Ratio(unit as real, t as real) == n as real && n <= unit
  {
    MulGrows(1, t, n);
    assert unit as real == n as real * t as real;
    Quotient(unit as real, n as real, t as real);
  }

  lemma {:induction false} ExactProduct(f: nat, n: nat)
    ensures Product(f as real, n as real) == (f * n) as real
  {}
}
