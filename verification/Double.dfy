/** Non-negative IEEE 754 double-precision numbers: rounding to nearest with ties to even. */
module Double {
  import opened Bytes

  const PRECISION: nat := 9007199254740992
  const LEAST := -1074
  const GREATEST := 971

  type nonneg = x: real | 0.0 <= x witness 0.0

  datatype Double = Finite(value: nonneg) | Infinite

  /** The power of two with any exponent. */
  function Pow2(e: int): (p: real)
    ensures p > 0.0
  {
    if e >= 0 then TwoTo(e) as real else 1.0 / TwoTo(-e) as real
  }

  /** The nearest integer, the even one of two. */
  function Nearest(y: real): (n: nat)
    requires y >= 0.0
  {
    var f := y.Floor;
    var d := y - f as real;
    if d < 0.5 || (d == 0.5 && f % 2 == 0) then f else f + 1
  }

  /** Halfway between two integers the even one is taken. */
  lemma {:induction false} TiesToEven(m: nat)
    ensures Nearest(m as real + 0.5) == if m % 2 == 0 then m else m + 1
  {
    assert (m as real + 0.5).Floor == m;
  }

  /** The exponent of x's last significand bit: the greatest, from e down, that leaves 53 bits. */
  function Exponent(x: real, e: int): (r: int)
    requires LEAST <= e
    ensures LEAST <= r <= e
    ensures r > LEAST ==> Pow2(52 + r) <= x
    ensures r < e ==> x < Pow2(53 + r)
    decreases e - LEAST
  {
    if e == LEAST || Pow2(52 + e) <= x then e
    else
      Pow2Next(52 + e - 1);
      Exponent(x, e - 1)
  }

  function Round(x: real): Double
    requires x >= 0.0
  {
    var e := Exponent(x, GREATEST);
    var m := Significand(x);
    if m >= PRECISION && e == GREATEST then Infinite else Finite(Scaled(m, e))
  }

  function Significand(x: real): nat
    requires x >= 0.0
  {
    Nearest(Ratio(x, Pow2(Exponent(x, GREATEST))))
  }

  function Scaled(m: nat, e: int): nonneg {
    m as real * Pow2(e)
  }

  function OfInt(n: nat): Double {
    Round(n as real)
  }

  function Product(x: nonneg, y: nonneg): nonneg {
    x * y
  }

  function Ratio(x: nonneg, y: nonneg): nonneg
    requires y > 0.0
  {
    x / y
  }

  /** A product that is not of zero and infinity. */
  function Mul(a: Double, b: Double): Double
    requires a.Infinite? || b.Infinite? ==> a != Finite(0.0) && b != Finite(0.0)
  {
    if a.Infinite? || b.Infinite? then Infinite else Round(Product(a.value, b.value))
  }

  /** A quotient of a finite number by one that is not zero. */
  function Div(a: Double, b: Double): Double
    requires a.Finite? && b != Finite(0.0)
  {
    if b.Infinite? then Finite(0.0) else Round(Ratio(a.value, b.value))
  }

  /** The cast to an integer. */
  function Trunc(a: Double): nat
    requires a.Finite?
  {
    a.value.Floor
  }

  // -------------------------------------------------------------- powers of two

  lemma {:induction false} Pow2Next(e: int)
    ensures Pow2(e + 1) == 2.0 * Pow2(e)
  {}

  lemma {:induction false} Pow2Add(a: int, b: int)
    ensures Pow2(a + b) == Pow2(a) * Pow2(b)
    decreases if b < 0 then -b else b
  {
    Small();
    hide Pow2;
    if b > 0 {
      Pow2Next(a + b - 1);
      Pow2Next(b - 1);
      Pow2Add(a, b - 1);
      Doubled(Pow2(a), Pow2(b - 1));
    } else if b < 0 {
      Pow2Next(a + b);
      Pow2Next(b);
      Pow2Add(a, b + 1);
      Doubled(Pow2(a), Pow2(b));
    }
  }

  lemma {:induction false} Doubled(x: real, y: real)
    ensures x * (2.0 * y) == 2.0 * (x * y)
  {}

  lemma {:induction false} Pow2Grows(a: int, b: int)
    requires a <= b
    ensures Pow2(a) <= Pow2(b)
    decreases b - a
  {
    if a < b {
      Pow2Next(b - 1);
      Pow2Grows(a, b - 1);
    }
  }

  lemma {:induction false} Pow2Values()
    ensures Pow2(8) == 256.0 && Pow2(16) == 65536.0 && Pow2(32) == 4294967296.0
    ensures Pow2(52) == 4503599627370496.0 && Pow2(53) == PRECISION as real
    ensures Pow2(-53) * PRECISION as real == 1.0
  {
    hide Pow2;
    Small();
    Pow2Add(4, 4);
    Pow2Add(8, 8);
    Pow2Add(16, 16);
    Pow2Add(32, 16);
    Pow2Add(48, 4);
    Pow2Add(52, 1);
    Pow2Add(-53, 53);
  }

  lemma {:induction false} Small()
    ensures Pow2(0) == 1.0 && Pow2(1) == 2.0 && Pow2(4) == 16.0
  {
    assert Pow2(2) == 4.0;
  }

  // ------------------------------------------------------------------- rounding

  lemma {:induction false} NearestMeans(y: real)
    requires y >= 0.0
    ensures -0.5 <= Nearest(y) as real - y <= 0.5
    ensures y == y.Floor as real ==> Nearest(y) == y.Floor
  {}

  /** No integer is nearer. */
  lemma {:induction false} NearestIsNearest(y: real, n: int)
    requires y >= 0.0
    ensures Abs(Nearest(y) as real - y) <= Abs(n as real - y)
  {
    var f := y.Floor;
    if n <= f {
      assert n as real <= f as real;
    } else {
      assert n as real >= f as real + 1.0;
    }
  }

  function Abs(x: real): real {
    if x < 0.0 then -x else x
  }

  lemma {:induction false} Parts(x: real) returns (y: real, p: real)
    requires x >= 0.0
    ensures p == Pow2(Exponent(x, GREATEST)) && y >= 0.0 && x == y * p && Significand(x) == Nearest(y)
    ensures Round(x).Finite? ==> Round(x).value == Significand(x) as real * p
  {
    hide Nearest, Exponent, Pow2;
    p := Pow2(Exponent(x, GREATEST));
    y := x / p;
    Divided(x, p);
  }

  lemma {:induction false} Divided(x: real, p: real)
    requires p > 0.0
    ensures x / p * p == x && (x >= 0.0 ==> x / p >= 0.0)
  {}

  /** Rounding moves x by at most half a unit in the last place. */
  lemma {:induction false} RoundStep(x: real)
    requires x >= 0.0 && Round(x).Finite?
    ensures Abs(Round(x).value - x) <= Pow2(Exponent(x, GREATEST)) / 2.0
  {
    hide Nearest, Exponent, Pow2, Abs, Round, Significand;
    var y, p := Parts(x);
    NearestMeans(y);
    HalfStep(Round(x).value, x, Significand(x) as real, y, p);
  }

  lemma {:induction false} HalfStep(v: real, x: real, m: real, y: real, p: real)
    requires p > 0.0 && -0.5 <= m - y <= 0.5 && v == m * p && x == y * p
    ensures Abs(v - x) <= p / 2.0
  {
    var d, z := m - y, m * p - y * p;
    Distributes(m, y, p);
    MulLe(d, 0.5, p);
    MulLe(-0.5, d, p);
    assert z == d * p;
  }

  lemma {:induction false} Distributes(a: real, b: real, c: real)
    ensures (a - b) * c == a * c - b * c && (a + b) * c == a * c + b * c
  {}

  lemma {:induction false} MulLe(a: real, b: real, c: real)
    requires a <= b && c >= 0.0
    ensures a * c <= b * c
  {}

  /** No other multiple of the last place is nearer. */
  lemma {:induction false} RoundBeats(x: real, v: real, n: int)
    requires x >= 0.0 && Round(x).Finite? && v == n as real * Pow2(Exponent(x, GREATEST))
    ensures Abs(Round(x).value - x) <= Abs(v - x)
  {
    hide Nearest, Exponent, Pow2, Abs, Round, Significand;
    var y, p := Parts(x);
    NearestIsNearest(y, n);
    Stretch(Round(x).value, x, Significand(x) as real, y, p);
    Stretch(v, x, n as real, y, p);
    MulLe(Abs(Significand(x) as real - y), Abs(n as real - y), p);
  }

  lemma {:induction false} Stretch(v: real, x: real, a: real, b: real, p: real)
    requires p > 0.0 && v == a * p && x == b * p
    ensures Abs(v - x) == Abs(a - b) * p
  {
    Distributes(a, b, p);
    if a >= b {
      MulLe(0.0, a - b, p);
    } else {
      MulLe(a - b, 0.0, p);
      assert (b - a) * p == -((a - b) * p);
    }
  }

  /** A number with at most 53 significant bits in the exponent range. */
  ghost predicate Representable(y: real, n: nat, k: int) {
    n < PRECISION && LEAST <= k <= GREATEST && y == n as real * Pow2(k)
  }

  lemma {:induction false} Pow2IsInt(j: nat) returns (n: nat)
    ensures Pow2(j) == n as real
  {
    if j == 0 {
      n := 1;
    } else {
      n := Pow2IsInt(j - 1);
      n := 2 * n;
    }
  }

  /** At a coarser exponent k, y is a multiple of every finer place e. */
  lemma {:induction false} MultipleOf(n: nat, k: int, e: int) returns (m: nat)
    requires e <= k
    ensures n as real * Pow2(k) == m as real * Pow2(e)
  {
    hide Pow2;
    var q := Pow2IsInt(k - e);
    Pow2Add(k - e, e);
    m := n * q;
    Regroup(n as real, q as real, Pow2(e));
  }

  lemma {:induction false} Regroup(a: real, b: real, c: real)
    ensures a * (b * c) == a * b * c
  {}

  lemma {:induction false} BelowNext(n: nat, k: int)
    requires n < PRECISION
    ensures n as real * Pow2(k) < Pow2(53 + k)
  {
    Pow2Values();
    hide Pow2;
    Pow2Add(53, k);
    MulLess(n as real, PRECISION as real, Pow2(k));
  }

  lemma {:induction false} MulLess(a: real, b: real, c: real)
    requires a < b && c > 0.0
    ensures a * c < b * c
  {}

  /** Rounding to nearest: no representable number is nearer to x. */
  lemma {:induction false} RoundIsNearest(x: real, y: real, n: nat, k: int)
    requires x >= 0.0 && Round(x).Finite? && Representable(y, n, k)
    ensures Abs(Round(x).value - x) <= Abs(y - x)
  {
    hide Round, Pow2, Exponent, Abs;
    var e := Exponent(x, GREATEST);
    if e <= k {
      var m := MultipleOf(n, k, e);
      RoundBeats(x, y, m);
    } else {
      assert Pow2(52 + e) <= x;
      BelowNext(n, k);
      Pow2Grows(53 + k, 52 + e);
      var m := Pow2IsInt(52);
      Pow2Add(52, e);
      RoundBeats(x, Pow2(52 + e), m);
      Between(y, Pow2(52 + e), x);
    }
  }

  lemma {:induction false} Between(y: real, z: real, x: real)
    requires y <= z <= x
    ensures Abs(z - x) <= Abs(y - x)
  {}

  /** A representable integer is not changed. */
  lemma {:induction false} RoundExact(x: real, n: nat, k: nat)
    requires n < PRECISION && k < GREATEST && x == n as real * Pow2(k) && x >= 0.0
    ensures Round(x) == Finite(x)
  {
    hide Pow2, Exponent, Nearest;
    var e := Exponent(x, GREATEST);
    BelowNext(n, k);
    if e > k {
      Pow2Grows(53 + k, 52 + e);
    }
    var m := MultipleOf(n, k, e);
    Quotient(x, m as real, Pow2(e));
    NearestMeans(m as real);
    assert (m as real).Floor == m;
  }

  lemma {:induction false} Quotient(x: real, m: real, p: real)
    requires p > 0.0 && x == m * p
    ensures x / p == m
  {}

  lemma {:induction false} IntExact(n: nat)
    requires n < PRECISION
    ensures OfInt(n) == Finite(n as real)
  {
    hide Round, Pow2;
    Small();
    One(n as real, Pow2(0));
    RoundExact(n as real, n, 0);
  }

  lemma {:induction false} One(x: real, p: real)
    requires p == 1.0
    ensures x * p == x
  {}

  /** In the normal range, to within one part in 2^53. */
  lemma {:induction false} RoundNormal(x: real)
    requires Pow2(-1022) <= x < Pow2(1023)
    ensures Round(x).Finite? && Abs(Round(x).value - x) <= x * Pow2(-53)
  {
    hide Pow2, Exponent, Nearest, Round, Abs;
    var e := Exponent(x, GREATEST);
    RoundFinite(x);
    RoundStep(x);
    assert Pow2(52 + e) <= x;
    Pow2Add(52 + e, -53);
    assert 52 + e + -53 == e - 1;
    Pow2Next(e - 1);
    MulLe(Pow2(52 + e), x, Pow2(-53));
  }

  lemma {:induction false} RoundFinite(x: real)
    requires 0.0 <= x < Pow2(1023)
    ensures Round(x).Finite?
  {
    hide Pow2, Exponent, Nearest;
    var y, p := Parts(x);
    if Exponent(x, GREATEST) == GREATEST {
      Pow2Add(52, GREATEST);
      Pow2Values();
      NearestMeans(y);
      LessBy(y, Pow2(52), p);
    }
  }

  lemma {:induction false} LessBy(y: real, a: real, p: real)
    requires p > 0.0 && y * p < a * p
    ensures y < a
  {
    if y >= a {
      MulLe(a, y, p);
    }
  }

  lemma {:induction false} PowerIsOne(j: int)
    requires LEAST <= j <= GREATEST
    ensures Representable(Pow2(j), 1, j)
  {}

  /** Rounding does not cross a power of two. */
  lemma {:induction false} RoundAbove(x: real, j: int)
    requires LEAST <= j <= GREATEST && Pow2(j) <= x && Round(x).Finite?
    ensures Pow2(j) <= Round(x).value
  {
    hide Round, Pow2;
    PowerIsOne(j);
    RoundIsNearest(x, Pow2(j), 1, j);
  }

  lemma {:induction false} RoundBelow(x: real, j: int)
    requires LEAST <= j <= GREATEST && 0.0 <= x <= Pow2(j)
    ensures Round(x).Finite? && Round(x).value <= Pow2(j)
  {
    hide Round, Pow2;
    Pow2Grows(j, GREATEST);
    Pow2Below(x, j);
    RoundFinite(x);
    PowerIsOne(j);
    RoundIsNearest(x, Pow2(j), 1, j);
  }

  lemma {:induction false} Pow2Below(x: real, j: int)
    requires j <= GREATEST && x <= Pow2(j)
    ensures x < Pow2(1023)
  {
    hide Pow2;
    Pow2Next(j);
    Pow2Grows(j + 1, 1023);
  }
}
