/** Durations in nanoseconds: the text grammar of pam.d arguments and its parser. */
module Duration {
  import opened Bytes
  import opened Decimal
  import opened Fractions
  import Double

  const POINT: byte := '.' as int
  const PLUS: byte := '+' as int
  const MINUS: byte := '-' as int
  const SECOND := 1000_000_000

  // ----------------------------------------------------------------------- units

  const UNITS: seq<(bytes, nat)> := [
    (['n' as int, 's' as int], 1),
    (['u' as int, 's' as int], 1000),
    ([0xc2, 0xb5, 's' as int], 1000),
    ([0xce, 0xbc, 's' as int], 1000),
    (['m' as int, 's' as int], 1000_000),
    (['s' as int], SECOND),
    (['m' as int], 60_000_000_000),
    (['h' as int], HOUR)]

  /** No name is in the table twice, so the first match is the only one. */
  function UnitOf(name: bytes): (r: Option<nat>)
    ensures r.Some? ==> 0 < r.value <= HOUR
  {
    if name == UNITS[0].0 then Some(1)
    else if name == UNITS[1].0 || name == UNITS[2].0 || name == UNITS[3].0 then Some(1000)
    else if name == UNITS[4].0 then Some(1000_000)
    else if name == UNITS[5].0 then Some(SECOND)
    else if name == UNITS[6].0 then Some(60_000_000_000)
    else if name == UNITS[7].0 then Some(HOUR)
    else None
  }

  /** The eight names, with both spellings of the micro sign, and the nanoseconds of each. */
  lemma {:induction false} UnitIff(name: bytes, u: nat)
    ensures UnitOf(name) == Some(u) <==>
            || (name == Ascii("ns") && u == 1)
            || (name == Ascii("us") && u == 1_000)
            || (name == [0xc2, 0xb5] + Ascii("s") && u == 1_000)
            || (name == [0xce, 0xbc] + Ascii("s") && u == 1_000)
            || (name == Ascii("ms") && u == 1_000_000)
            || (name == Ascii("s") && u == 1_000_000_000)
            || (name == Ascii("m") && u == 60_000_000_000)
            || (name == Ascii("h") && u == 3_600_000_000_000)
  {
    assert Ascii("ns") == UNITS[0].0 && Ascii("us") == UNITS[1].0 && Ascii("ms") == UNITS[4].0;
    assert [0xc2, 0xb5] + Ascii("s") == UNITS[2].0 && [0xce, 0xbc] + Ascii("s") == UNITS[3].0;
    assert Ascii("s") == UNITS[5].0 && Ascii("m") == UNITS[6].0 && Ascii("h") == UNITS[7].0;
    hide Ascii;
  }

  method LookUp(name: bytes) returns (unit: nat)
    ensures unit == match UnitOf(name) case Some(u) => u case None => 0
    ensures unit <= HOUR && (unit > 0 <==> UnitOf(name).Some?)
  {
    unit := 0;
    for i := 0 to |UNITS|
      invariant unit == 0
      invariant forall k :: 0 <= k < i ==> UNITS[k].0 != name
    {
      if |UNITS[i].0| == |name| && UNITS[i].0 == name {
        return UNITS[i].1;
      }
    }
    assert forall k :: 0 <= k < 8 ==> UNITS[k].0 != name;
  }

  // ---------------------------------------------------------------- the fraction

  /** The fraction read so far: its digits as a number, how many were taken, and whether the
      64-bit accumulator has filled up, after which digits are dropped. */
  datatype Fraction = Fraction(value: nat, digits: nat, full: bool)

  function FractionStep(a: Fraction, c: byte): Fraction
    requires IsDigit(c)
  {
    var y := a.value * 10 + (c - '0' as int);
    if a.full || a.value > INT64_MAX / 10 || y > INT64_MAX then a.(full := true)
    else Fraction(y, a.digits + 1, false)
  }

  function FractionOf(s: bytes): (r: Fraction)
    requires AllDigits(s)
    ensures r.value <= INT64_MAX && r.value < Pow10(r.digits)
  {
    if s == [] then Fraction(0, 0, false) else FractionStep(FractionOf(s[..|s| - 1]), s[|s| - 1])
  }

  lemma {:induction false} FractionIsDec(s: bytes)
    requires AllDigits(s)
    ensures Dec(s) <= INT64_MAX ==> FractionOf(s) == Fraction(Dec(s), |s|, false)
  {
    if s != [] {
      FractionIsDec(s[..|s| - 1]);
    }
  }

  // ----------------------------------------------------------------------- terms

  /** What a fraction of a unit comes to; one that is zero takes no part in the arithmetic. */
  function FractionNanos(a: Fraction, unit: nat): nat
    requires a.value <= INT64_MAX && unit <= HOUR
  {
    if a.value > 0 then Part(a.value, a.digits, unit) else 0
  }

  /** One number with its unit: `1.5h` is whole `1`, a point, fraction `5`, unit `h`. */
  datatype Term = Term(whole: bytes, point: bool, frac: bytes, unit: bytes) {
    predicate Valid() {
      && AllDigits(whole) && AllDigits(frac)
      && (whole != [] || frac != []) && (frac != [] ==> point)
      && UnitOf(unit).Some?
    }

    function Print(): bytes {
      whole + ((if point then [POINT] + frac else []) + unit)
    }

    function UnitValue(): (u: nat)
      requires Valid()
      ensures 0 < u <= HOUR
    {
      UnitOf(unit).value
    }

    /** What the parser makes of the term before any overflow check. */
    function Nanos(): int
      requires Valid()
    {
      Dec(whole) * UnitValue() + FractionNanos(FractionOf(frac), UnitValue())
    }

    /** The fraction names a whole number of nanoseconds digit for digit. */
    predicate Exact()
      requires Valid()
    {
      Dec(frac) == 0 || UnitValue() % Pow10(|frac|) == 0
    }

    /** The number the term names, digit for digit. */
    function NamedNanos(): real
      requires Valid()
    {
      (Dec(whole) * UnitValue()) as real + Named(Dec(frac), |frac|, UnitValue())
    }

    function ExactNanos(): int
      requires Valid()
    {
      Dec(whole) * UnitValue() + Dec(frac) * (UnitValue() / Pow10(|frac|))
    }
  }

  /** A term that is exact reads as the number it names. */
  lemma {:induction false} NanosExact(t: Term)
    requires t.Valid() && t.Exact()
    ensures t.Nanos() == t.ExactNanos()
  {
    FractionIsDec(t.frac);
    DecBound(t.frac);
    hide UnitOf, Dec, FractionOf, Pow10, Part;
    if Dec(t.frac) > 0 {
      FewDigits(t.UnitValue(), |t.frac|);
      PartExact(Dec(t.frac), |t.frac|, t.UnitValue());
    }
  }

  /** Digits past a full accumulator are dropped; what was kept is the number's beginning. */
  lemma {:induction false} FractionDrops(s: bytes)
    requires AllDigits(s)
    ensures var a := FractionOf(s);
            && a.digits <= |s| && (!a.full ==> a.digits == |s| && a.value == Dec(s))
            && (a.full ==> a.value >= INT64_MAX / 10)
            && a.value * Pow10(|s| - a.digits) <= Dec(s) < (a.value + 1) * Pow10(|s| - a.digits)
  {
    if s != [] {
      var init := s[..|s| - 1];
      FractionDrops(init);
      var a := FractionOf(init);
      DropOne(a.value, Pow10(|init| - a.digits), Dec(init), Dec(s), s[|s| - 1] - '0' as int);
    }
  }

  lemma {:induction false} DropOne(f: nat, p: nat, g: nat, g': nat, d: nat)
    requires f * p <= g < (f + 1) * p && g' == g * 10 + d && d < 10
    ensures f * (10 * p) <= g' < (f + 1) * (10 * p)
  {
    assert f * (10 * p) == 10 * (f * p) && (f + 1) * (10 * p) == 10 * ((f + 1) * p);
  }

  lemma {:induction false} KeptIsNamed(frac: bytes, unit: nat)
    requires AllDigits(frac) && 0 < unit <= HOUR
    ensures var a := FractionOf(frac);
            Named(a.value, a.digits, unit) <= Named(Dec(frac), |frac|, unit) <= Named(a.value, a.digits, unit) + 0.005
  {
    var a := FractionOf(frac);
    FractionDrops(frac);
    hide *;
    if a.full {
      FullIsBig(a);
      NamedWithin(a.value, a.digits, Dec(frac), |frac|, unit);
      ShareSmall(unit, a.digits);
    }
  }

  lemma {:induction false} FullIsBig(a: Fraction)
    requires a.value >= INT64_MAX / 10 && a.value < Pow10(a.digits)
    ensures Pow10(a.digits) > INT64_MAX / 10
  {}

  lemma {:induction false} FractionClose(frac: bytes, unit: nat)
    requires AllDigits(frac) && 0 < unit <= HOUR
    ensures var a := FractionOf(frac);
            -1.08 < Part(a.value, a.digits, unit) as real - Named(Dec(frac), |frac|, unit) <= 0.07
  {
    hide *;
    KeptIsNamed(frac, unit);
    PartClose(FractionOf(frac).value, FractionOf(frac).digits, unit);
  }

  lemma {:induction false} NoPart(t: Term)
    requires t.Valid()
    ensures t.Nanos() == Dec(t.whole) * t.UnitValue()
            + Part(FractionOf(t.frac).value, FractionOf(t.frac).digits, t.UnitValue())
    ensures t.NamedNanos() == (Dec(t.whole) * t.UnitValue()) as real + Named(Dec(t.frac), |t.frac|, t.UnitValue())
  {
    hide Dec, UnitOf, Part, Pow10, Named, FractionOf;
    NoFraction(FractionOf(t.frac).digits, t.UnitValue());
  }

  /** Any term reads as the number it names to within rounding and truncation: at most 0.07 ns above and
      less than 1.08 ns below. */
  lemma {:induction false} NanosClose(t: Term)
    requires t.Valid()
    ensures -1.08 < t.Nanos() as real - t.NamedNanos() <= 0.07
  {
    NoPart(t);
    FractionClose(t.frac, t.UnitValue());
    hide *;
  }

  lemma {:induction false} NanosBounds(t: Term)
    requires t.Valid()
    ensures Dec(t.whole) * t.UnitValue() <= t.Nanos() <= Dec(t.whole) * t.UnitValue() + t.UnitValue()
    ensures Dec(t.whole) <= t.Nanos()
  {
    hide Dec, FractionOf, UnitOf, Part, Named, Pow10;
    var a := FractionOf(t.frac);
    PartClose(a.value, a.digits, t.UnitValue());
    Times(Dec(t.whole), t.UnitValue());
  }

  lemma {:induction false} Times(a: nat, b: nat)
    requires b >= 1
    ensures a <= a * b
  {}

  function PrintAll(ts: seq<Term>): bytes {
    if ts == [] then [] else ts[0].Print() + PrintAll(ts[1..])
  }

  ghost predicate AllValid(ts: seq<Term>) {
    forall k :: 0 <= k < |ts| ==> ts[k].Valid()
  }

  function Sum(ts: seq<Term>): int
    requires AllValid(ts)
  {
    if ts == [] then 0 else ts[0].Nanos() + Sum(ts[1..])
  }

  function ExactSum(ts: seq<Term>): int
    requires AllValid(ts)
  {
    if ts == [] then 0 else ts[0].ExactNanos() + ExactSum(ts[1..])
  }

  // --------------------------------------------------------------------- parsing

  function UnitEnd(s: bytes, i: nat): (r: nat)
    requires i <= |s|
    ensures i <= r <= |s|
    ensures forall k :: i <= k < r ==> s[k] != POINT && !IsDigit(s[k])
    ensures r < |s| ==> s[r] == POINT || IsDigit(s[r])
    decreases |s| - i
  {
    if i < |s| && s[i] != POINT && !IsDigit(s[i]) then UnitEnd(s, i + 1) else i
  }

  lemma {:induction false} UnitEndAt(s: bytes, i: nat, e: nat)
    requires i <= e <= |s|
    requires forall k :: i <= k < e ==> s[k] != POINT && !IsDigit(s[k])
    requires e < |s| ==> s[e] == POINT || IsDigit(s[e])
    ensures UnitEnd(s, i) == e
    decreases e - i
  {
    if i < e {
      UnitEndAt(s, i + 1, e);
    }
  }

  /** Where the number at i ends, and its digits before and after the point. */
  function NumberAt(s: bytes, i: nat): (r: (bytes, bool, bytes, nat))
    requires i <= |s|
    ensures i <= r.3 <= |s|
    ensures AllDigits(r.0) && AllDigits(r.2) && (r.2 != [] ==> r.1)
    ensures s[i..r.3] == r.0 + if r.1 then [POINT] + r.2 else []
  {
    var j := DigitsEnd(s, i);
    if j < |s| && s[j] == POINT then
      var k := DigitsEnd(s, j + 1);
      (s[i..j], true, s[j + 1..k], k)
    else (s[i..j], false, [], j)
  }

  /** The term at i and where it ends; none when there is no number, no unit or an unknown unit. */
  function FrontTerm(s: bytes, i: nat): (r: Option<(Term, nat)>)
    requires i <= |s|
    ensures r.Some? ==> r.value.0.Valid() && i < r.value.1 <= |s|
  {
    var (whole, point, frac, k) := NumberAt(s, i);
    var u := UnitEnd(s, k);
    var t := Term(whole, point, frac, s[k..u]);
    if t.Valid() then Some((t, u)) else None
  }

  /** The terms from i on, added to the d nanoseconds before them. */
  function ParseTerms(s: bytes, i: nat, d: int): Option<int>
    requires i <= |s|
    decreases |s| - i
  {
    if i == |s| then Some(d) else
    var front := FrontTerm(s, i);
    if front.None? then None else
    var (t, next) := front.value;
    if Dec(t.whole) * t.UnitValue() > INT64_MAX || t.Nanos() > INT64_MAX || d + t.Nanos() > INT64_MAX then None
    else ParseTerms(s, next, d + t.Nanos())
  }

  function ParseOf(s: bytes): Option<int> {
    var signed := s != [] && (s[0] == MINUS || s[0] == PLUS);
    var i := if signed then 1 else 0;
    if s[i..] == ['0' as int] then Some(0)
    else if i == |s| then None
    else
      var d := ParseTerms(s, i, 0);
      if d.None? then None else Some(if signed && s[0] == MINUS then -d.value else d.value)
  }

  // ---------------------------------------------------- the grammar and its meaning

  lemma {:induction false} UnitShape(name: bytes)
    ensures UnitOf(name).Some? ==> name != [] && forall k :: 0 <= k < |name| ==> name[k] != POINT && !IsDigit(name[k])
  {}

  predicate StartsTerm(s: bytes) {
    s == [] || s[0] == POINT || IsDigit(s[0])
  }

  lemma {:induction false} UnitRun(s: bytes, i: nat, run: bytes, rest: bytes)
    requires i <= |s| && s[i..] == run + rest && StartsTerm(rest)
    requires forall k :: 0 <= k < |run| ==> run[k] != POINT && !IsDigit(run[k])
    ensures var e := i + |run|; UnitEnd(s, i) == e && e <= |s| && s[i..e] == run && s[e..] == rest
  {
    var e := i + |run|;
    assert s[i..e] == s[i..][..|run|] && s[e..] == s[i..][|run|..];
    assert forall m :: i <= m < e ==> s[m] == s[i..e][m - i];
    UnitEndAt(s, i, e);
  }

  lemma {:induction false} NumberPlain(s: bytes, i: nat, whole: bytes, tail: bytes)
    requires i <= |s| && AllDigits(whole) && s[i..] == whole + tail
    requires tail != [] && tail[0] != POINT && !IsDigit(tail[0])
    ensures NumberAt(s, i) == (whole, false, [], i + |whole|) && i + |whole| <= |s| && s[i + |whole|..] == tail
  {
    hide DigitsEnd, AllDigits;
    DigitRun(s, i, whole, tail);
    assert s[i + |whole|] == s[i + |whole|..][0];
  }

  lemma {:induction false} NumberPointed(s: bytes, i: nat, whole: bytes, frac: bytes, tail: bytes)
    requires i <= |s| && AllDigits(whole) && AllDigits(frac) && s[i..] == whole + ([POINT] + (frac + tail))
    requires tail != [] && !IsDigit(tail[0])
    ensures var k := i + |whole| + 1 + |frac|;
            NumberAt(s, i) == (whole, true, frac, k) && k <= |s| && s[k..] == tail
  {
    hide DigitsEnd, AllDigits;
    var j, rest := i + |whole|, [POINT] + (frac + tail);
    DigitRun(s, i, whole, rest);
    assert s[j] == s[j..][0] == POINT;
    assert s[j + 1..] == s[j..][1..];
    assert rest[1..] == frac + tail;
    DigitRun(s, j + 1, frac, tail);
  }

  lemma {:induction false} NumberRun(s: bytes, i: nat, t: Term, tail: bytes)
    requires i <= |s| && AllDigits(t.whole) && AllDigits(t.frac) && (t.frac != [] ==> t.point)
    requires s[i..] == t.whole + ((if t.point then [POINT] + t.frac else []) + tail)
    requires tail != [] && tail[0] != POINT && !IsDigit(tail[0])
    ensures var (whole, point, frac, k) := NumberAt(s, i);
            whole == t.whole && point == t.point && frac == t.frac && s[k..] == tail
  {
    hide NumberAt, AllDigits, IsDigit;
    if t.point {
      ConcatAssoc([POINT], t.frac, tail);
      NumberPointed(s, i, t.whole, t.frac, tail);
    } else {
      assert [] + tail == tail;
      NumberPlain(s, i, t.whole, tail);
    }
  }

  lemma {:induction false} FrontPrinted(s: bytes, i: nat, t: Term, rest: bytes)
    requires i <= |s| && t.Valid() && s[i..] == t.Print() + rest && StartsTerm(rest)
    ensures FrontTerm(s, i) == Some((t, i + |t.Print()|))
    ensures s[i + |t.Print()|..] == rest
  {
    hide UnitOf, UnitEnd, NumberAt, DigitsEnd;
    UnitShape(t.unit);
    NumberRun(s, i, t, t.unit + rest);
    UnitRun(s, NumberAt(s, i).3, t.unit, rest);
  }

  lemma {:induction false} FrontIsPrinted(s: bytes, i: nat)
    requires i <= |s| && FrontTerm(s, i).Some?
    ensures var (t, next) := FrontTerm(s, i).value;
            s[i..] == t.Print() + s[next..]
  {
    hide UnitOf;
    hide NumberAt, UnitEnd;
    var (t, next) := FrontTerm(s, i).value;
    var k := NumberAt(s, i).3;
    assert s[i..] == s[i..k] + s[k..next] + s[next..];
  }

  lemma {:induction false} PrintStartsTerm(ts: seq<Term>)
    requires AllValid(ts)
    ensures StartsTerm(PrintAll(ts))
    ensures ts != [] ==> |PrintAll(ts)| >= 2 && PrintAll(ts) != []
  {
    hide UnitOf;
    if ts != [] {
      UnitShape(ts[0].unit);
    }
  }

  lemma {:induction false} ParsePrinted(s: bytes, i: nat, ts: seq<Term>, d: nat)
    requires i <= |s| && AllValid(ts) && s[i..] == PrintAll(ts) && d <= INT64_MAX
    ensures Sum(ts) >= 0
    ensures ParseTerms(s, i, d) == if d + Sum(ts) <= INT64_MAX then Some(d + Sum(ts)) else None
    decreases |ts|
  {
    hide FrontTerm, Term.Nanos, Term.Valid, Term.Print, UnitOf;
    if ts != [] {
      var t := ts[0];
      PrintStartsTerm(ts[1..]);
      FrontPrinted(s, i, t, PrintAll(ts[1..]));
      NanosBounds(t);
      var next := i + |t.Print()|;
      var e := d + t.Nanos();
      SumGrows(ts[1..]);
      if e <= INT64_MAX {
        ParsePrinted(s, next, ts[1..], e);
      }
    }
  }

  lemma {:induction false} SumGrows(ts: seq<Term>)
    requires AllValid(ts)
    ensures Sum(ts) >= 0
  {
    if ts != [] {
      NanosBounds(ts[0]);
      SumGrows(ts[1..]);
    }
  }

  lemma {:induction false} ParsedIsPrinted(s: bytes, i: nat, d: int) returns (ts: seq<Term>)
    requires i <= |s| && ParseTerms(s, i, d).Some?
    ensures AllValid(ts) && s[i..] == PrintAll(ts)
    ensures i < |s| ==> ts != []
    decreases |s| - i
  {
    hide FrontTerm, UnitOf, Term.Nanos, Term.Print;
    if i == |s| {
      ts := [];
    } else {
      var (t, next) := FrontTerm(s, i).value;
      FrontIsPrinted(s, i);
      var rest := ParsedIsPrinted(s, next, d + t.Nanos());
      ts := [t] + rest;
      assert ts[1..] == rest;
    }
  }

  datatype Sign = Plain | Plus | Minus {
    function Text(): bytes {
      match this
      case Plain => []
      case Plus => [PLUS]
      case Minus => [MINUS]
    }

    function Of(d: int): int {
      if Minus? then -d else d
    }
  }

  /** How terms and signs are written. */
  lemma {:induction false} TextsAre(t: Term)
    ensures t.Print() == if t.point then t.whole + Ascii(".") + t.frac + t.unit else t.whole + t.unit
    ensures Plain.Text() == [] && Plus.Text() == Ascii("+") && Minus.Text() == Ascii("-")
  {
    assert Ascii(".") == [POINT];
  }

  /** A text of terms that fits 64 bits parses to its signed sum, and one that does not is refused. */
  lemma {:induction false} Reading(sign: Sign, ts: seq<Term>)
    requires AllValid(ts) && ts != []
    ensures ParseOf(sign.Text() + PrintAll(ts)) ==
            if Sum(ts) <= INT64_MAX then Some(sign.Of(Sum(ts))) else None
  {
    hide ParseTerms, PrintAll, Sum, Term.Valid;
    var s := sign.Text() + PrintAll(ts);
    var i := |sign.Text()|;
    PrintStartsTerm(ts);
    assert s[i..] == PrintAll(ts);
    assert i == 0 ==> s[0] == PrintAll(ts)[0];
    ParsePrinted(s, i, ts, 0);
  }

  ghost predicate Spells(s: bytes, sign: Sign, ts: seq<Term>, d: int) {
    ts != [] && AllValid(ts) && s == sign.Text() + PrintAll(ts) && Sum(ts) <= INT64_MAX && d == sign.Of(Sum(ts))
  }

  ghost predicate SpellsZero(s: bytes, sign: Sign) {
    s == sign.Text() + ['0' as int]
  }

  lemma {:induction false} Accepted(s: bytes) returns (sign: Sign, ts: seq<Term>)
    requires ParseOf(s).Some?
    ensures (SpellsZero(s, sign) && ParseOf(s) == Some(0)) || Spells(s, sign, ts, ParseOf(s).value)
  {
    hide ParseTerms, PrintAll, Sum, Term.Valid;
    sign := if s == [] then Plain else if s[0] == MINUS then Minus else if s[0] == PLUS then Plus else Plain;
    var i := |sign.Text()|;
    assert s == sign.Text() + s[i..];
    ts := [];
    if s[i..] != ['0' as int] {
      ts := ParsedIsPrinted(s, i, 0);
      Reading(sign, ts);
    }
  }

  /** The parser accepts a text with value d exactly when it is a signed 0 or a signed list of terms
      whose sum fits 64 bits and gives d. */
  lemma {:induction false} ParseIff(s: bytes, d: int)
    ensures ParseOf(s) == Some(d) <==>
            || (d == 0 && exists sign :: SpellsZero(s, sign))
            || (exists sign, ts :: Spells(s, sign, ts, d))
  {
    hide ParseTerms, PrintAll, Sum, Term.Valid;
    if ParseOf(s) == Some(d) {
      var sign, ts := Accepted(s);
    }
    if sign: Sign, ts: seq<Term> :| Spells(s, sign, ts, d) {
      Reading(sign, ts);
    }
    if d == 0 {
      if sign: Sign :| SpellsZero(s, sign) {
        assert s[|sign.Text()|..] == ['0' as int];
        assert ParseOf(s) == Some(0);
      }
    }
  }

  lemma {:induction false} SumExact(ts: seq<Term>)
    requires AllValid(ts) && forall k :: 0 <= k < |ts| ==> ts[k].Exact()
    ensures Sum(ts) == ExactSum(ts)
  {
    hide Term.Valid, Term.Exact, Term.Nanos, Term.ExactNanos;
    if ts != [] {
      NanosExact(ts[0]);
      SumExact(ts[1..]);
    }
  }

  /** With every fraction exact for its unit, the value is the exact sum of the terms, and the text
      is refused exactly when that sum is above the 64-bit maximum. */
  lemma {:induction false} ExactReading(sign: Sign, ts: seq<Term>)
    requires AllValid(ts) && ts != [] && forall k :: 0 <= k < |ts| ==> ts[k].Exact()
    ensures var r := ParseOf(sign.Text() + PrintAll(ts));
            && (r.None? <==> ExactSum(ts) > INT64_MAX)
            && (r.Some? ==> r.value == sign.Of(ExactSum(ts)))
  {
    Reading(sign, ts);
    SumExact(ts);
  }

  /** Four texts: a fraction of an hour, one without digits in front, a point without digits behind, and
      two terms. */
  lemma {:induction false} Examples()
    ensures ParseOf(Ascii("1.5h")) == Some(5_400_000_000_000)
    ensures ParseOf(Ascii("-.5s")) == Some(-500_000_000) && ParseOf(Ascii("+1.ms")) == Some(1_000_000)
    ensures ParseOf(Ascii("1h30m")) == Some(5_400_000_000_000)
  {
    var d := ['1' as int];
    Texts();
    Small();
    hide Ascii, ParseOf, FractionNanos, Dec, Pow10;
    FractionTerm(Plain, Term(d, true, ['5' as int], UNITS[7].0), HOUR, 360_000_000_000);
    FractionTerm(Minus, Term([], true, ['5' as int], UNITS[5].0), SECOND, 100_000_000);
    FractionTerm(Plus, Term(d, true, [], UNITS[4].0), 1_000_000, 1_000_000);
    TwoTerms(Term(d, false, [], UNITS[7].0), Term(['3' as int, '0' as int], false, [], UNITS[6].0));
  }

  lemma {:induction false} Texts()
    ensures Ascii("1.5h") == [] + (['1' as int] + ([POINT] + ['5' as int] + UNITS[7].0))
    ensures Ascii("-.5s") == [MINUS] + ([] + ([POINT] + ['5' as int] + UNITS[5].0))
    ensures Ascii("+1.ms") == [PLUS] + (['1' as int] + ([POINT] + [] + UNITS[4].0))
    ensures Ascii("1h30m") == ['1' as int] + ([] + UNITS[7].0) + (['3' as int, '0' as int] + ([] + UNITS[6].0))
  {}

  lemma {:induction false} Small()
    ensures Dec([]) == 0 && Dec(['1' as int]) == 1 && Dec(['5' as int]) == 5 && Dec(['3' as int, '0' as int]) == 30
    ensures Pow10(0) == 1 && Pow10(1) == 10
  {
    assert ['3' as int, '0' as int][..1] == ['3' as int];
  }

  lemma {:induction false} OneTerm(sign: Sign, t: Term, nanos: int)
    requires t.Valid() && t.Exact() && t.ExactNanos() == nanos <= INT64_MAX
    ensures ParseOf(sign.Text() + t.Print()) == Some(sign.Of(nanos))
  {
    hide ParseOf, Term.Valid, Term.Exact, Term.ExactNanos;
    var ts := [t];
    assert ts[1..] == [] && t.Print() + [] == t.Print();
    assert PrintAll(ts) == t.Print() + PrintAll(ts[1..]);
    assert ExactSum(ts) == t.ExactNanos() + ExactSum(ts[1..]);
    ExactReading(sign, ts);
  }

  /** A fraction whose unit is the power of ten times `share`. */
  lemma {:induction false} FractionTerm(sign: Sign, t: Term, unit: nat, share: nat)
    requires AllDigits(t.whole) && AllDigits(t.frac) && t.point && (t.whole != [] || t.frac != [])
    requires UnitOf(t.unit) == Some(unit) && unit == share * Pow10(|t.frac|)
    requires Dec(t.whole) * unit + Dec(t.frac) * share <= INT64_MAX
    ensures ParseOf(sign.Text() + t.Print()) == Some(sign.Of(Dec(t.whole) * unit + Dec(t.frac) * share))
  {
    hide ParseOf, Dec, UnitOf, Pow10;
    DivideUnique(unit, Pow10(|t.frac|), share, 0);
    OneTerm(sign, t, Dec(t.whole) * unit + Dec(t.frac) * share);
  }

  lemma {:induction false} TwoTerms(a: Term, b: Term)
    requires a == Term(['1' as int], false, [], UNITS[7].0)
    requires b == Term(['3' as int, '0' as int], false, [], UNITS[6].0)
    ensures ParseOf(a.Print() + b.Print()) == Some(5_400_000_000_000)
  {
    Small();
    hide ParseOf, Dec, Pow10;
    var ts := [a, b];
    assert ts[1..] == [b] && [b][1..] == [];
    assert PrintAll([b]) == b.Print() + PrintAll([]) == b.Print();
    assert PrintAll(ts) == a.Print() + b.Print();
    ExactReading(Plain, ts);
    assert Plain.Text() + PrintAll(ts) == PrintAll(ts);
    assert ExactSum([b]) == b.ExactNanos() + ExactSum([]);
    assert ExactSum(ts) == a.ExactNanos() + ExactSum([b]);
  }

  function NamedSum(ts: seq<Term>): real
    requires AllValid(ts)
  {
    if ts == [] then 0.0 else ts[0].NamedNanos() + NamedSum(ts[1..])
  }

  lemma {:induction false} SumClose(ts: seq<Term>)
    requires AllValid(ts)
    ensures -1.08 * |ts| as real <= Sum(ts) as real - NamedSum(ts) <= 0.07 * |ts| as real
  {
    hide Term.Valid, Term.Nanos, Term.NamedNanos;
    if ts != [] {
      NanosClose(ts[0]);
      SumClose(ts[1..]);
    }
  }

  /** With any fractions, each term adds at most that error to the sum; a text is refused only above, and
      accepted only below, the 64-bit maximum, to within it. */
  lemma {:induction false} CloseReading(sign: Sign, ts: seq<Term>)
    requires AllValid(ts) && ts != []
    ensures var r, low, high := ParseOf(sign.Text() + PrintAll(ts)), 1.08 * |ts| as real, 0.07 * |ts| as real;
            && (r.Some? ==> exists n: nat :: r.value == sign.Of(n) && -low <= n as real - NamedSum(ts) <= high)
            && (r.Some? ==> NamedSum(ts) <= INT64_MAX as real + low)
            && (r.None? ==> NamedSum(ts) >= INT64_MAX as real - high)
  {
    hide ParseOf, PrintAll, Sum, NamedSum, Term.Valid;
    Reading(sign, ts);
    SumClose(ts);
    SumGrows(ts);
  }

  // ------------------------------------------------------------------- the parser

  method LeadingInt(s: bytes, i: nat) returns (v: Option<nat>, e: nat)
    requires NulFree(s) && i <= |s|
    ensures v == (var n := Dec(s[i..DigitsEnd(s, i)]); if n <= INT64_MAX then Some(n) else None)
    ensures v.Some? ==> e == DigitsEnd(s, i)
  {
    var x := 0;
    e := i;
    while At(s, e) >= '0' as int && At(s, e) <= '9' as int
      invariant i <= e <= |s| && forall k :: i <= k < e ==> IsDigit(s[k])
      invariant 0 <= x <= INT64_MAX && x == Dec(s[i..e])
      decreases |s| - e
    {
      assert s[i..e + 1][..e - i] == s[i..e];
      var d := At(s, e) - '0' as int;
      if x > INT64_MAX / 10 || x * 10 > INT64_MAX - d {
        TooManyDigits(s, i, e + 1);
        return None, e;
      }
      x := x * 10 + d;
      e := e + 1;
    }
    DigitsEndAt(s, i, e);
    return Some(x), e;
  }

  lemma {:induction false} TooManyDigits(s: bytes, i: nat, e: nat)
    requires i <= e <= |s| && forall k :: i <= k < e ==> IsDigit(s[k])
    ensures Dec(s[i..e]) <= Dec(s[i..DigitsEnd(s, i)])
  {
    var end := DigitsEnd(s, i);
    DecGrows(s[i..end], e - i);
    assert s[i..end][..e - i] == s[i..e];
  }

  /** The digits behind the point, with the double that scales them. */
  method LeadingFraction(s: bytes, i: nat) returns (a: Fraction, scale: Double.Double, e: nat)
    requires NulFree(s) && i <= |s|
    ensures e == DigitsEnd(s, i)
    ensures a == FractionOf(s[i..e]) && scale == ScaleOf(a.digits)
  {
    hide ScaleOf, Double.Mul;
    var x, digits, overflow := 0, 0, false;
    ScaleUnfolds(0);
    scale := Double.Finite(1.0);
    e := i;
    while At(s, e) >= '0' as int && At(s, e) <= '9' as int
      invariant i <= e <= |s| && forall k :: i <= k < e ==> IsDigit(s[k])
      invariant 0 <= x <= INT64_MAX && scale == ScaleOf(digits)
      invariant Fraction(x, digits, overflow) == FractionOf(s[i..e])
      decreases |s| - e
    {
      assert s[i..e + 1][..e - i] == s[i..e];
      if !overflow {
        if x > INT64_MAX / 10 {
          overflow := true;
        } else {
          var y := Wrap64(x * 10 + (At(s, e) - '0' as int));
          if y < 0 {
            overflow := true;
          } else {
            x, digits := y, digits + 1;
            ScaleUnfolds(digits);
            scale := Double.Mul(scale, Double.Finite(10.0));
          }
        }
      }
      e := e + 1;
    }
    DigitsEndAt(s, i, e);
    a := Fraction(x, digits, overflow);
  }

  method ReadNumber(s: bytes, i: nat) returns (whole: Option<nat>, some: bool, a: Fraction, scale: Double.Double,
                    k: nat)
    requires NulFree(s) && i <= |s|
    ensures var (w, point, frac, end) := NumberAt(s, i);
            && (whole.None? <==> Dec(w) > INT64_MAX)
            && (whole.Some? ==> whole.value == Dec(w) && k == end && a == FractionOf(frac)
                                && scale == ScaleOf(a.digits) && (some <==> w != [] || frac != []))
  {
    hide Dec, FractionOf, ScaleOf;
    a, k, some := Fraction(0, 0, false), i, false;
    ScaleUnfolds(0);
    scale := Double.Finite(1.0);
    var j;
    whole, j := LeadingInt(s, i);
    if whole.None? {
      return;
    }
    var pre, post := j != i, false;
    k := j;
    NothingRead();
    if At(s, k) == POINT {
      a, scale, k := LeadingFraction(s, j + 1);
      post := k != j + 1;
    }
    some := pre || post;
  }

  lemma {:induction false} NoNumber(s: bytes, i: nat)
    requires i < |s| && s[i] != POINT && !IsDigit(s[i])
    ensures NumberAt(s, i).0 == [] && NumberAt(s, i).2 == []
  {}

  lemma {:induction false} NothingRead()
    ensures FractionOf([]) == Fraction(0, 0, false)
  {}

  /** One turn of the parser's loop: the nanoseconds of the term at i and where it ends. */
  method ReadTerm(s: bytes, i: nat) returns (v: Option<int>, next: nat)
    requires NulFree(s) && i < |s|
    ensures FrontTerm(s, i).None? ==> v.None?
    ensures FrontTerm(s, i).Some? ==>
              var (t, end) := FrontTerm(s, i).value;
              if Dec(t.whole) * t.UnitValue() > INT64_MAX || t.Nanos() > INT64_MAX then v.None?
              else v == Some(t.Nanos()) && next == end
  {
    hide Dec, FractionOf, UnitOf, NumberAt, ScaleOf, Part, Pow10;
    next := i;
    if !(At(s, i) == POINT || '0' as int <= At(s, i) <= '9' as int) {
      NoNumber(s, i);
      return None, next;
    }
    var whole, some, a, scale, k := ReadNumber(s, i);
    if whole.None? {
      WholeTooBig(s, i);
      return None, next;
    }
    if !some {
      return None, next;
    }
    next := k;
    while At(s, next) != 0 && At(s, next) != POINT && !('0' as int <= At(s, next) <= '9' as int)
      invariant k <= next <= |s|
      invariant forall m :: k <= m < next ==> s[m] != POINT && !IsDigit(s[m])
      decreases |s| - next
    {
      next := next + 1;
    }
    UnitEndAt(s, k, next);
    if next == k {
      UnitShape(s[k..next]);
      return None, next;
    }
    var unit := LookUp(s[k..next]);
    if unit == 0 {
      return None, next;
    }
    v := Scale(whole.value, a, scale, unit);
  }

  /** The multiplication and the fraction, with the wrap of a 64-bit sum as the overflow test. */
  method Scale(whole: nat, a: Fraction, scale: Double.Double, unit: nat) returns (v: Option<int>)
    requires 0 < unit <= HOUR && whole <= INT64_MAX
    requires a.value <= INT64_MAX && a.value < Pow10(a.digits) && scale == ScaleOf(a.digits)
    ensures var n := whole * unit + FractionNanos(a, unit);
            v == if whole * unit > INT64_MAX || n > INT64_MAX then None else Some(n)
  {
    hide Pow10, ScaleOf, Part;
    WholeFits(whole, unit);
    if whole > INT64_MAX / unit {
      return None;
    }
    var x := whole * unit;
    if a.value > 0 {
      var part := ScalePart(a, scale, unit);
      x := Wrap64(x + part);
      if x < 0 {
        return None;
      }
    }
    return Some(x);
  }

  /** The double expression; the cast cannot overflow, for the part never exceeds the unit. */
  method ScalePart(a: Fraction, scale: Double.Double, unit: nat) returns (part: nat)
    requires 0 < unit <= HOUR && a.value <= INT64_MAX && a.value < Pow10(a.digits) && scale == ScaleOf(a.digits)
    ensures part == Part(a.value, a.digits, unit) && part <= unit
  {
    StepsFinite(a.value, a.digits, unit);
    PartClose(a.value, a.digits, unit);
    hide Pow10, ScaleOf, Double.Mul, Double.Div, Double.OfInt, Double.Trunc, Named;
    var share := Double.Div(Double.OfInt(unit), scale);
    part := Double.Trunc(Double.Mul(Double.OfInt(a.value), share));
  }

  lemma {:induction false} WholeFits(whole: nat, unit: nat)
    requires unit > 0
    ensures whole > INT64_MAX / unit <==> whole * unit > INT64_MAX
  {
    var q := INT64_MAX / unit;
    assert q * unit <= INT64_MAX < (q + 1) * unit;
    if whole <= q {
      MulGrows(whole, q, unit);
    } else {
      MulGrows(q + 1, whole, unit);
    }
  }

  lemma {:induction false} WholeTooBig(s: bytes, i: nat)
    requires i <= |s| && Dec(NumberAt(s, i).0) > INT64_MAX
    ensures FrontTerm(s, i).Some? ==> FrontTerm(s, i).value.0.Nanos() > INT64_MAX
  {
    hide UnitOf, Dec, FractionOf, NumberAt;
    if FrontTerm(s, i).Some? {
      NanosBounds(FrontTerm(s, i).value.0);
    }
  }

  /** The configured duration a text is parsed into. */
  class Cell {
    var value: int

    /** A refused text leaves the cell as it was. */
    method Parse(s: bytes) returns (ok: bool)
      requires NulFree(s)
      modifies this
      ensures ok == ParseOf(s).Some?
      ensures value == if ok then ParseOf(s).value else old(value)
    {
      hide FrontTerm, Term.Nanos, Dec, UnitOf;
      var i := 0;
      var neg := false;
      if At(s, 0) == MINUS || At(s, 0) == PLUS {
        neg := At(s, 0) == MINUS;
        i := i + 1;
      }
      var start := i;
      if s[i..] == ['0' as int] {
        value := 0;
        return true;
      }
      if At(s, i) == 0 {
        return false;
      }
      var d := 0;
      while At(s, i) != 0
        invariant start <= i <= |s| && 0 <= d <= INT64_MAX
        invariant ParseTerms(s, start, 0) == ParseTerms(s, i, d)
        invariant value == old(value)
        decreases |s| - i
      {
        var v, next := ReadTerm(s, i);
        if v.None? {
          return false;
        }
        NanosBounds(FrontTerm(s, i).value.0);
        d := Wrap64(d + v.value);
        if d < 0 {
          return false;
        }
        i := next;
      }
      value := if neg then -d else d;
      return true;
    }
  }
}
