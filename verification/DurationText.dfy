/** Printing a duration, right to left into a fixed buffer, in the form the parser reads back. */
module DurationText {
  import opened Bytes
  import opened Decimal
  import opened Duration

  // ---------------------------------------------------------------- what is printed

  /** The last `prec` digits of v, leading zeros kept. */
  function Padded(v: nat, prec: nat): (s: bytes)
    ensures |s| == prec && AllDigits(s)
  {
    if prec == 0 then [] else Padded(v / 10, prec - 1) + [Digit(v)]
  }

  /** The same without its trailing zeros. */
  function FracDigits(v: nat, prec: nat): (s: bytes)
    ensures |s| <= prec && AllDigits(s)
  {
    if prec == 0 then [] else if v % 10 == 0 then FracDigits(v / 10, prec - 1) else Padded(v, prec)
  }

  function FracText(v: nat, prec: nat): (s: bytes)
    ensures |s| <= prec + 1
  {
    var f := FracDigits(v, prec);
    if f == [] then [] else [POINT] + f
  }

  function Count(v: nat, unit: bytes): Term {
    Term(DecText(v), false, [], unit)
  }

  function Whole(v: nat, p: nat): (q: nat)
    requires p > 0
    ensures q == v / p
  {
    v / p
  }

  /** v without its last `prec` digits. */
  function Above(v: nat, prec: nat): nat {
    Whole(v, Pow10(prec))
  }

  /** A whole number of units and, after the point, the last `prec` digits of v. */
  function Decimals(whole: nat, v: nat, prec: nat, unit: bytes): Term {
    var f := FracDigits(v, prec);
    Term(DecText(whole), f != [], f, unit)
  }

  const NS := UNITS[0].0
  const MICRO := UNITS[2].0
  const MS := UNITS[4].0
  const S := UNITS[5].0
  const M := UNITS[6].0
  const H := UNITS[7].0

  /** The unit is the largest that leaves no zero in front; minutes and hours appear from one on. */
  function TermsOf(u: nat): seq<Term> {
    if u == 0 then [Count(0, S)]
    else if u < 1000 then [Count(u, NS)]
    else if u < 1000_000 then [Decimals(u / 1000, u, 3, MICRO)]
    else if u < SECOND then [Decimals(u / 1000_000, u, 6, MS)]
    else
      var w := u / SECOND;
      (if w / 3600 > 0 then [Count(w / 3600, H)] else [])
      + ((if w / 60 > 0 then [Count(w / 60 % 60, M)] else [])
      + [Decimals(w % 60, u, 9, S)])
  }

  function RenderOf(d: int): bytes {
    (if d < 0 then [MINUS] else []) + PrintAll(TermsOf(if d < 0 then -d else d))
  }

  /** Three texts: no time at all, a fraction of a microsecond, and an hour and a half ago. */
  lemma {:induction false} Examples()
    ensures RenderOf(0) == Ascii("0s") && RenderOf(1_500) == Ascii("1.5") + [0xc2, 0xb5] + Ascii("s")
    ensures RenderOf(-5_400_000_000_000) == Ascii("-1h30m0s")
  {
    NoTimeText();
    MicroText();
    LongExample();
  }

  lemma {:induction false} OneText(t: Term)
    ensures PrintAll([t]) == t.Print()
  {
    assert [t][1..] == [] && t.Print() + [] == t.Print();
  }

  lemma {:induction false} NoTimeText()
    ensures RenderOf(0) == Ascii("0s")
  {
    SmallNumbers();
    OneText(Count(0, S));
    hide DecText, PrintAll;
  }

  lemma {:induction false} MicroText()
    ensures RenderOf(1_500) == Ascii("1.5") + [0xc2, 0xb5] + Ascii("s")
  {
    var t := Term(DecText(1), true, ['5' as int], MICRO);
    SmallNumbers();
    HalfDigits();
    OneText(t);
    hide DecText, PrintAll, FracDigits;
    assert TermsOf(1_500) == [t];
    assert t.Print() == ['1' as int, '.' as int, '5' as int, 0xc2, 0xb5, 's' as int];
  }

  lemma {:induction false} HalfDigits()
    ensures FracDigits(1_500, 3) == ['5' as int]
  {
    assert FracDigits(1_500, 3) == FracDigits(150, 2) == FracDigits(15, 1) == Padded(15, 1);
    assert Padded(15, 1) == Padded(1, 0) + ['5' as int];
  }

  lemma {:induction false} LongExample()
    ensures RenderOf(-5_400_000_000_000) == Ascii("-1h30m0s")
  {
    var u := 5_400_000_000_000;
    NoFraction(5_400, 9);
    assert Pow10(3) == 1_000 && Pow10(6) == 1_000 * 1_000;
    assert Pow10(9) == 1_000_000_000;
    var h, m, s := Count(1, H), Count(30, M), Decimals(0, u, 9, S);
    Spelled(h, m, s);
    hide Decimals, PrintAll, Count;
    assert TermsOf(u) == [h] + ([m] + [s]) == [h, m, s];
  }

  lemma {:induction false} Spelled(h: Term, m: Term, s: Term)
    requires h == Count(1, H) && m == Count(30, M) && s == Term(DecText(0), false, [], S)
    ensures [MINUS] + PrintAll([h, m, s]) == Ascii("-1h30m0s")
  {
    SmallNumbers();
    hide DecText, Ascii;
    assert [h, m, s][1..] == [m, s] && [m, s][1..] == [s];
    OneText(s);
    assert PrintAll([h, m, s]) == h.Print() + (m.Print() + s.Print());
    assert h.Print() == ['1' as int, 'h' as int] && s.Print() == ['0' as int, 's' as int];
    assert m.Print() == ['3' as int, '0' as int, 'm' as int];
    HourText();
  }

  lemma {:induction false} SmallNumbers()
    ensures DecText(0) == ['0' as int] && DecText(1) == ['1' as int] && DecText(30) == ['3' as int, '0' as int]
  {
    assert DecText(3) == ['3' as int] && DecText(30) == DecText(3) + ['0' as int];
  }

  lemma {:induction false} HourText()
    ensures Ascii("-1h30m0s") ==
            [MINUS] + (['1' as int, 'h' as int] + (['3' as int, '0' as int, 'm' as int] + ['0' as int, 's' as int]))
  {}

  lemma {:induction false} NoFraction(q: nat, prec: nat)
    ensures FracDigits(q * Pow10(prec), prec) == []
  {
    if prec > 0 {
      var v, below := q * Pow10(prec), q * Pow10(prec - 1);
      assert v == 10 * below;
      DivideUnique(v, 10, below, 0);
      NoFraction(q, prec - 1);
    }
  }

  // ------------------------------------------------------------------ what it means

  lemma {:induction false} LastDigits(v: nat, p: nat)
    requires p > 0
    ensures v % (10 * p) == 10 * (v / 10 % p) + v % 10
    ensures v / (10 * p) == v / 10 / p
  {
    var q, r := v / 10 / p, v / 10 % p;
    assert v / 10 == p * q + r;
    assert v == 10 * p * q + (10 * r + v % 10) by {
      assert 10 * (p * q) == 10 * p * q;
    }
    DivideUnique(v, 10 * p, q, 10 * r + v % 10);
  }

  lemma {:induction false} PaddedValue(v: nat, prec: nat)
    ensures Dec(Padded(v, prec)) == v % Pow10(prec)
  {
    if prec > 0 {
      PaddedValue(v / 10, prec - 1);
      LastDigits(v, Pow10(prec - 1));
      assert Padded(v, prec)[..prec - 1] == Padded(v / 10, prec - 1);
    }
  }

  lemma {:induction false} FracStep(v: nat, p: nat, a: nat, b: nat)
    requires p > 0 && v % 10 == 0 && a * b == v / 10 % p
    ensures a * (10 * b) == v % (10 * p)
  {
    LastDigits(v, p);
    assert a * (10 * b) == 10 * (a * b);
  }

  /** Dropping trailing zeros divides by the power of ten they stand for. */
  lemma {:induction false} FracValue(v: nat, prec: nat)
    ensures Dec(FracDigits(v, prec)) * Pow10(prec - |FracDigits(v, prec)|) == v % Pow10(prec)
  {
    if prec > 0 {
      if v % 10 == 0 {
        FracValue(v / 10, prec - 1);
        var f := FracDigits(v, prec);
        FracStep(v, Pow10(prec - 1), Dec(f), Pow10(prec - 1 - |f|));
        assert Pow10(prec - |f|) == 10 * Pow10(prec - 1 - |f|);
        hide *;
      } else {
        PaddedValue(v, prec);
      }
    }
  }

  lemma {:induction false} CountMeaning(v: nat, unit: bytes)
    requires UnitOf(unit).Some?
    ensures var t := Count(v, unit);
            t.Valid() && t.Exact() && t.ExactNanos() == v * UnitOf(unit).value
  {
    hide UnitOf;
    DecOfDecText(v);
  }

  lemma {:induction false} DecimalsMeaning(whole: nat, v: nat, prec: nat, unit: bytes)
    requires UnitOf(unit) == Some(Pow10(prec))
    ensures var t := Decimals(whole, v, prec, unit);
            t.Valid() && t.Exact() && t.ExactNanos() == whole * Pow10(prec) + v % Pow10(prec)
  {
    hide UnitOf, FracDigits, Pow10, DecText, Dec;
    var f, p := FracDigits(v, prec), Pow10(prec);
    DecOfDecText(whole);
    FracValue(v, prec);
    Pow10Add(|f|, prec - |f|);
    DivideUnique(p, Pow10(|f|), Pow10(prec - |f|), 0);
  }

  ghost predicate Means(ts: seq<Term>, u: int) {
    && ts != [] && AllValid(ts)
    && (forall k :: 0 <= k < |ts| ==> ts[k].Exact())
    && ExactSum(ts) == u
  }

  lemma {:induction false} OneTerm(t: Term, u: int)
    requires t.Valid() && t.Exact() && t.ExactNanos() == u
    ensures Means([t], u)
  {
    hide Term.Valid, Term.Exact, Term.ExactNanos;
    assert ExactSum([t]) == t.ExactNanos() + ExactSum([]);
  }

  lemma {:induction false} MoreTerms(t: Term, ts: seq<Term>, u: int)
    requires t.Valid() && t.Exact() && Means(ts, u)
    ensures Means([t] + ts, t.ExactNanos() + u)
  {
    hide Term.Valid, Term.Exact, Term.ExactNanos;
    assert ([t] + ts)[1..] == ts;
  }

  lemma {:induction false} UnitPowers()
    ensures UnitOf(S) == Some(Pow10(9)) && UnitOf(MS) == Some(Pow10(6)) && UnitOf(MICRO) == Some(Pow10(3))
    ensures UnitOf(NS) == Some(1) && UnitOf(M) == Some(60 * SECOND) && UnitOf(H) == Some(3600 * SECOND)
    ensures Pow10(9) == SECOND && Pow10(6) == 1000_000 && Pow10(3) == 1000
  {
    assert Pow10(3) == 1000;
    assert Pow10(6) == 1000 * Pow10(3);
    assert Pow10(9) == 1000 * Pow10(6);
  }

  lemma {:induction false} Clock(w: nat)
    ensures w / 3600 * 3600 + w / 60 % 60 * 60 + w % 60 == w
    ensures w / 60 == 0 ==> w / 3600 == 0
    ensures w / 3600 == 0 ==> w / 60 % 60 == w / 60
    ensures w / 60 / 60 == w / 3600
  {}

  /** From a second on, w whole seconds and the rest of u. */
  lemma {:induction false} SecondShape(u: nat, w: nat)
    requires u >= SECOND && w == u / SECOND
    ensures var s, m, h := Decimals(w % 60, u, 9, S), Count(w / 60 % 60, M), Count(w / 3600, H);
            TermsOf(u) == if w / 3600 > 0 then [h] + ([m] + [s]) else if w / 60 > 0 then [m] + [s] else [s]
  {
    Clock(w);
    hide Decimals, Count;
    var s, m, h := Decimals(w % 60, u, 9, S), Count(w / 60 % 60, M), Count(w / 3600, H);
    assert [] + [s] == [s] && [] + ([m] + [s]) == [m] + [s];
  }

  lemma {:induction false} ClockNanos(u: nat, w: nat)
    requires w == u / SECOND
    ensures var seconds := w % 60 * SECOND + u % SECOND;
            var minutes := w / 60 % 60 * (60 * SECOND) + seconds;
            && w / 3600 * (3600 * SECOND) + minutes == u
            && (w / 3600 == 0 ==> minutes == u)
            && (w / 60 == 0 ==> seconds == u)
  {
    Clock(w);
  }

  lemma {:induction false} SecondTerms(u: nat)
    requires u >= SECOND
    ensures Means(TermsOf(u), u)
  {
    hide UnitOf, Count, Decimals, Means, TermsOf, Pow10, Term.ExactNanos, Term.Valid, Term.Exact;
    var w := u / SECOND;
    Clock(w);
    ClockNanos(u, w);
    UnitPowers();
    SecondShape(u, w);
    var seconds := w % 60 * SECOND + u % SECOND;
    var minutes := w / 60 % 60 * (60 * SECOND) + seconds;
    var s, m, h := Decimals(w % 60, u, 9, S), Count(w / 60 % 60, M), Count(w / 3600, H);
    DecimalsMeaning(w % 60, u, 9, S);
    OneTerm(s, seconds);
    CountMeaning(w / 60 % 60, M);
    MoreTerms(m, [s], seconds);
    CountMeaning(w / 3600, H);
    MoreTerms(h, [m] + [s], minutes);
  }

  lemma {:induction false} TermsMeaning(u: nat)
    ensures Means(TermsOf(u), u)
  {
    hide UnitOf, Count, Decimals, Means;
    UnitPowers();
    if u == 0 {
      CountMeaning(0, S);
      OneTerm(Count(0, S), 0);
    } else if u < 1000 {
      CountMeaning(u, NS);
      OneTerm(Count(u, NS), u);
    } else if u < 1000_000 {
      DecimalsMeaning(u / 1000, u, 3, MICRO);
      OneTerm(Decimals(u / 1000, u, 3, MICRO), u);
    } else if u < SECOND {
      DecimalsMeaning(u / 1000_000, u, 6, MS);
      OneTerm(Decimals(u / 1000_000, u, 6, MS), u);
    } else {
      SecondTerms(u);
    }
  }

  /** Parsing a printed duration gives it back, for every 64-bit duration but the most negative,
      whose text names a magnitude the parser refuses. */
  lemma {:induction false} RoundTrip(d: int)
    requires -INT64_MAX - 1 <= d <= INT64_MAX
    ensures ParseOf(RenderOf(d)) == if d == -INT64_MAX - 1 then None else Some(d)
  {
    hide ParseOf, TermsOf, PrintAll;
    var u := if d < 0 then -d else d;
    TermsMeaning(u);
    ExactReading(if d < 0 then Minus else Plain, TermsOf(u));
    assert [] + PrintAll(TermsOf(u)) == PrintAll(TermsOf(u));
  }

  // -------------------------------------------------------------------- the printer

  function Left(x: nat): bytes {
    if x > 0 then DecText(x) else []
  }

  lemma {:induction false} LeftEnds(v: nat)
    ensures v > 0 ==> Left(v) == DecText(v)
    ensures Left(0) == [] && DecText(0) == ['0' as int]
  {}

  lemma {:induction false} LeftStep(x: nat, after: bytes)
    requires x > 0
    ensures Left(x) + after == Left(x / 10) + ([Digit(x)] + after)
    ensures |Left(x)| == |Left(x / 10)| + 1
  {
    ConcatAssoc(Left(x / 10), [Digit(x)], after);
  }

  /** Writes v right to left, ending just before w. */
  method FmtInt(buf: array<byte>, w: nat, v: nat) returns (w': nat)
    requires |DecText(v)| <= w <= buf.Length
    modifies buf
    ensures w' == w - |DecText(v)|
    ensures buf[w'..] == DecText(v) + old(buf[w..])
  {
    LeftEnds(v);
    hide *;
    w' := w;
    if v == 0 {
      Prepend(buf, w' - 1, '0' as int);
      w' := w' - 1;
      return;
    }
    var x := v;
    while x > 0
      invariant 0 <= w' <= w
      invariant |DecText(v)| == |Left(x)| + (w - w')
      invariant DecText(v) + old(buf[w..]) == Left(x) + buf[w'..]
    {
      LeftStep(x, buf[w'..]);
      Prepend(buf, w' - 1, Digit(x));
      w' := w' - 1;
      x := x / 10;
    }
    assert [] + buf[w'..] == buf[w'..];
  }

  method Prepend(buf: array<byte>, w: nat, c: byte)
    requires w < buf.Length
    modifies buf
    ensures buf[w..] == [c] + old(buf[w + 1..])
  {
    buf[w] := c;
  }

  /** Part way: with k digits of v still to look at, `rest` holds the digits above the ones done,
      and `now` is what stands where only `before` stood. */
  ghost predicate Pending(v: nat, prec: nat, rest: nat, k: nat, before: bytes, now: bytes) {
    var shown := |now| > |before|;
    && |now| >= |before|
    && FracDigits(v, prec) + before == Unwritten(shown, rest, k) + now
    && Above(v, prec) == Above(rest, k)
  }

  lemma {:induction false} PendingStep(v: nat, prec: nat, rest: nat, k: nat, before: bytes, now: bytes)
    requires k > 0 && Pending(v, prec, rest, k, before, now)
    ensures var show := |now| > |before| || rest % 10 != 0;
            Pending(v, prec, rest / 10, k - 1, before, if show then [Digit(rest)] + now else now)
  {
    UnwrittenStep(|now| > |before|, rest, k, now);
    AboveStep(rest, k);
    hide Unwritten, FracDigits, Above;
    assert [] + now == now;
  }

  lemma {:induction false} PendingStart(v: nat, prec: nat, before: bytes)
    ensures Pending(v, prec, v, prec, before, before)
  {}

  lemma {:induction false} PendingDone(v: nat, prec: nat, rest: nat, before: bytes, now: bytes)
    requires Pending(v, prec, rest, 0, before, now)
    ensures (if |now| > |before| then [POINT] + now else now) == FracText(v, prec) + before
    ensures rest == Above(v, prec)
  {
    assert [] + now == now && [] + before == before;
    var f := FracDigits(v, prec);
    ConcatAssoc([POINT], f, before);
  }

  /** Writes the last `prec` digits of v right to left without trailing zeros, then the point if
      any digit was written; returns the digits above them. */
  method FmtFrac(buf: array<byte>, w: nat, v: nat, prec: nat) returns (w': nat, rest: nat)
    requires prec + 1 <= w <= buf.Length
    modifies buf
    ensures w' == w - |FracText(v, prec)|
    ensures buf[w'..] == FracText(v, prec) + old(buf[w..])
    ensures rest == Above(v, prec)
  {
    hide *;
    w', rest := w, v;
    var shown := false;
    ghost var before := buf[w..];
    PendingStart(v, prec, before);
    for i := 0 to prec
      invariant w - i <= w' <= w && (shown <==> w' < w)
      invariant Pending(v, prec, rest, prec - i, before, buf[w'..])
    {
      PendingStep(v, prec, rest, prec - i, before, buf[w'..]);
      var digit := rest % 10;
      shown := shown || digit != 0;
      if shown {
        Prepend(buf, w' - 1, Digit(rest));
        w' := w' - 1;
      }
      rest := rest / 10;
    }
    ghost var now := buf[w'..];
    assert |now| == buf.Length - w' && |before| == buf.Length - w;
    PendingDone(v, prec, rest, before, now);
    if shown {
      Prepend(buf, w' - 1, POINT);
      w' := w' - 1;
    }
  }

  lemma {:induction false} AboveStep(v: nat, prec: nat)
    requires prec > 0
    ensures Above(v, prec) == Above(v / 10, prec - 1)
  {
    LastDigits(v, Pow10(prec - 1));
  }

  function Unwritten(shown: bool, v: nat, prec: nat): bytes {
    if shown then Padded(v, prec) else FracDigits(v, prec)
  }

  lemma {:induction false} UnwrittenStep(shown: bool, v: nat, prec: nat, after: bytes)
    requires prec > 0
    ensures var now := shown || v % 10 != 0;
            Unwritten(shown, v, prec) + after
            == Unwritten(now, v / 10, prec - 1) + ((if now then [Digit(v)] else []) + after)
  {
    ConcatAssoc(Padded(v / 10, prec - 1), [Digit(v)], after);
    assert [] + after == after;
  }

  lemma {:induction false} PrintOne(t: Term)
    ensures PrintAll([t]) == t.Print()
  {
    assert t.Print() + PrintAll([]) == t.Print();
  }

  lemma {:induction false} PrintMore(t: Term, ts: seq<Term>)
    ensures PrintAll([t] + ts) == t.Print() + PrintAll(ts)
  {
    assert ([t] + ts)[1..] == ts;
  }

  lemma {:induction false} CountPrint(v: nat, unit: bytes)
    ensures Count(v, unit).Print() == DecText(v) + unit
  {
    assert [] + unit == unit;
  }

  lemma {:induction false} DecimalsPrint(whole: nat, v: nat, prec: nat, unit: bytes)
    ensures Decimals(whole, v, prec, unit).Print() == DecText(whole) + (FracText(v, prec) + unit)
  {}

  function SmallUnit(u: nat): (nat, bytes) {
    if u < 1000 then (0, NS) else if u < 1000_000 then (3, MICRO) else (6, MS)
  }

  lemma {:induction false} SmallText(u: nat)
    requires 0 < u < SECOND
    ensures var (prec, unit) := SmallUnit(u);
            && PrintAll(TermsOf(u)) == DecText(Above(u, prec)) + (FracText(u, prec) + unit)
            && |DecText(Above(u, prec))| <= 3
  {
    hide DecText, FracDigits, Term.Print;
    UnitPowers();
    var (prec, unit) := SmallUnit(u);
    assert Above(u, prec) < 1000;
    assert Pow10(3) == 1000;
    DecTextLength(Above(u, prec), 3);
    PrintOne(TermsOf(u)[0]);
    if prec == 0 {
      CountPrint(u, NS);
      assert FracText(u, 0) == [];
      assert [] + NS == NS;
    } else {
      DecimalsPrint(Above(u, prec), u, prec, unit);
    }
  }

  /** Below a second: one term, in ns, µs or ms. */
  method RenderSmall(tmp: array<byte>, u: nat) returns (w: nat)
    requires tmp.Length == 32 && 0 < u < SECOND
    modifies tmp
    ensures 1 <= w <= 32 && tmp[w..] == PrintAll(TermsOf(u))
  {
    SmallText(u);
    hide Above, DecText, FracText, PrintAll, TermsOf;
    w := 31;
    tmp[w] := 's' as int;
    var prec;
    if u < 1000 {
      prec := 0;
      w := w - 1;
      tmp[w] := 'n' as int;
    } else if u < 1000_000 {
      prec := 3;
      w := w - 1;
      tmp[w] := 0xb5;
      w := w - 1;
      tmp[w] := 0xc2;
    } else {
      prec := 6;
      w := w - 1;
      tmp[w] := 'm' as int;
    }
    assert tmp[w..] == SmallUnit(u).1;
    hide SmallUnit;
    var rest;
    w, rest := FmtFrac(tmp, w, u, prec);
    w := FmtInt(tmp, w, rest);
  }

  function SecondsText(u: nat, w: nat): bytes {
    DecText(w % 60) + (FracText(u, 9) + S)
  }

  function MinutesText(u: nat, w: nat): bytes {
    DecText(w / 60 % 60) + (M + SecondsText(u, w))
  }

  lemma {:induction false} SecondText(u: nat, w: nat)
    requires u >= SECOND && w == u / SECOND
    ensures PrintAll(TermsOf(u)) ==
            if w / 3600 > 0 then DecText(w / 3600) + (H + MinutesText(u, w))
            else if w / 60 > 0 then MinutesText(u, w)
            else SecondsText(u, w)
  {
    hide DecText, FracText, PrintAll, Term.Print, TermsOf;
    SecondShape(u, w);
    var s, m, h := Decimals(w % 60, u, 9, S), Count(w / 60 % 60, M), Count(w / 3600, H);
    DecimalsPrint(w % 60, u, 9, S);
    CountPrint(w / 60 % 60, M);
    CountPrint(w / 3600, H);
    PrintOne(s);
    PrintMore(m, [s]);
    PrintMore(h, [m] + [s]);
    hide Decimals, Count;
    ConcatAssoc(DecText(w / 60 % 60), M, SecondsText(u, w));
    ConcatAssoc(DecText(w / 3600), H, MinutesText(u, w));
  }

  /** A 64-bit magnitude has at most seven digits of hours. */
  lemma {:induction false} ClockDigits(w: nat)
    requires w <= (INT64_MAX + 1) / SECOND
    ensures |DecText(w / 3600)| <= 7 && |DecText(w / 60 % 60)| <= 2 && |DecText(w % 60)| <= 2
  {
    UnitPowers();
    assert Pow10(7) == 10 * Pow10(6);
    assert Pow10(2) == 100;
    DecTextLength(w / 3600, 7);
    DecTextLength(w / 60 % 60, 2);
    DecTextLength(w % 60, 2);
  }

  lemma {:induction false} Digits(u: nat, w: nat)
    requires u <= INT64_MAX + 1 && w == u / SECOND
    ensures w <= (INT64_MAX + 1) / SECOND && |DecText(w % 60)| <= 2
    ensures Above(u, 9) == w
  {
    UnitPowers();
    ClockDigits(w);
  }

  method RenderLarge(tmp: array<byte>, u: nat) returns (w: nat)
    requires tmp.Length == 32 && SECOND <= u <= INT64_MAX + 1
    modifies tmp
    ensures 1 <= w <= 32 && tmp[w..] == PrintAll(TermsOf(u))
  {
    hide DecText, PrintAll, TermsOf, MinutesText, SecondsText;
    SecondText(u, u / SECOND);
    Digits(u, u / SECOND);
    var x;
    w, x := RenderSeconds(tmp, u);
    w := RenderMinutes(tmp, w, u, x);
  }

  /** The seconds with their fraction; the whole seconds are handed on. */
  method RenderSeconds(tmp: array<byte>, u: nat) returns (w: nat, x: nat)
    requires tmp.Length == 32 && SECOND <= u <= INT64_MAX + 1
    modifies tmp
    ensures 18 <= w <= 32 && x == u / SECOND && tmp[w..] == SecondsText(u, x)
  {
    Digits(u, u / SECOND);
    hide Above, DecText, FracText;
    w := 31;
    tmp[w] := 's' as int;
    assert tmp[w..] == S;
    w, x := FmtFrac(tmp, w, u, 9);
    w := FmtInt(tmp, w, x % 60);
  }

  /** The minutes and hours, where there are any, in front of the seconds. */
  method RenderMinutes(tmp: array<byte>, w: nat, u: nat, x: nat) returns (w': nat)
    requires tmp.Length == 32 && 18 <= w <= 32 && x <= (INT64_MAX + 1) / SECOND
    requires tmp[w..] == SecondsText(u, x)
    modifies tmp
    ensures 1 <= w' <= 32
    ensures tmp[w'..] ==
            if x / 3600 > 0 then DecText(x / 3600) + (H + MinutesText(u, x))
            else if x / 60 > 0 then MinutesText(u, x)
            else SecondsText(u, x)
  {
    hide DecText, SecondsText;
    Clock(x);
    ClockDigits(x);
    var m := x / 60;
    w' := w;
    if m > 0 {
      Prepend(tmp, w' - 1, 'm' as int);
      w' := FmtInt(tmp, w' - 1, m % 60);
      assert tmp[w'..] == MinutesText(u, x);
      hide MinutesText;
      var h := m / 60;
      if h > 0 {
        Prepend(tmp, w' - 1, 'h' as int);
        w' := FmtInt(tmp, w' - 1, h);
      }
    }
  }

  /** The text always fits the 32-byte buffer it is built in. */
  method RenderText(d: int) returns (text: bytes)
    requires -INT64_MAX - 1 <= d <= INT64_MAX
    ensures text == RenderOf(d)
    ensures |text| <= 32
  {
    hide PrintAll, TermsOf;
    var tmp := new byte[32];
    var neg := d < 0;
    var u := if neg then -(d + 1) + 1 else d;
    if u == 0 {
      ZeroText();
      return ['0' as int, 's' as int];
    }
    var w;
    if u < SECOND {
      w := RenderSmall(tmp, u);
    } else {
      w := RenderLarge(tmp, u);
    }
    if neg {
      Prepend(tmp, w - 1, MINUS);
      w := w - 1;
    }
    text := tmp[w..];
  }

  lemma {:induction false} PrintNulFree(ts: seq<Term>)
    requires AllValid(ts)
    ensures NulFree(PrintAll(ts))
  {
    hide UnitOf;
    if ts != [] {
      UnitNulFree(ts[0].unit);
      DigitsNulFree(ts[0].whole);
      DigitsNulFree(ts[0].frac);
      PrintNulFree(ts[1..]);
    }
  }

  lemma {:induction false} UnitNulFree(name: bytes)
    requires UnitOf(name).Some?
    ensures NulFree(name)
  {}

  lemma {:induction false} DigitsNulFree(s: bytes)
    requires AllDigits(s)
    ensures NulFree(s)
  {}

  /** What a caller's buffer of this size holds as a C string: the text, cut to leave room for the NUL. */
  function Cut(text: bytes, size: nat): bytes
    requires size > 0
  {
    if |text| < size then text else text[..size - 1]
  }

  /** The printer: a buffer of 33 bytes holds every duration whole; one that is too small, its beginning,
      and an empty one nothing. */
  method Render(d: int, out: array<byte>)
    requires -INT64_MAX - 1 <= d <= INT64_MAX
    modifies out
    ensures out.Length > 0 ==> CStr(out[..]) == Cut(RenderOf(d), out.Length)
    ensures out.Length >= 33 ==> CStr(out[..]) == RenderOf(d)
    ensures forall k :: |RenderOf(d)| < k < out.Length ==> out[k] == old(out[k])
  {
    hide TermsOf, PrintAll;
    var text := RenderText(d);
    TermsMeaning(if d < 0 then -d else d);
    PrintNulFree(TermsOf(if d < 0 then -d else d));
    if out.Length > 0 {
      var kept := Cut(text, out.Length);
      Copy(out, 0, kept);
      out[|kept|] := 0;
      assert out[..|kept|] == kept;
      CStrUnique(out[..], kept);
    }
  }

  lemma {:induction false} ZeroText()
    ensures PrintAll(TermsOf(0)) == ['0' as int, 's' as int]
  {
    PrintOne(Count(0, S));
  }
}
