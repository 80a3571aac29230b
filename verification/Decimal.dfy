/** Runs of decimal digits and the numbers they name. */
module Decimal {
  import opened Bytes

  predicate IsDigit(b: byte) {
    '0' as int <= b <= '9' as int
  }

  predicate AllDigits(s: bytes) {
    forall k :: 0 <= k < |s| ==> IsDigit(s[k])
  }

  /** The byte of v's last decimal digit. */
  function Digit(v: nat): (b: byte)
    ensures IsDigit(b)
  {
    v % 10 + '0' as int
  }

  function DigitsEnd(s: bytes, i: nat): (r: nat)
    requires i <= |s|
    ensures i <= r <= |s|
    ensures forall k :: i <= k < r ==> IsDigit(s[k])
    ensures r < |s| ==> !IsDigit(s[r])
    decreases |s| - i
  {
    if i < |s| && IsDigit(s[i]) then DigitsEnd(s, i + 1) else i
  }

  lemma {:induction false} DigitsEndAt(s: bytes, i: nat, e: nat)
    requires i <= e <= |s|
    requires forall k :: i <= k < e ==> IsDigit(s[k])
    requires e < |s| ==> !IsDigit(s[e])
    ensures DigitsEnd(s, i) == e
    decreases e - i
  {
    if i < e {
      DigitsEndAt(s, i + 1, e);
    }
  }

  /** A maximal run of digits is where DigitsEnd stops. */
  lemma {:induction false} DigitRun(s: bytes, i: nat, run: bytes, rest: bytes)
    requires i <= |s| && s[i..] == run + rest
    requires AllDigits(run) && (rest != [] ==> !IsDigit(rest[0]))
    ensures var e := i + |run|; DigitsEnd(s, i) == e && e <= |s| && s[i..e] == run && s[e..] == rest
  {
    var e := i + |run|;
    assert s[i..e] == s[i..][..|run|] && s[e..] == s[i..][|run|..];
    assert forall m :: i <= m < e ==> s[m] == s[i..e][m - i];
    DigitsEndAt(s, i, e);
  }

  /** The number a digit string names; the empty string is 0. */
  function Dec(s: bytes): nat
    requires AllDigits(s)
  {
    if s == [] then 0 else Dec(s[..|s| - 1]) * 10 + (s[|s| - 1] - '0' as int)
  }

  lemma {:induction false} DecGrows(s: bytes, k: nat)
    requires AllDigits(s) && k <= |s|
    ensures Dec(s[..k]) <= Dec(s)
  {
    if k == |s| {
      assert s[..k] == s;
    } else {
      DecGrows(s[..|s| - 1], k);
      assert s[..|s| - 1][..k] == s[..k];
    }
  }

  function Pow10(k: nat): (p: nat)
    ensures p >= 1
  {
    if k == 0 then 1 else 10 * Pow10(k - 1)
  }

  lemma {:induction false} Pow10Add(a: nat, b: nat)
    ensures Pow10(a + b) == Pow10(a) * Pow10(b)
  {
    if b > 0 {
      Pow10Add(a, b - 1);
    }
  }

  lemma {:induction false} DecBound(s: bytes)
    requires AllDigits(s)
    ensures Dec(s) < Pow10(|s|)
  {
    if s != [] {
      DecBound(s[..|s| - 1]);
    }
  }

  /** v in decimal without leading zeros. */
  function DecText(v: nat): (s: bytes)
    ensures s != [] && AllDigits(s)
  {
    (if v < 10 then [] else DecText(v / 10)) + [Digit(v)]
  }

  lemma {:induction false} DecSnoc(s: bytes, c: byte)
    requires AllDigits(s) && IsDigit(c)
    ensures Dec(s + [c]) == Dec(s) * 10 + (c - '0' as int)
  {
    assert (s + [c])[..|s|] == s;
  }

  lemma {:induction false} DecOfDecText(v: nat)
    ensures Dec(DecText(v)) == v
  {
    if v < 10 {
      DecSnoc([], Digit(v));
    } else {
      DecOfDecText(v / 10);
      DecSnoc(DecText(v / 10), Digit(v));
    }
  }

  lemma {:induction false} DecTextLength(v: nat, n: nat)
    requires n >= 1 && v < Pow10(n)
    ensures |DecText(v)| <= n
  {
    if v >= 10 {
      DecTextLength(v / 10, n - 1);
    }
  }
}
