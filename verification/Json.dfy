/** JSON strings (section 7 of RFC 8259): unescaping them, and the bounded writer that escapes them. */
module Json {
  import opened Bytes

  const MAX_RESPONSE := 64 * 1024

  const LETTER_U: byte := 117

  // ------------------------------------------------------------------- UTF-8

  predicate Scalar(cp: nat) {
    cp < 0xd800 || 0xe000 <= cp < 0x11_0000
  }

  function Utf8(cp: nat): (b: bytes)
    requires cp < 0x11_0000
    ensures 1 <= |b| <= 4
  {
    if cp < 0x80 then [cp]
    else if cp < 0x800 then [0xc0 + cp / 64, 0x80 + cp % 64]
    else if cp < 0x1_0000 then [0xe0 + cp / 4096, 0x80 + cp / 64 % 64, 0x80 + cp % 64]
    else [0xf0 + cp / 0x4_0000, 0x80 + cp / 4096 % 64, 0x80 + cp / 64 % 64, 0x80 + cp % 64]
  }

  predicate Tail(c: byte) {
    0x80 <= c < 0xc0
  }

  /** What a lead octet's bits and the continuation octets behind it spell. */
  function Payload(lead: int, b: bytes): int
    decreases b
  {
    if b == [] then lead else Payload(lead * 64 + b[0] - 0x80, b[1..])
  }

  /** The code point one UTF-8 sequence spells, by the octet ranges of section 4 of RFC 3629. */
  function Utf8Value(b: bytes): Option<int> {
    if |b| == 1 && b[0] < 0x80 then Some(b[0])
    else if |b| == 2 && 0xc2 <= b[0] <= 0xdf && Tail(b[1]) then Some(Payload(b[0] - 0xc0, b[1..]))
    else if |b| == 3 && 0xe0 <= b[0] <= 0xef && Tail(b[1]) && Tail(b[2])
            && (b[0] == 0xe0 ==> b[1] >= 0xa0) && (b[0] == 0xed ==> b[1] < 0xa0) then
      Some(Payload(b[0] - 0xe0, b[1..]))
    else if |b| == 4 && 0xf0 <= b[0] <= 0xf4 && Tail(b[1]) && Tail(b[2]) && Tail(b[3])
            && (b[0] == 0xf0 ==> b[1] >= 0x90) && (b[0] == 0xf4 ==> b[1] < 0x90) then
      Some(Payload(b[0] - 0xf0, b[1..]))
    else None
  }

  /** One example of each length: e acute, the euro sign and a face. */
  lemma {:induction false} Utf8Examples()
    ensures Utf8(0x41) == [0x41] && Utf8(0xe9) == [0xc3, 0xa9]
    ensures Utf8(0x20ac) == [0xe2, 0x82, 0xac] && Utf8(0x1_f600) == [0xf0, 0x9f, 0x98, 0x80]
  {}

  /** A scalar value is encoded as the one sequence that decodes to it. */
  lemma {:induction false} Utf8RoundTrip(cp: nat)
    requires Scalar(cp)
    ensures Utf8Value(Utf8(cp)) == Some(cp)
  {
    var b := Utf8(cp);
    if cp < 0x80 {
    } else if cp < 0x800 {
      assert b[1..] == [0x80 + cp % 64] && b[1..][1..] == [];
      assert Payload(cp / 64, b[1..]) == Payload(cp, []);
    } else if cp < 0x1_0000 {
      assert b[1..][1..] == b[2..] && b[2..][1..] == [] && cp / 64 / 64 == cp / 4096;
      assert Payload(cp / 4096, b[1..]) == Payload(cp / 64, b[2..]) == Payload(cp, []);
    } else {
      var q := cp / 4096;
      assert 16 <= q < 272 && q / 64 == cp / 0x4_0000 && cp / 64 / 64 == q;
      assert b[1..][1..] == b[2..] && b[2..][1..] == b[3..] && b[3..][1..] == [];
      assert b == [0xf0 + q / 64, 0x80 + q % 64, 0x80 + cp / 64 % 64, 0x80 + cp % 64];
      assert Payload(q / 64, b[1..]) == Payload(q, b[2..]) == Payload(cp / 64, b[3..]) == Payload(cp, []);
    }
  }

  // -------------------------------------------------------------- hexadecimal

  function HexValue(c: byte): Option<nat> {
    if 48 <= c <= 57 then Some(c - 48)
    else if 97 <= c <= 102 then Some(c - 97 + 10)
    else if 65 <= c <= 70 then Some(c - 65 + 10)
    else None
  }

  function Hex4(p: bytes): (v: Option<nat>)
    requires |p| >= 4
    ensures v.Some? ==> v.value < 0x1_0000
  {
    match (HexValue(p[0]), HexValue(p[1]), HexValue(p[2]), HexValue(p[3]))
    case (Some(a), Some(b), Some(c), Some(d)) =>
      assert a < 16 && b < 16 && c < 16 && d < 16;
      Some(((a * 16 + b) * 16 + c) * 16 + d)
    case _ => None
  }

  function HexDigit(d: nat): byte
    requires d < 16
  {
    if d < 10 then 48 + d else 97 + d - 10
  }

  /** \uXXXX in lower case. */
  function EscapeUnit(u: nat): (e: bytes)
    requires u < 0x1_0000
    ensures |e| == 6
  {
    [BACKSLASH, LETTER_U, HexDigit(u / 4096), HexDigit(u / 256 % 16), HexDigit(u / 16 % 16), HexDigit(u % 16)]
  }

  lemma {:induction false} FourDigits(u: nat)
    requires u < 0x1_0000
    ensures u / 4096 < 16
    ensures ((u / 4096 * 16 + u / 256 % 16) * 16 + u / 16 % 16) * 16 + u % 16 == u
  {
    var x := u / 16;
    var y := x / 16;
    DivideUnique(u, 256, y, x % 16 * 16 + u % 16);
    DivideUnique(u, 4096, y / 16, (y % 16 * 16 + x % 16) * 16 + u % 16);
  }

  lemma {:induction false} DigitReads(d: nat)
    requires d < 16
    ensures HexValue(HexDigit(d)) == Some(d)
  {}

  lemma {:induction false} Hex4OfUnit(u: nat)
    requires u < 0x1_0000
    ensures Hex4(EscapeUnit(u)[2..]) == Some(u)
  {
    hide HexValue, HexDigit;
    FourDigits(u);
    DigitReads(u / 4096);
    DigitReads(u / 256 % 16);
    DigitReads(u / 16 % 16);
    DigitReads(u % 16);
  }

  lemma {:induction false} Hex4Prefix(p: bytes, q: bytes)
    requires |p| >= 4 && |q| >= 4 && p[..4] == q[..4]
    ensures Hex4(p) == Hex4(q)
  {
    assert p[0] == p[..4][0] && p[1] == p[..4][1] && p[2] == p[..4][2] && p[3] == p[..4][3];
    assert q[0] == q[..4][0] && q[1] == q[..4][1] && q[2] == q[..4][2] && q[3] == q[..4][3];
  }

  // --------------------------------------------------------------- unescaping

  /** The byte a one-character escape stands for. */
  function SimpleEscape(c: byte): Option<byte> {
    if c == QUOTE || c == BACKSLASH || c == SLASH then Some(c)
    else if c == 98 then Some(8)
    else if c == 102 then Some(12)
    else if c == 110 then Some(10)
    else if c == 114 then Some(13)
    else if c == 116 then Some(9)
    else None
  }

  predicate High(u: nat) { 0xd800 <= u <= 0xdbff }
  predicate Low(u: nat) { 0xdc00 <= u <= 0xdfff }

  /** One value at the front of escaped text: what it yields and how much it takes. */
  datatype Unit = NoUnit | Unit(out: bytes, len: nat)

  function FrontUnit(p: bytes): (u: Unit)
    requires p != []
    ensures u.Unit? ==> 1 <= u.len <= |p| && 1 <= |u.out| <= 4
  {
    if p[0] != BACKSLASH then Unit([p[0]], 1)
    else if |p| < 2 then NoUnit
    else if p[1] != LETTER_U then
      match SimpleEscape(p[1])
      case None => NoUnit
      case Some(c) => Unit([c], 2)
    else if |p| < 6 then NoUnit
    else match Hex4(p[2..])
      case None => NoUnit
      case Some(u) =>
        if High(u) then
          if |p| < 12 || p[6] != BACKSLASH || p[7] != LETTER_U then NoUnit
          else match Hex4(p[8..])
            case None => NoUnit
            case Some(low) =>
              if !Low(low) then NoUnit
              else Unit(Utf8(0x1_0000 + (u - 0xd800) * 1024 + (low - 0xdc00)), 12)
        else if Low(u) then NoUnit
        else Unit(Utf8(u), 6)
  }

  function Unescape(p: bytes): Option<bytes> {
    if p == [] then Some([])
    else match FrontUnit(p)
      case NoUnit => None
      case Unit(out, len) =>
        match Unescape(p[len..])
        case None => None
        case Some(rest) => Some(out + rest)
  }

  lemma {:induction false} UnescapeFront(p: bytes, out: bytes, len: nat)
    requires p != [] && FrontUnit(p) == Unit(out, len)
    ensures Unescape(p) == match Unescape(p[len..]) case None => None case Some(rest) => Some(out + rest)
  {}

  lemma {:induction false} FrontUnitAppend(p: bytes, more: bytes)
    requires p != [] && FrontUnit(p).Unit?
    ensures FrontUnit(p + more) == FrontUnit(p) && (p + more)[FrontUnit(p).len..] == p[FrontUnit(p).len..] + more
  {
    hide Utf8, Hex4;
    var q := p + more;
    if |p| >= 6 {
      Hex4Prefix(q[2..], p[2..]);
    }
    if |p| >= 12 {
      Hex4Prefix(q[8..], p[8..]);
    }
  }

  /** The digits of section 7 of RFC 8259, in either case, and no others. */
  lemma {:induction false} HexIff(c: byte, d: nat)
    ensures HexValue(c) == Some(d) <==>
            d < 16 && (c == "0123456789abcdef"[d] as int || c == "0123456789ABCDEF"[d] as int)
  {}

  /** The eight one-character escapes, and the bytes they stand for. */
  lemma {:induction false} EscapeIff(c: byte, v: byte)
    ensures SimpleEscape(c) == Some(v) <==>
            || (c == '"' as int && v == 0x22) || (c == '\\' as int && v == 0x5c) || (c == '/' as int && v == 0x2f)
            || (c == 'b' as int && v == 0x08) || (c == 'f' as int && v == 0x0c) || (c == 'n' as int && v == 0x0a)
            || (c == 'r' as int && v == 0x0d) || (c == 't' as int && v == 0x09)
  {}

  /** One of them behind any readable text; a backslash before anything else but a u spoils the text. */
  lemma {:induction false} EscapeReads(before: bytes, c: byte, rest: bytes)
    requires Unescape(before).Some? && Unescape(rest).Some? && c != 'u' as int
    ensures Unescape(before + ([0x5c, c] + rest)) ==
            match SimpleEscape(c)
            case None => None
            case Some(v) => Some(Unescape(before).value + ([v] + Unescape(rest).value))
  {
    var p := [0x5c, c] + rest;
    assert p[2..] == rest;
    hide SimpleEscape;
    UnescapeAppend(before, p);
    if SimpleEscape(c).Some? {
      UnescapeFront(p, [SimpleEscape(c).value], 2);
    }
  }

  /** Text behind readable text is read on its own. */
  lemma {:induction false} UnescapeAppend(a: bytes, b: bytes)
    requires Unescape(a).Some?
    ensures Unescape(a + b) == match Unescape(b) case None => None case Some(r) => Some(Unescape(a).value + r)
    decreases |a|
  {
    hide FrontUnit;
    if a == [] {
      assert a + b == b;
      if Unescape(b).Some? {
        assert [] + Unescape(b).value == Unescape(b).value;
      }
    } else {
      var u := FrontUnit(a);
      FrontUnitAppend(a, b);
      UnescapeAppend(a[u.len..], b);
      if Unescape(b).Some? {
        ConcatAssoc(u.out, Unescape(a[u.len..]).value, Unescape(b).value);
      }
    }
  }

  /** A backslash, a u and four hexadecimal digits in either case that name u. */
  predicate IsUnit(e: bytes, u: nat) {
    |e| == 6 && e[0] == BACKSLASH && e[1] == LETTER_U && Hex4(e[2..]) == Some(u)
  }

  /** An escaped spelling of a scalar value: one unit, or a high and a low surrogate. */
  predicate Spells(e: bytes, cp: nat) {
    || (IsUnit(e, cp) && !High(cp) && !Low(cp))
    || (|e| == 12 && 0x1_0000 <= cp < 0x11_0000
        && IsUnit(e[..6], 0xd800 + (cp - 0x1_0000) / 1024) && IsUnit(e[6..], 0xdc00 + (cp - 0x1_0000) % 1024))
  }

  lemma {:induction false} SpelledIsScalar(e: bytes, cp: nat)
    requires Spells(e, cp)
    ensures Scalar(cp)
  {}

  /** Every scalar value has a spelling. */
  lemma {:induction false} ScalarSpelled(cp: nat) returns (e: bytes)
    requires Scalar(cp)
    ensures Spells(e, cp)
  {
    if cp < 0x1_0000 {
      e := EscapeUnit(cp);
      Hex4OfUnit(cp);
    } else {
      var high, low := 0xd800 + (cp - 0x1_0000) / 1024, 0xdc00 + (cp - 0x1_0000) % 1024;
      e := EscapeUnit(high) + EscapeUnit(low);
      Hex4OfUnit(high);
      Hex4OfUnit(low);
      assert e[..6] == EscapeUnit(high) && e[6..] == EscapeUnit(low);
    }
  }

  lemma {:induction false} FrontSpelled(e: bytes, cp: nat)
    requires Spells(e, cp)
    ensures FrontUnit(e) == Unit(Utf8(cp), |e|)
  {
    hide Utf8, Hex4;
    if |e| == 12 {
      Hex4Prefix(e[2..], e[..6][2..]);
      assert e[8..] == e[6..][2..];
      assert e[0] == e[..6][0] && e[1] == e[..6][1] && e[6] == e[6..][0] && e[7] == e[6..][1];
    }
  }

  /** Every spelling of a scalar value, behind any readable text, unescapes to its UTF-8 form. */
  lemma {:induction false} UnescapeScalar(before: bytes, e: bytes, cp: nat, rest: bytes)
    requires Unescape(before).Some? && Spells(e, cp)
    ensures Unescape(before + (e + rest)) ==
            match Unescape(rest) case None => None case Some(r) => Some(Unescape(before).value + (Utf8(cp) + r))
  {
    hide Unescape, FrontUnit, Utf8, Spells;
    SpellingIsLong(e, cp);
    SpelledIsScalar(e, cp);
    FrontSpelled(e, cp);
    FrontUnitAppend(e, rest);
    assert e[|e|..] + rest == rest;
    UnescapeFront(e + rest, Utf8(cp), |e|);
    UnescapeAppend(before, e + rest);
  }

  /** So every scalar value can be written behind any readable text. */
  lemma {:induction false} EveryScalar(before: bytes, cp: nat, rest: bytes) returns (e: bytes)
    requires Unescape(before).Some? && Unescape(rest).Some? && Scalar(cp)
    ensures Spells(e, cp)
    ensures Unescape(before + (e + rest)) == Some(Unescape(before).value + (Utf8(cp) + Unescape(rest).value))
  {
    e := ScalarSpelled(cp);
    UnescapeScalar(before, e, cp, rest);
  }

  lemma {:induction false} SpellingIsLong(e: bytes, cp: nat)
    requires Spells(e, cp)
    ensures |e| >= 6
  {}

  /** Behind any readable text, a surrogate is read only as the high half of a pair: a low half
      first, or a high one without its low half next, is refused whatever follows. */
  lemma {:induction false} LoneSurrogateRefused(before: bytes, e: bytes, u: nat, rest: bytes)
    requires Unescape(before).Some? && IsUnit(e, u) && (High(u) || Low(u))
    ensures Unescape(before + (e + rest)).Some? ==>
              High(u) && |rest| >= 6 && exists low: nat :: Low(low) && IsUnit(rest[..6], low)
  {
    hide Unescape, Utf8, Hex4;
    var p := e + rest;
    UnescapeAppend(before, p);
    Hex4Prefix(p[2..], e[2..]);
    if |rest| >= 6 {
      assert p[8..] == rest[2..] && p[6] == rest[0] && p[7] == rest[1];
      Hex4Prefix(rest[2..], rest[..6][2..]);
      if Hex4(rest[2..]).Some? {
        assert IsUnit(rest[..6], Hex4(rest[2..]).value) <==> rest[0] == BACKSLASH && rest[1] == LETTER_U;
      }
    }
    UnescapeNone(p);
  }

  lemma {:induction false} UnescapeNone(p: bytes)
    ensures p != [] && FrontUnit(p).NoUnit? ==> Unescape(p) == None
  {}

  // ------------------------------------------------------------------ writing

  function EscapeByte(c: byte): (e: bytes)
    ensures 1 <= |e| <= 6
  {
    if c == QUOTE || c == BACKSLASH then [BACKSLASH, c]
    else if c == 10 then [BACKSLASH, 110]
    else if c == 13 then [BACKSLASH, 114]
    else if c == 9 then [BACKSLASH, 116]
    else if c < 0x20 then [BACKSLASH, LETTER_U, 48, 48, HexDigit(c / 16), HexDigit(c % 16)]
    else [c]
  }

  function Escape(s: bytes): bytes {
    if s == [] then [] else Escape(s[..|s| - 1]) + EscapeByte(s[|s| - 1])
  }

  lemma {:induction false} EscapeByteReads(c: byte, rest: bytes)
    ensures FrontUnit(EscapeByte(c) + rest) == Unit([c], |EscapeByte(c)|)
    ensures (EscapeByte(c) + rest)[|EscapeByte(c)|..] == rest
  {
    var p := EscapeByte(c) + rest;
    if c < 0x20 && |EscapeByte(c)| == 6 {
      assert c / 4096 == 0 && c / 256 % 16 == 0 && c / 16 % 16 == c / 16;
      assert EscapeByte(c) == EscapeUnit(c);
      Hex4OfUnit(c);
      Hex4Prefix(p[2..], EscapeUnit(c)[2..]);
    }
  }

  /** How the writer spells each byte: five short escapes, \u00 and two digits for the other control
      characters, and itself. */
  lemma {:induction false} ByteWritten(c: byte)
    ensures var e := EscapeByte(c);
            if c == '"' as int then e == Ascii("\\\"")
            else if c == '\\' as int then e == Ascii("\\\\")
            else if c == '\n' as int then e == Ascii("\\n")
            else if c == '\r' as int then e == Ascii("\\r")
            else if c == '\t' as int then e == Ascii("\\t")
            else if c < 0x20 then |e| == 6 && e[..4] == Ascii("\\u00") && Hex4(e[2..]) == Some(c)
            else e == [c]
  {
    if c < 0x20 && |EscapeByte(c)| == 6 {
      DigitReads(c / 16);
      DigitReads(c % 16);
    }
  }

  /** The writer leaves no control character in the text. */
  lemma {:induction false} EscapedIsText(s: bytes)
    ensures forall c :: c in Escape(s) ==> 0x20 <= c
  {
    if s != [] {
      EscapedIsText(s[..|s| - 1]);
      ByteIsText(s[|s| - 1]);
    }
  }

  lemma {:induction false} ByteIsText(b: byte)
    ensures forall c :: c in EscapeByte(b) ==> 0x20 <= c
  {}

  /** Unescaping what the writer put between the quotes gives the string back. */
  lemma {:induction false} UnescapeEscape(s: bytes, rest: bytes)
    ensures Unescape(Escape(s) + rest) == match Unescape(rest) case None => None case Some(r) => Some(s + r)
    decreases |s|
  {
    hide Unescape, EscapeByte, FrontUnit;
    if s == [] {
      assert [] + rest == rest;
      if Unescape(rest).Some? { assert [] + Unescape(rest).value == Unescape(rest).value; }
    } else {
      var init, c := s[..|s| - 1], s[|s| - 1];
      var p := EscapeByte(c) + rest;
      ConcatAssoc(Escape(init), EscapeByte(c), rest);
      UnescapeEscape(init, p);
      EscapeByteReads(c, rest);
      UnescapeFront(p, [c], |EscapeByte(c)|);
      if Unescape(rest).Some? {
        ConcatAssoc(init, [c], Unescape(rest).value);
      }
      assert s == init + [c];
    }
  }

  /** The round trip for a whole string. */
  lemma {:induction false} StringRoundTrip(s: bytes)
    ensures Unescape(Escape(s)) == Some(s)
  {
    UnescapeEscape(s, []);
    assert Escape(s) + [] == Escape(s) && s + [] == s;
  }

  // ------------------------------------------------------------- the C loops

  /** Four hexadecimal digits, accumulated left to right. */
  method ReadHex4(p: bytes) returns (ok: bool, v: nat)
    requires |p| >= 4
    ensures ok == Hex4(p).Some? && (ok ==> v == Hex4(p).value)
  {
    v := 0;
    var i := 0;
    while i < 4
      invariant 0 <= i <= 4
      invariant forall k :: 0 <= k < i ==> HexValue(p[k]).Some?
      invariant i >= 1 ==> (i == 1 ==> v == HexValue(p[0]).value)
      invariant i == 0 ==> v == 0
      invariant i == 2 ==> v == HexValue(p[0]).value * 16 + HexValue(p[1]).value
      invariant i == 3 ==> v == (HexValue(p[0]).value * 16 + HexValue(p[1]).value) * 16 + HexValue(p[2]).value
      invariant i == 4 ==> v == ((HexValue(p[0]).value * 16 + HexValue(p[1]).value) * 16 + HexValue(p[2]).value) * 16
                                + HexValue(p[3]).value
    {
      var d := HexValue(p[i]);
      if d.None? {
        return false, v;
      }
      v := v * 16 + d.value;
      i := i + 1;
    }
    ok := true;
  }

  /** One code point's encoding, or nothing when it and a NUL do not fit. */
  method PutUtf8(cp: nat, out: array<byte>, w: nat) returns (ok: bool, w': nat)
    requires cp < 0x11_0000 && w <= out.Length
    modifies out
    ensures ok == (w + |Utf8(cp)| < out.Length)
    ensures ok ==> w' == w + |Utf8(cp)| && out[..w'] == old(out[..w]) + Utf8(cp)
    ensures !ok ==> out[..w] == old(out[..w])
    ensures forall k :: (if ok then w' else w) <= k < out.Length ==> out[k] == old(out[k])
  {
    Utf8Parts(cp);
    hide Utf8;
    w' := w;
    var n := if cp < 0x80 then 1 else if cp < 0x800 then 2 else if cp < 0x1_0000 then 3 else 4;
    if w + n >= out.Length {
      return false, w';
    }
    w' := w + n;
    ok := true;
    var last := 0x80 + cp % 64;
    match n {
      case 1 =>
        out[w] := cp;
        BytesAt(out, w, [cp]);
      case 2 =>
        out[w], out[w + 1] := 0xc0 + cp / 64, last;
        BytesAt(out, w, [0xc0 + cp / 64, last]);
      case 3 =>
        out[w], out[w + 1], out[w + 2] := 0xe0 + cp / 4096, 0x80 + cp / 64 % 64, last;
        BytesAt(out, w, [0xe0 + cp / 4096, 0x80 + cp / 64 % 64, last]);
      case _ =>
        out[w], out[w + 1] := 0xf0 + cp / 0x4_0000, 0x80 + cp / 4096 % 64;
        out[w + 2], out[w + 3] := 0x80 + cp / 64 % 64, last;
        BytesAt(out, w, [0xf0 + cp / 0x4_0000, 0x80 + cp / 4096 % 64, 0x80 + cp / 64 % 64, last]);
    }
  }

  /** Bytes written one by one at w, read as a sequence. */
  lemma {:induction false} BytesAt(out: array<byte>, w: nat, b: bytes)
    requires w + |b| <= out.Length && forall k :: 0 <= k < |b| ==> out[w + k] == b[k]
    ensures out[..w + |b|] == out[..w] + b
  {}

  lemma {:induction false} Utf8Parts(cp: nat)
    requires cp < 0x11_0000
    ensures cp < 0x80 ==> Utf8(cp) == [cp]
    ensures 0x80 <= cp < 0x800 ==> cp / 64 < 32 && Utf8(cp) == [0xc0 + cp / 64, 0x80 + cp % 64]
    ensures 0x800 <= cp < 0x1_0000 ==>
              cp / 4096 < 16 && Utf8(cp) == [0xe0 + cp / 4096, 0x80 + cp / 64 % 64, 0x80 + cp % 64]
    ensures 0x1_0000 <= cp ==>
              && cp / 0x4_0000 < 8
              && Utf8(cp) == [0xf0 + cp / 0x4_0000, 0x80 + cp / 4096 % 64, 0x80 + cp / 64 % 64, 0x80 + cp % 64]
  {}

  /** What is written once `done` is out and `rest` is unread. */
  ghost function AfterDone(done: bytes, rest: bytes): Option<bytes> {
    match Unescape(rest)
    case None => None
    case Some(r) => Some(done + r)
  }

  lemma {:induction false} AfterDoneStep(done: bytes, rest: bytes)
    ensures rest == [] ==> AfterDone(done, rest) == Some(done)
    ensures rest != [] && FrontUnit(rest).NoUnit? ==> AfterDone(done, rest) == None
    ensures rest != [] && FrontUnit(rest).Unit? ==>
              var u := FrontUnit(rest);
              && AfterDone(done, rest) == AfterDone(done + u.out, rest[u.len..])
              && (AfterDone(done, rest).Some? ==> |done| + |u.out| <= |AfterDone(done, rest).value|)
  {
    hide FrontUnit;
    assert done + [] == done;
    if rest != [] && FrontUnit(rest).Unit? {
      var u := FrontUnit(rest);
      if Unescape(rest[u.len..]).Some? {
        ConcatAssoc(done, u.out, Unescape(rest[u.len..]).value);
      }
    }
  }

  /** The unit at the front of unread text, written at w. `len` is what it took of the text. */
  method PutUnit(p: bytes, out: array<byte>, w: nat) returns (ok: bool, len: nat, w': nat)
    requires p != [] && w < out.Length
    modifies out
    ensures ok == (FrontUnit(p).Unit? && w + |FrontUnit(p).out| < out.Length)
    ensures ok ==> len == FrontUnit(p).len && w' == w + |FrontUnit(p).out|
    ensures ok ==> out[..w'] == old(out[..w]) + FrontUnit(p).out
    ensures !ok ==> out[..w] == old(out[..w])
    ensures forall k :: (if ok then w' else w) <= k < out.Length ==> out[k] == old(out[k])
  {
    hide Hex4, HexValue, Utf8;
    ok, len, w' := false, 0, w;
    if p[0] != BACKSLASH {
      if w + 1 >= out.Length {
        return;
      }
      out[w] := p[0];
      return true, 1, w + 1;
    }
    if |p| < 2 {
      return;
    }
    if p[1] != LETTER_U && w + 1 >= out.Length {
      return;
    }
    if p[1] != LETTER_U {
      var c := SimpleEscape(p[1]);
      if c.None? {
        return;
      }
      out[w] := c.value;
      return true, 2, w + 1;
    }
    if |p| < 6 {
      return;
    }
    var hexed, cp := ReadHex4(p[2..]);
    if !hexed {
      return;
    }
    len := 6;
    if High(cp) {
      if |p| < 12 || p[6] != BACKSLASH || p[7] != LETTER_U {
        return;
      }
      var lowed, low := ReadHex4(p[8..]);
      if !lowed || !Low(low) {
        return;
      }
      len := 12;
      cp := 0x1_0000 + (cp - 0xd800) * 1024 + (low - 0xdc00);
    } else if Low(cp) {
      return;
    }
    ok, w' := PutUtf8(cp, out, w);
  }

  /** What stands in a buffer with this much room when the reading ends, whether or not it got through. */
  function Partial(p: bytes, room: nat): (r: bytes)
    ensures |r| <= room
    decreases |p|
  {
    if p == [] || FrontUnit(p).NoUnit? || |FrontUnit(p).out| > room then []
    else FrontUnit(p).out + Partial(p[FrontUnit(p).len..], room - |FrontUnit(p).out|)
  }

  /** Text that is valid and fits is written whole. */
  lemma {:induction false} PartialIsWhole(p: bytes, room: nat)
    requires Unescape(p).Some? && |Unescape(p).value| <= room
    ensures Partial(p, room) == Unescape(p).value
    decreases |p|
  {
    hide FrontUnit;
    if p != [] {
      var u := FrontUnit(p);
      PartialIsWhole(p[u.len..], room - |u.out|);
    }
  }

  ghost predicate PartWritten(p: bytes, i: nat, done: bytes, room: nat)
    requires i <= |p|
  {
    |done| <= room && Partial(p, room) == done + Partial(p[i..], room - |done|)
  }

  lemma {:induction false} PartStep(p: bytes, i: nat, done: bytes, room: nat)
    requires i < |p| && PartWritten(p, i, done, room)
    ensures var u := FrontUnit(p[i..]);
            if u.NoUnit? || |done| + |u.out| > room then Partial(p, room) == done
            else i + u.len <= |p| && PartWritten(p, i + u.len, done + u.out, room)
  {
    hide FrontUnit;
    var u := FrontUnit(p[i..]);
    assert done + [] == done;
    if u.Unit? && |done| + |u.out| <= room {
      assert p[i..][u.len..] == p[i + u.len..];
      ConcatAssoc(done, u.out, Partial(p[i + u.len..], room - |done| - |u.out|));
    }
  }

  lemma {:induction false} PartEnds(p: bytes, done: bytes, room: nat)
    ensures PartWritten(p, 0, [], room)
    ensures PartWritten(p, |p|, done, room) ==> Partial(p, room) == done
  {
    assert p[0..] == p && [] + Partial(p, room) == Partial(p, room) && done + [] == done;
  }

  /** Unescapes into a buffer; accepted exactly when the text is valid and fits with its NUL. A refusal
      leaves what was written so far, with no NUL behind it. */
  method UnescapeInto(p: bytes, out: array<byte>) returns (ok: bool, w: nat)
    requires out.Length > 0
    modifies out
    ensures ok == (Unescape(p).Some? && |Unescape(p).value| < out.Length)
    ensures ok ==> w < out.Length && out[..w] == Unescape(p).value && out[w] == 0
    ensures w == |Partial(p, out.Length - 1)| && out[..w] == Partial(p, out.Length - 1)
    ensures forall k :: w + (if ok then 1 else 0) <= k < out.Length ==> out[k] == old(out[k])
  {
    hide FrontUnit, AfterDone, Partial, PartWritten, Unescape;
    w := 0;
    var i := 0;
    ghost var whole := AfterDone([], p);
    AfterNothing(p);
    PartEnds(p, [], out.Length - 1);
    assert p[0..] == p && out[..0] == [];
    while i < |p|
      invariant 0 <= i <= |p| && w < out.Length
      invariant AfterDone(out[..w], p[i..]) == whole
      invariant PartWritten(p, i, out[..w], out.Length - 1)
      invariant forall k :: w <= k < out.Length ==> out[k] == old(out[k])
    {
      AfterDoneStep(out[..w], p[i..]);
      PartStep(p, i, out[..w], out.Length - 1);
      var put, len, w' := PutUnit(p[i..], out, w);
      if !put {
        return false, w;
      }
      assert p[i..][len..] == p[i + len..];
      i, w := i + len, w';
    }
    AfterDoneStep(out[..w], p[i..]);
    PartEnds(p, out[..w], out.Length - 1);
    out[w] := 0;
    ok := true;
  }

  lemma {:induction false} AfterNothing(p: bytes)
    ensures AfterDone([], p) == Unescape(p)
  {
    if Unescape(p).Some? {
      assert [] + Unescape(p).value == Unescape(p).value;
    }
  }

  /** The request-body writer: latched, and NUL-terminated after every append that fits. */
  class JsonWriter {
    const buf: array<byte>
    var len: nat
    var bad: bool

    ghost predicate Valid()
      reads this, buf
    {
      buf.Length > 0 && len < buf.Length && (!bad ==> buf[len] == 0)
    }

    ghost function Written(): bytes
      reads this, buf
      requires Valid()
    {
      buf[..len]
    }

    constructor (buf: array<byte>)
      requires buf.Length > 0
      modifies buf
      ensures Valid() && !bad && Written() == [] && this.buf == buf
    {
      this.buf := buf;
      len, bad := 0, false;
      new;
      buf[0] := 0;
    }

    method Append(raw: bytes)
      requires Valid()
      modifies this, buf
      ensures Valid()
      ensures bad == (old(bad) || old(len) + |raw| + 1 > buf.Length)
      ensures Written() == if bad then old(Written()) else old(Written()) + raw
    {
      if bad || len + |raw| + 1 > buf.Length {
        bad := true;
        return;
      }
      Copy(buf, len, raw);
      len := len + |raw|;
      buf[len] := 0;
    }

    /** A quoted, escaped string: all of it, or the latch with the length where it was. */
    method AppendString(s: bytes)
      requires Valid()
      modifies this, buf
      ensures Valid()
      ensures bad == (old(bad) || old(len) + |Escape(CStr(s))| + 3 > buf.Length)
      ensures Written() == if bad then old(Written()) else old(Written()) + [QUOTE] + Escape(CStr(s)) + [QUOTE]
    {
      hide EscapeByte, CStr, Escape;
      var at := len;
      if bad || at + 1 >= buf.Length {
        bad := true;
        return;
      }
      buf[at] := QUOTE;
      at := at + 1;
      ghost var head := buf[..len] + [QUOTE];
      var text, i := CStr(s), 0;
      NothingEscaped();
      assert text[..0] == [] && head + [] == head && buf[..at] == head;
      while i < |text|
        invariant 0 <= i <= |text| && len < at <= buf.Length && !bad && len == old(len)
        invariant buf[..len] == old(buf[..len])
        invariant buf[..at] == head + Escape(text[..i])
      {
        var esc := EscapeByte(text[i]);
        EscapeSnoc(text, i);
        ConcatAssoc(head, Escape(text[..i]), esc);
        if at + |esc| + 2 > buf.Length {
          EscapeGrows(text, i + 1);
          bad := true;
          return;
        }
        Copy(buf, at, esc);
        assert buf[..len] == buf[..at + |esc|][..len];
        at := at + |esc|;
        i := i + 1;
      }
      assert text[..i] == text;
      if at + 2 > buf.Length {
        bad := true;
        return;
      }
      buf[at], buf[at + 1] := QUOTE, 0;
      at := at + 1;
      assert buf[..at] == head + Escape(text) + [QUOTE];
      len := at;
    }

    static lemma {:induction false} NothingEscaped()
      ensures Escape([]) == []
    {}

    static lemma {:induction false} EscapeSnoc(s: bytes, i: nat)
      requires i < |s|
      ensures Escape(s[..i + 1]) == Escape(s[..i]) + EscapeByte(s[i])
    {
      assert s[..i + 1][..i] == s[..i];
    }

    static lemma {:induction false} EscapeGrows(s: bytes, i: nat)
      requires i <= |s|
      ensures |Escape(s[..i])| <= |Escape(s)|
      decreases |s| - i
    {
      if i < |s| {
        EscapeSnoc(s, i);
        EscapeGrows(s, i + 1);
      } else {
        assert s[..i] == s;
      }
    }
  }
}
