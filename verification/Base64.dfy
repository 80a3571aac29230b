/** Canonical base64 with padding (sections 3.5 and 4 of RFC 4648): decoding accepts
    exactly the texts that encoding writes. */
module Base64 {
  import opened Bytes

  const PAD: byte := '=' as int

  // ------------------------------------------------------------- the alphabet

  /** A-Z, a-z, 0-9, '+', '/': the alphabet table, entry v. */
  function Symbol(v: nat): byte
    requires v < 64
  {
    if v < 26 then v + 65 else if v < 52 then v + 71 else if v < 62 then v - 4
    else if v == 62 then 43 else 47
  }

  /** The six bits a character stands for; two values beyond them tell the padding from a stranger. */
  function Value(c: byte): (v: nat)
    ensures v < 64 || v == 64 || v == 255
    ensures v == 64 <==> c == PAD
  {
    if 65 <= c <= 90 then c - 65
    else if 97 <= c <= 122 then c - 97 + 26
    else if 48 <= c <= 57 then c - 48 + 52
    else if c == 43 then 62
    else if c == 47 then 63
    else if c == PAD then 64
    else 255
  }

  const UPPER := "ABCDEFGHIJKLMNOPQRSTUVWXYZ"
  const LOWER := "abcdefghijklmnopqrstuvwxyz"
  const DIGITS := "0123456789"

  /** Table 1 of RFC 4648. */
  function Alphabet(v: nat): char
    requires v < 64
  {
    if v < 26 then UPPER[v] else if v < 52 then LOWER[v - 26] else if v < 62 then DIGITS[v - 52]
    else if v == 62 then '+' else '/'
  }

  lemma {:induction false} Consecutive()
    ensures forall i :: 0 <= i < 26 ==> UPPER[i] as int == 'A' as int + i && LOWER[i] as int == 'a' as int + i
    ensures forall i :: 0 <= i < 10 ==> DIGITS[i] as int == '0' as int + i
  {}

  lemma {:induction false} SymbolIs(v: nat)
    requires v < 64
    ensures Symbol(v) == Alphabet(v) as int
  {
    Consecutive();
  }

  lemma {:induction false} ValueIff(c: byte, v: nat)
    requires v < 64
    ensures Value(c) == v <==> c == Symbol(v)
  {}

  // ------------------------------------------------------------- the encoding

  function Group(a: byte, b: byte, c: byte): (g: bytes)
    ensures |g| == 4
  {
    [Symbol(a / 4), Symbol(a % 4 * 16 + b / 16), Symbol(b % 16 * 4 + c / 64), Symbol(c % 64)]
  }

  function Encode(b: bytes): (s: bytes)
    ensures |s| == (|b| + 2) / 3 * 4
  {
    if |b| == 0 then []
    else if |b| == 1 then Group(b[0], 0, 0)[..2] + [PAD, PAD]
    else if |b| == 2 then Group(b[0], b[1], 0)[..3] + [PAD]
    else Group(b[0], b[1], b[2]) + Encode(b[3..])
  }

  /** Four characters spell the number that three bytes spell, in base 64. */
  lemma {:induction false} GroupSpells(a: byte, b: byte, c: byte) returns (i: nat, j: nat, k: nat, l: nat)
    ensures i < 64 && j < 64 && k < 64 && l < 64
    ensures ((i * 64 + j) * 64 + k) * 64 + l == (a * 256 + b) * 256 + c
    ensures Group(a, b, c) ==
            [Alphabet(i) as int, Alphabet(j) as int, Alphabet(k) as int, Alphabet(l) as int]
  {
    i, j, k, l := a / 4, a % 4 * 16 + b / 16, b % 16 * 4 + c / 64, c % 64;
    SymbolIs(i);
    SymbolIs(j);
    SymbolIs(k);
    SymbolIs(l);
    hide Symbol;
  }

  /** Test vectors of section 10 of RFC 4648. */
  lemma {:induction false} TestVectors()
    ensures Encode(Ascii("f")) == Ascii("Zg==") && Encode(Ascii("fo")) == Ascii("Zm8=")
    ensures Encode(Ascii("foo")) == Ascii("Zm9v")
  {
    assert Ascii("f") == [102] && Ascii("fo") == [102, 111] && Ascii("foo") == [102, 111, 111];
    assert Ascii("foo")[3..] == [];
  }

  lemma {:induction false} EncodeAppend(a: bytes, b: bytes)
    requires |a| % 3 == 0
    ensures Encode(a + b) == Encode(a) + Encode(b)
  {
    hide Group;
    if a == [] {
      assert a + b == b;
    } else {
      EncodeAppend(a[3..], b);
      assert (a + b)[3..] == a[3..] + b;
      ConcatAssoc(Group(a[0], a[1], a[2]), Encode(a[3..]), Encode(b));
    }
  }

  // ------------------------------------------------------------- the decoding

  /** What the accumulator loop has produced: whole bytes and the bits still waiting. */
  datatype Bits = Bad | Bits(out: bytes, left: nat, nbits: nat)

  predicate BitsOk(s: Bits) {
    s.Bits? ==> (s.nbits == 0 && s.left < 1) || (s.nbits == 2 && s.left < 4)
                || (s.nbits == 4 && s.left < 16) || (s.nbits == 6 && s.left < 64)
  }

  function Push(s: Bits, v: nat): (r: Bits)
    requires BitsOk(s) && v < 64
    ensures BitsOk(r) && r.Bits? == s.Bits?
  {
    if s.Bad? then Bad
    else if s.nbits == 0 then Bits(s.out, v, 6)
    else if s.nbits == 2 then Bits(s.out + [s.left * 64 + v], 0, 0)
    else if s.nbits == 4 then Bits(s.out + [s.left * 16 + v / 4], v % 4, 2)
    else Bits(s.out + [s.left * 4 + v / 16], v % 16, 4)
  }

  /** Folds characters from the left; padding or a stranger is Bad. */
  function Fold(s: bytes): (r: Bits)
    ensures BitsOk(r)
  {
    if s == [] then Bits([], 0, 0)
    else
      var v := Value(s[|s| - 1]);
      if v >= 64 then Bad else Push(Fold(s[..|s| - 1]), v)
  }

  /** How many of the last two characters are padding that ends the text. */
  function Padding(s: bytes): (n: nat)
    ensures n <= 2 && n <= |s|
  {
    if |s| >= 2 && s[|s| - 1] == PAD then (if s[|s| - 2] == PAD then 2 else 1) else 0
  }

  function Decode(s: bytes): Option<bytes> {
    if |s| % 4 != 0 then None
    else match Fold(s[..|s| - Padding(s)])
      case Bad => None
      case Bits(out, left, _) => if left == 0 then Some(out) else None
  }

  function Behind(p: bytes, s: Bits): Bits {
    if s.Bad? then Bad else Bits(p + s.out, s.left, s.nbits)
  }

  lemma {:induction false} PushPrefix(p: bytes, s: Bits, v: nat)
    requires BitsOk(s) && v < 64
    ensures Push(Behind(p, s), v) == Behind(p, Push(s, v))
  {
    if s.Bits? && s.nbits > 0 {
      var x := Push(s, v).out[|s.out|];
      assert p + (s.out + [x]) == p + s.out + [x];
    }
  }

  /** After a whole number of groups the loop starts afresh. */
  lemma {:induction false} FoldAppend(a: bytes, x: bytes)
    requires Fold(a).Bits? ==> Fold(a).nbits == 0
    ensures Fold(a + x) == if Fold(a).Bad? then Bad else Behind(Fold(a).out, Fold(x))
  {
    hide Value;
    if x == [] {
      assert a + x == a;
      assert Fold(a).Bits? ==> Fold(a).out + [] == Fold(a).out;
    } else {
      var init, c := x[..|x| - 1], x[|x| - 1];
      FoldAppend(a, init);
      assert (a + x)[..|a + x| - 1] == a + init && (a + x)[|a + x| - 1] == c;
      if Value(c) < 64 && Fold(a).Bits? {
        PushPrefix(Fold(a).out, Fold(init), Value(c));
      }
    }
  }

  /** The three bytes that four sextets hold. */
  function Bytes3(v1: nat, v2: nat, v3: nat, v4: nat): bytes
    requires v1 < 64 && v2 < 64 && v3 < 64 && v4 < 64
  {
    [v1 * 4 + v2 / 16, v2 % 16 * 16 + v3 / 4, v3 % 4 * 64 + v4]
  }

  lemma {:induction false} Bytes3Iff(v1: nat, v2: nat, v3: nat, v4: nat, b1: byte, b2: byte, b3: byte)
    requires v1 < 64 && v2 < 64 && v3 < 64 && v4 < 64
    ensures Bytes3(v1, v2, v3, v4) == [b1, b2, b3] <==>
            v1 == b1 / 4 && v2 == b1 % 4 * 16 + b2 / 16 && v3 == b2 % 16 * 4 + b3 / 64 && v4 == b3 % 64
  {
    if Bytes3(v1, v2, v3, v4) == [b1, b2, b3] {
      assert b1 == v1 * 4 + v2 / 16 && b2 == v2 % 16 * 16 + v3 / 4 && b3 == v3 % 4 * 64 + v4;
      assert b1 / 4 == v1 && b1 % 4 == v2 / 16;
      assert b2 / 16 == v2 % 16 && b2 % 16 == v3 / 4;
      assert b3 / 64 == v3 % 4 && b3 % 64 == v4;
    }
  }

  lemma {:induction false} FoldSnoc(s: bytes, i: nat)
    requires i < |s|
    ensures Fold(s[..i + 1]) == if Value(s[i]) >= 64 then Bad else Push(Fold(s[..i]), Value(s[i]))
  {
    assert s[..i + 1][..i] == s[..i];
  }

  lemma {:induction false} FoldNothing(s: bytes)
    ensures Fold(s[..0]) == Bits([], 0, 0)
  {}

  lemma {:induction false} PushTwo(v1: nat, v2: nat)
    requires v1 < 64 && v2 < 64
    ensures Push(Push(Bits([], 0, 0), v1), v2) == Bits(Bytes3(v1, v2, 0, 0)[..1], v2 % 16, 4)
  {}

  lemma {:induction false} PushThird(v1: nat, v2: nat, v3: nat)
    requires v1 < 64 && v2 < 64 && v3 < 64
    ensures Push(Bits(Bytes3(v1, v2, 0, 0)[..1], v2 % 16, 4), v3) == Bits(Bytes3(v1, v2, v3, 0)[..2], v3 % 4, 2)
  {}

  lemma {:induction false} PushFourth(v1: nat, v2: nat, v3: nat, v4: nat)
    requires v1 < 64 && v2 < 64 && v3 < 64 && v4 < 64
    ensures Push(Bits(Bytes3(v1, v2, v3, 0)[..2], v3 % 4, 2), v4) == Bits(Bytes3(v1, v2, v3, v4), 0, 0)
  {}

  lemma {:induction false} FoldTwo(s: bytes)
    requires |s| == 2
    ensures Fold(s).Bits? <==> Value(s[0]) < 64 && Value(s[1]) < 64
    ensures Fold(s).Bits? ==> Fold(s) == Bits(Bytes3(Value(s[0]), Value(s[1]), 0, 0)[..1], Value(s[1]) % 16, 4)
  {
    hide Value, Fold, Push, Bytes3;
    FoldNothing(s);
    FoldSnoc(s, 0);
    FoldSnoc(s, 1);
    assert s[..2] == s;
    if Fold(s).Bits? {
      PushTwo(Value(s[0]), Value(s[1]));
    }
  }

  lemma {:induction false} FoldThree(s: bytes)
    requires |s| == 3
    ensures Fold(s).Bits? <==> Value(s[0]) < 64 && Value(s[1]) < 64 && Value(s[2]) < 64
    ensures Fold(s).Bits? ==>
              Fold(s) == Bits(Bytes3(Value(s[0]), Value(s[1]), Value(s[2]), 0)[..2], Value(s[2]) % 4, 2)
  {
    hide Value, Fold, Push, Bytes3;
    FoldTwo(s[..2]);
    FoldSnoc(s, 2);
    assert s[..3] == s;
    if Fold(s).Bits? {
      PushThird(Value(s[0]), Value(s[1]), Value(s[2]));
    }
  }

  predicate Plain(s: bytes)
    requires |s| == 4
  {
    Value(s[0]) < 64 && Value(s[1]) < 64 && Value(s[2]) < 64 && Value(s[3]) < 64
  }

  lemma {:induction false} FoldFour(s: bytes)
    requires |s| == 4
    ensures Fold(s).Bits? <==> Plain(s)
    ensures Plain(s) ==> Fold(s) == Bits(Bytes3(Value(s[0]), Value(s[1]), Value(s[2]), Value(s[3])), 0, 0)
  {
    hide Value, Fold, Push, Bytes3;
    FoldThree(s[..3]);
    FoldSnoc(s, 3);
    assert s[..4] == s;
    if Fold(s).Bits? {
      PushFourth(Value(s[0]), Value(s[1]), Value(s[2]), Value(s[3]));
    }
  }

  /** A full group holds three bytes exactly when it is their encoding. */
  lemma {:induction false} GroupIff(s: bytes, b: bytes)
    requires |s| == 4 && |b| == 3
    ensures Plain(s) && Fold(s) == Bits(b, 0, 0) <==> s == Group(b[0], b[1], b[2])
  {
    FoldFour(s);
    hide Symbol, Value;
    var x1, x2, x3, x4 := b[0] / 4, b[0] % 4 * 16 + b[1] / 16, b[1] % 16 * 4 + b[2] / 64, b[2] % 64;
    ValueIff(s[0], x1); ValueIff(s[1], x2); ValueIff(s[2], x3); ValueIff(s[3], x4);
    assert b == [b[0], b[1], b[2]];
    if Plain(s) {
      Bytes3Iff(Value(s[0]), Value(s[1]), Value(s[2]), Value(s[3]), b[0], b[1], b[2]);
    }
    assert s == Group(b[0], b[1], b[2]) <==>
           s[0] == Symbol(x1) && s[1] == Symbol(x2) && s[2] == Symbol(x3) && s[3] == Symbol(x4);
  }

  /** One '=': two bytes, and the two bits left over are zero. */
  lemma {:induction false} PadOneIff(s: bytes, b: bytes)
    requires |s| == 4 && s[3] == PAD && s[2] != PAD
    ensures Decode(s) == Some(b) <==> |b| == 2 && s == Group(b[0], b[1], 0)[..3] + [PAD]
  {
    FoldThree(s[..3]);
    hide Symbol, Value;
    if |b| == 2 {
      var x1, x2, x3 := b[0] / 4, b[0] % 4 * 16 + b[1] / 16, b[1] % 16 * 4;
      ValueIff(s[0], x1); ValueIff(s[1], x2); ValueIff(s[2], x3);
      if Fold(s[..3]).Bits? {
        var v1, v2, v3 := Value(s[0]), Value(s[1]), Value(s[2]);
        Bytes3Iff(v1, v2, v3, 0, b[0], b[1], v3 % 4 * 64);
        assert Bytes3(v1, v2, v3, 0)[..2] == b <==> Bytes3(v1, v2, v3, 0) == [b[0], b[1], v3 % 4 * 64];
      }
      assert s == Group(b[0], b[1], 0)[..3] + [PAD] <==>
             s[0] == Symbol(x1) && s[1] == Symbol(x2) && s[2] == Symbol(x3);
    }
  }

  /** Two '=': one byte, and the four bits left over are zero. */
  lemma {:induction false} PadTwoIff(s: bytes, b: bytes)
    requires |s| == 4 && s[3] == PAD && s[2] == PAD
    ensures Decode(s) == Some(b) <==> |b| == 1 && s == Group(b[0], 0, 0)[..2] + [PAD, PAD]
  {
    FoldTwo(s[..2]);
    hide Symbol, Value;
    if |b| == 1 {
      var x1, x2 := b[0] / 4, b[0] % 4 * 16;
      ValueIff(s[0], x1); ValueIff(s[1], x2);
      if Fold(s[..2]).Bits? {
        var v1, v2 := Value(s[0]), Value(s[1]);
        Bytes3Iff(v1, v2, 0, 0, b[0], v2 % 16 * 16, 0);
        assert Bytes3(v1, v2, 0, 0)[..1] == b <==> Bytes3(v1, v2, 0, 0) == [b[0], v2 % 16 * 16, 0];
      }
      assert s == Group(b[0], 0, 0)[..2] + [PAD, PAD] <==> s[0] == Symbol(x1) && s[1] == Symbol(x2);
    }
  }

  lemma {:induction false} SymbolNeverPads(v: nat)
    requires v < 64
    ensures Symbol(v) != PAD
  {}

  /** The last (or only) group, in its three shapes. */
  lemma {:induction false} DecodeLast(s: bytes, b: bytes)
    requires |s| == 4
    ensures Decode(s) == Some(b) <==> 1 <= |b| <= 3 && s == Encode(b)
  {
    hide Symbol, Value;
    if |b| >= 2 { SymbolNeverPads(b[1] % 16 * 4); }
    if |b| == 3 { SymbolNeverPads(b[2] % 64); }
    if s[3] != PAD {
      assert s[..4] == s;
      FoldFour(s);
      if |b| == 3 {
        GroupIff(s, b);
        assert b[3..] == [] && Group(b[0], b[1], b[2]) + [] == Group(b[0], b[1], b[2]);
      }
    } else if s[2] != PAD {
      PadOneIff(s, b);
      NotThree(s, b);
    } else {
      PadTwoIff(s, b);
      NotThree(s, b);
    }
  }

  lemma {:induction false} NotThree(s: bytes, b: bytes)
    requires |s| == 4 && s[3] == PAD
    ensures |b| == 3 ==> s != Encode(b)
    ensures |b| == 2 && s[2] == PAD ==> s != Encode(b)
  {
    if |b| == 3 {
      SymbolNeverPads(b[2] % 64);
      assert Encode(b)[3] == Symbol(b[2] % 64);
    }
    if |b| == 2 {
      SymbolNeverPads(b[1] % 16 * 4);
    }
  }

  /** The first of several groups is always a full one. */
  lemma {:induction false} DecodeFront(s: bytes)
    requires |s| % 4 == 0 && |s| >= 8
    ensures !Plain(s[..4]) ==> Decode(s) == None
    ensures Plain(s[..4]) ==>
              && Fold(s[..4]).Bits?
              && Decode(s) == match Decode(s[4..]) case None => None case Some(b) => Some(Fold(s[..4]).out + b)
  {
    var g, t := s[..4], s[4..];
    FoldFour(g);
    hide Value;
    assert Padding(s) == Padding(t);
    assert s[..|s| - Padding(s)] == g + t[..|t| - Padding(t)];
    FoldAppend(g, t[..|t| - Padding(t)]);
  }

  lemma {:induction false} DecodeStep(s: bytes, b: bytes)
    requires |s| % 4 == 0 && |s| >= 8
    ensures Decode(s) == Some(b) <==>
            |b| >= 3 && s[..4] == Group(b[0], b[1], b[2]) && Decode(s[4..]) == Some(b[3..])
  {
    DecodeFront(s);
    FoldFour(s[..4]);
    hide Value, Symbol, Decode;
    if |b| >= 3 {
      GroupIff(s[..4], b[..3]);
      assert b == b[..3] + b[3..];
    }
  }

  /** Decoding is the inverse of encoding, on every text and every byte string. */
  lemma {:induction false} DecodeIff(s: bytes, b: bytes)
    ensures Decode(s) == Some(b) <==> s == Encode(b)
    decreases |s|
  {
    EncodeLength(b);
    DecodeShape(s);
    hide *;
    if |s| % 4 == 0 && |s| >= 8 {
      DecodeStep(s, b);
      assert s == s[..4] + s[4..];
      if |b| >= 3 {
        EncodeStep(b);
        DecodeIff(s[4..], b[3..]);
      }
    } else if |s| == 4 {
      DecodeLast(s, b);
    }
  }

  lemma {:induction false} EncodeLength(b: bytes)
    ensures |Encode(b)| % 4 == 0
    ensures |b| == 0 ==> Encode(b) == []
    ensures |b| > 0 <==> |Encode(b)| >= 4
    ensures |b| > 3 <==> |Encode(b)| >= 8
  {}

  lemma {:induction false} DecodeShape(s: bytes)
    ensures |s| % 4 != 0 ==> Decode(s) == None
    ensures Decode([]) == Some([])
  {}

  lemma {:induction false} EncodeStep(b: bytes)
    requires |b| >= 3
    ensures Encode(b)[..4] == Group(b[0], b[1], b[2]) && Encode(b)[4..] == Encode(b[3..])
    ensures Encode(b) == Group(b[0], b[1], b[2]) + Encode(b[3..])
  {
    hide Group;
  }

  lemma {:induction false} EncodeInjective(a: bytes, b: bytes)
    requires Encode(a) == Encode(b)
    ensures a == b
  {
    DecodeIff(Encode(a), a);
    DecodeIff(Encode(a), b);
  }

  // ------------------------------------------------------------- the C loops

  lemma {:induction false} Masks()
    ensures TwoTo(0) == 1 && TwoTo(2) == 4 && TwoTo(4) == 16 && TwoTo(6) == 64
  {
    assert TwoTo(4) == 16;
  }

  lemma {:induction false} Acc2(acc: nat, v: nat)
    requires v < 64
    ensures (acc * 64 + v) % UINT32 % 256 == acc % 4 * 64 + v
  {
    var q := (acc * 64 + v) / UINT32;
    DivideUnique((acc * 64 + v) % UINT32, 256, acc / 4 - 0x100_0000 * q, acc % 4 * 64 + v);
  }

  lemma {:induction false} Acc4(acc: nat, v: nat)
    requires v < 64
    ensures var a := (acc * 64 + v) % UINT32; a / 4 % 256 == acc % 16 * 16 + v / 4 && a % 4 == v % 4
  {
    var q := (acc * 64 + v) / UINT32;
    var k := acc / 16 - 0x40_0000 * q;
    var a := (acc * 64 + v) % UINT32;
    DivideUnique(a, 4, 256 * k + 16 * (acc % 16) + v / 4, v % 4);
    DivideUnique(a / 4, 256, k, 16 * (acc % 16) + v / 4);
  }

  lemma {:induction false} Acc6(acc: nat, v: nat)
    requires v < 64
    ensures var a := (acc * 64 + v) % UINT32; a / 16 % 256 == acc % 64 * 4 + v / 16 && a % 16 == v % 16
  {
    var q := (acc * 64 + v) / UINT32;
    var k := acc / 64 - 0x10_0000 * q;
    var a := (acc * 64 + v) % UINT32;
    DivideUnique(a, 16, 256 * k + 4 * (acc % 64) + v / 16, v % 16);
    DivideUnique(a / 16, 256, k, 4 * (acc % 64) + v / 16);
  }

  lemma {:induction false} Acc0(acc: nat, v: nat)
    requires v < 64
    ensures (acc * 64 + v) % UINT32 % 64 == v
  {
    var q := (acc * 64 + v) / UINT32;
    DivideUnique((acc * 64 + v) % UINT32, 64, acc - 0x400_0000 * q, v);
  }

  /** One accumulator step on 32-bit arithmetic agrees with Push. */
  lemma {:induction false} AccStep(acc: nat, s: Bits, v: nat)
    requires BitsOk(s) && s.Bits? && v < 64
    requires acc % TwoTo(s.nbits) == s.left
    ensures var a := (acc * 64 + v) % UINT32;
            var r := Push(s, v);
            && a % TwoTo(r.nbits) == r.left
            && (s.nbits + 6 >= 8 ==> r.nbits == s.nbits + 6 - 8 && r.out == s.out + [a / TwoTo(r.nbits) % 256])
            && (s.nbits + 6 < 8 ==> r.nbits == s.nbits + 6 && r.out == s.out)
  {
    Masks();
    if s.nbits == 0 { Acc0(acc, v); }
    else if s.nbits == 2 { Acc2(acc, v); }
    else if s.nbits == 4 { Acc4(acc, v); }
    else { Acc6(acc, v); }
  }

  lemma {:induction false} FoldBadStays(s: bytes, i: nat)
    requires i <= |s| && Fold(s[..i]).Bad?
    ensures Fold(s).Bad?
    decreases |s| - i
  {
    if i < |s| {
      FoldSnoc(s, i);
      FoldBadStays(s, i + 1);
    } else {
      assert s[..i] == s;
    }
  }

  lemma {:induction false} FoldGrows(s: bytes, i: nat)
    requires i <= |s| && Fold(s).Bits?
    ensures Fold(s[..i]).Bits? && |Fold(s[..i]).out| <= |Fold(s).out|
    decreases |s| - i
  {
    if i < |s| {
      FoldGrows(s, i + 1);
      FoldSnoc(s, i);
    } else {
      assert s[..i] == s;
    }
  }

  /** Where the text's own padding starts, and what the loop refuses on the way. */
  lemma {:induction false} PaddingRefused(s: bytes, i: nat, pad: nat)
    requires |s| % 4 == 0 && i < |s| && pad <= 2
    requires pad <= i && forall k :: i - pad <= k < i ==> s[k] == PAD
    requires forall k :: 0 <= k < i - pad ==> s[k] != PAD
    ensures s[i] == PAD && (pad == 2 || i < |s| - 2) ==> Decode(s) == None
    ensures s[i] != PAD && pad > 0 ==> Decode(s) == None
  {
    var n := |s| - Padding(s);
    if s[i] == PAD && (pad == 2 || i < |s| - 2) {
      var k := i - pad;
      assert s[k] == PAD && k < n;
      FoldSnoc(s[..n], k);
      FoldBadStays(s[..n], k + 1);
      assert s[..n][..n] == s[..n];
    }
    if s[i] != PAD && pad > 0 {
      assert s[i - 1] == PAD && i - 1 < n;
      FoldSnoc(s[..n], i - 1);
      FoldBadStays(s[..n], i);
    }
  }

  /** The decoding loop's state after i characters, the last `pad` of them padding. */
  ghost predicate Reading(s: bytes, i: nat, pad: nat, done: bytes, nbits: nat, acc: nat) {
    && pad <= 2 && pad <= i <= |s|
    && (forall k :: i - pad <= k < i ==> s[k] == PAD)
    && (forall k :: 0 <= k < i - pad ==> s[k] != PAD)
    && (pad > 0 ==> i - pad >= |s| - 2)
    && nbits <= 6
    && Fold(s[..i - pad]) == Bits(done, acc % TwoTo(nbits), nbits)
  }

  lemma {:induction false} ReadingStart(s: bytes)
    ensures Reading(s, 0, 0, [], 0, 0)
  {
    assert s[..0] == [];
  }

  lemma {:induction false} ReadingPad(s: bytes, i: nat, pad: nat, done: bytes, nbits: nat, acc: nat)
    requires Reading(s, i, pad, done, nbits, acc) && |s| % 4 == 0 && i < |s| && s[i] == PAD
    ensures pad + 1 > 2 || i < |s| - 2 ==> Decode(s) == None
    ensures !(pad + 1 > 2 || i < |s| - 2) ==> Reading(s, i + 1, pad + 1, done, nbits, acc)
  {
    PaddingRefused(s, i, pad);
  }

  lemma {:induction false} ReadingSymbol(s: bytes, i: nat, pad: nat, done: bytes, nbits: nat, acc: nat)
    requires Reading(s, i, pad, done, nbits, acc) && |s| % 4 == 0 && i < |s| && Value(s[i]) < 64
    ensures pad > 0 ==> Decode(s) == None
    ensures var a := (acc * 64 + Value(s[i])) % UINT32;
            pad == 0 ==>
              if nbits + 6 >= 8 then
                Reading(s, i + 1, 0, done + [a / TwoTo(nbits - 2) % 256], nbits - 2, a)
              else Reading(s, i + 1, 0, done, nbits + 6, a)
  {
    PaddingRefused(s, i, pad);
    if pad == 0 {
      FoldSnoc(s, i);
      AccStep(acc, Fold(s[..i]), Value(s[i]));
    }
  }

  lemma {:induction false} ReadingTooLong(s: bytes, i: nat, done: bytes, nbits: nat, acc: nat, cap: nat)
    requires Reading(s, i, 0, done, nbits, acc) && |s| % 4 == 0 && |done| > cap
    ensures !exists b: bytes :: s == Encode(b) && |b| <= cap
  {
    hide Encode, Value, Push, TwoTo;
    forall b: bytes | s == Encode(b) ensures |b| > cap {
      DecodeIff(s, b);
      var n := |s| - Padding(s);
      assert Padding(s) > 0 ==> s[n] == PAD;
      FoldGrows(s[..n], i);
      assert s[..n][..i] == s[..i];
    }
  }

  lemma {:induction false} ReadingEnd(s: bytes, pad: nat, done: bytes, nbits: nat, acc: nat)
    requires Reading(s, |s|, pad, done, nbits, acc) && |s| % 4 == 0
    ensures nbits > 0 && acc % TwoTo(nbits) != 0 ==> Decode(s) == None
    ensures !(nbits > 0 && acc % TwoTo(nbits) != 0) ==> s == Encode(done)
  {
    assert pad == Padding(s);
    DecodeIff(s, done);
  }

  /** The decoding loop. `out` is written as far as it goes; `ok` says whether to use it. */
  method DecodeInto(s: bytes, out: array<byte>) returns (ok: bool, w: nat)
    modifies out
    ensures ok <==> exists b: bytes :: s == Encode(b) && |b| <= out.Length
    ensures ok ==> w <= out.Length && s == Encode(out[..w])
  {
    assert |s| % 4 != 0 ==> Decode(s) == None;
    hide Encode, Decode, Value, Reading, TwoTo;
    w := 0;
    if |s| % 4 != 0 {
      RefuseAll(s, out.Length);
      return false, w;
    }
    var acc, nbits, pad, i := 0, 0, 0, 0;
    ReadingStart(s);
    while i < |s|
      invariant 0 <= i <= |s| && 0 <= w <= out.Length && nbits >= 0 && pad >= 0 && acc >= 0
      invariant Reading(s, i, pad, out[..w], nbits, acc)
    {
      var v := Value(s[i]);
      if v == 255 {
        StrangerRefused(s, i);
        RefuseAll(s, out.Length);
        return false, w;
      }
      if v == 64 {
        ReadingPad(s, i, pad, out[..w], nbits, acc);
        pad := pad + 1;
        if pad > 2 || i < |s| - 2 {
          RefuseAll(s, out.Length);
          return false, w;
        }
        i := i + 1;
        continue;
      }
      ReadingSymbol(s, i, pad, out[..w], nbits, acc);
      if pad > 0 {
        RefuseAll(s, out.Length);
        return false, w;
      }
      acc := (acc * 64 + v) % UINT32;
      nbits := nbits + 6;
      i := i + 1;
      if nbits >= 8 {
        nbits := nbits - 8;
        ghost var done := out[..w] + [acc / TwoTo(nbits) % 256];
        if w >= out.Length {
          ReadingTooLong(s, i, done, nbits, acc, out.Length);
          return false, w;
        }
        out[w] := acc / TwoTo(nbits) % 256;
        w := w + 1;
        assert out[..w] == done;
      }
    }
    ReadingEnd(s, pad, out[..w], nbits, acc);
    if nbits > 0 && acc % TwoTo(nbits) != 0 {
      RefuseAll(s, out.Length);
      return false, w;
    }
    ok := true;
  }

  lemma {:induction false} RefuseAll(s: bytes, cap: nat)
    requires Decode(s) == None
    ensures !exists b: bytes :: s == Encode(b) && |b| <= cap
  {
    forall b: bytes ensures s != Encode(b) {
      DecodeIff(s, b);
    }
  }

  lemma {:induction false} StrangerRefused(s: bytes, i: nat)
    requires |s| % 4 == 0 && i < |s| && Value(s[i]) == 255
    ensures Decode(s) == None
  {
    var n := |s| - Padding(s);
    assert s[i] != PAD && i < n;
    FoldSnoc(s[..n], i);
    FoldBadStays(s[..n], i + 1);
  }

  /** The encoding loop, writing from position `at`: whole groups, the padded remainder, a NUL. */
  method EncodeInto(b: bytes, out: array<byte>, at: nat) returns (ok: bool)
    requires at <= out.Length
    modifies out
    ensures ok == (|Encode(b)| + 1 <= out.Length - at)
    ensures ok ==> out[..at + |Encode(b)|] == old(out[..at]) + Encode(b) && out[at + |Encode(b)|] == 0
  {
    hide Group, Encode;
    var need := (|b| + 2) / 3 * 4;
    EncodeStarts();
    if need + 1 > out.Length - at {
      return false;
    }
    ghost var before := out[..at];
    var w, i := at, 0;
    assert b[..0] == [] && before + [] == before;
    while i + 3 <= |b|
      invariant 0 <= i <= |b| && i % 3 == 0 && w == at + i / 3 * 4
      invariant out[..w] == before + Encode(b[..i])
    {
      PutGroup(out, w, b[i], b[i + 1], b[i + 2]);
      EncodeBehind(before, b, i);
      w := w + 4;
      i := i + 3;
    }
    EncodeEnds(before, b, i);
    if i < |b| {
      EncodeRest(b[i..], out, w);
      w := w + 4;
    }
    out[w] := 0;
    ok := true;
  }

  /** One or two bytes left: two or three symbols, then padding. */
  method EncodeRest(rest: bytes, out: array<byte>, w: nat)
    requires 1 <= |rest| <= 2 && w + 4 <= out.Length
    modifies out
    ensures out[..w + 4] == old(out[..w]) + Encode(rest)
  {
    var two := |rest| == 2;
    var second := if two then rest[1] else 0;
    PutFour(out, w, Symbol(rest[0] / 4), Symbol(rest[0] % 4 * 16 + second / 16),
            if two then Symbol(second % 16 * 4) else PAD, PAD);
  }

  method PutGroup(out: array<byte>, w: nat, b1: byte, b2: byte, b3: byte)
    requires w + 4 <= out.Length
    modifies out
    ensures out[..w + 4] == old(out[..w]) + Group(b1, b2, b3)
  {
    PutFour(out, w, Symbol(b1 / 4), Symbol(b1 % 4 * 16 + b2 / 16), Symbol(b2 % 16 * 4 + b3 / 64), Symbol(b3 % 64));
  }

  method PutFour(out: array<byte>, w: nat, c1: byte, c2: byte, c3: byte, c4: byte)
    requires w + 4 <= out.Length
    modifies out
    ensures out[..w + 4] == old(out[..w]) + [c1, c2, c3, c4]
  {
    out[w], out[w + 1], out[w + 2], out[w + 3] := c1, c2, c3, c4;
  }

  lemma {:induction false} EncodeStarts()
    ensures Encode([]) == []
  {}

  lemma {:induction false} EncodeBehind(before: bytes, b: bytes, i: nat)
    requires i % 3 == 0 && i + 3 <= |b|
    ensures before + Encode(b[..i + 3]) == before + Encode(b[..i]) + Group(b[i], b[i + 1], b[i + 2])
  {
    hide Group, Encode;
    EncodeOneMore(b, i);
    ConcatAssoc(before, Encode(b[..i]), Group(b[i], b[i + 1], b[i + 2]));
  }

  lemma {:induction false} EncodeEnds(before: bytes, b: bytes, i: nat)
    requires i % 3 == 0 && i <= |b|
    ensures before + Encode(b) == before + Encode(b[..i]) + Encode(b[i..])
    ensures i == |b| ==> b[i..] == [] && before + Encode(b[..i]) == before + Encode(b)
  {
    hide Encode;
    EncodeAppend(b[..i], b[i..]);
    SplitAt(b, i);
    ConcatAssoc(before, Encode(b[..i]), Encode(b[i..]));
    if i == |b| { assert b[..i] == b; }
  }

  lemma {:induction false} EncodeOneMore(b: bytes, i: nat)
    requires i % 3 == 0 && i + 3 <= |b|
    ensures Encode(b[..i + 3]) == Encode(b[..i]) + Group(b[i], b[i + 1], b[i + 2])
  {
    var g := b[i..i + 3];
    assert b[..i + 3] == b[..i] + g;
    EncodeAppend(b[..i], g);
    assert g[3..] == [] && Encode(g) == Group(g[0], g[1], g[2]) + Encode([]);
  }
}
