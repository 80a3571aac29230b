/** The SSH wire encoding of section 5 of RFC 4251: a latched, bounds-checked
    reader and a latched, bounded writer. Functions named Get... say what a
    reader sees in the bytes that are left; the encoders they invert are U32,
    U64 and Str. */
module SshWire {
  import opened Bytes

  const MAX_KEY_BLOB := 2048
  const NAME_CAP := 64

  // ---------------------------------------------------------------- encoders

  function U32(v: nat): (b: bytes)
    requires v < UINT32
    ensures |b| == 4
  {
    BigEndian(v, 4)
  }

  function U64(v: nat): (b: bytes)
    requires v < UINT64
    ensures |b| == 8
  {
    BigEndian(v, 8)
  }

  function Str(x: bytes): (b: bytes)
    requires |x| < UINT32
    ensures |b| == 4 + |x|
  {
    U32(|x|) + x
  }

  /** An unsigned number's bytes without leading zeros: none at all for zero. */
  function DropZeros(p: bytes): (d: bytes)
    ensures |d| <= |p|
    ensures d == [] || d[0] != 0
    ensures d == p[|p| - |d|..]
    ensures forall i :: 0 <= i < |p| - |d| ==> p[i] == 0
  {
    if p == [] || p[0] != 0 then p else DropZeros(p[1..])
  }

  // ---------------------------------------------------------------- decoders

  function Shifted(a: int, b: int, c: int, d: int): int {
    a * 0x100_0000 + b * 0x1_0000 + c * 256 + d
  }

  function GetU32(s: bytes): (r: Option<(nat, bytes)>)
    ensures r.Some? ==> r.value.0 < UINT32
  {
    if |s| < 4 then None else BigEndianOfMagnitude(s[..4]); Some((Magnitude(s[..4]), s[4..]))
  }

  function GetU64(s: bytes): (r: Option<(nat, bytes)>)
    ensures r.Some? ==> r.value.0 < UINT64
  {
    if |s| < 8 then None else BigEndianOfMagnitude(s[..8]); Some((Magnitude(s[..8]), s[8..]))
  }

  function GetStr(s: bytes): (r: Option<(bytes, bytes)>)
    ensures r.Some? ==> |r.value.1| + 4 + |r.value.0| == |s|
  {
    match GetU32(s)
    case None => None
    case Some((n, rest)) => if |rest| < n then None else Some((rest[..n], rest[n..]))
  }

  /** A name that must be non-empty and fit a buffer of `cap` bytes with its NUL. */
  function GetName(s: bytes, cap: nat): (r: Option<(bytes, bytes)>)
    ensures r.Some? ==> |r.value.1| + 4 + |r.value.0| == |s|
  {
    var g := GetStr(s);
    if g.None? || |g.value.0| == 0 || |g.value.0| >= cap then None else g
  }

  lemma {:induction false} GetU32Iff(s: bytes, v: nat, rest: bytes)
    ensures GetU32(s) == Some((v, rest)) <==> v < UINT32 && s == U32(v) + rest
  {
    if GetU32(s) == Some((v, rest)) {
      BigEndianOfMagnitude(s[..4]);
    }
    if v < UINT32 && s == U32(v) + rest {
      MagnitudeOfBigEndian(v, 4);
      assert s[..4] == U32(v) && s[4..] == rest;
    }
  }

  lemma {:induction false} GetU64Iff(s: bytes, v: nat, rest: bytes)
    ensures GetU64(s) == Some((v, rest)) <==> v < UINT64 && s == U64(v) + rest
  {
    if GetU64(s) == Some((v, rest)) {
      BigEndianOfMagnitude(s[..8]);
    }
    if v < UINT64 && s == U64(v) + rest {
      MagnitudeOfBigEndian(v, 8);
      assert s[..8] == U64(v) && s[8..] == rest;
    }
  }

  lemma {:induction false} GetStrIff(s: bytes, x: bytes, rest: bytes)
    ensures GetStr(s) == Some((x, rest)) <==> |x| < UINT32 && s == Str(x) + rest
  {
    if GetStr(s) == Some((x, rest)) {
      var (n, r) := GetU32(s).value;
      GetU32Iff(s, n, r);
      assert r == x + rest;
    }
    if |x| < UINT32 && s == Str(x) + rest {
      assert s == U32(|x|) + (x + rest);
      GetU32Iff(s, |x|, x + rest);
    }
  }

  lemma {:induction false} MagnitudeOfFour(s: bytes)
    requires |s| == 4
    ensures Magnitude(s) == Shifted(s[0], s[1], s[2], s[3])
  {
    assert s[..3][..2] == s[..2] && s[..2][..1] == s[..1] && s[..1][..0] == [];
    assert Magnitude(s[..1]) == s[0];
    assert Magnitude(s[..2]) == 256 * Magnitude(s[..1]) + s[1];
    assert Magnitude(s[..3]) == 256 * Magnitude(s[..2]) + s[2];
  }

  /** Two 32-bit halves, as the reader takes them, are one 64-bit value. */
  lemma {:induction false} GetU64Halves(s: bytes)
    ensures GetU64(s).Some? ==> GetU32(s).Some? && GetU32(GetU32(s).value.1).Some?
    ensures GetU64(s).Some? ==>
            var (hi, r) := GetU32(s).value;
            var (lo, rest) := GetU32(r).value;
            GetU64(s).value == (hi * UINT32 + lo, rest)
    ensures GetU64(s).None? ==> GetU32(s).None? || GetU32(GetU32(s).value.1).None?
  {
    if |s| >= 8 {
      var r := s[4..];
      assert s[..8] == s[..4] + r[..4] && s[8..] == r[4..];
      MagnitudeAppend(s[..4], r[..4]);
    }
  }

  lemma {:induction false} MagnitudeAppend(a: bytes, b: bytes)
    ensures Magnitude(a + b) == Magnitude(a) * Pow256(|b|) + Magnitude(b)
  {
    if b == [] {
      assert a + b == a;
    } else {
      var init := b[..|b| - 1];
      MagnitudeAppend(a, init);
      assert (a + b)[..|a + b| - 1] == a + init;
      assert 256 * (Magnitude(a) * Pow256(|init|)) == Magnitude(a) * Pow256(|b|);
    }
  }

  /** Most significant byte first. */
  lemma {:induction false} BigEndianIsShifts(v: nat)
    requires v < UINT32
    ensures U32(v) == [v / 0x100_0000, v / 0x1_0000 % 256, v / 256 % 256, v % 256]
  {
    var x, y := v / 0x1_0000, v / 0x100_0000;
    assert x == v / 256 / 256 && y == x / 256;
    assert BigEndian(y, 1) == [y] && BigEndian(x, 2) == [y, x % 256];
    assert BigEndian(v / 256, 3) == [y, x % 256, v / 256 % 256];
  }

  lemma {:induction false} LongIsTwo(v: nat)
    requires v < UINT64
    ensures U64(v) == U32(v / 0x1_0000_0000) + U32(v % 0x1_0000_0000)
  {
    var d, w := v / 0x1_0000_0000, v % 0x1_0000_0000;
    hide BigEndian;
    LowByte(0x100_0000 * d, w, 7, 3);
    LowByte(0x1_0000 * d, w / 256, 6, 2);
    LowByte(0x100 * d, w / 256 / 256, 5, 1);
    LowByte(d, w / 256 / 256 / 256, 4, 0);
    NoBytes(w / 256 / 256 / 256 / 256);
    assert w / 256 / 256 / 256 / 256 == 0;
    assert BigEndian(d, 4) + [] == BigEndian(d, 4);
  }

  /** The last byte of a number is that of its low part. */
  lemma {:induction false} LowByte(high: nat, low: nat, n: nat, k: nat)
    ensures BigEndian(256 * high + low, n + 1) == BigEndian(high + low / 256, n) + [low % 256]
    ensures BigEndian(low, k + 1) == BigEndian(low / 256, k) + [low % 256]
  {
    assert (256 * high + low) / 256 == high + low / 256 && (256 * high + low) % 256 == low % 256;
  }

  lemma {:induction false} NoBytes(v: nat)
    ensures BigEndian(v, 0) == []
  {}

  // ------------------------------------------------------------------ reader

  class Reader {
    const data: bytes  // the borrowed buffer; base is 0 and end is |data|
    var p: nat
    var bad: bool

    ghost predicate Valid()
      reads this
    {
      p <= |data|
    }

    /** The bytes no read has consumed yet. */
    ghost function Rest(): bytes
      reads this
      requires Valid()
    {
      data[p..]
    }

    constructor (data: bytes)
      ensures Valid() && !bad && p == 0 && this.data == data && Rest() == data
    {
      this.data := data;
      p := 0;
      bad := false;
      new;
      assert data[0..] == data;
    }

    predicate Have(n: nat)
      reads this
      requires Valid()
    {
      !bad && |data| - p >= n
    }

    method ReadU32() returns (v: nat)
      requires Valid()
      modifies this
      ensures Valid()
      ensures v < UINT32
      ensures old(bad) || GetU32(old(Rest())).None? ==> bad && v == 0 && p == old(p)
      ensures !old(bad) && GetU32(old(Rest())).Some? ==> !bad && (v, Rest()) == GetU32(old(Rest())).value
    {
      if !Have(4) {
        bad := true;
        return 0;
      }
      v := Shifted(data[p], data[p + 1], data[p + 2], data[p + 3]);
      MagnitudeOfFour(Rest()[..4]);
      p := p + 4;
    }

    /** Two halves; one that is missing reads as 0, so a failed read can leave the high half behind. */
    method ReadU64() returns (v: nat)
      requires Valid()
      modifies this
      ensures Valid()
      ensures v < UINT64
      ensures old(bad) || GetU64(old(Rest())).None? ==> bad
      ensures old(bad) || |old(Rest())| < 4 ==> v == 0 && p == old(p)
      ensures !old(bad) && 4 <= |old(Rest())| < 8 ==>
                v == GetU32(old(Rest())).value.0 * UINT32 && p == old(p) + 4
      ensures !old(bad) && GetU64(old(Rest())).Some? ==> !bad && (v, Rest()) == GetU64(old(Rest())).value
    {
      GetU64Halves(Rest());
      var hi := ReadU32();
      var lo := ReadU32();
      v := hi * UINT32 + lo;
    }

    /** The slice is returned as its bytes; when the read fails it is empty. */
    method ReadStr() returns (ok: bool, x: bytes)
      requires Valid()
      modifies this
      ensures Valid()
      ensures ok == !bad
      ensures old(bad) || GetStr(old(Rest())).None? ==> bad && x == []
      ensures !old(bad) && GetStr(old(Rest())).Some? ==> !bad && (x, Rest()) == GetStr(old(Rest())).value
    {
      x := [];
      ghost var s := Rest();
      var n := ReadU32();
      if !Have(n) {
        bad := true;
        return false, x;
      }
      x := data[p..p + n];
      assert x == Rest()[..n];
      p := p + n;
      assert Rest() == GetU32(s).value.1[n..];
      ok := true;
    }

    /** The buffer holds the name and a NUL, so a caller that treats it as a C string sees CStr(x). */
    method ReadName(cap: nat) returns (ok: bool, x: bytes)
      requires Valid()
      modifies this
      ensures Valid()
      ensures ok == (!old(bad) && GetName(old(Rest()), cap).Some?)
      ensures ok ==> !bad && (x, Rest()) == GetName(old(Rest()), cap).value
    {
      ok, x := ReadStr();
      if !ok || |x| == 0 || |x| >= cap {
        ok := false;
      }
    }

    method SkipStr() returns (ok: bool)
      requires Valid()
      modifies this
      ensures Valid()
      ensures ok == !bad
      ensures ok == (!old(bad) && GetStr(old(Rest())).Some?)
      ensures ok ==> Rest() == GetStr(old(Rest())).value.1
    {
      var x;
      ok, x := ReadStr();
    }

    /** Whether the blob was consumed exactly. */
    predicate Done()
      reads this
      requires Valid()
    {
      !bad && p == |data|
    }
  }

  // ------------------------------------------------------------------ writer

  class Writer {
    const buf: array<byte>
    var len: nat
    var bad: bool

    ghost predicate Valid()
      reads this
    {
      len <= buf.Length
    }

    ghost function Written(): bytes
      reads this, buf
      requires Valid()
    {
      buf[..len]
    }

    constructor (buf: array<byte>)
      ensures Valid() && !bad && len == 0 && this.buf == buf && Written() == []
    {
      this.buf := buf;
      len := 0;
      bad := false;
    }

    /** All of the bytes or, with the failure latched, none of them. */
    method Put(x: bytes)
      requires Valid()
      modifies this, buf
      ensures Valid()
      ensures bad == (old(bad) || |x| > buf.Length - old(len))
      ensures Written() == if bad then old(Written()) else old(Written()) + x
    {
      if bad || |x| > buf.Length - len {
        bad := true;
        return;
      }
      Copy(buf, len, x);
      len := len + |x|;
    }

    method PutU32(v: nat)
      requires Valid() && v < UINT32
      modifies this, buf
      ensures Valid()
      ensures bad == (old(bad) || 4 > buf.Length - old(len))
      ensures Written() == if bad then old(Written()) else old(Written()) + U32(v)
    {
      BigEndianIsShifts(v);
      Put([v / 0x100_0000, v / 0x1_0000 % 256, v / 256 % 256, v % 256]);
    }

    /** On a failure the length may already have been written; the latch is what says not to use it. */
    method PutStr(x: bytes)
      requires Valid()
      modifies this, buf
      ensures Valid()
      ensures bad == (old(bad) || |x| >= UINT32 || 4 + |x| > buf.Length - old(len))
      ensures !bad ==> Written() == old(Written()) + Str(x)
    {
      if |x| > 0xffff_ffff {
        bad := true;
        return;
      }
      PutU32(|x|);
      Put(x);
    }
  }
}
