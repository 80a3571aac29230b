/** Bytes, C strings and the small vocabulary every other module shares. */
module Bytes {

  type byte = b: int | 0 <= b < 256
  type bytes = seq<byte>

  datatype Option<+T> = None | Some(value: T)

  const INT64_MAX := 0x7fff_ffff_ffff_ffff
  const UINT32 := 0x1_0000_0000
  const UINT64 := 0x1_0000_0000_0000_0000

  const TAB: byte := 9
  const LF: byte := 10
  const CR: byte := 13
  const SPACE: byte := 32
  const QUOTE: byte := 34
  const HASH: byte := 35
  const COMMA: byte := 44
  const SLASH: byte := 47
  const COLON: byte := 58
  const BACKSLASH: byte := 92

  /** The bytes of a source-code string literal. */
  function Ascii(s: string): (b: bytes)
    ensures |b| == |s|
  {
    seq(|s|, i requires 0 <= i < |s| => (s[i] as int) % 256)
  }

  predicate NulFree(s: bytes) {
    0 !in s
  }

  /** What C sees of a buffer that holds `s` followed by a NUL: everything before the first NUL. */
  function CStr(s: bytes): (c: bytes)
    ensures NulFree(c)
    ensures c <= s
    ensures |c| < |s| ==> s[|c|] == 0
  {
    if s == [] || s[0] == 0 then [] else [s[0]] + CStr(s[1..])
  }

  lemma {:induction false} CStrUnique(s: bytes, c: bytes)
    requires NulFree(c) && c <= s
    requires |c| < |s| ==> s[|c|] == 0
    ensures CStr(s) == c
  {
    if c != [] {
      assert s[0] == c[0] && c[0] in c;
      CStrUnique(s[1..], c[1..]);
    } else if s != [] {
      assert s[0] == 0;
    }
  }

  lemma {:induction false} CStrOfNulFree(s: bytes)
    requires NulFree(s)
    ensures CStr(s) == s
  {
    CStrUnique(s, s);
  }

  /** A C string read at i: its terminating NUL is the last byte that may be touched. */
  function At(s: bytes, i: nat): byte
    requires i <= |s|
  {
    if i < |s| then s[i] else 0
  }

  /** Two's complement reading of a 64-bit sum. */
  function Wrap64(x: int): (r: int)
    ensures -INT64_MAX - 1 <= r <= INT64_MAX
    ensures -INT64_MAX - 1 <= x <= INT64_MAX ==> r == x
    ensures INT64_MAX < x <= 2 * INT64_MAX + 1 ==> r == x - UINT64
  {
    (x + INT64_MAX + 1) % UINT64 - INT64_MAX - 1
  }

  lemma {:induction false} MulGrows(a: nat, b: nat, c: nat)
    requires a <= b
    ensures a * c <= b * c
  {}

  /** Quotient and remainder are determined by their sum. */
  lemma {:induction false} DivideUnique(x: int, n: nat, q: int, r: nat)
    requires n > 0 && x == n * q + r && r < n
    ensures x / n == q && x % n == r
  {
    var q', r' := x / n, x % n;
    assert n * (q - q') == r' - r;
    if q > q' {
      MulGrows(1, q - q', n);
    } else if q < q' {
      MulGrows(1, q' - q, n);
    }
  }

  /** memcpy into a buffer. */
  method Copy(dst: array<byte>, at: nat, src: bytes)
    requires at + |src| <= dst.Length
    modifies dst
    ensures dst[..at + |src|] == old(dst[..at]) + src
    ensures dst[at + |src|..] == old(dst[at + |src|..])
  {
    var i := 0;
    while i < |src|
      invariant 0 <= i <= |src|
      invariant dst[..at] == old(dst[..at]) && dst[at..at + i] == src[..i]
      invariant forall k :: at + i <= k < dst.Length ==> dst[k] == old(dst[k])
    {
      dst[at + i] := src[i];
      i := i + 1;
    }
    assert dst[..at + |src|] == dst[..at] + dst[at..at + |src|];
  }

  lemma {:induction false} ConcatAssoc<T>(a: seq<T>, b: seq<T>, c: seq<T>)
    ensures a + b + c == a + (b + c)
  {}

  lemma {:induction false} SplitAt<T>(s: seq<T>, k: nat)
    requires k <= |s|
    ensures s == s[..k] + s[k..]
  {}

  function TwoTo(n: nat): (p: nat)
    ensures p > 0
  {
    if n == 0 then 1 else 2 * TwoTo(n - 1)
  }

  // -------------------------------------------------- big-endian magnitudes

  function Pow256(n: nat): (p: nat)
    ensures p > 0
  {
    if n == 0 then 1 else 256 * Pow256(n - 1)
  }

  /** The unsigned integer a big-endian byte string spells. */
  function Magnitude(b: bytes): nat {
    if b == [] then 0 else 256 * Magnitude(b[..|b| - 1]) + b[|b| - 1]
  }

  /** The low n bytes of v, most significant first. */
  function BigEndian(v: nat, n: nat): (b: bytes)
    ensures |b| == n
    decreases v, n
  {
    if n == 0 then [] else BigEndian(v / 256, n - 1) + [v % 256]
  }

  lemma {:induction false} MagnitudeOfBigEndian(v: nat, n: nat)
    requires v < Pow256(n)
    ensures Magnitude(BigEndian(v, n)) == v
  {
    if n > 0 {
      MagnitudeOfBigEndian(v / 256, n - 1);
      var b := BigEndian(v, n);
      assert b[..|b| - 1] == BigEndian(v / 256, n - 1);
    }
  }

  lemma {:induction false} BigEndianOfMagnitude(b: bytes)
    ensures Magnitude(b) < Pow256(|b|)
    ensures BigEndian(Magnitude(b), |b|) == b
  {
    if b != [] {
      var init := b[..|b| - 1];
      BigEndianOfMagnitude(init);
      assert Magnitude(b) / 256 == Magnitude(init) && Magnitude(b) % 256 == b[|b| - 1];
      assert b == init + [b[|b| - 1]];
    }
  }
}
