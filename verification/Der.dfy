/** DER as far as signatures and RSA keys need it: sections 8.3 and 10.1 of ITU-T X.690. */
module Der {
  import opened Bytes
  import opened SshWire

  const INTEGER: byte := 0x02
  const BITS: byte := 0x03
  const SEQUENCE: byte := 0x30
  const RSA_OID: bytes := [0x06, 0x09, 0x2a, 0x86, 0x48, 0x86, 0xf7, 0x0d, 0x01, 0x01, 0x01]
  const NULL: bytes := [0x05, 0x00]

  // ---------------------------------------------------------------- the encoding

  /** A definite length; beyond two bytes nothing is written. */
  function Len(n: nat): (b: bytes)
    requires n <= 0xffff
    ensures 1 <= |b| <= 3 && (n < 0x80 ==> |b| == 1) && (n <= 0xff ==> |b| <= 2)
  {
    if n < 0x80 then [n] else if n <= 0xff then [0x81, n] else [0x82, n / 256, n % 256]
  }

  function Tlv(tag: byte, content: bytes): (b: bytes)
    requires |content| <= 0xffff
    ensures |b| == 1 + |Len(|content|)| + |content|
  {
    [tag] + Len(|content|) + content
  }

  /** The content of a non-negative INTEGER with this big-endian magnitude. */
  function Content(p: bytes): (c: bytes)
    ensures 1 <= |c| <= |p| + 1
  {
    var d := DropZeros(p);
    if d == [] then [0] else if d[0] >= 0x80 then [0] + d else d
  }

  function Integer(p: bytes): bytes
    requires |Content(p)| <= 0xffff
  {
    Tlv(INTEGER, Content(p))
  }

  function Pair(a: bytes, b: bytes): bytes
    requires |Content(a)| <= 0xffff && |Content(b)| <= 0xffff
  {
    Integer(a) + Integer(b)
  }

  /** Both integers and the sequence they form have lengths that can be written. */
  predicate PairFits(a: bytes, b: bytes) {
    |Content(a)| <= 0xffff && |Content(b)| <= 0xffff && |Pair(a, b)| <= 0xffff
  }

  // ------------------------------------------------- the reading X.690 gives it

  function GetLen(s: bytes): Option<(nat, bytes)> {
    if s == [] then None
    else if s[0] < 0x80 then Some((s[0], s[1..]))
    else if s[0] == 0x81 && |s| >= 2 then Some((s[1], s[2..]))
    else if s[0] == 0x82 && |s| >= 3 then
      var hi: int := s[1];
      Some((hi * 256 + s[2], s[3..]))
    else None
  }

  function GetTlv(s: bytes, tag: byte): Option<(bytes, bytes)> {
    if s == [] || s[0] != tag then None
    else match GetLen(s[1..])
      case None => None
      case Some((n, rest)) => if n > |rest| then None else Some((rest[..n], rest[n..]))
  }

  /** Two's complement. */
  function SignedValue(c: bytes): int {
    Magnitude(c) - if c != [] && c[0] >= 0x80 then Pow256(|c|) else 0
  }

  function GetInteger(s: bytes): Option<(int, bytes)> {
    match GetTlv(s, INTEGER)
    case None => None
    case Some((c, rest)) => if c == [] then None else Some((SignedValue(c), rest))
  }

  /** A sequence of exactly two integers, and nothing behind it. */
  function GetPair(s: bytes): Option<(int, int)> {
    match GetTlv(s, SEQUENCE)
    case None => None
    case Some((body, rest)) =>
      match GetInteger(body)
      case None => None
      case Some((a, more)) =>
        match GetInteger(more)
        case None => None
        case Some((b, end)) => if rest == [] && end == [] then Some((a, b)) else None
  }

  /** The shortest two's complement form: the first nine bits are not all alike. */
  predicate Shortest(c: bytes) {
    c != [] && (|c| >= 2 ==> !(c[0] == 0 && c[1] < 0x80) && !(c[0] == 0xff && c[1] >= 0x80))
  }

  // -------------------------------------------------------------------- theorems

  lemma {:induction false} TlvReads(tag: byte, content: bytes, rest: bytes)
    requires |content| <= 0xffff
    ensures GetTlv(Tlv(tag, content) + rest, tag) == Some((content, rest))
  {
    var s := Tlv(tag, content) + rest;
    var len := Len(|content|);
    assert s[1..] == len + (content + rest);
    assert GetLen(s[1..]) == Some((|content|, content + rest)) by {
      assert s[1..][|len|..] == content + rest;
    }
  }

  /** No length octets that name n are fewer than the ones written. */
  lemma {:induction false} LenShortest(s: bytes, n: nat)
    requires n <= 0xffff && GetLen(s) == Some((n, []))
    ensures |Len(n)| <= |s|
  {
    if |s| == 1 {
      assert n == s[0];
    } else if |s| == 2 {
      assert n == s[1];
    }
  }

  lemma {:induction false} MagnitudeOfZeros(p: bytes, d: bytes)
    requires |d| <= |p| && d == p[|p| - |d|..] && forall i :: 0 <= i < |p| - |d| ==> p[i] == 0
    ensures Magnitude(p) == Magnitude(d)
  {
    if d != [] {
      MagnitudeOfZeros(p[..|p| - 1], d[..|d| - 1]);
    } else if p != [] {
      MagnitudeOfZeros(p[..|p| - 1], []);
    }
  }

  lemma {:induction false} Nothing()
    ensures Magnitude([]) == 0
  {}

  lemma {:induction false} DroppingKeeps(p: bytes)
    ensures Magnitude(DropZeros(p)) == Magnitude(p)
    ensures Magnitude([0] + DropZeros(p)) == Magnitude(p)
    ensures DropZeros(p) == [] ==> Magnitude(p) == Magnitude([0]) == 0
  {
    hide DropZeros, Magnitude;
    MagnitudeOfZeros(p, DropZeros(p));
    MagnitudeOfZeros([0] + DropZeros(p), DropZeros(p));
    MagnitudeOfZeros([0], []);
    Nothing();
  }

  lemma {:induction false} ContentMeans(p: bytes)
    ensures SignedValue(Content(p)) == Magnitude(p)
    ensures Shortest(Content(p))
  {
    DroppingKeeps(p);
    hide DropZeros, Magnitude, Pow256;
  }

  /** Reading an encoded magnitude gives the same unsigned integer, whatever follows it. */
  lemma {:induction false} IntegerReads(p: bytes, rest: bytes)
    requires |Content(p)| <= 0xffff
    ensures GetInteger(Integer(p) + rest) == Some((Magnitude(p), rest))
  {
    TlvReads(INTEGER, Content(p), rest);
    ContentMeans(p);
    hide Content, SignedValue, GetTlv;
  }

  /** Without leading zeros a magnitude has one spelling. */
  lemma {:induction false} NoZerosUnique(a: bytes, b: bytes)
    requires (a == [] || a[0] != 0) && (b == [] || b[0] != 0) && Magnitude(a) == Magnitude(b)
    ensures a == b
  {
    if a != [] && b != [] {
      NoZerosUnique(a[..|a| - 1], b[..|b| - 1]);
      assert a == a[..|a| - 1] + [a[|a| - 1]] && b == b[..|b| - 1] + [b[|b| - 1]];
    } else if a != [] {
      Positive(a);
    } else if b != [] {
      Positive(b);
    }
  }

  lemma {:induction false} Positive(a: bytes)
    requires a != [] && a[0] != 0
    ensures Magnitude(a) > 0
  {
    if |a| > 1 {
      Positive(a[..|a| - 1]);
    }
  }

  /** The encoding depends on the value alone, so leading zeros change nothing, and two values
      never share it. */
  lemma {:induction false} IntegerIff(p: bytes, q: bytes)
    requires |Content(p)| <= 0xffff && |Content(q)| <= 0xffff
    ensures Integer(p) == Integer(q) <==> Magnitude(p) == Magnitude(q)
  {
    hide DropZeros, Magnitude, GetInteger, Tlv;
    IntegerReads(p, []);
    IntegerReads(q, []);
    assert Integer(p) + [] == Integer(p) && Integer(q) + [] == Integer(q);
    if Magnitude(p) == Magnitude(q) {
      DroppingKeeps(p);
      DroppingKeeps(q);
      NoZerosUnique(DropZeros(p), DropZeros(q));
    }
  }

  lemma {:induction false} ShortTlv(tag: byte, content: bytes)
    requires |content| < 0x80
    ensures Tlv(tag, content) == [tag, |content|] + content
  {}

  lemma {:induction false} LoneContent()
    ensures Content([0x01]) == [0x01] && Content([0x00, 0x80]) == [0x00, 0x80]
  {
    DropOne();
    hide DropZeros;
  }

  lemma {:induction false} DropOne()
    ensures DropZeros([0x01]) == [0x01] && DropZeros([0x00, 0x80]) == [0x80]
  {
    var one: bytes, two: bytes := [0x01], [0x00, 0x80];
    assert one[0] == 1 && two[0] == 0 && two[1..] == [0x80];
    assert DropZeros(two) == DropZeros(two[1..]);
  }

  /** A small signature, byte for byte. */
  lemma {:induction false} SignatureExample()
    ensures PairFits([0x01], [0x00, 0x80])
    ensures Tlv(0x30, Pair([0x01], [0x00, 0x80])) == [0x30, 0x07, 0x02, 0x01, 0x01, 0x02, 0x02, 0x00, 0x80]
  {
    hide Tlv, Content;
    LoneContent();
    ShortTlv(INTEGER, [0x01]);
    ShortTlv(INTEGER, [0x00, 0x80]);
    assert Integer([0x01]) == [0x02, 0x01, 0x01];
    assert Integer([0x00, 0x80]) == [0x02, 0x02, 0x00, 0x80];
    var body := [0x02, 0x01, 0x01, 0x02, 0x02, 0x00, 0x80];
    assert Pair([0x01], [0x00, 0x80]) == body;
    ShortTlv(0x30, body);
  }

  /** Re-encoding an SSH signature keeps both unsigned integers, and nothing is left over. */
  lemma {:induction false} PairReads(a: bytes, b: bytes)
    requires PairFits(a, b)
    ensures GetPair(Tlv(SEQUENCE, Pair(a, b))) == Some((Magnitude(a), Magnitude(b)))
  {
    hide GetInteger, GetTlv, Tlv, Integer, Magnitude;
    IntegerReads(a, Integer(b));
    IntegerReads(b, []);
    TlvReads(SEQUENCE, Pair(a, b), []);
    assert Integer(b) + [] == Integer(b);
    assert Tlv(SEQUENCE, Pair(a, b)) + [] == Tlv(SEQUENCE, Pair(a, b));
  }

  /** Two re-encoded pairs are the same bytes exactly when both values agree. */
  lemma {:induction false} PairIff(a: bytes, b: bytes, a': bytes, b': bytes)
    requires PairFits(a, b)
    requires PairFits(a', b')
    ensures Tlv(SEQUENCE, Pair(a, b)) == Tlv(SEQUENCE, Pair(a', b')) <==>
            Magnitude(a) == Magnitude(a') && Magnitude(b) == Magnitude(b')
  {
    hide GetPair, Tlv, Integer, Magnitude;
    PairReads(a, b);
    PairReads(a', b');
    IntegerIff(a, a');
    IntegerIff(b, b');
  }

  /** Magnitudes of at most n bytes, leading zeros aside. */
  predicate Small(a: bytes, b: bytes, n: nat) {
    |DropZeros(a)| <= n && |DropZeros(b)| <= n
  }

  lemma {:induction false} IntegerLength(p: bytes, n: nat)
    requires |DropZeros(p)| <= n < 0xffff
    ensures |Content(p)| <= n + 1
    ensures |Integer(p)| <= n + if n < 0x7f then 3 else 5
  {
    hide DropZeros;
  }

  /** Two P-521 magnitudes stay far inside the 256-byte body. */
  lemma {:induction false} PairBound(a: bytes, b: bytes)
    requires Small(a, b, 66)
    ensures PairFits(a, b) && |Pair(a, b)| <= 138 && |Tlv(SEQUENCE, Pair(a, b))| <= 141
  {
    hide DropZeros, Content, Integer, Tlv;
    IntegerLength(a, 66);
    IntegerLength(b, 66);
  }

  // ------------------------------------------------------------- RSA public keys

  /** SubjectPublicKeyInfo around a key: the algorithm, then the key as a bit string. */
  function BitString(key: bytes): bytes
    requires |key| < 0xffff
  {
    Tlv(BITS, [0] + key)
  }

  function Spki(algorithm: bytes, key: bytes): bytes
    requires |algorithm| <= 0xffff && |key| < 0xffff
  {
    Tlv(SEQUENCE, algorithm) + BitString(key)
  }

  /** RSAPublicKey has the modulus first, the reverse of the SSH blob's order. */
  predicate RsaFits(e: bytes, n: bytes) {
    && PairFits(n, e) && |Tlv(SEQUENCE, Pair(n, e))| < 0xffff
    && |Spki(RSA_OID + NULL, Tlv(SEQUENCE, Pair(n, e)))| <= 0xffff
  }

  function RsaKey(e: bytes, n: bytes): bytes
    requires RsaFits(e, n)
  {
    Tlv(SEQUENCE, Spki(RSA_OID + NULL, Tlv(SEQUENCE, Pair(n, e))))
  }

  /** What a key parser reads back: the algorithm and the key, with no unused bits. */
  function GetSpki(s: bytes): Option<(bytes, bytes)> {
    match GetTlv(s, SEQUENCE)
    case None => None
    case Some((info, rest)) =>
      match GetTlv(info, SEQUENCE)
      case None => None
      case Some((algorithm, bits)) =>
        match GetTlv(bits, BITS)
        case None => None
        case Some((key, end)) =>
          if rest != [] || end != [] || key == [] || key[0] != 0 then None else Some((algorithm, key[1..]))
  }

  lemma {:induction false} SpkiReads(algorithm: bytes, key: bytes)
    requires |algorithm| <= 0xffff && |key| < 0xffff && |Spki(algorithm, key)| <= 0xffff
    ensures GetSpki(Tlv(SEQUENCE, Spki(algorithm, key))) == Some((algorithm, key))
  {
    hide GetTlv, Tlv;
    var info, bits := Spki(algorithm, key), BitString(key);
    TlvReads(SEQUENCE, info, []);
    TlvReads(SEQUENCE, algorithm, bits);
    TlvReads(BITS, [0] + key, []);
    assert Tlv(SEQUENCE, info) + [] == Tlv(SEQUENCE, info) && bits + [] == bits;
    assert ([0] + key)[1..] == key;
  }

  /** The key reads back as RSA with the same modulus and exponent. */
  lemma {:induction false} RsaReads(e: bytes, n: bytes)
    requires RsaFits(e, n)
    ensures GetSpki(RsaKey(e, n)) == Some((RSA_OID + NULL, Tlv(SEQUENCE, Pair(n, e))))
    ensures GetPair(Tlv(SEQUENCE, Pair(n, e))) == Some((Magnitude(n), Magnitude(e)))
  {
    hide GetSpki, GetPair, Tlv, Pair, Magnitude, Spki;
    PairReads(n, e);
    SpkiReads(RSA_OID + NULL, Tlv(SEQUENCE, Pair(n, e)));
  }

  /** What stands around every RSA key: the two sequences, rsaEncryption without parameters, and a bit string
      with no unused bits. */
  lemma {:induction false} KeyShape(e: bytes, n: bytes)
    requires RsaFits(e, n)
    ensures var key := Tlv(0x30, Pair(n, e));
            RsaKey(e, n) ==
            Tlv(0x30, [0x30, 0x0d, 0x06, 0x09, 0x2a, 0x86, 0x48, 0x86, 0xf7, 0x0d, 0x01, 0x01, 0x01, 0x05, 0x00]
                      + Tlv(0x03, [0x00] + key))
  {
    hide Pair, PairFits, Tlv;
    var oid := RSA_OID + NULL;
    assert oid == [0x06, 0x09, 0x2a, 0x86, 0x48, 0x86, 0xf7, 0x0d, 0x01, 0x01, 0x01, 0x05, 0x00];
    ShortTlv(0x30, oid);
    assert Tlv(0x30, oid) ==
           [0x30, 0x0d, 0x06, 0x09, 0x2a, 0x86, 0x48, 0x86, 0xf7, 0x0d, 0x01, 0x01, 0x01, 0x05, 0x00];
  }

  /** Two encoded keys are the same bytes exactly when modulus and exponent agree as numbers. */
  lemma {:induction false} RsaIff(e: bytes, n: bytes, e': bytes, n': bytes)
    requires RsaFits(e, n) && RsaFits(e', n')
    ensures RsaKey(e, n) == RsaKey(e', n') <==> Magnitude(n) == Magnitude(n') && Magnitude(e) == Magnitude(e')
  {
    RsaReads(e, n);
    RsaReads(e', n');
    PairIff(n, e, n', e');
    hide GetSpki, GetPair, Tlv, Pair, Magnitude;
  }

  /** Every buffer on the way is large enough. */
  predicate RsaBuffers(e: bytes, n: bytes, cap: nat) {
    && |Content(n)| <= 0xffff && |Content(e)| <= 0xffff && |Pair(n, e)| <= 1200
    && |Tlv(SEQUENCE, Pair(n, e))| <= 1216
    && |Spki(RSA_OID + NULL, Tlv(SEQUENCE, Pair(n, e)))| <= 2048
    && |RsaKey(e, n)| <= cap
  }

  /** They are for an 8192-bit modulus with an 8-byte exponent. */
  lemma {:induction false} RsaBound(e: bytes, n: bytes)
    requires |DropZeros(n)| <= 1024 && |DropZeros(e)| <= 8
    ensures RsaBuffers(e, n, 1068)
  {
    hide DropZeros, Content, Integer, Tlv;
    IntegerLength(n, 1024);
    IntegerLength(e, 8);
  }

  // ------------------------------------------------------------- the C functions

  method PutLen(w: Writer, n: nat)
    requires w.Valid()
    modifies w, w.buf
    ensures w.Valid()
    ensures w.bad == (old(w.bad) || n > 0xffff || |Len(n)| > w.buf.Length - old(w.len))
    ensures !w.bad ==> w.Written() == old(w.Written()) + Len(n)
  {
    if n < 0x80 {
      w.Put([n]);
    } else if n <= 0xff {
      w.Put([0x81]);
      w.Put([n]);
    } else if n <= 0xffff {
      w.Put([0x82]);
      w.Put([n / 256]);
      w.Put([n % 256]);
    } else {
      w.bad := true;
    }
  }

  method PutTlv(w: Writer, tag: byte, content: bytes)
    requires w.Valid()
    modifies w, w.buf
    ensures w.Valid()
    ensures w.bad == (old(w.bad) || |content| > 0xffff || |Tlv(tag, content)| > w.buf.Length - old(w.len))
    ensures !w.bad ==> w.Written() == old(w.Written()) + Tlv(tag, content)
  {
    hide Len;
    w.Put([tag]);
    PutLen(w, |content|);
    w.Put(content);
  }

  method SkipZeros(p: bytes) returns (i: nat)
    ensures i <= |p| && p[i..] == DropZeros(p)
  {
    i := 0;
    while i < |p| && p[i] == 0
      invariant 0 <= i <= |p| && DropZeros(p[i..]) == DropZeros(p)
    {
      assert p[i..][1..] == p[i + 1..];
      i := i + 1;
    }
  }

  /** Leading zeros dropped, a zero put back where the top bit would read as a sign. */
  method PutInteger(w: Writer, p: bytes)
    requires w.Valid()
    modifies w, w.buf
    ensures w.Valid()
    ensures w.bad == (old(w.bad) || |Content(p)| > 0xffff || |Integer(p)| > w.buf.Length - old(w.len))
    ensures !w.bad ==> w.Written() == old(w.Written()) + Integer(p)
  {
    var i := SkipZeros(p);
    hide Len, DropZeros;
    if i == |p| {
      PutTlv(w, INTEGER, [0]);
      return;
    }
    if p[i] >= 0x80 {
      PutPadded(w, p[i..]);
      return;
    }
    PutTlv(w, INTEGER, p[i..]);
  }

  method PutPadded(w: Writer, d: bytes)
    requires w.Valid()
    modifies w, w.buf
    ensures w.Valid()
    ensures w.bad == (old(w.bad) || |d| + 1 > 0xffff || |Tlv(INTEGER, [0] + d)| > w.buf.Length - old(w.len))
    ensures !w.bad ==> w.Written() == old(w.Written()) + Tlv(INTEGER, [0] + d)
  {
    hide Len;
    w.Put([INTEGER]);
    PutLen(w, |d| + 1);
    w.Put([0]);
    w.Put(d);
  }

  /** Both integers fit the 256-byte body, and the sequence fits the output. */
  predicate SigFits(r: bytes, s: bytes, cap: nat) {
    && |Content(r)| <= 0xffff && |Content(s)| <= 0xffff && |Pair(r, s)| <= 256
    && |Tlv(SEQUENCE, Pair(r, s))| <= cap
  }

  /** An r, s pair as a DER sequence; 256 bytes of body hold two magnitudes of up to 66 bytes. */
  method EcdsaSig(r: bytes, s: bytes, out: array<byte>) returns (ok: bool, len: nat)
    modifies out
    ensures ok == SigFits(r, s, out.Length)
    ensures ok ==> len <= out.Length && out[..len] == Tlv(SEQUENCE, Pair(r, s))
  {
    hide Tlv, Len, Content;
    var body := new byte[256];
    var b := new Writer(body);
    PutInteger(b, r);
    PutInteger(b, s);
    ok, len := false, 0;
    if b.bad {
      return;
    }
    assert body[..b.len] == [] + Integer(r) + Integer(s) == Pair(r, s);
    ok, len := Wrap(body[..b.len], out);
  }

  /** The outer sequence around a finished body. */
  method Wrap(body: bytes, out: array<byte>) returns (ok: bool, len: nat)
    modifies out
    ensures ok == (|body| <= 0xffff && |Tlv(SEQUENCE, body)| <= out.Length)
    ensures ok ==> len <= out.Length && out[..len] == Tlv(SEQUENCE, body)
  {
    var w := new Writer(out);
    PutTlv(w, SEQUENCE, body);
    ok, len := !w.bad, 0;
    if ok {
      len := w.len;
      assert out[..len] == [] + Tlv(SEQUENCE, body) == Tlv(SEQUENCE, body);
    }
  }

  method RsaPkcs1(e: bytes, n: bytes, out: array<byte>) returns (ok: bool, len: nat)
    modifies out
    ensures ok == (&& |Content(n)| <= 0xffff && |Content(e)| <= 0xffff && |Pair(n, e)| <= 1200
                   && |Tlv(SEQUENCE, Pair(n, e))| <= out.Length)
    ensures ok ==> len <= out.Length && out[..len] == Tlv(SEQUENCE, Pair(n, e))
  {
    hide Tlv, Len, Content;
    var inner := new byte[1200];
    var w := new Writer(inner);
    PutInteger(w, n);
    PutInteger(w, e);
    ok, len := false, 0;
    if w.bad {
      return;
    }
    assert inner[..w.len] == [] + Integer(n) + Integer(e) == Pair(n, e);
    ok, len := Wrap(inner[..w.len], out);
  }

  method PutBitString(w: Writer, key: bytes)
    requires w.Valid()
    modifies w, w.buf
    ensures w.Valid()
    ensures w.bad == (old(w.bad) || |key| + 1 > 0xffff || |BitString(key)| > w.buf.Length - old(w.len))
    ensures !w.bad ==> w.Written() == old(w.Written()) + BitString(key)
  {
    hide Len;
    w.Put([BITS]);
    PutLen(w, |key| + 1);
    w.Put([0]);
    w.Put(key);
  }

  method PutSpki(oid: bytes, params: bytes, key: bytes, out: array<byte>) returns (ok: bool, len: nat)
    modifies out
    ensures ok == (&& |oid + params| <= 64 && |key| < 0xffff && |Spki(oid + params, key)| <= 2048
                   && |Tlv(SEQUENCE, Spki(oid + params, key))| <= out.Length)
    ensures ok ==> len <= out.Length && out[..len] == Tlv(SEQUENCE, Spki(oid + params, key))
  {
    hide Tlv, Len, Spki, BitString;
    ok, len := false, 0;
    var algorithm := new byte[64];
    var a := new Writer(algorithm);
    a.Put(oid);
    a.Put(params);
    if a.bad {
      return;
    }
    assert [] + oid == oid && algorithm[..a.len] == oid + params;
    ok, len := PutSpkiBody(algorithm[..a.len], key, out);
  }

  method PutSpkiBody(algorithm: bytes, key: bytes, out: array<byte>) returns (ok: bool, len: nat)
    requires |algorithm| <= 64
    modifies out
    ensures ok == (&& |key| < 0xffff && |Spki(algorithm, key)| <= 2048
                   && |Tlv(SEQUENCE, Spki(algorithm, key))| <= out.Length)
    ensures ok ==> len <= out.Length && out[..len] == Tlv(SEQUENCE, Spki(algorithm, key))
  {
    hide Tlv, Len;
    ok, len := false, 0;
    var body := new byte[2048];
    var b := new Writer(body);
    PutTlv(b, SEQUENCE, algorithm);
    PutBitString(b, key);
    if b.bad {
      return;
    }
    assert body[..b.len] == [] + Tlv(SEQUENCE, algorithm) + BitString(key) == Spki(algorithm, key);
    ok, len := Wrap(body[..b.len], out);
  }

  method SpkiRsa(e: bytes, n: bytes, out: array<byte>) returns (ok: bool, len: nat)
    modifies out
    ensures ok == RsaBuffers(e, n, out.Length)
    ensures ok ==> len <= out.Length && out[..len] == RsaKey(e, n)
  {
    hide Content, Integer, Len, Tlv, Pair, Spki;
    ok, len := false, 0;
    var key := new byte[1216];
    var done, keyLen := RsaPkcs1(e, n, key);
    if !done {
      return;
    }
    ok, len := PutSpki(RSA_OID, NULL, key[..keyLen], out);
  }

  /** The two integers of an SSH ECDSA signature: two strings and nothing after them. */
  function SshPair(sig: bytes): Option<(bytes, bytes)> {
    match GetStr(sig)
    case None => None
    case Some((r, rest)) =>
      match GetStr(rest)
      case None => None
      case Some((s, end)) => if end == [] then Some((r, s)) else None
  }

  /** Re-encodes a signature of two strings and nothing else, exactly when it fits: the result reads back
      as the same two unsigned integers. Two P-521 magnitudes always fit 141 bytes. */
  method EcdsaSigToDer(sig: bytes, out: array<byte>) returns (ok: bool, len: nat)
    modifies out
    ensures ok == (SshPair(sig).Some? && SigFits(SshPair(sig).value.0, SshPair(sig).value.1, out.Length))
    ensures SshPair(sig).Some? && out.Length >= 141 && Small(SshPair(sig).value.0, SshPair(sig).value.1, 66) ==> ok
    ensures ok ==> && len <= out.Length
                   && out[..len] == Tlv(SEQUENCE, Pair(SshPair(sig).value.0, SshPair(sig).value.1))
                   && GetPair(out[..len]) == Some((Magnitude(SshPair(sig).value.0), Magnitude(SshPair(sig).value.1)))
  {
    hide GetStr, Tlv, Content, Integer, Pair, GetPair, DropZeros, Magnitude;
    ok, len := false, 0;
    var rd := new Reader(sig);
    assert rd.Rest() == sig;
    var r, s;
    ok, r := rd.ReadStr();
    if !ok {
      return;
    }
    ok, s := rd.ReadStr();
    if !ok {
      return;
    }
    ok := rd.Done();
    if !ok {
      return;
    }
    ok, len := EcdsaSig(r, s, out);
    if Small(r, s, 66) {
      PairBound(r, s);
    }
    if ok {
      PairReads(r, s);
    }
  }
}
