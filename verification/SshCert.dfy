/** OpenSSH user certificates: one pass over nested length-prefixed fields,
    proved to be the exact inverse of a serialiser. */
module SshCert {
  import opened Bytes
  import opened SshWire

  const MAX_CERT := 32 * 1024
  const MAX_PRINCIPALS := 64
  const TYPE_USER := 1
  const CERT_SUFFIX := Ascii("-cert-v01@openssh.com")

  datatype Status = Ok | Malformed | Unsupported | NotUser

  /** What a caller reads back from an accepted certificate. */
  datatype Cert = Cert(
    algo: bytes, keyBlob: bytes, serial: nat, keyId: bytes, principals: seq<bytes>,
    validAfter: nat, validBefore: nat, signatureKey: bytes,
    signatureAlgo: bytes, signature: bytes, signedLen: nat)

  // ------------------------------------------------------- algorithm names

  predicate EndsWith(s: bytes, suffix: bytes) {
    |suffix| <= |s| && s[|s| - |suffix|..] == suffix
  }

  /** The plain key algorithm behind a certificate algorithm's C string. */
  function BaseAlgo(certAlgo: bytes, cap: nat): (r: Option<bytes>)
    ensures r.Some? ==> 0 < |r.value| < cap && certAlgo == r.value + CERT_SUFFIX
  {
    var n := |certAlgo| - |CERT_SUFFIX|;
    if n <= 0 || !EndsWith(certAlgo, CERT_SUFFIX) || n >= cap then None
    else SplitAt(certAlgo, n); Some(certAlgo[..n])
  }

  lemma {:induction false} BaseAlgoIff(certAlgo: bytes, cap: nat, base: bytes)
    ensures BaseAlgo(certAlgo, cap) == Some(base) <==>
            0 < |base| < cap && certAlgo == base + CERT_SUFFIX
  {
    if certAlgo == base + CERT_SUFFIX {
      assert certAlgo[|base|..] == CERT_SUFFIX && certAlgo[..|base|] == base;
    }
  }

  function KeyFieldCount(base: bytes): nat {
    if base == Ascii("ssh-ed25519") then 1
    else if base == Ascii("ssh-rsa") || base == Ascii("ecdsa-sha2-nistp256")
            || base == Ascii("ecdsa-sha2-nistp384") || base == Ascii("ecdsa-sha2-nistp521") then 2
    else 0
  }

  /** The number of key fields a certificate with this raw algorithm name carries; 0 when it is refused. */
  function FieldsFor(rawAlgo: bytes): nat {
    match BaseAlgo(CStr(rawAlgo), NAME_CAP)
    case None => 0
    case Some(base) => KeyFieldCount(base)
  }

  // --------------------------------------------------- sequences of strings
  // The Put... functions take what follows them, so that a serialisation is one
  // right-nested concatenation that a reader peels from the left.

  predicate StrsSized(xs: seq<bytes>) {
    forall x :: x in xs ==> |x| < UINT32
  }

  function PutAll(xs: seq<bytes>, rest: bytes): (b: bytes)
    requires StrsSized(xs)
  {
    if xs == [] then rest else Str(xs[0]) + PutAll(xs[1..], rest)
  }

  lemma {:induction false} PutAllAppend(xs: seq<bytes>, rest: bytes)
    requires StrsSized(xs)
    ensures PutAll(xs, rest) == PutAll(xs, []) + rest
  {
    if xs != [] {
      PutAllAppend(xs[1..], rest);
      assert Str(xs[0]) + (PutAll(xs[1..], []) + rest) == Str(xs[0]) + PutAll(xs[1..], []) + rest;
    }
  }

  /** Exactly n strings from the front. */
  function GetStrs(s: bytes, n: nat): (r: Option<(seq<bytes>, bytes)>)
    ensures r.Some? ==> |r.value.0| == n && |r.value.1| <= |s|
  {
    if n == 0 then Some(([], s))
    else match GetStr(s)
      case None => None
      case Some((x, rest)) =>
        match GetStrs(rest, n - 1)
        case None => None
        case Some((xs, rest')) => Some(([x] + xs, rest'))
  }

  lemma {:induction false} GetStrsSound(s: bytes, n: nat)
    requires GetStrs(s, n).Some?
    ensures var (xs, rest) := GetStrs(s, n).value; StrsSized(xs) && s == PutAll(xs, rest)
    decreases n
  {
    if n > 0 {
      var (x, mid) := GetStr(s).value;
      GetStrIff(s, x, mid);
      GetStrsSound(mid, n - 1);
      var (xs, rest) := GetStrs(mid, n - 1).value;
      assert ([x] + xs)[1..] == xs;
    }
  }

  lemma {:induction false} GetStrsComplete(xs: seq<bytes>, rest: bytes)
    requires StrsSized(xs)
    ensures GetStrs(PutAll(xs, rest), |xs|) == Some((xs, rest))
  {
    if xs != [] {
      GetStrIff(PutAll(xs, rest), xs[0], PutAll(xs[1..], rest));
      GetStrsComplete(xs[1..], rest);
      assert xs == [xs[0]] + xs[1..];
    }
  }

  /** The principals blob: strings to its very end, at most `room` of them. */
  function GetPrincipals(s: bytes, room: nat): (r: Option<seq<bytes>>)
    decreases |s|
  {
    if s == [] then Some([])
    else match GetStr(s)
      case None => None
      case Some((x, rest)) =>
        if room == 0 then None
        else match GetPrincipals(rest, room - 1)
          case None => None
          case Some(xs) => Some([x] + xs)
  }

  lemma {:induction false} GetPrincipalsSound(s: bytes, room: nat)
    requires GetPrincipals(s, room).Some?
    ensures var xs := GetPrincipals(s, room).value; |xs| <= room && StrsSized(xs) && s == PutAll(xs, [])
    decreases |s|
  {
    if s != [] {
      var (x, rest) := GetStr(s).value;
      GetStrIff(s, x, rest);
      GetPrincipalsSound(rest, room - 1);
      var xs := GetPrincipals(rest, room - 1).value;
      assert ([x] + xs)[1..] == xs;
    }
  }

  lemma {:induction false} GetPrincipalsEmpty(s: bytes, room: nat)
    ensures s == [] ==> GetPrincipals(s, room) == Some([])
  {}

  /** One string at a time, for proofs that keep the recursion hidden. */
  lemma {:induction false} GetPrincipalsStep(s: bytes, room: nat)
    requires s != []
    ensures GetPrincipals(s, room) ==
            if GetStr(s).None? || room == 0 || GetPrincipals(GetStr(s).value.1, room - 1).None? then None
            else Some([GetStr(s).value.0] + GetPrincipals(GetStr(s).value.1, room - 1).value)
  {
    hide GetStr;
  }

  lemma {:induction false} GetPrincipalsComplete(xs: seq<bytes>, room: nat)
    requires |xs| <= room && StrsSized(xs)
    ensures GetPrincipals(PutAll(xs, []), room) == Some(xs)
  {
    hide GetStr, Str;
    if xs != [] {
      var s, rest := PutAll(xs, []), PutAll(xs[1..], []);
      assert s == Str(xs[0]) + rest;
      GetPrincipalsComplete(xs[1..], room - 1);
      GetStrIff(s, xs[0], rest);
      GetPrincipalsStep(s, room);
      assert xs == [xs[0]] + xs[1..];
    }
  }

  // ---------------------------------------------------------- the three parts

  /** Algorithm, nonce and subject key. */
  datatype Head = Head(algo: bytes, nonce: bytes, key: seq<bytes>)

  datatype HeadResult = HeadOk(head: Head, rest: bytes) | HeadRefused(why: Status)

  predicate HeadSized(h: Head) {
    0 < |h.algo| < NAME_CAP && |h.nonce| < UINT32 && StrsSized(h.key)
  }

  function PutHead(h: Head, rest: bytes): bytes
    requires HeadSized(h)
  {
    Str(h.algo) + (Str(h.nonce) + PutAll(h.key, rest))
  }

  /** The subject key as an ordinary public key blob: base algorithm, then the certificate's own fields. */
  function KeyBlob(h: Head): bytes
    requires HeadSized(h) && FieldsFor(h.algo) > 0
  {
    Str(BaseAlgo(CStr(h.algo), NAME_CAP).value) + PutAll(h.key, [])
  }

  predicate HeadFits(h: Head) {
    && HeadSized(h)
    && FieldsFor(h.algo) > 0
    && |h.key| == FieldsFor(h.algo)
    && |KeyBlob(h)| <= MAX_KEY_BLOB
  }

  function GetHead(s: bytes): (r: HeadResult)
    ensures r.HeadRefused? ==> r.why != Ok
  {
    match GetName(s, NAME_CAP)
    case None => HeadRefused(Malformed)
    case Some((algo, r1)) =>
      var base := BaseAlgo(CStr(algo), NAME_CAP);
      if base.None? then HeadRefused(Malformed)
      else if KeyFieldCount(base.value) == 0 then HeadRefused(Unsupported)
      else match GetStr(r1)
        case None => HeadRefused(Malformed)
        case Some((nonce, r2)) =>
          match GetStrs(r2, KeyFieldCount(base.value))
          case None => HeadRefused(Malformed)
          case Some((key, r3)) =>
            if |Str(base.value)| + (|r2| - |r3|) > MAX_KEY_BLOB then HeadRefused(Malformed)
            else HeadOk(Head(algo, nonce, key), r3)
  }

  lemma {:induction false} GetHeadSound(s: bytes)
    requires GetHead(s).HeadOk?
    ensures var h := GetHead(s).head; HeadFits(h) && s == PutHead(h, GetHead(s).rest)
  {
    var h, rest := GetHead(s).head, GetHead(s).rest;
    var r1 := GetName(s, NAME_CAP).value.1;
    GetStrIff(s, h.algo, r1);
    var r2 := GetStr(r1).value.1;
    GetStrIff(r1, h.nonce, r2);
    GetStrsSound(r2, FieldsFor(h.algo));
    PutAllAppend(h.key, rest);
  }

  lemma {:induction false} GetHeadComplete(h: Head, rest: bytes)
    requires HeadFits(h)
    ensures GetHead(PutHead(h, rest)) == HeadOk(h, rest)
  {
    hide Str, GetStr, GetStrs, CStr, BaseAlgo, KeyFieldCount, PutAll;
    var r2 := PutAll(h.key, rest);
    GetStrIff(PutHead(h, rest), h.algo, Str(h.nonce) + r2);
    GetStrIff(Str(h.nonce) + r2, h.nonce, r2);
    GetStrsComplete(h.key, rest);
    PutAllAppend(h.key, rest);
  }

  /** Serial and type, read through the latch: short input reads as type 0. */
  function PutKind(serial: nat, certType: nat, rest: bytes): bytes
    requires serial < UINT64 && certType < UINT32
  {
    U64(serial) + (U32(certType) + rest)
  }

  function GetKind(s: bytes): Option<(nat, nat, bytes)> {
    match GetU64(s)
    case None => None
    case Some((serial, r)) =>
      match GetU32(r)
      case None => None
      case Some((t, rest)) => Some((serial, t, rest))
  }

  lemma {:induction false} GetKindSound(s: bytes)
    requires GetKind(s).Some?
    ensures var (serial, t, rest) := GetKind(s).value;
            serial < UINT64 && t < UINT32 && s == PutKind(serial, t, rest)
  {
    var (serial, t, rest) := GetKind(s).value;
    GetU64Iff(s, serial, GetU64(s).value.1);
    GetU32Iff(GetU64(s).value.1, t, rest);
  }

  lemma {:induction false} GetKindComplete(serial: nat, t: nat, rest: bytes)
    requires serial < UINT64 && t < UINT32
    ensures GetKind(PutKind(serial, t, rest)) == Some((serial, t, rest))
  {
    GetU64Iff(PutKind(serial, t, rest), serial, U32(t) + rest);
    GetU32Iff(U32(t) + rest, t, rest);
  }

  /** Who and when. */
  datatype Claims = Claims(keyId: bytes, principals: seq<bytes>, validAfter: nat, validBefore: nat)

  predicate ClaimsFit(c: Claims) {
    && |c.keyId| < UINT32
    && |c.principals| <= MAX_PRINCIPALS
    && StrsSized(c.principals)
    && |PutAll(c.principals, [])| < UINT32
    && c.validAfter < UINT64 && c.validBefore < UINT64
  }

  function PutClaims(c: Claims, rest: bytes): bytes
    requires ClaimsFit(c)
  {
    Str(c.keyId) + (Str(PutAll(c.principals, [])) + (U64(c.validAfter) + (U64(c.validBefore) + rest)))
  }

  /** valid_after and valid_before. */
  function GetWindow(s: bytes): Option<(nat, nat, bytes)> {
    match GetU64(s)
    case None => None
    case Some((after, r)) =>
      match GetU64(r)
      case None => None
      case Some((before, rest)) => Some((after, before, rest))
  }

  lemma {:induction false} GetWindowIff(s: bytes, after: nat, before: nat, rest: bytes)
    ensures GetWindow(s) == Some((after, before, rest)) <==>
            after < UINT64 && before < UINT64 && s == U64(after) + (U64(before) + rest)
  {
    if GetWindow(s) == Some((after, before, rest)) {
      GetU64Iff(s, after, GetU64(s).value.1);
      GetU64Iff(GetU64(s).value.1, before, rest);
    }
    if after < UINT64 && before < UINT64 && s == U64(after) + (U64(before) + rest) {
      GetU64Iff(s, after, U64(before) + rest);
      GetU64Iff(U64(before) + rest, before, rest);
    }
  }

  function GetClaims(s: bytes): Option<(Claims, bytes)> {
    match GetStr(s)
    case None => None
    case Some((keyId, r1)) =>
      match GetStr(r1)
      case None => None
      case Some((blob, r2)) =>
        var ps := GetPrincipals(blob, MAX_PRINCIPALS);
        if ps.None? then None
        else match GetWindow(r2)
          case None => None
          case Some((after, before, rest)) => Some((Claims(keyId, ps.value, after, before), rest))
  }

  lemma {:induction false} GetClaimsSound(s: bytes)
    requires GetClaims(s).Some?
    ensures var (c, rest) := GetClaims(s).value; ClaimsFit(c) && s == PutClaims(c, rest)
  {
    var (c, rest) := GetClaims(s).value;
    var r1 := GetStr(s).value.1;
    GetStrIff(s, c.keyId, r1);
    var (blob, r2) := GetStr(r1).value;
    GetStrIff(r1, blob, r2);
    GetPrincipalsSound(blob, MAX_PRINCIPALS);
    GetWindowIff(r2, c.validAfter, c.validBefore, rest);
  }

  lemma {:induction false} GetClaimsComplete(c: Claims, rest: bytes)
    requires ClaimsFit(c)
    ensures GetClaims(PutClaims(c, rest)) == Some((c, rest))
  {
    var blob := PutAll(c.principals, []);
    var r2 := U64(c.validAfter) + (U64(c.validBefore) + rest);
    var r1 := Str(blob) + r2;
    GetStrIff(PutClaims(c, rest), c.keyId, r1);
    GetStrIff(r1, blob, r2);
    GetPrincipalsComplete(c.principals, MAX_PRINCIPALS);
    GetWindowIff(r2, c.validAfter, c.validBefore, rest);
  }

  /** Options, extensions, reserved (all skipped) and the CA key. */
  datatype Tail = Tail(options: bytes, extensions: bytes, reserved: bytes, signatureKey: bytes)

  function TailFields(t: Tail): seq<bytes> {
    [t.options, t.extensions, t.reserved, t.signatureKey]
  }

  predicate TailSized(t: Tail) {
    StrsSized(TailFields(t))
  }

  function PutTail(t: Tail, rest: bytes): bytes
    requires TailSized(t)
  {
    PutAll(TailFields(t), rest)
  }

  function GetTail(s: bytes): Option<(Tail, bytes)> {
    match GetStrs(s, 4)
    case None => None
    case Some((f, rest)) => Some((Tail(f[0], f[1], f[2], f[3]), rest))
  }

  lemma {:induction false} GetTailSound(s: bytes)
    requires GetTail(s).Some?
    ensures var (t, rest) := GetTail(s).value; TailSized(t) && s == PutTail(t, rest)
  {
    GetStrsSound(s, 4);
    var (f, rest) := GetStrs(s, 4).value;
    assert f == TailFields(GetTail(s).value.0);
  }

  lemma {:induction false} GetTailComplete(t: Tail, rest: bytes)
    requires TailSized(t)
    ensures GetTail(PutTail(t, rest)) == Some((t, rest))
  {
    GetStrsComplete(TailFields(t), rest);
  }

  /** The signature string's own two fields, filling it exactly. */
  datatype Sig = Sig(algo: bytes, body: bytes)

  predicate SigSized(g: Sig) {
    0 < |g.algo| < NAME_CAP && |g.algo| + |g.body| + 8 < UINT32
  }

  function PutSig(g: Sig): bytes
    requires SigSized(g)
  {
    Str(g.algo) + Str(g.body)
  }

  function GetSig(s: bytes): Option<Sig> {
    match GetName(s, NAME_CAP)
    case None => None
    case Some((algo, r)) =>
      match GetStr(r)
      case None => None
      case Some((body, rest)) => if rest == [] then Some(Sig(algo, body)) else None
  }

  lemma {:induction false} GetSigIff(s: bytes, g: Sig)
    requires |s| < UINT32
    ensures GetSig(s) == Some(g) <==> SigSized(g) && s == PutSig(g)
  {
    if GetSig(s) == Some(g) {
      var r := GetStr(s).value.1;
      GetStrIff(s, g.algo, r);
      GetStrIff(r, g.body, []);
      assert r == Str(g.body);
    }
    if SigSized(g) && s == PutSig(g) {
      GetStrIff(s, g.algo, Str(g.body));
      assert Str(g.body) == Str(g.body) + [];
      GetStrIff(Str(g.body), g.body, []);
    }
  }

  // ------------------------------------------------------------ the whole blob

  /** Every field of the wire form, including the ones a reader skips. */
  datatype Wire = Wire(head: Head, serial: nat, claims: Claims, tail: Tail, sig: Sig)

  predicate PartsFit(w: Wire) {
    HeadFits(w.head) && w.serial < UINT64 && ClaimsFit(w.claims) && TailSized(w.tail) && SigSized(w.sig)
  }

  function PutBody(w: Wire, rest: bytes): bytes
    requires PartsFit(w)
  {
    PutClaims(w.claims, PutTail(w.tail, rest))
  }

  /** A type-1 certificate up to the signature string, then `rest`. */
  function PutSigned(w: Wire, rest: bytes): bytes
    requires PartsFit(w)
  {
    PutHead(w.head, PutKind(w.serial, TYPE_USER, PutBody(w, rest)))
  }

  /** What the CA signs. */
  function Signed(w: Wire): bytes
    requires PartsFit(w)
  {
    PutSigned(w, [])
  }

  function Serialise(w: Wire): bytes
    requires PartsFit(w)
  {
    Signed(w) + Str(PutSig(w.sig))
  }

  predicate Fits(w: Wire) {
    PartsFit(w) && |Serialise(w)| <= MAX_CERT
  }

  /** What a reader returns for a wire form. */
  function View(w: Wire): Cert
    requires PartsFit(w)
  {
    Cert(CStr(w.head.algo), KeyBlob(w.head), w.serial, w.claims.keyId, w.claims.principals,
         w.claims.validAfter, w.claims.validBefore, w.tail.signatureKey,
         CStr(w.sig.algo), w.sig.body, |Signed(w)|)
  }

  datatype Outcome = Accepted(wire: Wire) | Refused(why: Status)

  /** Everything after the type; the signature string must end the blob. */
  function GetBody(s: bytes): Option<(Claims, Tail, Sig)> {
    match GetClaims(s)
    case None => None
    case Some((claims, r1)) =>
      match GetTail(r1)
      case None => None
      case Some((tail, r2)) =>
        match GetStr(r2)
        case None => None
        case Some((blob, rest)) =>
          if rest != [] then None
          else match GetSig(blob)
            case None => None
            case Some(sig) => Some((claims, tail, sig))
  }

  /** The reader, step by step, with every refusal it distinguishes. */
  function ParseOf(blob: bytes): (r: Outcome)
    ensures r.Refused? ==> r.why != Ok
  {
    if |blob| == 0 || |blob| > MAX_CERT then Refused(Malformed)
    else match GetHead(blob)
      case HeadRefused(why) => Refused(why)
      case HeadOk(head, r1) =>
        match GetKind(r1)
        case None => Refused(NotUser)
        case Some((serial, certType, r2)) =>
          if certType != TYPE_USER then Refused(NotUser)
          else match GetBody(r2)
            case None => Refused(Malformed)
            case Some((claims, tail, sig)) => Accepted(Wire(head, serial, claims, tail, sig))
  }

  lemma {:induction false} GetBodySound(s: bytes)
    requires |s| < UINT32 && GetBody(s).Some?
    ensures var (c, t, g) := GetBody(s).value;
            && ClaimsFit(c) && TailSized(t) && SigSized(g)
            && s == PutClaims(c, PutTail(t, Str(PutSig(g))))
  {
    GetClaimsSound(s);
    var r1 := GetClaims(s).value.1;
    GetTailSound(r1);
    var r2 := GetTail(r1).value.1;
    var blob := GetStr(r2).value.0;
    GetStrIff(r2, blob, []);
    assert r2 == Str(blob);
    GetSigIff(blob, GetSig(blob).value);
  }

  /** With `more` behind the signature string the body is read only when `more` is empty. */
  lemma {:induction false} GetBodyComplete(w: Wire, more: bytes)
    requires PartsFit(w)
    ensures GetBody(PutBody(w, Str(PutSig(w.sig)) + more))
            == if more == [] then Some((w.claims, w.tail, w.sig)) else None
  {
    var r2 := Str(PutSig(w.sig)) + more;
    GetClaimsComplete(w.claims, PutTail(w.tail, r2));
    GetTailComplete(w.tail, r2);
    GetStrIff(r2, PutSig(w.sig), more);
    GetSigIff(PutSig(w.sig), w.sig);
  }

  lemma {:induction false} PutClaimsAppend(c: Claims, rest: bytes, more: bytes)
    requires ClaimsFit(c)
    ensures PutClaims(c, rest) + more == PutClaims(c, rest + more)
  {
    var b := U64(c.validBefore) + rest;
    var a := U64(c.validAfter) + b;
    var p := Str(PutAll(c.principals, [])) + a;
    assert b + more == U64(c.validBefore) + (rest + more);
    assert a + more == U64(c.validAfter) + (b + more);
    assert p + more == Str(PutAll(c.principals, [])) + (a + more);
  }

  lemma {:induction false} PutTailAppend(t: Tail, rest: bytes, more: bytes)
    requires TailSized(t)
    ensures PutTail(t, rest) + more == PutTail(t, rest + more)
  {
    PutAllAppend(TailFields(t), rest);
    PutAllAppend(TailFields(t), rest + more);
    assert PutAll(TailFields(t), []) + rest + more == PutAll(TailFields(t), []) + (rest + more);
  }

  lemma {:induction false} PutHeadAppend(h: Head, rest: bytes, more: bytes)
    requires HeadSized(h)
    ensures PutHead(h, rest) + more == PutHead(h, rest + more)
  {
    hide PutAll, Str;
    PutAllAppend(h.key, rest);
    PutAllAppend(h.key, rest + more);
    var k := PutAll(h.key, rest);
    ConcatAssoc(PutAll(h.key, []), rest, more);
    ConcatAssoc(Str(h.nonce), k, more);
    ConcatAssoc(Str(h.algo), Str(h.nonce) + k, more);
  }

  lemma {:induction false} PutSignedAppend(w: Wire, rest: bytes, more: bytes)
    requires PartsFit(w)
    ensures PutSigned(w, rest) + more == PutSigned(w, rest + more)
  {
    PutTailAppend(w.tail, rest, more);
    PutClaimsAppend(w.claims, PutTail(w.tail, rest), more);
    var body := PutBody(w, rest);
    assert body + more == PutBody(w, rest + more);
    hide PutHead, PutKind, PutTail, PutClaims, HeadFits, ClaimsFit, TailSized, SigSized;
    PutKindAppend(w.serial, TYPE_USER, body, more);
    PutHeadAppend(w.head, PutKind(w.serial, TYPE_USER, body), more);
  }

  lemma {:induction false} PutKindAppend(serial: nat, certType: nat, rest: bytes, more: bytes)
    requires serial < UINT64 && certType < UINT32
    ensures PutKind(serial, certType, rest) + more == PutKind(serial, certType, rest + more)
  {
    hide U64, U32;
    ConcatAssoc(U32(certType), rest, more);
    ConcatAssoc(U64(serial), U32(certType) + rest, more);
  }

  /** Reading a serialisation with `more` bytes behind it. */
  lemma {:induction false} ParseSerialised(w: Wire, more: bytes)
    requires PartsFit(w) && |Serialise(w) + more| <= MAX_CERT
    ensures ParseOf(Serialise(w) + more) == if more == [] then Accepted(w) else Refused(Malformed)
  {
    var sig := Str(PutSig(w.sig));
    assert Serialise(w) + more == Signed(w) + (sig + more);
    PutSignedAppend(w, [], sig + more);
    assert [] + (sig + more) == sig + more;
    var r2 := PutBody(w, sig + more);
    GetHeadComplete(w.head, PutKind(w.serial, TYPE_USER, r2));
    GetKindComplete(w.serial, TYPE_USER, r2);
    GetBodyComplete(w, more);
  }

  lemma {:induction false} ParsePeels(blob: bytes)
    requires ParseOf(blob).Accepted?
    ensures var w := ParseOf(blob).wire; PartsFit(w) && blob == PutSigned(w, Str(PutSig(w.sig)))
  {
    GetHeadSound(blob);
    var r1 := GetHead(blob).rest;
    PutHeadNoShorter(GetHead(blob).head, r1);
    GetKindSound(r1);
    GetBodySound(GetKind(r1).value.2);
  }

  lemma {:induction false} PutHeadNoShorter(h: Head, rest: bytes)
    requires HeadSized(h)
    ensures |rest| <= |PutHead(h, rest)|
  {
    PutAllAppend(h.key, rest);
  }

  lemma {:induction false} ParseSound(blob: bytes)
    requires ParseOf(blob).Accepted?
    ensures Fits(ParseOf(blob).wire) && blob == Serialise(ParseOf(blob).wire)
  {
    var w := ParseOf(blob).wire;
    ParsePeels(blob);
    var sig := Str(PutSig(w.sig));
    PutSignedAppend(w, [], sig);
    assert [] + sig == sig;
  }

  /** A blob is accepted exactly when it is the serialisation of a user certificate within the limits. */
  lemma {:induction false} ParseIff(blob: bytes, w: Wire)
    ensures ParseOf(blob) == Accepted(w) <==> Fits(w) && blob == Serialise(w)
  {
    if ParseOf(blob) == Accepted(w) {
      ParseSound(blob);
    }
    if Fits(w) && blob == Serialise(w) {
      assert blob == Serialise(w) + [];
      ParseSerialised(w, []);
    }
  }

  /** The captured extent is everything before the signature string, and nothing of it. */
  lemma {:induction false} SignedExtent(blob: bytes, w: Wire)
    requires Fits(w) && blob == Serialise(w)
    ensures View(w).signedLen <= |blob|
    ensures blob[..View(w).signedLen] == Signed(w)
    ensures GetStr(blob[View(w).signedLen..]) == Some((PutSig(w.sig), []))
  {
    var n := |Signed(w)|;
    assert blob[n..] == Str(PutSig(w.sig)) + [];
    GetStrIff(blob[n..], PutSig(w.sig), []);
  }

  /** No proper extension, hence no proper prefix, of an accepted blob is accepted. */
  lemma {:induction false} PrefixFree(blob: bytes, more: bytes)
    ensures ParseOf(blob).Accepted? && ParseOf(blob + more).Accepted? ==> more == []
  {
    if ParseOf(blob).Accepted? && ParseOf(blob + more).Accepted? {
      ParseSound(blob);
      ParseSerialised(ParseOf(blob).wire, more);
    }
  }

  /** NotUser is not only "well formed, but a host certificate": a blob cut inside the
      serial or the type reads its type as 0 and lands here too. Exactly when. */
  lemma {:induction false} NotUserIff(blob: bytes)
    ensures ParseOf(blob) == Refused(NotUser) <==>
            && 0 < |blob| <= MAX_CERT
            && GetHead(blob).HeadOk?
            && (|GetHead(blob).rest| < 12 || Magnitude(GetHead(blob).rest[8..12]) != TYPE_USER)
  {
    if GetHead(blob).HeadOk? && |GetHead(blob).rest| >= 12 {
      var r := GetHead(blob).rest;
      assert r[8..12] == r[8..][..4];
    }
  }

  /** A certificate cut off inside its serial or its type, whatever its head. */
  lemma {:induction false} CutInsideKind(h: Head, part: bytes)
    requires HeadFits(h) && |part| < 12 && |PutHead(h, part)| <= MAX_CERT
    ensures ParseOf(PutHead(h, part)) == Refused(NotUser)
  {
    GetHeadComplete(h, part);
    hide PutHead, HeadFits, Str, ParseOf;
    assert PutHead(h, part) != [];
    NotUserIff(PutHead(h, part));
  }

  /** The smallest Ed25519 head, so that the case above is real. */
  const ED25519_HEAD := Head(Ascii("ssh-ed25519") + CERT_SUFFIX, [], [[]])

  lemma {:induction false} CutCertificate(part: bytes)
    requires |part| < 12
    ensures HeadFits(ED25519_HEAD) && ParseOf(PutHead(ED25519_HEAD, part)) == Refused(NotUser)
  {
    hide PutHead, CStr, BaseAlgo, ParseOf, Ascii;
    var h, base := ED25519_HEAD, Ascii("ssh-ed25519");
    NamesNulFree();
    assert NulFree(h.algo);
    CStrOfNulFree(h.algo);
    BaseAlgoIff(h.algo, NAME_CAP, base);
    assert FieldsFor(h.algo) == 1;
    SmallHead(h, part);
    CutInsideKind(h, part);
  }

  lemma {:induction false} NamesNulFree()
    ensures NulFree(Ascii("ssh-ed25519")) && NulFree(CERT_SUFFIX)
  {
    assert Ascii("ssh-ed25519") == ['s' as int, 's' as int, 'h' as int, '-' as int, 'e' as int, 'd' as int,
                                    '2' as int, '5' as int, '5' as int, '1' as int, '9' as int];
    assert CERT_SUFFIX == ['-' as int, 'c' as int, 'e' as int, 'r' as int, 't' as int, '-' as int, 'v' as int,
                           '0' as int, '1' as int, '@' as int, 'o' as int, 'p' as int, 'e' as int, 'n' as int,
                           's' as int, 's' as int, 'h' as int, '.' as int, 'c' as int, 'o' as int, 'm' as int];
  }

  lemma {:induction false} SmallHead(h: Head, part: bytes)
    requires HeadSized(h) && h.key == [[]] && h.nonce == [] && FieldsFor(h.algo) > 0 && |part| < 12
    ensures |KeyBlob(h)| <= MAX_KEY_BLOB && |PutHead(h, part)| <= MAX_CERT
  {
    hide Str, BaseAlgo;
    assert h.key[1..] == [];
    assert PutAll(h.key, []) == Str([]) + PutAll([], []) && PutAll(h.key, part) == Str([]) + PutAll([], part);
    assert PutAll([], []) == [] && PutAll([], part) == part;
  }

  // ------------------------------------------------------------ the C structure

  /** The out-structure, filled field by field in one pass. A slice borrowed
      from the blob is held as its bytes. */
  class Certificate {
    var algo: bytes
    const keyBlob: array<byte>
    var keyBlobLen: nat
    var serial: nat
    var certType: nat
    var keyId: bytes
    var principals: seq<bytes>
    var validAfter: nat
    var validBefore: nat
    var signatureKey: bytes
    var signatureAlgo: bytes
    var signature: bytes
    var signedLen: nat

    ghost predicate Valid()
      reads this
    {
      keyBlob.Length == MAX_KEY_BLOB && keyBlobLen <= MAX_KEY_BLOB
    }

    constructor ()
      ensures Valid() && fresh(keyBlob)
    {
      keyBlob := new byte[MAX_KEY_BLOB];
      keyBlobLen, serial, certType, validAfter, validBefore, signedLen := 0, 0, 0, 0, 0, 0;
      algo, keyId, signatureKey, signatureAlgo, signature := [], [], [], [], [];
      principals := [];
    }

    ghost function Fields(): Cert
      reads this, keyBlob
      requires Valid()
    {
      Cert(algo, keyBlob[..keyBlobLen], serial, keyId, principals, validAfter, validBefore,
           signatureKey, signatureAlgo, signature, signedLen)
    }

    /** What a principals blob yields once `done` names are stored and `s` is left. */
    static ghost function PrincipalsAfter(done: seq<bytes>, s: bytes): Option<seq<bytes>>
      requires |done| <= MAX_PRINCIPALS
    {
      match GetPrincipals(s, MAX_PRINCIPALS - |done|)
      case None => None
      case Some(xs) => Some(done + xs)
    }

    static lemma {:induction false} PrincipalsAfterStep(done: seq<bytes>, s: bytes)
      requires |done| <= MAX_PRINCIPALS
      ensures s == [] ==> PrincipalsAfter(done, s) == Some(done)
      ensures s != [] && (GetStr(s).None? || |done| == MAX_PRINCIPALS) ==> PrincipalsAfter(done, s) == None
      ensures s != [] && GetStr(s).Some? && |done| < MAX_PRINCIPALS ==>
                PrincipalsAfter(done, s) == PrincipalsAfter(done + [GetStr(s).value.0], GetStr(s).value.1)
    {
      var room := MAX_PRINCIPALS - |done|;
      GetPrincipalsEmpty(s, room);
      assert done + [] == done;
      if s != [] {
        GetPrincipalsStep(s, room);
        if GetStr(s).Some? && room > 0 {
          var (x, rest) := GetStr(s).value;
          var g := GetPrincipals(rest, room - 1);
          assert g.Some? ==> done + ([x] + g.value) == done + [x] + g.value;
        }
      }
    }

    method ParsePrincipals(blob: bytes) returns (ok: bool)
      modifies this`principals
      ensures ok == GetPrincipals(blob, MAX_PRINCIPALS).Some?
      ensures ok ==> principals == GetPrincipals(blob, MAX_PRINCIPALS).value
    {
      ghost var all := GetPrincipals(blob, MAX_PRINCIPALS);
      assert all.Some? ==> [] + all.value == all.value;
      assert all == PrincipalsAfter([], blob);
      hide PrincipalsAfter, GetStr;
      var r := new Reader(blob);
      principals := [];
      while !r.Done()
        invariant fresh(r) && r.Valid() && !r.bad && r.data == blob
        invariant |principals| <= MAX_PRINCIPALS
        invariant all == PrincipalsAfter(principals, r.Rest())
        decreases |r.Rest()|
      {
        PrincipalsAfterStep(principals, r.Rest());
        var got, name := r.ReadStr();
        if !got {
          return false;
        }
        if |principals| >= MAX_PRINCIPALS {
          return false;
        }
        principals := principals + [name];
      }
      PrincipalsAfterStep(principals, r.Rest());
      ok := !r.bad;
    }

    /** Algorithm, nonce and subject key; the key is rebuilt behind its base algorithm's name. */
    method ParseHead(r: Reader) returns (status: Status)
      requires Valid() && r.Valid() && !r.bad
      modifies this`algo, this`keyBlobLen, keyBlob, r
      ensures Valid() && r.Valid()
      ensures match GetHead(old(r.Rest()))
              case HeadRefused(why) => status == why
              case HeadOk(h, rest) =>
                && status == Ok && !r.bad && r.Rest() == rest
                && HeadFits(h) && algo == CStr(h.algo) && keyBlob[..keyBlobLen] == KeyBlob(h)
    {
      hide BaseAlgo, KeyFieldCount, GetName, GetStr, GetStrs, Str, PutAll, CStr;
      ghost var s := r.Rest();
      if GetHead(s).HeadOk? {
        GetHeadSound(s);
      }
      var ok, name := r.ReadName(NAME_CAP);
      if !ok {
        return Malformed;
      }
      algo := CStr(name);
      var base := BaseAlgo(algo, NAME_CAP);
      if base.None? {
        return Malformed;
      }
      var fields := KeyFieldCount(base.value);
      if fields == 0 {
        return Unsupported;
      }
      ok := r.SkipStr();
      if !ok {
        return Malformed;
      }
      var keyStart := r.p;
      ghost var r2 := r.Rest();
      ok := SkipFields(r, fields);
      if !ok {
        return Malformed;
      }
      var keyEnd := r.p;
      ghost var h := Head(name, GetStr(GetName(s, NAME_CAP).value.1).value.0, GetStrs(r2, fields).value.0);
      KeyExtent(h, r2, r.Rest());
      assert r.data[keyStart..keyEnd] == r2[..|r2| - |r.Rest()|];
      ok := RebuildKey(base.value, r.data[keyStart..keyEnd]);
      if !ok {
        return Malformed;
      }
      return Ok;
    }

    method RebuildKey(base: bytes, fields: bytes) returns (ok: bool)
      requires Valid() && |base| < NAME_CAP
      modifies this`keyBlobLen, keyBlob
      ensures Valid()
      ensures ok == (|Str(base)| + |fields| <= MAX_KEY_BLOB)
      ensures ok ==> keyBlob[..keyBlobLen] == Str(base) + fields
    {
      var kw := new Writer(keyBlob);
      kw.PutStr(base);
      kw.Put(fields);
      if kw.bad {
        return false;
      }
      keyBlobLen := kw.len;
      assert [] + Str(base) == Str(base);
      assert keyBlob[..keyBlobLen] == kw.Written();
      ok := true;
    }

    static lemma {:induction false} KeyExtent(h: Head, r2: bytes, rest: bytes)
      requires GetStrs(r2, |h.key|) == Some((h.key, rest))
      ensures StrsSized(h.key) && |rest| <= |r2|
      ensures r2[..|r2| - |rest|] == PutAll(h.key, [])
    {
      GetStrsSound(r2, |h.key|);
      PutAllAppend(h.key, rest);
    }

    static method SkipFields(r: Reader, fields: nat) returns (ok: bool)
      requires r.Valid() && !r.bad
      modifies r
      ensures r.Valid()
      ensures ok == GetStrs(old(r.Rest()), fields).Some?
      ensures ok ==> !r.bad && r.Rest() == GetStrs(old(r.Rest()), fields).value.1
    {
      var i := 0;
      while i < fields
        invariant 0 <= i <= fields && r.Valid() && !r.bad
        invariant GetStrs(old(r.Rest()), fields).Some? == GetStrs(r.Rest(), fields - i).Some?
        invariant GetStrs(r.Rest(), fields - i).Some? ==>
                    GetStrs(old(r.Rest()), fields).value.1 == GetStrs(r.Rest(), fields - i).value.1
      {
        ok := r.SkipStr();
        if !ok {
          return false;
        }
        i := i + 1;
      }
      ok := true;
    }

    method ParseClaims(r: Reader) returns (ok: bool)
      requires Valid() && r.Valid() && !r.bad
      modifies this`keyId, this`principals, this`validAfter, this`validBefore, r
      ensures r.Valid()
      ensures ok && !r.bad <==> GetClaims(old(r.Rest())).Some?
      ensures ok && !r.bad ==>
                GetClaims(old(r.Rest())).value == (Claims(keyId, principals, validAfter, validBefore), r.Rest())
    {
      hide GetStr, GetU64, GetU32, GetPrincipals;
      ok, keyId := r.ReadStr();
      if !ok {
        return false;
      }
      var blob;
      ok, blob := r.ReadStr();
      if !ok {
        return false;
      }
      ok := ParsePrincipals(blob);
      if !ok {
        return false;
      }
      validAfter := r.ReadU64();
      validBefore := r.ReadU64();
      ok := true;
    }

    method ParseSignature(blob: bytes) returns (ok: bool)
      modifies this`signatureAlgo, this`signature
      ensures ok == GetSig(blob).Some?
      ensures ok ==> var g := GetSig(blob).value; signatureAlgo == CStr(g.algo) && signature == g.body
    {
      var sr := new Reader(blob);
      var name;
      ok, name := sr.ReadName(NAME_CAP);
      if !ok {
        return false;
      }
      signatureAlgo := CStr(name);
      ok, signature := sr.ReadStr();
      ok := ok && sr.Done();
    }

    /** Everything after the type. The latched window reads are caught by the next string. */
    method ParseBody(r: Reader) returns (ok: bool)
      requires Valid() && r.Valid() && !r.bad
      modifies this`keyId, this`principals, this`validAfter, this`validBefore, this`signatureKey,
               this`signedLen, this`signatureAlgo, this`signature, r
      ensures r.Valid()
      ensures ok == GetBody(old(r.Rest())).Some?
      ensures ok ==> var (c, t, g) := GetBody(old(r.Rest())).value;
                && keyId == c.keyId && principals == c.principals
                && validAfter == c.validAfter && validBefore == c.validBefore
                && signatureKey == t.signatureKey && signatureAlgo == CStr(g.algo) && signature == g.body
                && signedLen <= |r.data| && GetStr(r.data[signedLen..]).Some?
                && GetStr(r.data[signedLen..]).value.1 == [] && GetSig(GetStr(r.data[signedLen..]).value.0) == Some(g)
    {
      hide GetClaims, GetTail, GetStr, GetSig;
      ok := ParseClaims(r);
      if !ok {
        return false;
      }
      ghost var bad, r1 := r.bad, r.Rest();
      ok := SkipTail(r);
      if !ok {
        return false;
      }
      signedLen := r.p;
      var blob;
      ok, blob := r.ReadStr();
      if !ok || !r.Done() {
        return false;
      }
      ok := ParseSignature(blob);
    }

    /** Three skipped strings, then the CA key. */
    method SkipTail(r: Reader) returns (ok: bool)
      requires r.Valid()
      modifies this`signatureKey, r
      ensures r.Valid()
      ensures ok == (!old(r.bad) && GetTail(old(r.Rest())).Some?)
      ensures ok ==> !r.bad && r.Rest() == GetTail(old(r.Rest())).value.1
      ensures ok ==> signatureKey == GetTail(old(r.Rest())).value.0.signatureKey
    {
      var skipped := true;
      if !r.bad {
        skipped := SkipFields(r, 3);
      } else {
        skipped := false;
      }
      TailIsThreeAndOne(old(r.Rest()));
      if !skipped {
        return false;
      }
      ok, signatureKey := r.ReadStr();
    }

    static lemma {:induction false} TailIsThreeAndOne(s: bytes)
      ensures GetTail(s).Some? <==> GetStrs(s, 3).Some? && GetStr(GetStrs(s, 3).value.1).Some?
      ensures GetTail(s).Some? ==>
                (GetTail(s).value.0.signatureKey, GetTail(s).value.1) == GetStr(GetStrs(s, 3).value.1).value
    {
      GetStrsSplit(s, 3);
    }

    static lemma {:induction false} GetStrsSplit(s: bytes, n: nat)
      ensures GetStrs(s, n + 1).Some? <==> GetStrs(s, n).Some? && GetStr(GetStrs(s, n).value.1).Some?
      ensures GetStrs(s, n + 1).Some? ==>
                var (xs, r) := GetStrs(s, n).value;
                var (x, rest) := GetStr(r).value;
                GetStrs(s, n + 1).value == (xs + [x], rest)
      decreases n
    {
      if n == 0 {
        if GetStr(s).Some? {
          var (x, rest) := GetStr(s).value;
          assert GetStrs(rest, 0) == Some(([], rest));
          assert [x] + [] == [] + [x];
        }
      } else if GetStr(s).Some? {
        var (x0, mid) := GetStr(s).value;
        GetStrsSplit(mid, n - 1);
        if GetStrs(s, n + 1).Some? {
          var (xs, r) := GetStrs(mid, n - 1).value;
          var x := GetStr(r).value.0;
          assert [x0] + (xs + [x]) == ([x0] + xs) + [x];
        }
      }
    }

    /** Serial and type; cut short they come back as something other than a user certificate's. */
    method ParseKind(r: Reader)
      requires r.Valid() && !r.bad
      modifies this`serial, this`certType, r
      ensures r.Valid()
      ensures var kind := GetKind(old(r.Rest()));
              && (certType == TYPE_USER <==> kind.Some? && kind.value.1 == TYPE_USER)
              && (certType == TYPE_USER ==> !r.bad && serial == kind.value.0 && r.Rest() == kind.value.2)
    {
      hide GetU64, GetU32, GetKind;
      KindHalves(r.Rest());
      serial := r.ReadU64();
      certType := r.ReadU32();
    }

    method Parse(blob: bytes) returns (status: Status)
      requires Valid()
      modifies this, keyBlob
      ensures Valid()
      ensures match ParseOf(blob)
              case Refused(why) => status == why
              case Accepted(w) => status == Ok && Fits(w) && Fields() == View(w)
    {
      hide GetHead, GetBody, Signed, Fits, PartsFit, HeadFits, KeyBlob, GetStr, GetSig, CStr, ParseOf, GetKind;
      if |blob| == 0 || |blob| > MAX_CERT {
        EmptyOrLarge(blob);
        return Malformed;
      }
      Stages(blob);
      var r := new Reader(blob);
      assert r.Rest() == blob;
      status := ParseHead(r);
      if status != Ok {
        return;
      }
      ghost var key := keyBlob[..keyBlobLen];
      ParseKind(r);
      if certType != TYPE_USER {
        return NotUser;
      }
      var ok := ParseBody(r);
      if !ok {
        return Malformed;
      }
      assert keyBlob[..keyBlobLen] == key;
      Whole(blob, signedLen);
      return Ok;
    }

    static lemma {:induction false} EmptyOrLarge(blob: bytes)
      requires |blob| == 0 || |blob| > MAX_CERT
      ensures ParseOf(blob) == Refused(Malformed)
    {}

    /** The outcome after each stage of the one pass. */
    static lemma {:induction false} Stages(blob: bytes)
      requires 0 < |blob| <= MAX_CERT
      ensures match GetHead(blob)
              case HeadRefused(why) => ParseOf(blob) == Refused(why)
              case HeadOk(h, r1) =>
                var kind := GetKind(r1);
                if kind.None? || kind.value.1 != TYPE_USER then ParseOf(blob) == Refused(NotUser)
                else
                  var body := GetBody(kind.value.2);
                  if body.None? then ParseOf(blob) == Refused(Malformed)
                  else ParseOf(blob) ==
                       Accepted(Wire(h, kind.value.0, body.value.0, body.value.1, body.value.2))
    {
      hide GetHead, GetKind, GetBody;
    }

    static lemma {:induction false} KindHalves(s: bytes)
      ensures GetKind(s) == match GetU64(s)
                            case None => None
                            case Some((serial, r)) =>
                              if GetU32(r).None? then None
                              else Some((serial, GetU32(r).value.0, GetU32(r).value.1))
    {
      hide GetU64, GetU32;
    }

    static lemma {:induction false} Whole(blob: bytes, n: nat)
      requires ParseOf(blob).Accepted? && n <= |blob|
      requires GetStr(blob[n..]).Some? && GetStr(blob[n..]).value.1 == []
      requires GetSig(GetStr(blob[n..]).value.0) == Some(ParseOf(blob).wire.sig)
      ensures var w := ParseOf(blob).wire;
              Fits(w) && PartsFit(w) && n == |Signed(w)|
    {
      hide ParseOf, GetStr, GetSig, Signed, PartsFit;
      ParseSound(blob);
      SignedLenIs(blob, ParseOf(blob).wire, n);
    }

    static lemma {:induction false} SignedLenIs(blob: bytes, w: Wire, n: nat)
      requires Fits(w) && blob == Serialise(w) && n <= |blob|
      requires GetStr(blob[n..]).Some? && GetStr(blob[n..]).value.1 == []
      requires GetSig(GetStr(blob[n..]).value.0) == Some(w.sig)
      ensures n == |Signed(w)|
    {
      var s := GetStr(blob[n..]).value.0;
      GetSigIff(s, w.sig);
      assert |blob[n..]| == 4 + |PutSig(w.sig)|;
    }
  }

  /** Byte for byte, as the account's name is compared. */
  method HasPrincipal(principals: seq<bytes>, name: bytes) returns (found: bool)
    ensures found == (name in principals)
  {
    var i := 0;
    while i < |principals|
      invariant 0 <= i <= |principals|
      invariant name !in principals[..i]
    {
      if principals[i] == name {
        return true;
      }
      i := i + 1;
    }
    found := false;
  }
}
