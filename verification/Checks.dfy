/** The four checks an issued certificate has to pass. */
module Checks {
  import opened Bytes
  import opened Cutting
  import opened Duration
  import Map = PrincipalsMap
  import SshCert
  import SshKey

  // --------------------------------------------------------- 1. the CA signature

  datatype VerifyResult = VerifyOk | VerifyBad | VerifyUnsupported | VerifyError

  /** The platform's verification, by algorithm, CA key blob, signed bytes and signature. */
  type Verify = (bytes, bytes, bytes, bytes) -> VerifyResult

  datatype CaVerdict = SignedBy(index: nat) | Unverifiable | NotTrusted

  function Verified(cert: SshCert.Cert, signed: bytes, ca: SshKey.CaKey, verify: Verify): VerifyResult {
    verify(cert.signatureAlgo, ca.blob, signed, cert.signature)
  }

  /** What each trusted key says of the signature. */
  function Answers(cert: SshCert.Cert, signed: bytes, cas: seq<SshKey.CaKey>, verify: Verify): seq<VerifyResult> {
    seq(|cas|, i requires 0 <= i < |cas| => Verified(cert, signed, cas[i], verify))
  }

  /** Finds the first trusted key that verifies the bytes before the signature. */
  method CheckCaSignature(cert: SshCert.Cert, blob: bytes, cas: seq<SshKey.CaKey>, verify: Verify)
    returns (v: CaVerdict)
    requires cert.signedLen <= |blob|
    ensures var answers := Answers(cert, blob[..cert.signedLen], cas, verify);
            && (v.SignedBy? ==> v.index < |cas| && answers[v.index] == VerifyOk && VerifyOk !in answers[..v.index])
            && (!v.SignedBy? ==> VerifyOk !in answers)
            && (v.Unverifiable? <==> VerifyOk !in answers && VerifyUnsupported in answers)
  {
    var sawUnsupported, i := false, 0;
    var signed := blob[..cert.signedLen];
    ghost var answers := Answers(cert, signed, cas, verify);
    while i < |cas|
      invariant 0 <= i <= |cas|
      invariant VerifyOk !in answers[..i]
      invariant sawUnsupported <==> VerifyUnsupported in answers[..i]
    {
      var r := verify(cert.signatureAlgo, cas[i].blob, signed, cert.signature);
      assert answers[..i + 1] == answers[..i] + [r];
      match r {
        case VerifyOk => return SignedBy(i);
        case VerifyUnsupported => sawUnsupported := true;
        case VerifyBad | VerifyError =>
      }
      i := i + 1;
    }
    assert answers[..i] == answers;
    return if sawUnsupported then Unverifiable else NotTrusted;
  }

  // ---------------------------------------------------------- 2. the key binding

  /** The certificate carries a key and it is this attempt's key. */
  predicate KeyBound(cert: SshCert.Cert, ourKey: bytes) {
    cert.keyBlob != [] && cert.keyBlob == ourKey
  }

  // ------------------------------------------------------------ 3. the principal

  datatype MapFile = NoMap | UnreadableMap | MapData(data: bytes)

  /** The account's own name is enough; a map that loads can add to it. */
  ghost predicate PrincipalAllowed(cert: SshCert.Cert, user: bytes, mapping: MapFile) {
    || user in cert.principals
    || (mapping.MapData? && Adds(mapping.data, user, cert.principals))
  }

  /** An entry kept for the account, and a principal short enough to be compared, are the same C string. */
  ghost predicate Adds(data: bytes, user: bytes, principals: seq<bytes>) {
    var lines := Pieces(data, LF);
    && |data| < Map.MAX_MAP_FILE && Map.WellFormed(lines)
    && Meet(Map.Short(principals), Map.EntryOf(lines, user).principals)
  }

  ghost predicate Meet(a: seq<bytes>, b: seq<bytes>) {
    exists i, j :: 0 <= i < |a| && 0 <= j < |b| && CStr(a[i]) == CStr(b[j])
  }

  method CheckPrincipal(cert: SshCert.Cert, user: bytes, mapping: MapFile) returns (ok: bool)
    ensures ok == PrincipalAllowed(cert, user, mapping)
  {
    hide Map.WellFormed, Map.ParseLines, Pieces, Map.EntryOf, Map.Short;
    ok := SshCert.HasPrincipal(cert.principals, user);
    if ok {
      return;
    }
    if !mapping.MapData? {
      return false;
    }
    ok := MapAllows(mapping.data, user, cert.principals);
  }

  method MapAllows(data: bytes, user: bytes, principals: seq<bytes>) returns (ok: bool)
    ensures ok == Adds(data, user, principals)
  {
    var allowed := new Map.Principals();
    var status := Map.Load(data, user, allowed);
    Map.LoadIff(data, user);
    if user !in Map.Accounts(Pieces(data, LF)) {
      EntryOfNobody(Pieces(data, LF), user);
    }
    hide Map.EntryOf, Map.WellFormed, Map.Short, Pieces;
    if status != Map.Ok {
      return false;
    }
    var names := ComparedNames(principals);
    ok := Map.Allow(allowed, names);
  }

  /** A principal too long for the comparison buffer cannot equal an entry, so it is skipped. */
  method ComparedNames(principals: seq<bytes>) returns (names: seq<bytes>)
    ensures names == Map.Short(principals)
  {
    names := [];
    var i := 0;
    assert principals[..0] == [];
    while i < |principals|
      invariant 0 <= i <= |principals| && names == Map.Short(principals[..i])
    {
      assert principals[..i + 1][..i] == principals[..i];
      if |principals[i]| < Map.MAX_PRINCIPAL_LEN {
        names := names + [principals[i]];
      }
      i := i + 1;
    }
    assert principals[..i] == principals;
  }

  lemma {:induction false} EntryOfNobody(lines: seq<bytes>, user: bytes)
    requires user !in Map.Accounts(lines)
    ensures Map.EntryOf(lines, user).principals == []
  {
    Map.ListedNothing(lines, user);
  }

  lemma {:induction false} ShortIff(ps: seq<bytes>, p: bytes)
    ensures p in Map.Short(ps) <==> p in ps && |p| < 128
  {
    if ps != [] {
      ShortIff(ps[..|ps| - 1], p);
      assert ps == ps[..|ps| - 1] + [ps[|ps| - 1]];
    }
  }

  lemma {:induction false} KeptIsShort(lines: seq<bytes>, user: bytes, p: bytes)
    ensures p in Map.EntryOf(lines, user).principals ==> |p| < 128
  {
    ShortIff(Map.Listed(lines, user), p);
  }

  /** What the map adds, for any names: a certificate principal shorter than 128 bytes that reads as the
      same C string as one of the principals listed for the account. */
  lemma {:induction false} PrincipalIff(cert: SshCert.Cert, user: bytes, data: bytes)
    ensures var lines := Pieces(data, LF);
            PrincipalAllowed(cert, user, MapData(data)) <==>
            || user in cert.principals
            || (&& |data| < 262_144 && Map.WellFormed(lines)
                && exists p, q :: && p in cert.principals && |p| < 128
                                  && q in Map.EntryOf(lines, user).principals && CStr(p) == CStr(q))
  {
    var names, lines := Map.Short(cert.principals), Pieces(data, LF);
    forall p ensures p in names <==> p in cert.principals && |p| < 128 {
      ShortIff(cert.principals, p);
    }
    MeetByMembers(names, Map.EntryOf(lines, user).principals);
    hide Map.WellFormed, Map.Short, Map.EntryOf, Pieces, Meet, CStr;
  }

  lemma {:induction false} MeetByMembers(a: seq<bytes>, b: seq<bytes>)
    ensures Meet(a, b) <==> exists p, q :: p in a && q in b && CStr(p) == CStr(q)
  {
    hide CStr;
    if p, q :| p in a && q in b && CStr(p) == CStr(q) {
      var i :| 0 <= i < |a| && a[i] == p;
      var j :| 0 <= j < |b| && b[j] == q;
    }
    if i, j :| 0 <= i < |a| && 0 <= j < |b| && CStr(a[i]) == CStr(b[j]) {
      assert a[i] in a && b[j] in b;
    }
  }

  /** So a certificate principal that goes on behind a NUL is taken for the entry before it. */
  lemma {:induction false} NulAdmits(cert: SshCert.Cert, user: bytes, data: bytes, p: bytes, junk: bytes)
    requires NulFree(p) && p + [0] + junk in cert.principals && |p + [0] + junk| < Map.MAX_PRINCIPAL_LEN
    requires |data| < Map.MAX_MAP_FILE && Map.WellFormed(Pieces(data, LF))
    requires p in Map.EntryOf(Pieces(data, LF), user).principals
    ensures PrincipalAllowed(cert, user, MapData(data))
  {
    hide Map.WellFormed, Map.EntryOf, Pieces, PrincipalAllowed;
    CStrUnique(p + [0] + junk, p);
    CStrOfNulFree(p);
    PrincipalIff(cert, user, data);
    assert CStr(p + [0] + junk) == CStr(p);
  }

  /** With NUL-free names, the map adds exactly the principals it lists for the account: the first
      64 of them that are shorter than 128 bytes. */
  lemma {:induction false} PrincipalMeans(cert: SshCert.Cert, user: bytes, data: bytes)
    requires forall p :: p in cert.principals || p in Map.EntryOf(Pieces(data, LF), user).principals ==> NulFree(p)
    ensures var lines := Pieces(data, LF);
            PrincipalAllowed(cert, user, MapData(data)) <==>
            || user in cert.principals
            || (&& |data| < Map.MAX_MAP_FILE && Map.WellFormed(lines)
                && exists p :: p in cert.principals && p in Map.EntryOf(lines, user).principals)
  {
    var lines := Pieces(data, LF);
    var listed := Map.EntryOf(lines, user).principals;
    PrincipalIff(cert, user, data);
    hide Map.WellFormed, NulFree, Map.EntryOf, Pieces, PrincipalAllowed, CStr;
    forall p | p in cert.principals || p in listed
      ensures CStr(p) == p && (p in listed ==> |p| < Map.MAX_PRINCIPAL_LEN)
    {
      CStrOfNulFree(p);
      KeptIsShort(lines, user, p);
    }
  }

  // ------------------------------------------------------------- 4. the window

  /** Whole seconds of a duration, towards zero. */
  function Seconds(tolerance: int): (s: int)
    ensures tolerance >= 0 ==> s >= 0 && s * SECOND <= tolerance < (s + 1) * SECOND
    ensures tolerance <= 0 ==> s <= 0 && (s - 1) * SECOND < tolerance <= s * SECOND
  {
    if tolerance >= 0 then tolerance / SECOND else -(-tolerance / SECOND)
  }

  /** An unsigned bound as signed seconds; "forever" becomes the last representable second. */
  function Clamp(bound: nat): (c: nat)
    ensures c <= bound && c <= INT64_MAX
  {
    if bound > INT64_MAX then INT64_MAX else bound
  }

  predicate FitsInt64(x: int) {
    -INT64_MAX - 1 <= x <= INT64_MAX
  }

  method CheckValidity(cert: SshCert.Cert, now: int, tolerance: int) returns (ok: bool)
    requires FitsInt64(now) && FitsInt64(tolerance)
    ensures ok == InWindow(cert, now, tolerance)
  {
    var after := if cert.validAfter > INT64_MAX then INT64_MAX else cert.validAfter;
    var before := if cert.validBefore > INT64_MAX then INT64_MAX else cert.validBefore;
    var tol := Seconds(tolerance);
    if now < Wrap64(after - tol) {
      return false;
    }
    if now > Wrap64(before + tol) {
      return false;
    }
    return true;
  }

  predicate InWindow(cert: SshCert.Cert, now: int, tolerance: int) {
    Wrap64(Clamp(cert.validAfter) - Seconds(tolerance)) <= now <= Wrap64(Clamp(cert.validBefore) + Seconds(tolerance))
  }

  /** Whatever the clock and the sign of the tolerance: while both widened bounds are 64-bit numbers,
      accepted exactly between them. */
  lemma {:induction false} WindowFits(cert: SshCert.Cert, now: int, tolerance: int)
    requires FitsInt64(Clamp(cert.validAfter) - Seconds(tolerance))
             && FitsInt64(Clamp(cert.validBefore) + Seconds(tolerance))
    ensures InWindow(cert, now, tolerance) <==>
            Clamp(cert.validAfter) - Seconds(tolerance) <= now <= Clamp(cert.validBefore) + Seconds(tolerance)
  {
    hide Clamp, Seconds;
  }

  /** A duration's whole seconds are few enough that a widened bound passes int64 by less than one turn. */
  lemma {:induction false} SecondsAreFew(tolerance: int)
    requires FitsInt64(tolerance)
    ensures -10_000_000_000 < Seconds(tolerance) < 10_000_000_000
  {
    var s := Seconds(tolerance);
    assert tolerance >= 0 ==> s * SECOND <= tolerance;
    assert tolerance <= 0 ==> tolerance <= s * SECOND && (s - 1) * SECOND < tolerance;
    hide Seconds;
  }

  /** For every 64-bit clock and tolerance. A bound that leaves int64 comes back a whole turn lower: the
      start then admits every clock past the epoch, and the end none. */
  lemma {:induction false} WindowIff(cert: SshCert.Cert, now: int, tolerance: int)
    requires FitsInt64(now) && FitsInt64(tolerance)
    ensures var start, end := Clamp(cert.validAfter) - Seconds(tolerance), Clamp(cert.validBefore) + Seconds(tolerance);
            && (InWindow(cert, now, tolerance) <==>
                  && (if FitsInt64(start) then start <= now else start - UINT64 <= now)
                  && (if FitsInt64(end) then now <= end else now <= end - UINT64))
            && (now >= 0 ==>
                  (InWindow(cert, now, tolerance) <==>
                     (start <= now || !FitsInt64(start)) && FitsInt64(end) && now <= end))
  {
    hide Clamp, Seconds;
    SecondsAreFew(tolerance);
  }

  /** The last second that is an int64. */
  const LAST_SECOND := 9_223_372_036_854_775_807

  /** s is the tolerance in whole seconds, towards zero. */
  predicate WholeSeconds(s: int, tolerance: int) {
    && (tolerance >= 0 ==> s >= 0 && s * 1000_000_000 <= tolerance < (s + 1) * 1000_000_000)
    && (tolerance < 0 ==> s <= 0 && (s - 1) * 1000_000_000 < tolerance <= s * 1000_000_000)
  }

  /** The window in the certificate's own numbers: with bounds that are int64 and stay so, from s seconds
      before the one to s seconds after the other. */
  lemma {:induction false} WindowByNumbers(cert: SshCert.Cert, now: int, tolerance: int, s: int)
    requires WholeSeconds(s, tolerance)
    requires cert.validAfter <= LAST_SECOND && cert.validBefore <= LAST_SECOND
    requires -LAST_SECOND <= cert.validAfter - s <= LAST_SECOND && -LAST_SECOND <= cert.validBefore + s <= LAST_SECOND
    ensures InWindow(cert, now, tolerance) <==> cert.validAfter - s <= now <= cert.validBefore + s
  {
    WholeIsSeconds(s, tolerance);
    hide Seconds;
    WindowFits(cert, now, tolerance);
  }

  /** The same for every certificate, 64-bit clock and tolerance: bounds past the last second count as it,
      a start that leaves int64 bounds no clock from the epoch on, and an end that does refuses them all. */
  lemma {:induction false} WindowOfAny(cert: SshCert.Cert, now: int, tolerance: int, s: int)
    requires WholeSeconds(s, tolerance) && 0 <= now <= LAST_SECOND && -LAST_SECOND <= tolerance <= LAST_SECOND
    ensures var start := (if cert.validAfter > LAST_SECOND then LAST_SECOND else cert.validAfter) - s;
            var end := (if cert.validBefore > LAST_SECOND then LAST_SECOND else cert.validBefore) + s;
            InWindow(cert, now, tolerance) <==>
            (start <= now || start > LAST_SECOND) && now <= end <= LAST_SECOND
  {
    WholeIsSeconds(s, tolerance);
    SecondsAreFew(tolerance);
    hide Seconds;
    WindowIff(cert, now, tolerance);
  }

  lemma {:induction false} WholeIsSeconds(s: int, tolerance: int)
    requires WholeSeconds(s, tolerance)
    ensures Seconds(tolerance) == s
  {
    var t := Seconds(tolerance);
    SameWhole(s, t, tolerance);
  }

  lemma {:induction false} SameWhole(s: int, t: int, tolerance: int)
    requires WholeSeconds(s, tolerance) && WholeSeconds(t, tolerance)
    ensures s == t
  {}

  /** Valid from the epoch for ever, seen now: refused with a tolerance of a second or more, taken with less. */
  lemma {:induction false} ForeverRefused(cert: SshCert.Cert, now: int, tolerance: int)
    requires cert.validAfter == 0 && cert.validBefore == UINT64 - 1
    requires 0 <= now <= INT64_MAX && SECOND <= tolerance <= INT64_MAX
    ensures !InWindow(cert, now, tolerance) && InWindow(cert, now, SECOND - 1)
  {
    WindowIff(cert, now, tolerance);
    WindowIff(cert, now, SECOND - 1);
    assert Seconds(tolerance) >= 1;
    assert Seconds(SECOND - 1) == 0;
  }

  /** Valid from the last second on: with a tolerance of minus a second or less, taken at every earlier
      clock up to where the end has moved to, and with none refused. */
  lemma {:induction false} TooEarlyAccepted(cert: SshCert.Cert, now: int, tolerance: int)
    requires cert.validAfter == UINT64 - 1 && cert.validBefore == UINT64 - 1
    requires -INT64_MAX - 1 <= tolerance <= -SECOND && 0 <= now <= INT64_MAX + Seconds(tolerance)
    ensures InWindow(cert, now, tolerance) && !InWindow(cert, now, 0)
  {
    SecondsAreFew(tolerance);
    WindowIff(cert, now, tolerance);
    WindowIff(cert, now, 0);
    assert Seconds(tolerance) <= -1;
    assert Seconds(0) == 0;
  }
}
