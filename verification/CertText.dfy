/** User certificates written field by field under their literal names, as an independent statement of
    what the reader accepts. */
module CertText {
  import opened Bytes
  import opened SshWire
  import SshCert
  import SshKey

  /** What a certificate says. Options, extensions and the reserved string are opaque. */
  datatype Written = Written(
    nonce: bytes, fields: seq<bytes>, serial: nat, keyId: bytes, principals: seq<bytes>,
    validAfter: nat, validBefore: nat, options: bytes, extensions: bytes, reserved: bytes,
    caKey: bytes, sigAlgo: bytes, sig: bytes)

  predicate Short(s: bytes) {
    |s| < 0x1_0000_0000
  }

  /** Lengths and numbers that the encoding can hold, and the reader's limits. */
  predicate Fits(c: Written) {
    && Short(c.nonce) && (forall i :: 0 <= i < |c.fields| ==> Short(c.fields[i]))
    && c.serial < 0x1_0000_0000_0000_0000 && Short(c.keyId)
    && |c.principals| <= 64 && (forall i :: 0 <= i < |c.principals| ==> Short(c.principals[i]))
    && Short(Strings(c.principals))
    && c.validAfter < 0x1_0000_0000_0000_0000 && c.validBefore < 0x1_0000_0000_0000_0000
    && Short(c.options) && Short(c.extensions) && Short(c.reserved) && Short(c.caKey)
    && 0 < |c.sigAlgo| < 64 && |c.sig| < 0x1_0000_0000 - 100
  }

  /** Strings one after another. */
  function Strings(xs: seq<bytes>): bytes
    requires forall i :: 0 <= i < |xs| ==> Short(xs[i])
  {
    if xs == [] then []
    else
      assert Short(xs[|xs| - 1]);
      Strings(xs[..|xs| - 1]) + Str(xs[|xs| - 1])
  }

  function Signature(c: Written): bytes
    requires Fits(c)
  {
    Str(c.sigAlgo) + Str(c.sig)
  }

  /** Everything a CA signs. */
  function Signed(name: string, c: Written): bytes
    requires Fits(c) && |name| < 64
  {
    Str(Ascii(name)) + Str(c.nonce) + Strings(c.fields) + U64(c.serial) + U32(1) + Str(c.keyId)
    + Str(Strings(c.principals)) + U64(c.validAfter) + U64(c.validBefore) + Str(c.options)
    + Str(c.extensions) + Str(c.reserved) + Str(c.caKey)
  }

  function Text(name: string, c: Written): bytes
    requires Fits(c) && |name| < 64
  {
    Signed(name, c) + Str(Signature(c))
  }

  /** The subject key a certificate stands for. */
  function Key(base: string, c: Written): bytes
    requires Fits(c) && |base| < 64
  {
    Str(Ascii(base)) + Strings(c.fields)
  }

  /** The key types there are, with the number of fields each has. */
  predicate Known(base: string, n: nat) {
    || (base == "ssh-ed25519" && n == 1)
    || ((base == "ssh-rsa" || base == "ecdsa-sha2-nistp256" || base == "ecdsa-sha2-nistp384"
         || base == "ecdsa-sha2-nistp521") && n == 2)
  }

  lemma {:induction false} StringsAll(xs: seq<bytes>, rest: bytes)
    requires forall i :: 0 <= i < |xs| ==> Short(xs[i])
    ensures SshCert.StrsSized(xs) && Strings(xs) + rest == SshCert.PutAll(xs, rest)
  {
    Sized(xs);
    if xs == [] {
      assert [] + rest == rest;
    } else {
      var init, x := xs[..|xs| - 1], xs[|xs| - 1];
      StringsAll(init, Str(x) + rest);
      ConcatAssoc(Strings(init), Str(x), rest);
      PutLast(init, x, rest);
      assert xs == init + [x];
    }
  }

  lemma {:induction false} Sized(xs: seq<bytes>)
    requires forall i :: 0 <= i < |xs| ==> Short(xs[i])
    ensures SshCert.StrsSized(xs)
  {}

  lemma {:induction false} PutLast(xs: seq<bytes>, x: bytes, rest: bytes)
    requires SshCert.StrsSized(xs) && Short(x) && SshCert.StrsSized(xs + [x])
    ensures SshCert.PutAll(xs + [x], rest) == SshCert.PutAll(xs, Str(x) + rest)
  {
    hide Str;
    if xs == [] {
      assert [] + [x] == [x] && [x][1..] == [];
      assert SshCert.PutAll([x], rest) == Str(x) + SshCert.PutAll([], rest);
    } else {
      PutLast(xs[1..], x, rest);
      assert (xs + [x])[1..] == xs[1..] + [x];
    }
  }

  /** The reader's own form of it. */
  function Wire(name: string, c: Written): SshCert.Wire {
    SshCert.Wire(
      SshCert.Head(Ascii(name), c.nonce, c.fields), c.serial,
      SshCert.Claims(c.keyId, c.principals, c.validAfter, c.validBefore),
      SshCert.Tail(c.options, c.extensions, c.reserved, c.caKey), SshCert.Sig(c.sigAlgo, c.sig))
  }

  lemma {:induction false} KnownName(base: string, n: nat)
    requires Known(base, n)
    ensures |base| <= 19 && NulFree(Ascii(base + "-cert-v01@openssh.com"))
    ensures SshCert.FieldsFor(Ascii(base + "-cert-v01@openssh.com")) == n
    ensures SshCert.BaseAlgo(CStr(Ascii(base + "-cert-v01@openssh.com")), NAME_CAP) == Some(Ascii(base))
  {
    var name := base + "-cert-v01@openssh.com";
    Joined(base, "-cert-v01@openssh.com");
    SshKey.PlainText("-cert-v01@openssh.com");
    KnownIsPlain(base, n);
    SshKey.PlainJoined(Ascii(base), SshCert.CERT_SUFFIX);
    SshKey.PlainMeans(Ascii(name));
    CStrOfNulFree(Ascii(name));
    KnownCount(base, n);
    hide CStr, Ascii, SshCert.KeyFieldCount;
    SshCert.BaseAlgoIff(Ascii(name), NAME_CAP, Ascii(base));
  }

  lemma {:induction false} Joined(a: string, b: string)
    ensures Ascii(a + b) == Ascii(a) + Ascii(b)
  {}

  lemma {:induction false} KnownIsPlain(base: string, n: nat)
    requires Known(base, n)
    ensures SshKey.Plain(Ascii(base)) && 0 < |base| <= 19
  {
    SshKey.PlainText("ssh-ed25519");
    SshKey.PlainText("ssh-rsa");
    SshKey.PlainText("ecdsa-sha2-nistp256");
    SshKey.PlainText("ecdsa-sha2-nistp384");
    SshKey.PlainText("ecdsa-sha2-nistp521");
  }

  lemma {:induction false} KnownCount(base: string, n: nat)
    requires Known(base, n)
    ensures SshCert.KeyFieldCount(Ascii(base)) == n
  {
    assert |Ascii("ssh-ed25519")| == 11 && |Ascii("ssh-rsa")| == 7;
  }

  lemma {:induction false} WireFits(base: string, n: nat, c: Written)
    requires Known(base, n) && |c.fields| == n && Fits(c) && |Key(base, c)| <= 2048
    ensures SshCert.PartsFit(Wire(base + "-cert-v01@openssh.com", c))
    ensures SshCert.KeyBlob(Wire(base + "-cert-v01@openssh.com", c).head) == Key(base, c)
  {
    KnownName(base, n);
    StringsAll(c.fields, []);
    StringsAll(c.principals, []);
    assert Strings(c.fields) + [] == Strings(c.fields) && Strings(c.principals) + [] == Strings(c.principals);
    hide CStr, Ascii, Str, SshCert.FieldsFor, SshCert.PutAll, Strings, SshCert.BaseAlgo;
  }

  lemma {:induction false} SignedIs(name: string, c: Written, rest: bytes)
    requires Fits(c) && |name| < 64 && SshCert.PartsFit(Wire(name, c))
    ensures Signed(name, c) + rest == SshCert.PutSigned(Wire(name, c), rest)
  {
    hide Str, U64, U32, Ascii, SshCert.PutAll, Strings, SshCert.PartsFit;
    StringsAll(c.principals, []);
    assert Strings(c.principals) + [] == Strings(c.principals);
    var tail := SshCert.PutTail(Wire(name, c).tail, rest);
    TailIs(c, rest);
    var window := U64(c.validAfter) + (U64(c.validBefore) + tail);
    var claims := Str(c.keyId) + (Str(Strings(c.principals)) + window);
    var kind := U64(c.serial) + (U32(1) + claims);
    StringsAll(c.fields, kind);
    Regrouped(Str(Ascii(name)), Str(c.nonce), Strings(c.fields), U64(c.serial), U32(1), Str(c.keyId),
              Str(Strings(c.principals)), U64(c.validAfter), U64(c.validBefore),
              Str(c.options) + Str(c.extensions) + Str(c.reserved) + Str(c.caKey), rest);
    SameTail(Str(Ascii(name)) + Str(c.nonce) + Strings(c.fields) + U64(c.serial) + U32(1) + Str(c.keyId)
             + Str(Strings(c.principals)) + U64(c.validAfter) + U64(c.validBefore),
             Str(c.options), Str(c.extensions), Str(c.reserved), Str(c.caKey), rest);
  }

  lemma {:induction false} TailIs(c: Written, rest: bytes)
    requires Fits(c) && SshCert.TailSized(SshCert.Tail(c.options, c.extensions, c.reserved, c.caKey))
    ensures SshCert.PutTail(SshCert.Tail(c.options, c.extensions, c.reserved, c.caKey), rest) ==
            Str(c.options) + Str(c.extensions) + Str(c.reserved) + Str(c.caKey) + rest
  {
    hide Str;
    var t := SshCert.TailFields(SshCert.Tail(c.options, c.extensions, c.reserved, c.caKey));
    assert t[1..] == [c.extensions, c.reserved, c.caKey] && t[1..][1..] == [c.reserved, c.caKey];
    assert t[1..][1..][1..] == [c.caKey] && [c.caKey][1..] == [];
    var l4 := Str(c.caKey) + rest;
    assert SshCert.PutAll([c.caKey], rest) == l4;
    var l3 := Str(c.reserved) + l4;
    assert SshCert.PutAll([c.reserved, c.caKey], rest) == l3;
    var l2 := Str(c.extensions) + l3;
    assert SshCert.PutAll(t[1..], rest) == l2;
  }

  lemma {:induction false} SameTail(front: bytes, a: bytes, b: bytes, c: bytes, d: bytes, rest: bytes)
    ensures front + (a + b + c + d) + rest == front + a + b + c + d + rest
  {}

  lemma {:induction false} Regrouped(a: bytes, b: bytes, c: bytes, d: bytes, e: bytes, f: bytes, g: bytes, h: bytes,
                                     i: bytes, t: bytes, rest: bytes)
    ensures a + b + c + d + e + f + g + h + i + t + rest ==
            a + (b + (c + (d + (e + (f + (g + (h + (i + (t + rest)))))))))
  {
    var k := h + (i + (t + rest));
    assert a + b + c + d + e + f + g + h + i + t + rest == a + b + c + d + e + f + g + k;
  }

  /** The reader finds exactly what was written. */
  lemma {:induction false} WrittenParses(base: string, n: nat, c: Written)
    requires Known(base, n) && |c.fields| == n && Fits(c) && |Key(base, c)| <= 2048
    requires |Text(base + "-cert-v01@openssh.com", c)| <= 32768
    ensures var name := base + "-cert-v01@openssh.com";
            && SshCert.Fits(Wire(name, c)) && SshCert.Serialise(Wire(name, c)) == Text(name, c)
            && SshCert.Signed(Wire(name, c)) == Signed(name, c)
            && SshCert.KeyBlob(Wire(name, c).head) == Key(base, c)
  {
    var name := base + "-cert-v01@openssh.com";
    WireFits(base, n, c);
    SignedIs(name, c, []);
    assert Signed(name, c) + [] == Signed(name, c);
    hide CStr, Ascii, Str, SshCert.PutSigned, SshCert.PartsFit, SshCert.KeyBlob, Signed, Key;
  }

  /** A certificate of any of the five key types, written with its literal name and its own fields, is
      accepted, and the caller gets every part of it: the key is the one it stands for, and the signed
      bytes are all those before the signature. */
  lemma {:induction false} WrittenAccepted(base: string, n: nat, c: Written)
    requires Known(base, n) && |c.fields| == n && Fits(c) && |Key(base, c)| <= 2048
    requires |Text(base + "-cert-v01@openssh.com", c)| <= 32768
    ensures var name := base + "-cert-v01@openssh.com";
            var r := SshCert.ParseOf(Text(name, c));
            && r.Accepted? && SshCert.PartsFit(r.wire)
            && SshCert.View(r.wire) ==
               SshCert.Cert(Ascii(name), Key(base, c), c.serial, c.keyId, c.principals, c.validAfter, c.validBefore,
                            c.caKey, CStr(c.sigAlgo), c.sig, |Signed(name, c)|)
  {
    var name := base + "-cert-v01@openssh.com";
    var w := Wire(name, c);
    KnownName(base, n);
    WrittenParses(base, n, c);
    CStrOfNulFree(Ascii(name));
    hide CStr, Ascii, Str, SshCert.Signed, SshCert.Serialise, SshCert.PartsFit, SshCert.KeyBlob, Signed, Key;
    SshCert.ParseIff(Text(name, c), w);
  }

  /** So is the certificate over any generated key, and that key is the one written for it. */
  lemma {:induction false} GeneratedAccepted(point: bytes, c: Written)
    requires |point| <= 256 && c.fields == [Ascii("nistp384"), point] && Fits(c)
    requires |Text("ecdsa-sha2-nistp384-cert-v01@openssh.com", c)| <= 32768
    ensures var r := SshCert.ParseOf(Text("ecdsa-sha2-nistp384-cert-v01@openssh.com", c));
            && r.Accepted? && SshCert.PartsFit(r.wire)
            && SshCert.View(r.wire).keyBlob == SshKey.BlobP384(point)
            && SshKey.BlobP384(point) == Str(Ascii("ecdsa-sha2-nistp384")) + Str(Ascii("nistp384")) + Str(point)
  {
    GeneratedKey(point, c);
    SameName();
    hide Key, Text, SshCert.ParseOf, SshCert.PartsFit, SshCert.View, Ascii;
    WrittenAccepted("ecdsa-sha2-nistp384", 2, c);
  }

  lemma {:induction false} SameName()
    ensures "ecdsa-sha2-nistp384" + "-cert-v01@openssh.com" == "ecdsa-sha2-nistp384-cert-v01@openssh.com"
  {}

  lemma {:induction false} GeneratedKey(point: bytes, c: Written)
    requires |point| <= 256 && c.fields == [Ascii("nistp384"), point] && Fits(c)
    ensures Key("ecdsa-sha2-nistp384", c) == SshKey.BlobP384(point) && |Key("ecdsa-sha2-nistp384", c)| <= 2048
    ensures SshKey.BlobP384(point) == Str(Ascii("ecdsa-sha2-nistp384")) + Str(Ascii("nistp384")) + Str(point)
  {
    hide Ascii;
    var xs := c.fields;
    assert xs[..1] == [Ascii("nistp384")];
    assert Strings([]) == [];
    assert Strings(xs[..1]) == [] + Str(Ascii("nistp384"));
    assert Strings(xs) == Strings(xs[..1]) + Str(point);
    var a, b := Str(Ascii("ecdsa-sha2-nistp384")), Str(Ascii("nistp384"));
    assert a + ([] + b + Str(point)) == a + b + Str(point) == a + (b + Str(point));
  }

  /** Whatever is accepted keeps the reader's limits. */
  lemma {:induction false} TakenWithinLimits(blob: bytes)
    requires SshCert.ParseOf(blob).Accepted?
    ensures var w := SshCert.ParseOf(blob).wire;
            && SshCert.PartsFit(w) && |blob| <= 32768 && |SshCert.View(w).keyBlob| <= 2048
            && |w.claims.principals| <= 64 && 0 < |w.head.algo| < 64 && 0 < |w.sig.algo| < 64
  {
    SshCert.ParseIff(blob, SshCert.ParseOf(blob).wire);
    hide SshCert.ParseOf, SshCert.KeyBlob, SshCert.Serialise, SshCert.Signed, CStr;
  }

  /** A certificate name over any other key type is told apart as unsupported. */
  lemma {:induction false} UnsupportedIff(base: bytes, rest: bytes)
    requires NulFree(base) && 0 < |base| < 43 && 0 < |Str(base + Ascii("-cert-v01@openssh.com")) + rest| <= 32768
    ensures SshCert.ParseOf(Str(base + Ascii("-cert-v01@openssh.com")) + rest) ==
            SshCert.Refused(SshCert.Unsupported) <==>
            && base != Ascii("ssh-ed25519") && base != Ascii("ssh-rsa") && base != Ascii("ecdsa-sha2-nistp256")
            && base != Ascii("ecdsa-sha2-nistp384") && base != Ascii("ecdsa-sha2-nistp521")
  {
    var name := base + Ascii("-cert-v01@openssh.com");
    SshKey.PlainText("-cert-v01@openssh.com");
    SshKey.PlainMeans(Ascii("-cert-v01@openssh.com"));
    CStrOfNulFree(name);
    UncountedIff(base);
    hide CStr, Ascii, Str, SshCert.BaseAlgo, SshCert.KeyFieldCount, SshCert.ParseOf;
    SshCert.BaseAlgoIff(name, NAME_CAP, base);
    GetStrIff(Str(name) + rest, name, rest);
    HeadDecides(Str(name) + rest, name, rest, base);
  }

  lemma {:induction false} UncountedIff(base: bytes)
    ensures SshCert.KeyFieldCount(base) == 0 <==>
            && base != Ascii("ssh-ed25519") && base != Ascii("ssh-rsa") && base != Ascii("ecdsa-sha2-nistp256")
            && base != Ascii("ecdsa-sha2-nistp384") && base != Ascii("ecdsa-sha2-nistp521")
  {}

  lemma {:induction false} HeadDecides(blob: bytes, name: bytes, rest: bytes, base: bytes)
    requires 0 < |blob| <= 32768 && GetName(blob, NAME_CAP) == Some((name, rest))
    requires SshCert.BaseAlgo(CStr(name), NAME_CAP) == Some(base)
    ensures SshCert.ParseOf(blob) == SshCert.Refused(SshCert.Unsupported) <==> SshCert.KeyFieldCount(base) == 0
  {
    hide CStr, GetStr, GetName, SshCert.BaseAlgo, SshCert.KeyFieldCount, SshCert.GetStrs, SshCert.GetKind,
         SshCert.GetBody;
  }
}
