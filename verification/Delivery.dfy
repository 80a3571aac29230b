/** What an envelope's JSON comes to: which errors count, and that every certificate can be delivered. */
module Delivery {
  import opened Bytes
  import opened Auth
  import opened JsonLookup
  import opened Sse
  import opened SshKey
  import Base64
  import Json
  import SshCert
  import SshWire

  // ------------------------------------------------------------------- the error

  /** A tokenised body with its tree. */
  ghost predicate Parsed(body: bytes, t: Tree, pl: Platform) {
    0 < |body| <= Json.MAX_RESPONSE && Holds(pl.tokenise(body), 0, t) && Nested(t)
  }

  /** The envelope has an error with something in it. */
  predicate Carries(body: bytes, t: Tree) {
    ErrorText(body, t).Some? && ErrorText(body, t).value != []
  }

  /** An error text that the fixed buffer or the decoder keeps from being seen. */
  predicate Missed(raw: bytes) {
    var text := Json.Unescape(raw);
    raw != [] && (text.None? || |text.value| >= 512 || text.value[..1] == [0])
  }

  lemma {:induction false} SeenUnlessMissed(raw: bytes)
    ensures Seen(raw) <==> raw != [] && !Missed(raw)
  {
    UnescapedIsNotEmpty(raw);
    hide Json.Unescape;
  }

  lemma {:induction false} UnescapedIsNotEmpty(raw: bytes)
    ensures Json.Unescape(raw).Some? ==> (Json.Unescape(raw).value == [] <==> raw == [])
  {
    hide Json.FrontUnit;
  }

  /** An envelope's error makes the run fail exactly when it decodes to 1 to 511 bytes that do not start
      with a NUL: every error that is carried and not missed. */
  lemma {:induction false} ErrorIff(body: bytes, t: Tree, pl: Platform)
    requires Parsed(body, t, pl)
    ensures EnvelopeError(body, pl) <==> Carries(body, t) && !Missed(ErrorText(body, t).value)
  {
    hide RawField, FieldOnTree, Holds, Nested, Ascii, Seen, Missed;
    RawFieldOnTree(body, pl.tokenise(body), t, None, Ascii("error"));
    if ErrorText(body, t).Some? {
      SeenUnlessMissed(ErrorText(body, t).value);
    }
  }

  /** Text without a backslash stands for itself. */
  lemma {:induction false} PlainUnescapes(raw: bytes)
    requires BACKSLASH !in raw
    ensures Json.Unescape(raw) == Some(raw)
    decreases |raw|
  {
    if raw != [] {
      assert raw[0] in raw;
      PlainUnescapes(raw[1..]);
      assert raw == [raw[0]] + raw[1..];
    }
  }

  /** Every plain error of 512 bytes or more is missed, and so is any that does not decode. */
  lemma {:induction false} LongIsMissed(raw: bytes)
    ensures |raw| >= 512 && '\\' as int !in raw ==> Missed(raw)
    ensures raw != [] && Json.Unescape(raw).None? ==> Missed(raw)
  {
    hide Json.Unescape;
    if BACKSLASH !in raw {
      PlainUnescapes(raw);
    }
  }

  /** Half a surrogate pair spoils an error, whatever stands around it. */
  lemma {:induction false} SurrogateIsMissed(before: bytes, e: bytes, u: nat, rest: bytes)
    requires Json.Unescape(before).Some? && Json.IsUnit(e, u) && Json.Low(u)
    ensures Missed(before + (e + rest))
  {
    Json.LoneSurrogateRefused(before, e, u, rest);
    LongIsMissed(before + (e + rest));
    UnitLength(e, u);
    hide Json.Unescape, Json.IsUnit, Missed;
    assert e + rest != [];
  }

  lemma {:induction false} UnitLength(e: bytes, u: nat)
    requires Json.IsUnit(e, u)
    ensures e != []
  {}

  // ------------------------------------------------------- a certificate's own line

  /** The authorized_keys line of a certificate. */
  function CertLine(wire: SshCert.Wire): bytes
    requires SshCert.PartsFit(wire)
  {
    AuthorizedLine(CStr(wire.head.algo), SshCert.Serialise(wire))
  }

  /** The names of accepted certificate algorithms are plain text. */
  lemma {:induction false} CertAlgoIsPlain(raw: bytes)
    requires SshCert.FieldsFor(raw) > 0
    ensures CStr(raw) != [] && Plain(CStr(raw))
  {
    hide CStr, Ascii, Plain;
    var base := SshCert.BaseAlgo(CStr(raw), SshWire.NAME_CAP).value;
    BaseIsPlain(base);
    PlainText("-cert-v01@openssh.com");
    PlainJoined(base, SshCert.CERT_SUFFIX);
    assert CStr(raw) == base + SshCert.CERT_SUFFIX;
  }

  lemma {:induction false} BaseIsPlain(base: bytes)
    requires SshCert.KeyFieldCount(base) > 0
    ensures Plain(base)
  {
    PlainText("ssh-ed25519");
    PlainText("ssh-rsa");
    PlainText("ecdsa-sha2-nistp256");
    PlainText("ecdsa-sha2-nistp384");
    PlainText("ecdsa-sha2-nistp521");
    hide Ascii, Plain;
  }

  lemma {:induction false} SerialisedAlgo(wire: SshCert.Wire)
    requires SshCert.PartsFit(wire)
    ensures AlgoOf(SshCert.Serialise(wire)) == Some(CStr(wire.head.algo))
    ensures |wire.head.algo| < SshWire.NAME_CAP
  {
    var sig := SshWire.Str(SshCert.PutSig(wire.sig));
    SshCert.PutSignedAppend(wire, [], sig);
    assert [] + sig == sig;
    hide SshWire.Str, CStr, SshCert.PutBody;
    var kind := SshCert.PutKind(wire.serial, SshCert.TYPE_USER, SshCert.PutBody(wire, sig));
    var rest := SshWire.Str(wire.head.nonce) + SshCert.PutAll(wire.head.key, kind);
    SshWire.GetStrIff(SshCert.Serialise(wire), wire.head.algo, rest);
  }

  /** The line of every certificate within the limits fits the buffer it is read into, and reading it
      gives that certificate. */
  lemma {:induction false} CertLineReads(wire: SshCert.Wire)
    requires SshCert.Fits(wire)
    ensures |CertLine(wire)| + 1 <= MAX_CERT_LINE && CertOf(CertLine(wire)) == Some(wire)
    ensures CertLine(wire) != [] && NulFree(CertLine(wire))
  {
    var algo, blob := CStr(wire.head.algo), SshCert.Serialise(wire);
    SerialisedAlgo(wire);
    CertAlgoIsPlain(wire.head.algo);
    PlainMeans(algo);
    EncodedIsPlain(blob);
    PlainMeans(Base64.Encode(blob));
    SshCert.ParseIff(blob, wire);
    hide AlgoOf, SshCert.Serialise, SshCert.ParseOf, KeyOf, Base64.Encode, CStr, SshCert.PartsFit;
    LineRoundTrip(blob, algo, SshCert.MAX_CERT);
  }

  // ---------------------------------------------------------- an envelope with both

  const BEFORE_ERROR := ['{' as int, QUOTE] + Ascii("error") + [QUOTE, COLON, QUOTE]
  const BEFORE_DATA := [QUOTE, COMMA, QUOTE] + Ascii("data") + [QUOTE, COLON]
  const BEFORE_LINE := ['{' as int, QUOTE] + Ascii("certificate") + [QUOTE, COLON, QUOTE]
  const AFTER_LINE := [QUOTE, '}' as int, '}' as int]

  /** {"error":"...","data":{"certificate":"..."}} */
  function Envelope(error: bytes, line: bytes): bytes {
    BEFORE_ERROR + error + BEFORE_DATA + BEFORE_LINE + line + AFTER_LINE
  }

  /** Its tree, by the spans of its parts. */
  function EnvelopeTree(error: bytes, line: bytes): Tree {
    var e, d := 10, 19 + |error|;
    var l := d + 16;
    var end := l + |line|;
    Record(0, end + 3,
           [Member(2, 7, Leaf(String, e, e + |error|)),
            Member(e + |error| + 3, e + |error| + 7,
                   Record(d, end + 2, [Member(d + 2, d + 13, Leaf(String, l, end))]))])
  }

  lemma {:induction false} PartLengths()
    ensures |BEFORE_ERROR| == 10 && |BEFORE_DATA| == 9 && |BEFORE_LINE| == 16 && |AFTER_LINE| == 3
    ensures BEFORE_ERROR[2..7] == Ascii("error") && BEFORE_DATA[3..7] == Ascii("data")
    ensures BEFORE_LINE[2..13] == Ascii("certificate")
  {
    hide Ascii;
  }

  /** Part of one of two joined texts. */
  lemma {:induction false} SliceLeft(a: bytes, b: bytes, i: nat, j: nat)
    requires i <= j <= |a|
    ensures (a + b)[i..j] == a[i..j]
  {}

  lemma {:induction false} SliceRight(a: bytes, b: bytes, i: nat, j: nat)
    requires i <= j <= |b|
    ensures (a + b)[|a| + i..|a| + j] == b[i..j]
  {}

  /** Where the parts stand. */
  lemma {:induction false} EnvelopeParts(error: bytes, line: bytes)
    ensures var body, n := Envelope(error, line), |error|;
            && |body| == 38 + n + |line|
            && body[2..7] == Ascii("error") && body[10..10 + n] == error
            && body[13 + n..17 + n] == Ascii("data")
            && body[21 + n..32 + n] == Ascii("certificate") && body[35 + n..35 + n + |line|] == line
  {
    PartLengths();
    hide Ascii;
    var a, n := BEFORE_ERROR + error, |error|;
    var b := a + BEFORE_DATA;
    var c := b + BEFORE_LINE;
    var d := c + line;
    SliceLeft(BEFORE_ERROR, error, 2, 7);
    SliceRight(BEFORE_ERROR, error, 0, n);
    SliceRight(a, BEFORE_DATA, 3, 7);
    SliceRight(b, BEFORE_LINE, 2, 13);
    SliceRight(c, line, 0, |line|);
    SliceLeft(a, BEFORE_DATA, 2, 7);
    SliceLeft(a, BEFORE_DATA, 10, 10 + n);
    SliceLeft(b, BEFORE_LINE, 2, 7);
    SliceLeft(b, BEFORE_LINE, 10, 10 + n);
    SliceLeft(b, BEFORE_LINE, 13 + n, 17 + n);
    SliceLeft(c, line, 2, 7);
    SliceLeft(c, line, 10, 10 + n);
    SliceLeft(c, line, 13 + n, 17 + n);
    SliceLeft(c, line, 21 + n, 32 + n);
    SliceLeft(d, AFTER_LINE, 2, 7);
    SliceLeft(d, AFTER_LINE, 10, 10 + n);
    SliceLeft(d, AFTER_LINE, 13 + n, 17 + n);
    SliceLeft(d, AFTER_LINE, 21 + n, 32 + n);
    SliceLeft(d, AFTER_LINE, 35 + n, 35 + n + |line|);
  }

  lemma {:induction false} FirstNamed(body: bytes, members: seq<Member>, name: bytes)
    requires members != []
    requires members[0].keyStart <= members[0].keyEnd <= |body|
    ensures var key := body[members[0].keyStart..members[0].keyEnd];
            && (key == name ==> FirstMember(body, members, name) == Some(0))
            && (|key| != |name| ==> FirstMember(body, members, name) ==
                                    match FirstMember(body, members[1..], name)
                                    case None => None
                                    case Some(k) => Some(k + 1))
  {}

  /** Reading the tree gives both texts back. */
  lemma {:induction false} EnvelopeReads(error: bytes, line: bytes)
    ensures var body, t := Envelope(error, line), EnvelopeTree(error, line);
            && Nested(t) && ErrorText(body, t) == Some(error)
            && FieldOnTree(body, t, Some(Ascii("data")), Ascii("certificate")) == Some(line)
  {
    var body, t := Envelope(error, line), EnvelopeTree(error, line);
    EnvelopeParts(error, line);
    EnvelopeNested(error, line);
    hide Nested, Ascii, FirstMember, Envelope;
    FirstNamed(body, t.members, Ascii("error"));
    FirstNamed(body, t.members, Ascii("data"));
    FirstNamed(body, t.members[1..], Ascii("data"));
    var inner := t.members[1].value;
    FirstNamed(body, inner.members, Ascii("certificate"));
  }

  lemma {:induction false} EnvelopeNested(error: bytes, line: bytes)
    ensures Nested(EnvelopeTree(error, line))
  {
    var t := EnvelopeTree(error, line);
    var inner := t.members[1].value;
    assert NestedMembers(inner.members[1..], inner.members[0].value.end, inner.end);
    assert NestedMembers(inner.members, inner.start, inner.end);
    assert NestedMembers(t.members[1..][1..], t.members[1].value.end, t.end);
    assert NestedMember(t.members[1]) && NestedMember(t.members[0]);
    assert NestedMembers(t.members[1..], t.members[0].value.end, t.end);
    assert NestedMembers(t.members, t.start, t.end);
  }

  /** The certificate's line as the writer escapes it is a JSON string that unescapes to the line, and
      within the response limit beside any error of at most 1000 bytes. */
  lemma {:induction false} LineEscapes(wire: SshCert.Wire)
    requires SshCert.Fits(wire)
    ensures Json.Unescape(Json.Escape(CertLine(wire))) == Some(CertLine(wire))
    ensures |Json.Escape(CertLine(wire))| <= MAX_CERT_LINE
  {
    CertLineReads(wire);
    Json.StringRoundTrip(CertLine(wire));
    LineGrowsByOne(wire);
    hide Json.Unescape, Json.Escape, SshCert.Fits;
  }

  /** Only the line feed is escaped. */
  lemma {:induction false} LineGrowsByOne(wire: SshCert.Wire)
    requires SshCert.PartsFit(wire)
    ensures |Json.Escape(CertLine(wire))| == |CertLine(wire)| + 1
  {
    var algo, text := CStr(wire.head.algo), Base64.Encode(SshCert.Serialise(wire));
    CertAlgoIsPlain(wire.head.algo);
    EncodedIsPlain(SshCert.Serialise(wire));
    hide CStr, Base64.Encode, SshCert.Serialise, SshCert.PartsFit, Plain;
    EscapedPlain([], algo);
    EscapedByte(algo, SPACE);
    EscapedPlain(algo + [SPACE], text);
    EscapedByte(algo + [SPACE] + text, LF);
    assert [] + algo == algo;
  }

  lemma {:induction false} EscapedByte(s: bytes, c: byte)
    ensures |Json.Escape(s + [c])| == |Json.Escape(s)| + |Json.EscapeByte(c)|
  {
    assert (s + [c])[..|s|] == s;
  }

  lemma {:induction false} EscapedPlain(before: bytes, s: bytes)
    requires Plain(s)
    ensures |Json.Escape(before + s)| == |Json.Escape(before)| + |s|
  {
    hide Json.Escape;
    if s == [] {
      assert before + s == before;
    } else {
      var init, c := s[..|s| - 1], s[|s| - 1];
      assert c in s && forall x :: x in init ==> x in s;
      EscapedPlain(before, init);
      assert init + [c] == s;
      ConcatAssoc(before, init, [c]);
      EscapedByte(before + init, c);
    }
  }

  /** Whatever spelling the envelope gives the line, it delivers the certificate. */
  lemma {:induction false} LineDelivers(body: bytes, t: Tree, wire: SshCert.Wire, pl: Platform)
    requires Parsed(body, t, pl) && SshCert.Fits(wire)
    requires var raw := FieldOnTree(body, t, Some(Ascii("data")), Ascii("certificate"));
             raw.Some? && Json.Unescape(raw.value) == Some(CertLine(wire))
    ensures Delivers(body, wire, pl)
  {
    CertLineReads(wire);
    CStrOfNulFree(CertLine(wire));
    RawFieldOnTree(body, pl.tokenise(body), t, Some(Ascii("data")), Ascii("certificate"));
    hide RawField, FieldOnTree, Holds, Nested, Ascii, Json.Unescape, CertOf, CertLine, Delivers, CStr;
    DeliversIff(body, wire, pl);
  }

  lemma {:induction false} EnvelopeFits(error: bytes, wire: SshCert.Wire)
    requires |error| <= 1000 && SshCert.Fits(wire)
    ensures 0 < |Envelope(error, Json.Escape(CertLine(wire)))| <= Json.MAX_RESPONSE
  {
    LineEscapes(wire);
    hide Json.Escape, CertLine;
    EnvelopeParts(error, Json.Escape(CertLine(wire)));
  }

  /** An approved envelope with a certificate and an error: it has grounds exactly when the certificate
      is vouched for and the error is empty or missed. */
  lemma {:induction false} BesideError(error: bytes, wire: SshCert.Wire, cas: seq<CaKey>, user: bytes, cfg: Config,
                                       w: World, pl: Platform)
    requires SshCert.Fits(wire) && w.point.Some?
    requires var line := Json.Escape(CertLine(wire)); Parsed(Envelope(error, line), EnvelopeTree(error, line), pl)
    ensures var e := Event(Ascii("approved"), Envelope(error, Json.Escape(CertLine(wire))));
            Grounds(e, wire, cas, user, cfg, w, pl) <==>
            (error == [] || Missed(error)) && Vouched(wire, cas, user, cfg, w, pl)
  {
    var line := Json.Escape(CertLine(wire));
    var body, t := Envelope(error, line), EnvelopeTree(error, line);
    LineEscapes(wire);
    EnvelopeReads(error, line);
    hide Envelope, EnvelopeTree, Json.Escape, Json.Unescape, Parsed, Vouched, Delivers, Ascii, ErrorText, Missed,
         FieldOnTree, EnvelopeError;
    ErrorIff(body, t, pl);
    LineDelivers(body, t, wire, pl);
  }

  /** 512 bytes of any one letter. */
  const LONG_ERROR: bytes := seq(512, _ => 'x' as int)

  /** An approval of a vouched certificate succeeds beside an error of 512 bytes, and fails beside one
      byte less of it. */
  lemma {:induction false} LongErrorIgnored(wire: SshCert.Wire, cas: seq<CaKey>, user: bytes, cfg: Config, w: World,
                                            pl: Platform)
    requires SshCert.Fits(wire) && w.point.Some? && Vouched(wire, cas, user, cfg, w, pl)
    requires var line := Json.Escape(CertLine(wire));
             && Parsed(Envelope(LONG_ERROR, line), EnvelopeTree(LONG_ERROR, line), pl)
             && Parsed(Envelope(LONG_ERROR[1..], line), EnvelopeTree(LONG_ERROR[1..], line), pl)
    ensures var line := Json.Escape(CertLine(wire));
            && Grounds(Event(Ascii("approved"), Envelope(LONG_ERROR, line)), wire, cas, user, cfg, w, pl)
            && !Grounds(Event(Ascii("approved"), Envelope(LONG_ERROR[1..], line)), wire, cas, user, cfg, w, pl)
  {
    hide Envelope, EnvelopeTree, Json.Escape, CertLine, Parsed, Vouched, Grounds, Ascii;
    LongIsMissed(LONG_ERROR);
    PlainUnescapes(LONG_ERROR[1..]);
    BesideError(LONG_ERROR, wire, cas, user, cfg, w, pl);
    BesideError(LONG_ERROR[1..], wire, cas, user, cfg, w, pl);
  }
}
