/** A run that succeeds, from the configuration to the code, with every text written out. */
module SampleRun {
  import opened Bytes
  import opened Cutting
  import opened Sse
  import opened Waiting
  import opened Httpc
  import opened Checks
  import opened JsonLookup
  import opened Auth
  import CertText
  import CreateBody
  import Base64
  import Delivery
  import EventText
  import Json
  import SshCert
  import SshKey
  import SshWire
  import Url

  // ------------------------------------------------------------------ the request

  /** {"data":{"events_url":"/e","approval_url":"/a"}} */
  const CREATED :=
    Ascii("{\"data\":") + (Ascii("{\"events_url\":") + (Ascii("\"/e\",") + (Ascii("\"approval_url\":")
    + Ascii("\"/a\"}}"))))

  const CREATED_TREE := Record(0, 48, [
    Member(2, 6, Record(8, 47, [
      Member(10, 20, Leaf(String, 23, 25)),
      Member(28, 40, Leaf(String, 43, 45))]))])

  lemma {:induction false} DataInside()
    ensures Ascii("{\"data\":")[2..6] == Ascii("data")
  {}

  lemma {:induction false} EventsInside()
    ensures Ascii("{\"events_url\":")[2..12] == Ascii("events_url")
  {}

  lemma {:induction false} ApprovalInside()
    ensures Ascii("\"approval_url\":")[1..13] == Ascii("approval_url")
  {}

  lemma {:induction false} PathsInside()
    ensures Ascii("\"/e\",")[1..3] == Ascii("/e") && Ascii("\"/a\"}}")[1..3] == Ascii("/a")
  {}

  /** Part of the first or of the second of two joined texts. */
  lemma {:induction false} Inside(a: bytes, b: bytes, i: nat, j: nat)
    ensures i <= j <= |a| ==> (a + b)[i..j] == a[i..j]
    ensures i <= j <= |b| ==> (a + b)[|a| + i..|a| + j] == b[i..j]
  {}

  lemma {:induction false} CreatedParts()
    ensures |CREATED| == 48
    ensures CREATED[2..6] == Ascii("data") && CREATED[10..20] == Ascii("events_url") && CREATED[23..25] == Ascii("/e")
    ensures CREATED[28..40] == Ascii("approval_url") && CREATED[43..45] == Ascii("/a")
  {
    DataInside();
    EventsInside();
    ApprovalInside();
    PathsInside();
    hide Ascii;
    var a, b, c := Ascii("{\"data\":"), Ascii("{\"events_url\":"), Ascii("\"/e\",");
    var d, e := Ascii("\"approval_url\":"), Ascii("\"/a\"}}");
    Inside(a, b + (c + (d + e)), 2, 6);
    Inside(a, b + (c + (d + e)), 2, 12);
    Inside(a, b + (c + (d + e)), 15, 17);
    Inside(a, b + (c + (d + e)), 20, 32);
    Inside(a, b + (c + (d + e)), 35, 37);
    Inside(b, c + (d + e), 2, 12);
    Inside(b, c + (d + e), 1, 3);
    Inside(b, c + (d + e), 6, 18);
    Inside(b, c + (d + e), 21, 23);
    Inside(c, d + e, 1, 3);
    Inside(c, d + e, 1, 13);
    Inside(c, d + e, 16, 18);
    Inside(d, e, 1, 13);
    Inside(d, e, 1, 3);
  }

  lemma {:induction false} NamesApart()
    ensures |Ascii("data")| == 4 && |Ascii("approval_url")| == 12 && |Ascii("events_url")| == 10
    ensures Ascii("events_url") != Ascii("expires_at") && |Ascii("expires_at")| == 10
  {
    assert Ascii("events_url")[1] == 'v' as int && Ascii("expires_at")[1] == 'x' as int;
  }

  /** What the create response holds: the two paths, and no expiry. */
  lemma {:induction false} CreatedReads()
    ensures Nested(CREATED_TREE)
    ensures var data := Some(Ascii("data"));
            && FieldOnTree(CREATED, CREATED_TREE, data, Ascii("events_url")) == Some(Ascii("/e"))
            && FieldOnTree(CREATED, CREATED_TREE, data, Ascii("approval_url")) == Some(Ascii("/a"))
            && FieldOnTree(CREATED, CREATED_TREE, data, Ascii("expires_at")) == None
  {
    CreatedParts();
    NamesApart();
    CreatedNested();
    hide Ascii, Nested, FirstMember;
    var t := CREATED_TREE;
    var inner := t.members[0].value;
    FirstMemberIff(CREATED, t.members, Ascii("data"), 0);
    FirstMemberIff(CREATED, inner.members, Ascii("events_url"), 0);
    FirstMemberIff(CREATED, inner.members, Ascii("approval_url"), 1);
    FirstMemberIff(CREATED, inner.members, Ascii("expires_at"), 0);
  }

  lemma {:induction false} CreatedNested()
    ensures Nested(CREATED_TREE)
  {
    var inner := CREATED_TREE.members[0].value;
    assert NestedMembers(inner.members[1..][1..], 45, 47);
    assert NestedMembers(inner.members[1..], 25, 47);
    assert NestedMembers(inner.members, 8, 47);
    assert NestedMember(CREATED_TREE.members[0]);
    assert NestedMembers(CREATED_TREE.members[1..], 47, 48);
    assert NestedMembers(CREATED_TREE.members, 0, 48);
  }

  /** A short text without a backslash as a field of the response. */
  lemma {:induction false} ShortField(w: World, pl: Platform, field: bytes, text: bytes)
    requires w.created == CREATED && Delivery.Parsed(CREATED, CREATED_TREE, pl)
    requires FieldOnTree(CREATED, CREATED_TREE, Some(Ascii("data")), field) == Some(text)
    requires |text| == 2 && BACKSLASH !in text && NulFree(text)
    ensures DataField(w.created, pl, field, 1024) == Some(text) && Buffered(w.created, pl, field, 1024) == text
  {
    RawFieldOnTree(CREATED, pl.tokenise(CREATED), CREATED_TREE, Some(Ascii("data")), field);
    Delivery.PlainUnescapes(text);
    Json.PartialIsWhole(text, 1023);
    CStrOfNulFree(text);
    hide RawField, FieldOnTree, Holds, Nested, Ascii, Json.Unescape, Json.Partial, CStr;
  }

  const SERVER := Ascii("https://s")

  lemma {:induction false} PathsArePaths()
    ensures Ascii("/e") == [SLASH, 'e' as int] && Ascii("/a") == [SLASH, 'a' as int]
    ensures Ascii("/") == [SLASH] && Ascii("//") == [SLASH, SLASH] && |SERVER| == 9 && SERVER != []
    ensures BACKSLASH !in Ascii("/e") && BACKSLASH !in Ascii("/a") && NulFree(Ascii("/e")) && NulFree(Ascii("/a"))
  {}

  /** The create call leads on to the events URL. */
  lemma {:induction false} UrlFound(cfg: Config, w: World, pl: Platform)
    requires cfg.server == SERVER && cfg.mode == Sudo && w.create == HttpOk && w.created == CREATED
    requires Delivery.Parsed(CREATED, CREATED_TREE, pl)
    ensures EventsUrl(cfg, w, pl) == Go(SERVER + Ascii("/e"))
    ensures DataField(w.created, pl, Ascii("expires_at"), 64) == None
  {
    CreatedReads();
    PathsArePaths();
    ShortField(w, pl, Ascii("events_url"), Ascii("/e"));
    ShortField(w, pl, Ascii("approval_url"), Ascii("/a"));
    RawFieldOnTree(CREATED, pl.tokenise(CREATED), CREATED_TREE, Some(Ascii("data")), Ascii("expires_at"));
    Url.JoinIff(SERVER, Ascii("/e"), 1024, SERVER + Ascii("/e"));
    Url.JoinIff(SERVER, Ascii("/a"), 1024, SERVER + Ascii("/a"));
    hide RawField, FieldOnTree, Holds, Nested, Ascii, Json.Unescape, Json.Partial, CStr, Url.Join, CREATED, SERVER;
  }

  // ------------------------------------------------------------- the trusted key

  lemma {:induction false} OneTrustedKey(ca: bytes, supports: SshKey.Supports)
    requires |ca| <= SshKey.MAX_POINT && supports(SshKey.P384)
    ensures TrustedKeys(CaData(SshKey.GeneratedLine(ca)), supports) ==
            Go([SshKey.CaKey(SshKey.BlobP384(ca), SshKey.P384)])
  {
    hide TrustedKeys, SshKey.GeneratedLine, SshKey.CaLine, SshKey.BlobP384, SshKey.P384, Pieces;
    var line := SshKey.GeneratedLine(ca);
    SshKey.GeneratedLineReads(ca);
    GeneratedLineShape(ca);
    PiecesOne(line, LF);
    OneLineFile(line, SshKey.BlobP384(ca), SshKey.P384, supports);
  }

  lemma {:induction false} OneLineFile(line: bytes, blob: bytes, algo: bytes, supports: SshKey.Supports)
    requires |line| < SshKey.MAX_CA_FILE && Pieces(line, LF) == [line]
    requires SshKey.CaLine(line) == SshKey.Key(blob, algo) && supports(algo)
    ensures TrustedKeys(CaData(line), supports) == Go([SshKey.CaKey(blob, algo)])
  {
    hide Pieces, SshKey.CaLine;
    var none: seq<bytes> := [];
    assert none + [line] == [line];
    SshKey.CaList.CaStep(none, line, [line], supports);
    assert SshKey.Usable(none, supports) == [];
    assert SshKey.Usable([line], supports) == [SshKey.CaKey(blob, algo)];
    assert !SshKey.Spoilt([line], supports);
    assert SshKey.CaAnswer([line], supports) == SshKey.CaOk;
  }

  lemma {:induction false} GeneratedLineShape(ca: bytes)
    requires |ca| <= SshKey.MAX_POINT
    ensures |SshKey.GeneratedLine(ca)| < SshKey.MAX_CA_FILE && LF !in SshKey.GeneratedLine(ca)
  {
    SshKey.P384Spelled();
    SshKey.GeneratedKeyFits(ca);
    SshKey.EncodedHasNoSpace(SshKey.BlobP384(ca));
    hide SshKey.BlobP384, SshKey.P384, Base64.Encode;
    assert SshKey.White(LF) && !(LF == SPACE);
  }

  // ---------------------------------------------------------------- the delivery

  const CERT_NAME := "ecdsa-sha2-nistp384-cert-v01@openssh.com"

  /** The certificate's line. */
  function LineOf(c: CertText.Written): bytes
    requires CertText.Fits(c)
  {
    SshKey.AuthorizedLine(Ascii(CERT_NAME), CertText.Text(CERT_NAME, c))
  }

  /** {"error":"","data":{"certificate":"..."}} with the line escaped. */
  function EnvelopeOf(c: CertText.Written): bytes
    requires CertText.Fits(c)
  {
    Delivery.Envelope([], Json.Escape(LineOf(c)))
  }

  function EnvelopeTreeOf(c: CertText.Written): Tree
    requires CertText.Fits(c)
  {
    Delivery.EnvelopeTree([], Json.Escape(LineOf(c)))
  }

  /** A certificate over this attempt's point that the reader takes. */
  predicate Issued(c: CertText.Written, point: bytes) {
    && |point| <= 256 && c.fields == [Ascii("nistp384"), point] && CertText.Fits(c)
    && |CertText.Text(CERT_NAME, c)| <= 32768
  }

  lemma {:induction false} IssuedParses(c: CertText.Written, point: bytes)
    requires Issued(c, point)
    ensures var wire := CertText.Wire(CERT_NAME, c);
            && SshCert.Fits(wire) && SshCert.Serialise(wire) == CertText.Text(CERT_NAME, c)
            && SshCert.Signed(wire) == CertText.Signed(CERT_NAME, c)
            && CStr(wire.head.algo) == Ascii(CERT_NAME) && Delivery.CertLine(wire) == LineOf(c)
            && SshCert.BaseAlgo(CStr(wire.head.algo), SshWire.NAME_CAP) == Some(SshKey.P384)
  {
    CertText.GeneratedKey(point, c);
    CertText.SameName();
    CertText.KnownName("ecdsa-sha2-nistp384", 2);
    CStrOfNulFree(Ascii(CERT_NAME));
    hide CertText.Key, CertText.Text, CertText.Signed, SshCert.Fits, SshCert.Serialise, SshCert.Signed,
         SshCert.BaseAlgo, Ascii, CStr, SshCert.FieldsFor, SshCert.PartsFit;
    CertText.WrittenParses("ecdsa-sha2-nistp384", 2, c);
    FitsMeans(CertText.Wire(CERT_NAME, c));
  }

  lemma {:induction false} FitsMeans(wire: SshCert.Wire)
    requires SshCert.Fits(wire)
    ensures SshCert.PartsFit(wire)
  {}

  /** A key that verifies it vouches for it, when it names the account and the clock is inside its window. */
  lemma {:induction false} IssuedIsVouched(c: CertText.Written, point: bytes, ca: SshKey.CaKey, user: bytes,
                                           cfg: Config, w: World, pl: Platform)
    requires Issued(c, point) && w.point == Some(point) && cfg.skewTolerance == 0 && NulFree(c.sigAlgo)
    requires pl.verify(c.sigAlgo, ca.blob, CertText.Signed(CERT_NAME, c), c.sig) == VerifyOk
    requires user in c.principals && c.validAfter <= w.clockAtCheck <= c.validBefore <= 9_223_372_036_854_775_807
    ensures var wire := CertText.Wire(CERT_NAME, c);
            SshCert.PartsFit(wire) && Vouched(wire, [ca], user, cfg, w, pl)
  {
    IssuedParses(c, point);
    CStrOfNulFree(c.sigAlgo);
    var wire := CertText.Wire(CERT_NAME, c);
    FitsMeans(wire);
    hide Ascii, SshCert.Fits, SshCert.PartsFit, SshCert.Signed, SshCert.KeyBlob, CertText.Signed, CertText.Text, CStr,
         InWindow, SshCert.BaseAlgo;
    WindowByNumbers(SshCert.View(wire), w.clockAtCheck, 0, 0);
    assert ca in [ca];
  }

  // --------------------------------------------------------------------- the wait

  lemma {:induction false} EnvelopeIsOneLine(c: CertText.Written, point: bytes)
    requires Issued(c, point)
    ensures EventText.OneLine(EnvelopeOf(c)) && 0 < |EnvelopeOf(c)| <= Json.MAX_RESPONSE
  {
    IssuedParses(c, point);
    var wire := CertText.Wire(CERT_NAME, c);
    hide Issued, LineOf, Json.Escape, SshCert.Fits, SshCert.Serialise, Delivery.CertLine;
    Delivery.LineEscapes(wire);
    Delivery.EnvelopeFits([], wire);
    Json.EscapedIsText(LineOf(c));
    EnvelopePrints(Json.Escape(LineOf(c)));
  }

  lemma {:induction false} EnvelopePrints(line: bytes)
    requires forall x :: x in line ==> 0x20 <= x
    requires |line| <= MAX_CERT_LINE
    ensures EventText.OneLine(Delivery.Envelope([], line))
  {
    Delivery.PartLengths();
    FramePrints();
    hide Delivery.BEFORE_ERROR, Delivery.BEFORE_DATA, Delivery.BEFORE_LINE, Delivery.AFTER_LINE;
  }

  lemma {:induction false} FramePrints()
    ensures forall x :: x in Delivery.BEFORE_ERROR ==> 0x20 <= x
    ensures forall x :: x in Delivery.BEFORE_DATA ==> 0x20 <= x
    ensures forall x :: x in Delivery.BEFORE_LINE ==> 0x20 <= x
    ensures forall x :: x in Delivery.AFTER_LINE ==> 0x20 <= x
  {
    TextPrints("error");
    TextPrints("data");
    TextPrints("certificate");
    hide Ascii;
  }

  lemma {:induction false} TextPrints(s: string)
    requires forall i :: 0 <= i < |s| ==> 0x20 <= s[i] as int < 128
    ensures forall x :: x in Ascii(s) ==> 0x20 <= x
  {}

  /** One connection that answers 200 and hands over one event in one piece. */
  function Delivering(body: bytes): Connection {
    Connection(true, 200, [Poll(0, false, [OneEvent(Ascii("approved"), body)], TransferDone)],
               Pause(0, false, 0, false, false))
  }

  lemma {:induction false} WaitDelivers(body: bytes, deadline: int)
    requires EventText.OneLine(body) && deadline > 0
    ensures Loop([Delivering(body)], 0, deadline, 0, Outcome(false, [], [])) ==
            Ended(HttpOk, 200, Outcome(true, Ascii("approved"), body), 1)
  {
    var c := Delivering(body);
    DeliveringBody(body, deadline);
    ApprovedIsName();
    hide Ascii, OneEvent, PollLoop, Body, Delivering, EventText.OneLine;
    EventDecides(c, deadline, 0, Outcome(false, [], []), Ascii("approved"), body);
  }

  lemma {:induction false} ApprovedIsName()
    ensures var name := Ascii("approved"); EventText.OneLine(name) && NulFree(name) && |name| < 128
  {}

  lemma {:induction false} DeliveringBody(body: bytes, deadline: int)
    requires deadline > 0
    ensures var c := Delivering(body);
            && c.setup && c.code == 200 && PollLoop(c, deadline, 0, START).ending == Finished
            && Body(c, deadline) == OneEvent(Ascii("approved"), body)
  {
    hide Ascii, OneEvent, Perform;
    var c := Delivering(body);
    assert c.polls[..1] == c.polls;
    assert c.polls[..0] == [] && Chunks(c.polls[..0]) == [];
    var chunk := OneEvent(Ascii("approved"), body);
    assert Chunks(c.polls) == [chunk];
    var none: seq<bytes> := [];
    assert [chunk][..0] == none && Sse.Flatten([chunk]) == [] + chunk;
  }

  // ---------------------------------------------------------------------- the run

  const NOTHING_TOLD := CreateBody.Details([], [], [], [], [], [], 0, 0, 0, [], [], [], [], [], [])

  /** Sixty seconds against one server, approval in the browser. */
  const CONFIG := Config(SERVER, Ascii("/ca"), false, Sudo, 0, 60_000_000_000)

  /** A world with one trusted key in which the server answers and one connection brings the certificate. */
  function Met(ca: bytes, point: bytes, c: CertText.Written, now: int): World
    requires |ca| <= 256 && CertText.Fits(c)
  {
    World(true, CaData(SshKey.GeneratedLine(ca)), false, false, Some(point), NOTHING_TOLD, 0, HttpOk, CREATED, 0, 0,
          [Delivering(EnvelopeOf(c))], false, NoMap, now)
  }

  lemma {:induction false} EscapeGrows(s: bytes)
    ensures |Json.Escape(s)| <= 6 * |s|
  {
    if s != [] {
      EscapeGrows(s[..|s| - 1]);
    }
  }

  lemma {:induction false} QuotedGrows(s: bytes)
    ensures |CreateBody.Quoted(s)| <= 6 * |s| + 2
  {
    EscapeGrows(CStr(s));
    hide CStr, Json.Escape;
  }

  lemma {:induction false} CallerIsShort(mode: bytes)
    requires |mode| <= 7
    ensures var d := NOTHING_TOLD.(mode := mode);
            CreateBody.Context(d) == [] && |CreateBody.Caller(d)| <= 200
  {
    QuotedGrows(mode);
    hide CreateBody.Quoted, Ascii;
  }

  lemma {:induction false} ModeIsShort(mode: Mode)
    ensures |ModeName(mode)| <= 7
  {}

  /** Without details the body is short. */
  lemma {:induction false} BodyIsShort(user: bytes, key: bytes, fingerprint: bytes, mode: Mode)
    requires |user| <= 100 && |key| <= 600 && |fingerprint| <= 200
    ensures |CreateBody.BodyOf(user, key, NOTHING_TOLD.(mode := ModeName(mode)), [fingerprint])| < 8000
  {
    QuotedGrows(user);
    QuotedGrows(key);
    QuotedGrows(fingerprint);
    ModeIsShort(mode);
    CallerIsShort(ModeName(mode));
    hide CreateBody.Quoted, Ascii, CreateBody.Context, CreateBody.Caller, ModeName;
  }

  lemma {:induction false} RequestIsShort(user: bytes, ca: SshKey.CaKey, point: bytes, w: World, pl: Platform)
    requires |user| <= 100 && |pl.fingerprint(ca.blob)| <= 200 && |point| <= 256 && w.details == NOTHING_TOLD
    ensures |RequestBody(user, SshKey.BlobP384(point), [ca], CONFIG, w, pl)| < 8000
  {
    var key := SshKey.AuthorizedLine(SshKey.P384, SshKey.BlobP384(point));
    KeyLineIsShort(point);
    var cas := [ca];
    BodyIsShort(user, key, pl.fingerprint(ca.blob), Sudo);
    hide CreateBody.BodyOf, SshKey.AuthorizedLine, SshKey.P384, SshKey.BlobP384, ModeName, NOTHING_TOLD;
    assert seq(|cas|, i requires 0 <= i < |cas| => pl.fingerprint(cas[i].blob)) == [pl.fingerprint(ca.blob)];
  }

  lemma {:induction false} KeyLineIsShort(point: bytes)
    requires |point| <= 256
    ensures |SshKey.AuthorizedLine(SshKey.P384, SshKey.BlobP384(point))| <= 600
  {
    SshKey.P384Spelled();
    hide SshKey.P384, SshKey.P384_CURVE, Base64.Encode;
  }

  lemma {:induction false} MetPrepares(user: bytes, ca: bytes, point: bytes, c: CertText.Written, now: int,
                                       pl: Platform)
    requires |user| <= 100 && |ca| <= 256 && |point| <= 256 && CertText.Fits(c)
    requires pl.supports(SshKey.P384) && |pl.fingerprint(SshKey.BlobP384(ca))| <= 200
    requires Plausible(CONFIG, Met(ca, point, c, now))
    ensures Prepared(user, CONFIG, Met(ca, point, c, now), pl) ==
            Go(([SshKey.CaKey(SshKey.BlobP384(ca), SshKey.P384)], SshKey.BlobP384(point)))
  {
    var w, key := Met(ca, point, c, now), SshKey.CaKey(SshKey.BlobP384(ca), SshKey.P384);
    PathsArePaths();
    OneTrustedKey(ca, pl.supports);
    RequestIsShort(user, key, point, w, pl);
    hide TrustedKeys, RequestBody, SshKey.BlobP384, SshKey.GeneratedLine, SshKey.P384, NOTHING_TOLD, EnvelopeOf, SERVER;
    assert CONFIG.trustedCaFile != [];
  }

  /** The event reaches the record. */
  lemma {:induction false} MetDelivers(ca: bytes, point: bytes, c: CertText.Written, now: int, pl: Platform)
    requires |ca| <= 256 && Issued(c, point) && Delivery.Parsed(CREATED, CREATED_TREE, pl)
    ensures Delivered(Event(Ascii("approved"), EnvelopeOf(c)), CONFIG, Met(ca, point, c, now), pl)
  {
    var w, e := Met(ca, point, c, now), Event(Ascii("approved"), EnvelopeOf(c));
    UrlFound(CONFIG, w, pl);
    DeadlineByNumbers(CONFIG, w, pl, 60_000);
    EnvelopeIsOneLine(c, point);
    hide Ascii, EnvelopeOf, EventsUrl, Deadline, Loop, DataField, SshKey.GeneratedLine, Delivering, Issued,
         FirstTerminal, Events, Body, CREATED, NOTHING_TOLD, SERVER;
    WaitDelivers(e.data, Deadline(CONFIG, w, pl));
    DeliveredEvent(CONFIG, w, pl);
    var d :| Delivered(d, CONFIG, w, pl) && Auth.Wait(CONFIG, w, pl).wait == Outcome(true, d.name, d.data);
    assert d == e;
  }

  /** The P-384 key over a point. */
  function KeyOver(point: bytes): bytes
    requires |point| <= 256
  {
    SshWire.Str(Ascii("ecdsa-sha2-nistp384")) + SshWire.Str(Ascii("nistp384")) + SshWire.Str(point)
  }

  lemma {:induction false} KeyOverIs(point: bytes)
    requires |point| <= 256
    ensures KeyOver(point) == SshKey.BlobP384(point)
  {
    hide SshWire.Str, Ascii;
    ConcatAssoc(SshWire.Str(SshKey.P384), SshWire.Str(SshKey.P384_CURVE), SshWire.Str(point));
  }

  lemma {:induction false} MetIsPlausible(ca: bytes, point: bytes, c: CertText.Written, now: int)
    requires |ca| <= 256 && |point| <= 256 && CertText.Fits(c) && 0 <= now <= 9_223_372_036_854_775_807
    ensures Plausible(CONFIG, Met(ca, point, c, now)) && Met(ca, point, c, now).point == Some(point)
  {}

  /** A certificate that a trusted key verifies, written under its literal name for the account, over the
      point generated for this attempt and valid now, gets its user in when an `approved` event brings it:
      whatever its nonce, serial, key ID, window and remaining fields hold. */
  lemma {:induction false} ApprovedRunSucceeds(user: bytes, ca: bytes, point: bytes, c: CertText.Written, now: int,
                                               pl: Platform)
    requires |user| <= 100 && |ca| <= 256 && |point| <= 256 && Issued(c, point) && NulFree(c.sigAlgo)
    requires user in c.principals && c.validAfter <= now <= c.validBefore <= 9_223_372_036_854_775_807
    requires var key := KeyOver(ca);
             && pl.supports(Ascii("ecdsa-sha2-nistp384")) && |pl.fingerprint(key)| <= 200
             && pl.verify(c.sigAlgo, key, CertText.Signed(CERT_NAME, c), c.sig) == VerifyOk
    requires Delivery.Parsed(CREATED, CREATED_TREE, pl) && Delivery.Parsed(EnvelopeOf(c), EnvelopeTreeOf(c), pl)
    ensures Plausible(CONFIG, Met(ca, point, c, now))
    ensures Answer(user, CONFIG, Met(ca, point, c, now), pl) == Some(Success)
  {
    var w, e := Met(ca, point, c, now), Event(Ascii("approved"), EnvelopeOf(c));
    var wire := CertText.Wire(CERT_NAME, c);
    KeyOverIs(ca);
    var key := SshKey.CaKey(SshKey.BlobP384(ca), SshKey.P384);
    MetIsPlausible(ca, point, c, now);
    MetPrepares(user, ca, point, c, now, pl);
    MetDelivers(ca, point, c, now, pl);
    IssuedParses(c, point);
    IssuedIsVouched(c, point, key, user, CONFIG, w, pl);
    hide SshKey.BlobP384, Ascii, Json.Escape, LineOf, Delivery.Envelope, Delivery.EnvelopeTree, Delivery.CertLine,
         Delivery.Parsed, Vouched, Grounds, SshCert.Fits, Issued, Prepared, Delivered, Answer, CertText.Signed, Met,
         CONFIG, Plausible, CREATED, CREATED_TREE, KeyOver, CStr;
    Delivery.BesideError([], wire, [key], user, CONFIG, w, pl);
    SuccessIff(user, CONFIG, w, pl);
    assert Grounds(e, wire, [key], user, CONFIG, w, pl);
  }
}
