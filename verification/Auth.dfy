/** One authentication: from the configuration to the code the PAM stack sees. */
module Auth {
  import opened Bytes
  import opened Cutting
  import opened Sse
  import opened Waiting
  import opened Httpc
  import opened Checks
  import opened JsonLookup
  import Base64
  import Civil
  import CreateBody
  import Json
  import Map = PrincipalsMap
  import SshCert
  import SshKey
  import SshWire
  import Url

  const MILLISECOND := 1000_000
  const MAX_CERT_LINE := SshCert.MAX_CERT * 4 / 3 + 128
  const MAX_URL := 1024
  const MAX_CODE := 64
  const MAX_EXPIRES := 64
  const MAX_ERROR := 512

  datatype Pam = Success | UserUnknown | NoModuleData | Abort | Ignore | AuthinfoUnavail | AuthErr

  datatype Mode = Console | Sudo | Auto

  datatype Config = Config(
    server: bytes, trustedCaFile: bytes, sshOnly: bool, mode: Mode, skewTolerance: int, timeout: int)

  datatype CaFile = UnreadableCa | CaData(data: bytes)

  /** What one run meets: files, the session, key generation, the create call, clocks and connections. */
  datatype World = World(
    memory: bool, caFile: CaFile, sshSession: bool, consoleSession: bool,
    point: Option<bytes>, details: CreateBody.Details,
    startMs: int, create: HttpResult, created: bytes,
    clockAtExpiry: int, msAtExpiry: int,
    connections: seq<Connection>, interrupted: bool,
    mapping: MapFile, clockAtCheck: int)

  /** What the platform supplies: usable key types, verification, fingerprints and the JSON tokeniser. */
  datatype Platform = Platform(
    supports: SshKey.Supports, verify: Verify, fingerprint: bytes -> bytes, tokenise: Tokenise)

  /** The public point is read into a 256-byte buffer, and the clock is a 64-bit count. */
  predicate Plausible(cfg: Config, w: World) {
    && (w.point.Some? ==> |w.point.value| <= SshKey.MAX_POINT)
    && FitsInt64(w.clockAtCheck) && FitsInt64(cfg.skewTolerance)
  }

  datatype Stage<T> = Stop(code: Pam) | Go(value: T)

  // ------------------------------------------------------------- before the wait

  /** The code for a failed exchange. */
  function HttpToPam(r: HttpResult): Pam {
    match r
    case HttpOk => Success
    case Cancelled => Ignore
    case TimedOut => AuthErr
    case StatusRefused | TooLarge | Transport => AuthinfoUnavail
    case Internal => Abort
  }

  ghost function TrustedKeys(file: CaFile, supports: SshKey.Supports): (r: Stage<seq<SshKey.CaKey>>)
    ensures r.Stop? ==> r.code == NoModuleData
  {
    match file
    case UnreadableCa => Stop(NoModuleData)
    case CaData(data) =>
      var lines := Pieces(data, LF);
      if |data| >= SshKey.MAX_CA_FILE || SshKey.CaAnswer(lines, supports) != SshKey.CaOk then Stop(NoModuleData)
      else Go(First(SshKey.Usable(lines, supports), SshKey.MAX_CAS))
  }

  function ModeName(mode: Mode): bytes {
    match mode
    case Console => Ascii("console")
    case Sudo => Ascii("sudo")
    case Auto => Ascii("auto")
  }

  /** The create request's body for a key blob. */
  function RequestBody(user: bytes, key: bytes, cas: seq<SshKey.CaKey>, cfg: Config, w: World, pl: Platform): bytes {
    CreateBody.BodyOf(user, SshKey.AuthorizedLine(SshKey.P384, key), w.details.(mode := ModeName(cfg.mode)),
                      seq(|cas|, i requires 0 <= i < |cas| => pl.fingerprint(cas[i].blob)))
  }

  /** Configuration, trusted keys, this attempt's key and the request: nothing is armed yet. */
  ghost function Prepared(user: bytes, cfg: Config, w: World, pl: Platform): Stage<(seq<SshKey.CaKey>, bytes)>
    requires Plausible(cfg, w)
  {
    if cfg.server == [] then Stop(UserUnknown)
    else if cfg.trustedCaFile == [] then Stop(NoModuleData)
    else if !w.memory then Stop(Abort)
    else match TrustedKeys(w.caFile, pl.supports)
      case Stop(code) => Stop(code)
      case Go(cas) =>
        if cfg.sshOnly && !w.sshSession then Stop(Ignore)
        else if w.point.None? then Stop(Abort)
        else
          var key := SshKey.BlobP384(w.point.value);
          if |RequestBody(user, key, cas, cfg, w, pl)| + 1 > CreateBody.MAX_BODY then Stop(Abort)
          else Go((cas, key))
  }

  /** A field of the create response as a C string. */
  function DataField(body: bytes, pl: Platform, field: bytes, cap: nat): Option<bytes> {
    match StringField(body, pl.tokenise(body), Some(Ascii("data")), field, cap)
    case None => None
    case Some(s) => Some(CStr(s))
  }

  /** What an optional field leaves in its zeroed buffer, read through or refused part way. */
  function Buffered(body: bytes, pl: Platform, field: bytes, cap: nat): bytes
    requires cap > 0
  {
    match RawField(body, pl.tokenise(body), Some(Ascii("data")), field)
    case None => []
    case Some(raw) => CStr(Json.Partial(raw, cap - 1))
  }

  /** The console flow by configuration, or by what the session looks like. */
  predicate OnConsole(cfg: Config, w: World) {
    cfg.mode.Console? || (cfg.mode.Auto? && w.consoleSession)
  }

  /** The response holds what its prompt shows: a code and a page, or a usable approval URL. */
  predicate CanPrompt(cfg: Config, w: World, pl: Platform) {
    if OnConsole(cfg, w) then
      && Buffered(w.created, pl, Ascii("user_code"), MAX_CODE) != []
      && Buffered(w.created, pl, Ascii("verification_url"), MAX_URL) != []
    else
      Url.Join(cfg.server, Buffered(w.created, pl, Ascii("approval_url"), MAX_URL), MAX_URL).Some?
  }

  /** The create call and what has to follow from it before the wait. */
  function EventsUrl(cfg: Config, w: World, pl: Platform): (r: Stage<bytes>)
    ensures r.Stop? ==>
              r.code != Success && (r.code == AuthErr <==> w.create == TimedOut)
              && (r.code == Ignore <==> w.create == Cancelled)
    ensures r.Go? ==> w.create == HttpOk
  {
    if w.create != HttpOk then Stop(HttpToPam(w.create))
    else
      var rel := DataField(w.created, pl, Ascii("events_url"), MAX_URL);
      if rel.None? || rel.value == [] || !CanPrompt(cfg, w, pl) then Stop(AuthinfoUnavail)
      else match Url.Join(cfg.server, rel.value, MAX_URL)
        case None => Stop(AuthinfoUnavail)
        case Some(url) => Go(url)
  }

  /** Division towards zero. */
  function Truncated(a: int, b: nat): int
    requires b > 0
  {
    if a >= 0 then a / b else -(-a / b)
  }

  /** The earlier of the timeout and the server's own expiry, where it sends one that parses. */
  function Deadline(cfg: Config, w: World, pl: Platform): int {
    var timeout := w.startMs + Truncated(cfg.timeout, MILLISECOND);
    match DataField(w.created, pl, Ascii("expires_at"), MAX_EXPIRES)
    case None => timeout
    case Some(s) =>
      match Civil.ParseOf(s)
      case None => timeout
      case Some(expires) =>
        var server := w.msAtExpiry + (expires - w.clockAtExpiry) * 1000;
        if server < timeout then server else timeout
  }

  // ---------------------------------------------------------------- the decision

  /** The error texts that are seen: they decode, to fewer bytes than the buffer has, and neither to
      nothing nor to a NUL first. */
  predicate Seen(raw: bytes) {
    var text := Json.Unescape(raw);
    text.Some? && 0 < |text.value| < MAX_ERROR && text.value[0] != 0
  }

  /** The envelope's own "error" string, as it stands between its quotes, is one that is seen. */
  predicate EnvelopeError(response: bytes, pl: Platform) {
    var raw := RawField(response, pl.tokenise(response), None, Ascii("error"));
    raw.Some? && Seen(raw.value)
  }

  /** The certificate a line delivers. */
  function CertOf(line: bytes): Option<SshCert.Wire> {
    match SshKey.KeyOf(line, SshCert.MAX_CERT, SshWire.NAME_CAP)
    case Key(blob, _) =>
      (match SshCert.ParseOf(blob)
       case Accepted(wire) => Some(wire)
       case Refused(_) => None)
    case NoKey => None
    case BadLine => None
  }

  ghost predicate Passes(cert: SshCert.Cert, signed: bytes, cas: seq<SshKey.CaKey>, key: bytes,
      user: bytes, cfg: Config, w: World, pl: Platform) {
    && VerifyOk in Answers(cert, signed, cas, pl.verify)
    && KeyBound(cert, key)
    && PrincipalAllowed(cert, user, w.mapping)
    && InWindow(cert, w.clockAtCheck, cfg.skewTolerance)
  }

  ghost function Judged(o: Outcome, cas: seq<SshKey.CaKey>, key: bytes, user: bytes, cfg: Config, w: World,
                        pl: Platform): Pam {
    if EnvelopeError(o.response, pl) then AuthinfoUnavail
    else if o.status != Ascii("approved") then AuthErr
    else match DataField(o.response, pl, Ascii("certificate"), MAX_CERT_LINE)
      case None => AuthErr
      case Some(line) =>
        if line == [] || CertOf(line).None? then AuthErr
        else
          var wire := CertOf(line).value;
          if SshCert.PartsFit(wire) && Passes(SshCert.View(wire), SshCert.Signed(wire), cas, key, user, cfg, w, pl)
          then Success else AuthErr
  }

  /** From arming on; none while the wait goes on. */
  ghost function Armed(cas: seq<SshKey.CaKey>, key: bytes, user: bytes, cfg: Config, w: World,
                       pl: Platform): Option<Pam> {
    match EventsUrl(cfg, w, pl)
    case Stop(code) => Some(code)
    case Go(_) =>
      match Loop(w.connections, 0, Deadline(cfg, w, pl), 0, Outcome(false, [], []))
      case StillWaiting(_, _, _) => None
      case Ended(result, _, o, _) =>
        if result != HttpOk || !o.have then Some(HttpToPam(if result == HttpOk then Transport else result))
        else Some(Judged(o, cas, key, user, cfg, w, pl))
  }

  /** The code of a whole run. A Ctrl-C turns every answer of an armed run but success into "ignore". */
  ghost function Answer(user: bytes, cfg: Config, w: World, pl: Platform): Option<Pam>
    requires Plausible(cfg, w)
  {
    match Prepared(user, cfg, w, pl)
    case Stop(code) => Some(code)
    case Go((cas, key)) =>
      var code := Armed(cas, key, user, cfg, w, pl);
      if code.Some? && code.value != Success && w.interrupted then Some(Ignore) else code
  }

  // ----------------------------------------------------------- what success means

  /** A trusted key verifies the bytes before the signature; the subject key is this attempt's P-384
      point; the account may be used; and the clock is inside the window. */
  ghost predicate Vouched(wire: SshCert.Wire, cas: seq<SshKey.CaKey>, user: bytes, cfg: Config, w: World, pl: Platform)
    requires SshCert.PartsFit(wire) && w.point.Some?
  {
    && (exists ca :: ca in cas &&
          pl.verify(CStr(wire.sig.algo), ca.blob, SshCert.Signed(wire), wire.sig.body) == VerifyOk)
    && SshCert.BaseAlgo(CStr(wire.head.algo), SshWire.NAME_CAP) == Some(SshKey.P384)
    && wire.head.key == [SshKey.P384_CURVE, w.point.value]
    && PrincipalAllowed(SshCert.View(wire), user, w.mapping)
    && InWindow(SshCert.View(wire), w.clockAtCheck, cfg.skewTolerance)
  }

  /** The envelope's certificate line carries the serialisation of this user certificate. */
  ghost predicate Delivers(response: bytes, wire: SshCert.Wire, pl: Platform)
    ensures Delivers(response, wire, pl) ==> SshCert.PartsFit(wire)
  {
    var line := DataField(response, pl, Ascii("certificate"), MAX_CERT_LINE);
    && SshCert.Fits(wire)
    && line.Some? && line.value != []
    && SshKey.KeyOf(line.value, SshCert.MAX_CERT, SshWire.NAME_CAP).Key?
    && SshKey.KeyOf(line.value, SshCert.MAX_CERT, SshWire.NAME_CAP).blob == SshCert.Serialise(wire)
  }

  lemma {:induction false} DeliversIff(response: bytes, wire: SshCert.Wire, pl: Platform)
    ensures var line := DataField(response, pl, Ascii("certificate"), MAX_CERT_LINE);
            Delivers(response, wire, pl) <==> line.Some? && line.value != [] && CertOf(line.value) == Some(wire)
  {
    hide SshCert.Fits, SshCert.Serialise, SshCert.ParseOf, SshKey.KeyOf, StringField, SshCert.PartsFit;
    var line := DataField(response, pl, Ascii("certificate"), MAX_CERT_LINE);
    if line.Some? {
      var k := SshKey.KeyOf(line.value, SshCert.MAX_CERT, SshWire.NAME_CAP);
      if k.Key? {
        SshCert.ParseIff(k.blob, wire);
      }
    }
  }

  lemma {:induction false} PassesIff(wire: SshCert.Wire, cas: seq<SshKey.CaKey>, user: bytes, cfg: Config, w: World,
                                     pl: Platform)
    requires SshCert.Fits(wire) && w.point.Some? && |w.point.value| <= SshKey.MAX_POINT
    ensures Passes(SshCert.View(wire), SshCert.Signed(wire), cas, SshKey.BlobP384(w.point.value), user, cfg, w, pl)
            <==> Vouched(wire, cas, user, cfg, w, pl)
  {
    SshKey.KeyBindingIff(wire.head, w.point.value);
    hide PrincipalAllowed, InWindow, SshCert.KeyBlob, SshKey.BlobP384, SshCert.BaseAlgo, SshCert.Signed, CStr;
    var cert, signed := SshCert.View(wire), SshCert.Signed(wire);
    var answers := Answers(cert, signed, cas, pl.verify);
    if VerifyOk in answers {
      var i :| 0 <= i < |answers| && answers[i] == VerifyOk;
      assert cas[i] in cas;
    }
    if ca :| ca in cas && pl.verify(CStr(wire.sig.algo), ca.blob, signed, wire.sig.body) == VerifyOk {
      var i :| 0 <= i < |cas| && cas[i] == ca;
      assert answers[i] == VerifyOk;
    }
  }

  /** What an approval rests on: an approved event, no error beside it that is seen, and a vouched
      certificate in it. */
  ghost predicate Grounds(e: Event, wire: SshCert.Wire, cas: seq<SshKey.CaKey>, user: bytes, cfg: Config, w: World,
                          pl: Platform)
    requires w.point.Some?
  {
    && e.name == Ascii("approved") && !EnvelopeError(e.data, pl)
    && Delivers(e.data, wire, pl)
    && Vouched(wire, cas, user, cfg, w, pl)
  }

  lemma {:induction false} JudgedIff(e: Event, cas: seq<SshKey.CaKey>, user: bytes, cfg: Config, w: World, pl: Platform)
    requires w.point.Some? && |w.point.value| <= SshKey.MAX_POINT
    ensures Judged(Outcome(true, e.name, e.data), cas, SshKey.BlobP384(w.point.value), user, cfg, w, pl) == Success <==>
            exists wire :: Grounds(e, wire, cas, user, cfg, w, pl)
  {
    hide SshCert.Fits, SshCert.PartsFit, Passes, Vouched, EnvelopeError, CertOf, DataField, SshCert.View,
         SshCert.Signed, Ascii, Delivers;
    var key := SshKey.BlobP384(w.point.value);
    hide SshKey.BlobP384;
    var line := DataField(e.data, pl, Ascii("certificate"), MAX_CERT_LINE);
    if line.Some? && line.value != [] && CertOf(line.value).Some? {
      var wire := CertOf(line.value).value;
      DeliversIff(e.data, wire, pl);
      DeliveredFits(e.data, wire, pl);
      PassesIff(wire, cas, user, cfg, w, pl);
      if Judged(Outcome(true, e.name, e.data), cas, key, user, cfg, w, pl) == Success {
        assert Grounds(e, wire, cas, user, cfg, w, pl);
      }
    }
    if wire :| Grounds(e, wire, cas, user, cfg, w, pl) {
      DeliversIff(e.data, wire, pl);
      assert Judged(Outcome(true, e.name, e.data), cas, key, user, cfg, w, pl) == Success;
    }
  }

  lemma {:induction false} DeliveredFits(response: bytes, wire: SshCert.Wire, pl: Platform)
    requires Delivers(response, wire, pl)
    ensures SshCert.Fits(wire) && SshCert.PartsFit(wire)
  {}

  /** The wait's outcome. */
  function Wait(cfg: Config, w: World, pl: Platform): Progress {
    Loop(w.connections, 0, Deadline(cfg, w, pl), 0, Outcome(false, [], []))
  }

  /** The run came as far as a wait that ended by delivering e, the first terminal event of the body its
      last connection handed over. */
  ghost predicate Delivered(e: Event, cfg: Config, w: World, pl: Platform) {
    && EventsUrl(cfg, w, pl).Go?
    && Wait(cfg, w, pl).Ended? && Wait(cfg, w, pl).result == HttpOk
    && var last := w.connections[Wait(cfg, w, pl).used - 1];
      && last.code < 300
      && FirstTerminal(Events(Body(last, Deadline(cfg, w, pl)))) == Some(e)
  }

  /** A delivering wait delivered one event, and recorded it. */
  lemma {:induction false} DeliveredEvent(cfg: Config, w: World, pl: Platform)
    ensures EventsUrl(cfg, w, pl).Go? && Wait(cfg, w, pl).Ended? && Wait(cfg, w, pl).result == HttpOk ==>
              exists e :: Delivered(e, cfg, w, pl) && Wait(cfg, w, pl).wait == Outcome(true, e.name, e.data)
  {
    hide FirstTerminal, Events, Loop, EventsUrl, Deadline, Body, StoppedThenFailed;
    WaitOutcome(w.connections, 0, Deadline(cfg, w, pl), 0, Outcome(false, [], []));
    var p := Wait(cfg, w, pl);
    if p.Ended? && p.result == HttpOk && EventsUrl(cfg, w, pl).Go? {
      var e := FirstTerminal(Events(Body(w.connections[p.used - 1], Deadline(cfg, w, pl)))).value;
      assert Delivered(e, cfg, w, pl);
    }
  }

  lemma {:induction false} DeliveredOne(e: Event, cfg: Config, w: World, pl: Platform)
    requires Delivered(e, cfg, w, pl)
    ensures Wait(cfg, w, pl).Ended? && Wait(cfg, w, pl).result == HttpOk && EventsUrl(cfg, w, pl).Go?
    ensures Wait(cfg, w, pl).wait == Outcome(true, e.name, e.data)
  {
    hide FirstTerminal, Events, Loop, EventsUrl, Deadline, Body, StoppedThenFailed;
    WaitOutcome(w.connections, 0, Deadline(cfg, w, pl), 0, Outcome(false, [], []));
  }

  /** The armed run ended in approval: an event was delivered, and it has grounds. */
  ghost predicate Approved(cas: seq<SshKey.CaKey>, user: bytes, cfg: Config, w: World, pl: Platform)
    requires w.point.Some?
  {
    exists e: Event, wire: SshCert.Wire :: Delivered(e, cfg, w, pl) && Grounds(e, wire, cas, user, cfg, w, pl)
  }

  /** What the armed part answers when nothing was delivered, by how far it came. */
  lemma {:induction false} ArmedMeans(cas: seq<SshKey.CaKey>, key: bytes, user: bytes, cfg: Config, w: World,
                                      pl: Platform)
    ensures var code := Armed(cas, key, user, cfg, w, pl);
            var events, p := EventsUrl(cfg, w, pl), Wait(cfg, w, pl);
            && (events.Stop? ==> code == Some(events.code))
            && (events.Go? && p.StillWaiting? ==> code == None)
            && (events.Go? && p.Ended? && p.result != HttpOk ==> code == Some(HttpToPam(p.result)))
  {
    hide EventsUrl, Deadline, Loop, Judged;
  }

  /** What it answers when an event was. */
  lemma {:induction false} DeliveredMeans(e: Event, cas: seq<SshKey.CaKey>, user: bytes, cfg: Config, w: World,
                                          pl: Platform)
    requires w.point.Some? && |w.point.value| <= SshKey.MAX_POINT && Delivered(e, cfg, w, pl)
    ensures var code := Armed(cas, SshKey.BlobP384(w.point.value), user, cfg, w, pl);
            && code.Some? && code.value in {Success, AuthinfoUnavail, AuthErr}
            && (code.value == Success <==> exists wire :: Grounds(e, wire, cas, user, cfg, w, pl))
            && (code.value == AuthErr <==> Refuses(e, cas, user, cfg, w, pl))
  {
    var key := SshKey.BlobP384(w.point.value);
    DeliveredOne(e, cfg, w, pl);
    JudgedIff(e, cas, user, cfg, w, pl);
    RefusesIff(e, cas, user, cfg, w, pl);
    hide SshKey.BlobP384, Grounds, Refuses, Delivered, Judged, EventsUrl, Deadline, Loop;
    JudgedCodes(Outcome(true, e.name, e.data), cas, key, user, cfg, w, pl);
  }

  lemma {:induction false} JudgedCodes(o: Outcome, cas: seq<SshKey.CaKey>, key: bytes, user: bytes, cfg: Config,
                                       w: World, pl: Platform)
    ensures Judged(o, cas, key, user, cfg, w, pl) in {Success, AuthinfoUnavail, AuthErr}
  {
    hide EnvelopeError, DataField, CertOf, Passes, SshCert.PartsFit, Ascii;
  }

  lemma {:induction false} PreparedKey(user: bytes, cfg: Config, w: World, pl: Platform)
    requires Plausible(cfg, w) && Prepared(user, cfg, w, pl).Go?
    ensures w.point.Some? && Prepared(user, cfg, w, pl).value.1 == SshKey.BlobP384(w.point.value)
    ensures |w.point.value| <= SshKey.MAX_POINT
  {
    hide TrustedKeys, RequestBody, SshKey.BlobP384;
  }

  /** Both, for the keys a run prepared. */
  lemma {:induction false} RunMeans(user: bytes, cfg: Config, w: World, pl: Platform)
    requires Plausible(cfg, w) && Prepared(user, cfg, w, pl).Go?
    ensures w.point.Some?
    ensures var (cas, key) := Prepared(user, cfg, w, pl).value;
            var code := Armed(cas, key, user, cfg, w, pl);
            var events, p := EventsUrl(cfg, w, pl), Wait(cfg, w, pl);
            && (events.Stop? ==> code == Some(events.code))
            && (events.Go? && p.StillWaiting? ==> code == None)
            && (events.Go? && p.Ended? && p.result != HttpOk ==> code == Some(HttpToPam(p.result)))
            && (forall e :: Delivered(e, cfg, w, pl) ==>
                  && code.Some? && code.value in {Success, AuthinfoUnavail, AuthErr}
                  && (code.value == Success <==> exists wire :: Grounds(e, wire, cas, user, cfg, w, pl))
                  && (code.value == AuthErr <==> Refuses(e, cas, user, cfg, w, pl)))
  {
    hide *;
    PreparedKey(user, cfg, w, pl);
    var (cas, key) := Prepared(user, cfg, w, pl).value;
    ArmedMeans(cas, key, user, cfg, w, pl);
    forall e | Delivered(e, cfg, w, pl)
      ensures var code := Armed(cas, key, user, cfg, w, pl);
              && code.Some? && code.value in {Success, AuthinfoUnavail, AuthErr}
              && (code.value == Success <==> exists wire :: Grounds(e, wire, cas, user, cfg, w, pl))
              && (code.value == AuthErr <==> Refuses(e, cas, user, cfg, w, pl))
    {
      DeliveredMeans(e, cas, user, cfg, w, pl);
    }
  }

  /** A run ends in success exactly when it was prepared and the event it delivered approves with a
      certificate every check vouches for. */
  lemma {:induction false} SuccessIff(user: bytes, cfg: Config, w: World, pl: Platform)
    requires Plausible(cfg, w)
    ensures Answer(user, cfg, w, pl) == Some(Success) <==>
            Prepared(user, cfg, w, pl).Go? && w.point.Some? &&
            Approved(Prepared(user, cfg, w, pl).value.0, user, cfg, w, pl)
  {
    hide Armed, Delivered, Grounds, Refuses, EventsUrl, Loop, Deadline, TrustedKeys, RequestBody, SshKey.BlobP384;
    if Prepared(user, cfg, w, pl).Go? {
      RunMeans(user, cfg, w, pl);
      DeliveredEvent(cfg, w, pl);
    }
  }

  /** When a run answers a definite "no": nobody interrupted it, and either time ran out or the first
      terminal event came without an error beside it that is seen and without grounds for approval. An
      approval whose data is no JSON or holds no certificate, and one that could not be checked because
      this build cannot verify it or the map cannot be read, count among the latter. */
  lemma {:induction false} AuthErrIff(user: bytes, cfg: Config, w: World, pl: Platform)
    requires Plausible(cfg, w)
    ensures Answer(user, cfg, w, pl) == Some(AuthErr) <==>
            && Prepared(user, cfg, w, pl).Go? && w.point.Some? && !w.interrupted
            && (|| w.create == TimedOut
                || EndedBy(TimedOut, cfg, w, pl)
                || exists e: Event ::
                     Delivered(e, cfg, w, pl) && Refuses(e, Prepared(user, cfg, w, pl).value.0, user, cfg, w, pl))
  {
    hide Armed, Delivered, Grounds, Refuses, EventsUrl, Loop, Deadline, TrustedKeys, RequestBody, SshKey.BlobP384;
    if Prepared(user, cfg, w, pl).Go? {
      RunMeans(user, cfg, w, pl);
      DeliveredEvent(cfg, w, pl);
    }
  }

  /** The module stands aside exactly when it is not an SSH session it was told to wait for, when the
      create call or the wait was cancelled, or when a Ctrl-C met an armed run that came back with
      anything but an approval. */
  lemma {:induction false} IgnoreIff(user: bytes, cfg: Config, w: World, pl: Platform)
    requires Plausible(cfg, w)
    ensures Answer(user, cfg, w, pl) == Some(Ignore) <==>
            || (&& cfg.server != [] && cfg.trustedCaFile != [] && w.memory && TrustedKeys(w.caFile, pl.supports).Go?
                && cfg.sshOnly && !w.sshSession)
            || (&& Prepared(user, cfg, w, pl).Go? && w.point.Some?
                && (|| w.create == Cancelled || EndedBy(Cancelled, cfg, w, pl)
                    || (&& w.interrupted && (EventsUrl(cfg, w, pl).Stop? || Wait(cfg, w, pl).Ended?)
                        && !Approved(Prepared(user, cfg, w, pl).value.0, user, cfg, w, pl))))
  {
    hide Armed, Delivered, Grounds, Refuses, EventsUrl, Loop, Deadline, TrustedKeys, RequestBody, SshKey.BlobP384;
    if Prepared(user, cfg, w, pl).Go? {
      RunMeans(user, cfg, w, pl);
      DeliveredEvent(cfg, w, pl);
      NothingDelivered(cfg, w, pl);
    }
  }

  /** No server is configured. */
  lemma {:induction false} UserUnknownIff(user: bytes, cfg: Config, w: World, pl: Platform)
    requires Plausible(cfg, w)
    ensures Answer(user, cfg, w, pl) == Some(UserUnknown) <==> cfg.server == []
  {
    hide Armed, Delivered, Grounds, Refuses, EventsUrl, Loop, Deadline, TrustedKeys, RequestBody, SshKey.BlobP384;
    if Prepared(user, cfg, w, pl).Go? {
      RunMeans(user, cfg, w, pl);
      DeliveredEvent(cfg, w, pl);
      EventsCodes(cfg, w, pl);
    }
  }

  /** The trusted keys are the first 32 usable ones of a file below 32768 bytes with no malformed line among
      those it is read for. */
  lemma {:induction false} TrustedKeysMean(file: CaFile, supports: SshKey.Supports)
    ensures var lines := if file.CaData? then Pieces(file.data, '\n' as int) else [];
            var usable := SshKey.Usable(lines, supports);
            && (TrustedKeys(file, supports).Go? <==>
                  && file.CaData? && |file.data| < 32768 && usable != []
                  && forall i :: 0 <= i < |lines| && SshKey.CaLine(lines[i]).BadLine? ==>
                       |SshKey.Usable(lines[..i], supports)| > 32)
            && (TrustedKeys(file, supports).Go? ==>
                  TrustedKeys(file, supports).value == if |usable| <= 32 then usable else usable[..32])
  {
    hide SshKey.Usable, SshKey.CaLine, Pieces;
  }

  /** No trusted CA file is configured, or the one that is holds no keys that can be used. */
  lemma {:induction false} NoModuleDataIff(user: bytes, cfg: Config, w: World, pl: Platform)
    requires Plausible(cfg, w)
    ensures Answer(user, cfg, w, pl) == Some(NoModuleData) <==>
            && cfg.server != []
            && (cfg.trustedCaFile == [] || (w.memory && TrustedKeys(w.caFile, pl.supports).Stop?))
  {
    hide Armed, Delivered, Grounds, Refuses, EventsUrl, Loop, Deadline, TrustedKeys, RequestBody, SshKey.BlobP384;
    if Prepared(user, cfg, w, pl).Go? {
      RunMeans(user, cfg, w, pl);
      DeliveredEvent(cfg, w, pl);
      EventsCodes(cfg, w, pl);
    }
  }

  /** The run could not be carried out: no memory, no key, no room for the request, or a fault of the HTTP
      library's own on a run nobody interrupted. */
  lemma {:induction false} AbortIff(user: bytes, cfg: Config, w: World, pl: Platform)
    requires Plausible(cfg, w)
    ensures var cas := TrustedKeys(w.caFile, pl.supports);
            var configured := cfg.server != [] && cfg.trustedCaFile != [];
            Answer(user, cfg, w, pl) == Some(Abort) <==>
            || (configured && !w.memory)
            || (&& configured && cas.Go? && !(cfg.sshOnly && !w.sshSession) && w.memory
                && (|| w.point.None?
                    || |RequestBody(user, SshKey.BlobP384(w.point.value), cas.value, cfg, w, pl)| >= 8192))
            || (&& Prepared(user, cfg, w, pl).Go? && !w.interrupted
                && (w.create == Internal || EndedBy(Internal, cfg, w, pl)))
  {
    hide Armed, Delivered, Grounds, Refuses, EventsUrl, Loop, Deadline, TrustedKeys, RequestBody, SshKey.BlobP384;
    if Prepared(user, cfg, w, pl).Go? {
      RunMeans(user, cfg, w, pl);
      DeliveredEvent(cfg, w, pl);
      EventsCodes(cfg, w, pl);
    }
  }

  /** The module could not find out, on a run nobody interrupted: the server was not reached or refused, its
      create response was of no use, or the outcome came with an error beside it that is seen. */
  lemma {:induction false} UnavailableIff(user: bytes, cfg: Config, w: World, pl: Platform)
    requires Plausible(cfg, w)
    ensures Answer(user, cfg, w, pl) == Some(AuthinfoUnavail) <==>
            && Prepared(user, cfg, w, pl).Go? && !w.interrupted
            && (|| w.create == Transport || w.create == StatusRefused || w.create == TooLarge
                || (w.create == HttpOk && EventsUrl(cfg, w, pl).Stop?)
                || EndedBy(Transport, cfg, w, pl) || EndedBy(StatusRefused, cfg, w, pl)
                || EndedBy(TooLarge, cfg, w, pl)
                || exists e: Event :: Delivered(e, cfg, w, pl) && EnvelopeError(e.data, pl))
  {
    hide Armed, Delivered, Grounds, EnvelopeError, EventsUrl, Loop, Deadline, TrustedKeys, RequestBody,
         SshKey.BlobP384;
    if Prepared(user, cfg, w, pl).Go? {
      RunMeans(user, cfg, w, pl);
      DeliveredEvent(cfg, w, pl);
      EventsCodes(cfg, w, pl);
      forall e, wire | Grounds(e, wire, Prepared(user, cfg, w, pl).value.0, user, cfg, w, pl)
        ensures !EnvelopeError(e.data, pl)
      {
        GroundsMean(e, wire, Prepared(user, cfg, w, pl).value.0, user, cfg, w, pl);
      }
    }
  }

  lemma {:induction false} GroundsMean(e: Event, wire: SshCert.Wire, cas: seq<SshKey.CaKey>, user: bytes, cfg: Config,
                                       w: World, pl: Platform)
    requires w.point.Some? && Grounds(e, wire, cas, user, cfg, w, pl)
    ensures !EnvelopeError(e.data, pl)
  {}

  /** How a run that gets no events URL ends. */
  lemma {:induction false} EventsCodes(cfg: Config, w: World, pl: Platform)
    ensures var r := EventsUrl(cfg, w, pl);
            && (w.create == Cancelled ==> r == Stop(Ignore)) && (w.create == TimedOut ==> r == Stop(AuthErr))
            && (w.create == Internal ==> r == Stop(Abort))
            && (w.create == Transport || w.create == StatusRefused || w.create == TooLarge ==>
                  r == Stop(AuthinfoUnavail))
            && (w.create == HttpOk && r.Stop? ==> r == Stop(AuthinfoUnavail))
  {
    hide DataField, CanPrompt, Url.Join, Ascii;
  }

  /** The events URL is the server's own, with the path its response names. */
  lemma {:induction false} EventsUrlIff(cfg: Config, w: World, pl: Platform, url: bytes)
    ensures EventsUrl(cfg, w, pl) == Go(url) <==>
            && w.create == HttpOk && CanPrompt(cfg, w, pl) && |url| < 1024
            && var rel := DataField(w.created, pl, Ascii("events_url"), 1024);
              rel.Some? && url == cfg.server + rel.value && Ascii("/") <= rel.value && !(Ascii("//") <= rel.value)
  {
    var rel := DataField(w.created, pl, Ascii("events_url"), 1024);
    if rel.Some? {
      Url.JoinIff(cfg.server, rel.value, 1024, url);
    }
    hide DataField, CanPrompt, Url.Join, Ascii;
  }

  lemma {:induction false} ModeNames()
    ensures ModeName(Console) == Ascii("console") && ModeName(Sudo) == Ascii("sudo") && ModeName(Auto) == Ascii("auto")
  {}

  /** The texts that stand under public_key and username in the request, n and m characters long. */
  predicate Names(body: bytes, n: nat, line: bytes, m: nat, user: bytes) {
    && 29 + n + m <= |body|
    && body[2..12] == Ascii("public_key") && Json.Unescape(body[15..15 + n]) == Some(line)
    && body[18 + n..26 + n] == Ascii("username") && Json.Unescape(body[29 + n..29 + n + m]) == Some(user)
  }

  /** A server that reads the request finds this attempt's own key in it, and the account. */
  lemma {:induction false} RequestReads(user: bytes, point: bytes, cas: seq<SshKey.CaKey>, cfg: Config, w: World,
                                        pl: Platform) returns (n: nat, m: nat, line: bytes)
    requires |point| <= 256
    ensures Names(RequestBody(user, SshKey.BlobP384(point), cas, cfg, w, pl), n, line, m, CStr(user))
    ensures SshKey.KeyOf(line, 2048, 64) == SshKey.Key(SshKey.BlobP384(point), Ascii("ecdsa-sha2-nistp384"))
  {
    var key := SshKey.BlobP384(point);
    line := SshKey.AuthorizedLine(SshKey.P384, key);
    OwnLineReads(point);
    hide SshKey.BlobP384, SshKey.AuthorizedLine, SshKey.KeyOf, Ascii, CStr, Names, RequestBody;
    var rest := BodyStarts(user, key, cas, cfg, w, pl);
    n, m := SubjectNames(user, line, rest);
  }

  lemma {:induction false} SubjectNames(user: bytes, line: bytes, rest: bytes) returns (n: nat, m: nat)
    requires NulFree(line)
    ensures Names(CreateBody.Subject(user, line) + rest, n, line, m, CStr(user))
  {
    hide Json.Escape, Json.Unescape, CStr, Ascii, CreateBody.Subject;
    CStrOfNulFree(line);
    n, m := |Json.Escape(line)|, |Json.Escape(CStr(user))|;
    CreateBody.SubjectReads(user, line, rest);
    Json.StringRoundTrip(line);
    Json.StringRoundTrip(CStr(user));
  }

  lemma {:induction false} BodyStarts(user: bytes, key: bytes, cas: seq<SshKey.CaKey>, cfg: Config, w: World,
                                      pl: Platform) returns (rest: bytes)
    ensures RequestBody(user, key, cas, cfg, w, pl) ==
            CreateBody.Subject(user, SshKey.AuthorizedLine(SshKey.P384, key)) + rest
  {
    hide CreateBody.Subject, CreateBody.Context, CreateBody.Caller, CreateBody.Trust, CreateBody.Options, ModeName,
         SshKey.P384, SshKey.AuthorizedLine;
    var d := w.details.(mode := ModeName(cfg.mode));
    var prints := seq(|cas|, i requires 0 <= i < |cas| => pl.fingerprint(cas[i].blob));
    rest := CreateBody.Context(d) + CreateBody.Caller(d) + CreateBody.Trust(prints) + CreateBody.Options(d.addresses);
  }

  lemma {:induction false} OwnLineReads(point: bytes)
    requires |point| <= 256
    ensures var line := SshKey.AuthorizedLine(SshKey.P384, SshKey.BlobP384(point));
            && NulFree(line)
            && SshKey.KeyOf(line, 2048, 64) == SshKey.Key(SshKey.BlobP384(point), SshKey.P384)
  {
    var blob := SshKey.BlobP384(point);
    SshKey.P384Spelled();
    SshKey.GeneratedKeyFits(point);
    SshKey.EncodedIsPlain(blob);
    SshKey.PlainMeans(Base64.Encode(blob));
    hide SshKey.BlobP384, SshKey.P384, SshKey.KeyOf, SshKey.AlgoOf, Base64.Encode;
    SshKey.LineRoundTrip(blob, SshKey.P384, 2048);
  }

  lemma {:induction false} NothingDelivered(cfg: Config, w: World, pl: Platform)
    ensures EventsUrl(cfg, w, pl).Stop? || Wait(cfg, w, pl).StillWaiting? || Wait(cfg, w, pl).result != HttpOk ==>
              forall e :: !Delivered(e, cfg, w, pl)
  {
    hide EventsUrl, Loop, Deadline, FirstTerminal, Events, Body;
  }

  /** The wait ended with this result of the exchange. */
  ghost predicate EndedBy(r: HttpResult, cfg: Config, w: World, pl: Platform) {
    EventsUrl(cfg, w, pl).Go? && Wait(cfg, w, pl).Ended? && Wait(cfg, w, pl).result == r
  }

  /** No error beside it that is seen, and no certificate in it that every check vouches for. */
  ghost predicate Refuses(e: Event, cas: seq<SshKey.CaKey>, user: bytes, cfg: Config, w: World, pl: Platform)
    requires w.point.Some?
  {
    !EnvelopeError(e.data, pl) && !exists wire :: Grounds(e, wire, cas, user, cfg, w, pl)
  }

  lemma {:induction false} RefusesIff(e: Event, cas: seq<SshKey.CaKey>, user: bytes, cfg: Config, w: World,
                                      pl: Platform)
    requires w.point.Some? && |w.point.value| <= SshKey.MAX_POINT
    ensures Judged(Outcome(true, e.name, e.data), cas, SshKey.BlobP384(w.point.value), user, cfg, w, pl) == AuthErr <==>
            Refuses(e, cas, user, cfg, w, pl)
  {
    hide Grounds, EnvelopeError, CertOf, DataField, Passes, SshKey.BlobP384, Ascii;
    JudgedIff(e, cas, user, cfg, w, pl);
  }

  // -------------------------------------------------------------- on JSON trees

  /** What is taken of the vendored tokeniser: the tokens of a body it accepts hold a tree of nested spans. */
  ghost predicate TokenisesTrees(pl: Platform, trees: bytes -> Tree) {
    forall body: bytes :: 0 < |body| <= Json.MAX_RESPONSE && pl.tokenise(body) != [] ==>
      Holds(pl.tokenise(body), 0, trees(body)) && Nested(trees(body))
  }

  /** A string member of a body's tree, as the C string a buffer of this size would hold. */
  function TreeField(body: bytes, t: Tree, within: Option<bytes>, field: bytes, cap: nat): Option<bytes> {
    match Decoded(FieldOnTree(body, t, within, field), cap)
    case None => None
    case Some(s) => Some(CStr(s))
  }

  /** An envelope's error: the raw text of the tree's first direct "error" member, where that is a string. */
  function ErrorText(body: bytes, t: Tree): Option<bytes> {
    FieldOnTree(body, t, None, Ascii("error"))
  }

  /** Grounds, read off the tree of the delivered envelope: its error, if it has one, is not one that is
      seen, and the first direct "certificate" member of its "data" object is a line with the
      serialisation of a certificate that every check vouches for. */
  ghost predicate TreeGrounds(e: Event, t: Tree, wire: SshCert.Wire, cas: seq<SshKey.CaKey>, user: bytes,
      cfg: Config, w: World, pl: Platform)
    requires w.point.Some?
  {
    var error := ErrorText(e.data, t);
    var line := TreeField(e.data, t, Some(Ascii("data")), Ascii("certificate"), 43_818);
    && e.name == Ascii("approved") && (error.None? || !Seen(error.value))
    && line.Some? && line.value != [] && CertOf(line.value) == Some(wire)
    && SshCert.PartsFit(wire) && Vouched(wire, cas, user, cfg, w, pl)
  }

  /** The body is one the tokeniser accepts. */
  predicate IsTokenised(body: bytes, pl: Platform) {
    0 < |body| <= Json.MAX_RESPONSE && pl.tokenise(body) != []
  }

  lemma {:induction false} GroundsOnTree(e: Event, wire: SshCert.Wire, cas: seq<SshKey.CaKey>, user: bytes,
      cfg: Config, w: World, pl: Platform, trees: bytes -> Tree)
    requires w.point.Some? && TokenisesTrees(pl, trees)
    ensures Grounds(e, wire, cas, user, cfg, w, pl) <==>
            IsTokenised(e.data, pl) && TreeGrounds(e, trees(e.data), wire, cas, user, cfg, w, pl)
  {
    hide Vouched, CertOf, Ascii, RawField, FieldOnTree, Holds, Nested, SshCert.PartsFit, Delivers, Seen;
    DeliversIff(e.data, wire, pl);
    if Delivers(e.data, wire, pl) {
      DeliveredFits(e.data, wire, pl);
    }
    NoTokens(e.data, pl, Ascii("certificate"));
    if IsTokenised(e.data, pl) {
      RawFieldOnTree(e.data, pl.tokenise(e.data), trees(e.data), None, Ascii("error"));
      RawFieldOnTree(e.data, pl.tokenise(e.data), trees(e.data), Some(Ascii("data")), Ascii("certificate"));
    }
  }

  /** What the response's text needs for its prompt, read off its tree: on a console a code and a page that
      each start with something to show, elsewhere an approval path that can stand behind the server. */
  lemma {:induction false} PromptOnTree(cfg: Config, w: World, pl: Platform, t: Tree)
    requires 0 < |w.created| <= 65536 && Holds(pl.tokenise(w.created), 0, t) && Nested(t)
    ensures var code := FieldOnTree(w.created, t, Some(Ascii("data")), Ascii("user_code"));
            var page := FieldOnTree(w.created, t, Some(Ascii("data")), Ascii("verification_url"));
            var approval := FieldOnTree(w.created, t, Some(Ascii("data")), Ascii("approval_url"));
            CanPrompt(cfg, w, pl) <==>
            if cfg.mode == Console || (cfg.mode == Auto && w.consoleSession) then
              code.Some? && Shows(code.value) && page.Some? && Shows(page.value)
            else
              approval.Some? && IsPath(CStr(Json.Partial(approval.value, 1023)), cfg.server)
  {
    var body, toks, data := w.created, pl.tokenise(w.created), Some(Ascii("data"));
    RawFieldOnTree(body, toks, t, data, Ascii("user_code"));
    RawFieldOnTree(body, toks, t, data, Ascii("verification_url"));
    RawFieldOnTree(body, toks, t, data, Ascii("approval_url"));
    BufferedShows(body, pl, Ascii("user_code"), 64);
    BufferedShows(body, pl, Ascii("verification_url"), 1024);
    PathIff(cfg.server, Buffered(body, pl, Ascii("approval_url"), 1024));
    PathIff(cfg.server, []);
    hide RawField, FieldOnTree, Holds, Nested, Ascii, CStr, Json.Partial, Shows, IsPath, Url.Join;
    NoPath(cfg.server);
  }

  /** Text between quotes that starts with a character, or its escape, other than NUL. */
  predicate Shows(raw: bytes) {
    raw != [] && Json.FrontUnit(raw).Unit? && Json.FrontUnit(raw).out[0] != 0
  }

  /** An absolute path on the server itself, short enough behind it. */
  predicate IsPath(path: bytes, server: bytes) {
    Ascii("/") <= path && !(Ascii("//") <= path) && |server| + |path| < 1024
  }

  lemma {:induction false} NoPath(server: bytes)
    ensures !IsPath([], server)
  {}

  lemma {:induction false} PathIff(server: bytes, path: bytes)
    ensures Url.Join(server, path, 1024).Some? <==> IsPath(path, server)
  {
    Url.JoinIff(server, path, 1024, server + path);
    if Url.Join(server, path, 1024).Some? {
      Url.JoinIff(server, path, 1024, Url.Join(server, path, 1024).value);
    }
    hide Url.Join, Ascii;
  }

  lemma {:induction false} BufferedShows(body: bytes, pl: Platform, field: bytes, cap: nat)
    requires cap >= 5
    ensures var raw := RawField(body, pl.tokenise(body), Some(Ascii("data")), field);
            Buffered(body, pl, field, cap) != [] <==> raw.Some? && Shows(raw.value)
  {
    hide RawField, Ascii;
    var raw := RawField(body, pl.tokenise(body), Some(Ascii("data")), field);
    if raw.Some? {
      PartialFront(raw.value, cap - 1);
    }
  }

  lemma {:induction false} PartialFront(p: bytes, room: nat)
    requires room >= 4
    ensures CStr(Json.Partial(p, room)) != [] <==> Shows(p)
  {
    hide Json.FrontUnit;
  }

  lemma {:induction false} NoTokens(body: bytes, pl: Platform, field: bytes)
    ensures !IsTokenised(body, pl) ==>
              RawField(body, pl.tokenise(body), Some(Ascii("data")), field) == None
  {}

  ghost predicate ApprovedOnTree(cas: seq<SshKey.CaKey>, user: bytes, cfg: Config, w: World, pl: Platform,
                                 trees: bytes -> Tree)
    requires w.point.Some?
  {
    exists e: Event, wire: SshCert.Wire ::
      Delivered(e, cfg, w, pl) && IsTokenised(e.data, pl) && TreeGrounds(e, trees(e.data), wire, cas, user, cfg, w, pl)
  }

  /** Approval, and so success, in terms of the delivered envelope's JSON tree. */
  lemma {:induction false} ApprovedIffOnTree(cas: seq<SshKey.CaKey>, user: bytes, cfg: Config, w: World, pl: Platform,
      trees: bytes -> Tree)
    requires w.point.Some? && TokenisesTrees(pl, trees)
    ensures Approved(cas, user, cfg, w, pl) <==> ApprovedOnTree(cas, user, cfg, w, pl, trees)
  {
    hide Delivered, Grounds, TreeGrounds, TokenisesTrees, IsTokenised;
    forall e: Event, wire: SshCert.Wire
      ensures Grounds(e, wire, cas, user, cfg, w, pl) <==>
              IsTokenised(e.data, pl) && TreeGrounds(e, trees(e.data), wire, cas, user, cfg, w, pl)
    {
      GroundsOnTree(e, wire, cas, user, cfg, w, pl, trees);
    }
  }

  // ----------------------------------------------------------------------- time

  /** The computed deadline is at most the configured timeout after the start. A printed expiry bounds it
      too; a field that is no timestamp changes nothing. */
  lemma {:induction false} DeadlineMeans(cfg: Config, w: World, pl: Platform, expiry: Civil.Stamp)
    ensures Deadline(cfg, w, pl) <= w.startMs + Truncated(cfg.timeout, MILLISECOND)
    ensures var field := DataField(w.created, pl, Ascii("expires_at"), 64);
            var timeout := w.startMs + Truncated(cfg.timeout, MILLISECOND);
            var server := w.msAtExpiry + (expiry.Instant() - w.clockAtExpiry) * 1000;
            && (field == Some(Civil.Print(expiry)) && expiry.Valid() ==>
                  Deadline(cfg, w, pl) == if server < timeout then server else timeout)
            && (field.Some? && (forall st: Civil.Stamp :: st.Valid() ==> field.value != Civil.Print(st)) ==>
                  Deadline(cfg, w, pl) == timeout)
  {
    hide DataField, Civil.ParseOf, Civil.Print, Ascii;
    if expiry.Valid() {
      Civil.RoundTrip(expiry);
    }
    var field := DataField(w.created, pl, Ascii("expires_at"), MAX_EXPIRES);
    if field.Some? && Civil.ParseOf(field.value).Some? {
      Civil.ParseIff(field.value, Civil.ParseOf(field.value).value);
    }
  }

  /** q is a duration in whole milliseconds, towards zero. */
  predicate WholeMillis(q: int, timeout: int) {
    && (timeout >= 0 ==> q * 1_000_000 <= timeout < (q + 1) * 1_000_000)
    && (timeout < 0 ==> (q - 1) * 1_000_000 < timeout <= q * 1_000_000)
  }

  /** Without an expiry the wait is the timeout's whole milliseconds. */
  lemma {:induction false} DeadlineByNumbers(cfg: Config, w: World, pl: Platform, q: int)
    requires WholeMillis(q, cfg.timeout)
    ensures Deadline(cfg, w, pl) <= w.startMs + q
    ensures DataField(w.created, pl, Ascii("expires_at"), 64) == None ==> Deadline(cfg, w, pl) == w.startMs + q
  {
    assert Truncated(cfg.timeout, MILLISECOND) == q;
    hide DataField, Civil.ParseOf, Ascii;
  }

  /** On a platform that keeps time within `lag`, a wait that begins at `now` reads no clock later than
      `lag` past the configured timeout, or past its own beginning if that was later still. */
  lemma {:induction false} WaitBounded(cfg: Config, w: World, pl: Platform, now: int, lag: nat)
    requires OnTime(w.connections, 0, Deadline(cfg, w, pl), now, lag)
    ensures LastClock(w.connections, 0, Deadline(cfg, w, pl), 0, Outcome(false, [], []), now)
            <= Latest(now, w.startMs + Truncated(cfg.timeout, MILLISECOND)) + lag
  {
    hide OnTime, LastClock, DataField, Civil.ParseOf, Ascii;
    WaitEndsInTime(w.connections, 0, Deadline(cfg, w, pl), 0, Outcome(false, [], []), now, lag);
  }

  // ------------------------------------------------------------- the C functions

  /** The Ctrl-C handler: installed at most once, and taken down before the run returns. */
  class CancelHandler {
    var armed: bool

    constructor ()
      ensures !armed
    {
      armed := false;
    }

    method Arm()
      requires !armed
      modifies this
      ensures armed
    {
      armed := true;
    }

    method Disarm()
      requires armed
      modifies this
      ensures !armed
    {
      armed := false;
    }
  }

  method LoadTrusted(file: CaFile, supports: SshKey.Supports) returns (r: Stage<seq<SshKey.CaKey>>)
    ensures r == TrustedKeys(file, supports)
  {
    hide SshKey.CaAnswer, SshKey.Usable, Pieces;
    if file.UnreadableCa? {
      return Stop(NoModuleData);
    }
    if |file.data| >= SshKey.MAX_CA_FILE {
      return Stop(NoModuleData);
    }
    var cas := new SshKey.CaList();
    var status := cas.Load(file.data, supports);
    if status != SshKey.CaOk {
      return Stop(NoModuleData);
    }
    return Go(cas.keys[..cas.count]);
  }

  /** Key generation can only fail at the platform: the blob and its line always fit. */
  method MakeKey(point: Option<bytes>) returns (key: Option<bytes>)
    requires point.Some? ==> |point.value| <= SshKey.MAX_POINT
    ensures key == if point.None? then None else Some(SshKey.BlobP384(point.value))
  {
    if point.None? {
      return None;
    }
    SshKey.GeneratedKeyFits(point.value);
    SshKey.LineFits(SshKey.BlobP384(point.value), SshKey.P384);
    hide SshKey.BlobP384, SshKey.AlgoOf, SshKey.AuthorizedLine;
    var blob := new byte[SshWire.MAX_KEY_BLOB];
    var line := new byte[SshKey.MAX_KEY_LINE];
    var ok, len := SshKey.WriteP384(point.value, blob);
    if !ok {
      return None;
    }
    ok := SshKey.WriteLine(blob[..len], line);
    if !ok {
      return None;
    }
    return Some(blob[..len]);
  }

  method Prepare(user: bytes, cfg: Config, w: World, pl: Platform) returns (r: Stage<(seq<SshKey.CaKey>, bytes)>)
    requires Plausible(cfg, w)
    ensures r == Prepared(user, cfg, w, pl)
  {
    hide TrustedKeys;
    if cfg.server == [] {
      return Stop(UserUnknown);
    }
    if cfg.trustedCaFile == [] {
      return Stop(NoModuleData);
    }
    if !w.memory {
      return Stop(Abort);
    }
    var trusted := LoadTrusted(w.caFile, pl.supports);
    if trusted.Stop? {
      return Stop(trusted.code);
    }
    if cfg.sshOnly && !w.sshSession {
      return Stop(Ignore);
    }
    var key := MakeKey(w.point);
    if key.None? {
      return Stop(Abort);
    }
    var built := BuildBody(user, key.value, trusted.value, cfg, w, pl);
    if !built {
      return Stop(Abort);
    }
    return Go((trusted.value, key.value));
  }

  method BuildBody(user: bytes, key: bytes, cas: seq<SshKey.CaKey>, cfg: Config, w: World, pl: Platform)
                   returns (ok: bool)
    ensures ok == (|RequestBody(user, key, cas, cfg, w, pl)| + 1 <= CreateBody.MAX_BODY)
  {
    hide CreateBody.BodyOf, SshKey.AuthorizedLine;
    var buf := new byte[CreateBody.MAX_BODY];
    var fingerprints := seq(|cas|, i requires 0 <= i < |cas| => pl.fingerprint(cas[i].blob));
    var details := w.details.(mode := ModeName(cfg.mode));
    var built, _ := CreateBody.Build(user, SshKey.AuthorizedLine(SshKey.P384, key), details, fingerprints, buf);
    return built;
  }

  /** One string field of a response, as the C string its buffer holds. */
  method ReadField(body: bytes, pl: Platform, within: Option<bytes>, field: bytes, cap: nat) returns (r: Option<bytes>)
    requires cap > 0
    ensures r == match StringField(body, pl.tokenise(body), within, field, cap)
                 case None => None
                 case Some(s) => Some(CStr(s))
  {
    hide StringField, CStr;
    var out := new byte[cap];
    var ok, len := GetString(body, pl.tokenise(body), within, field, out);
    return if ok then Some(CStr(out[..len])) else None;
  }

  /** A C string ends at the first NUL, whatever the buffer holds behind it. */
  lemma {:induction false} TextInBuffer(buf: bytes, text: bytes)
    requires text <= buf && (|text| == |buf| || buf[|text|] == 0)
    ensures CStr(buf) == CStr(text)
  {
    CStrUnique(buf, CStr(text));
  }

  /** A field read into a zeroed buffer that is used whether or not the reading got through. */
  method ReadBuffer(body: bytes, pl: Platform, field: bytes, cap: nat) returns (text: bytes)
    requires cap > 0
    ensures text == Buffered(body, pl, field, cap)
  {
    hide RawField, StringField, CStr, Json.Partial;
    var out := new byte[cap](_ => 0);
    var ok, len := GetString(body, pl.tokenise(body), Some(Ascii("data")), field, out);
    TextInBuffer(out[..], out[..len]);
    NothingRead();
    text := CStr(out[..]);
  }

  lemma {:induction false} NothingRead()
    ensures CStr([]) == []
  {}

  method CheckPrompt(cfg: Config, w: World, pl: Platform) returns (ok: bool)
    ensures ok == CanPrompt(cfg, w, pl)
  {
    hide Buffered, Ascii;
    var approval := ReadBuffer(w.created, pl, Ascii("approval_url"), MAX_URL);
    var code := ReadBuffer(w.created, pl, Ascii("user_code"), MAX_CODE);
    var page := ReadBuffer(w.created, pl, Ascii("verification_url"), MAX_URL);
    var console := match cfg.mode { case Console => true case Sudo => false case Auto => w.consoleSession };
    if console {
      return code != [] && page != [];
    }
    if approval == [] {
      return false;
    }
    BufferedIsText(w.created, pl, Ascii("approval_url"), MAX_URL);
    var url := Url.JoinInto(cfg.server, approval, MAX_URL);
    return url.Some?;
  }

  lemma {:induction false} BufferedIsText(body: bytes, pl: Platform, field: bytes, cap: nat)
    requires cap > 0
    ensures NulFree(Buffered(body, pl, field, cap))
  {}

  method Request(cfg: Config, w: World, pl: Platform) returns (r: Stage<bytes>)
    ensures r == EventsUrl(cfg, w, pl)
    ensures r.Go? && Url.AuthorityStart(cfg.server).Some? ==> Url.Authority(r.value) == Url.Authority(cfg.server)
  {
    hide StringField, CStr, Ascii, Url.Join, CanPrompt;
    if w.create != HttpOk {
      return Stop(HttpToPam(w.create));
    }
    var rel := ReadField(w.created, pl, Some(Ascii("data")), Ascii("events_url"), MAX_URL);
    if rel.None? || rel.value == [] {
      return Stop(AuthinfoUnavail);
    }
    var prompted := CheckPrompt(cfg, w, pl);
    if !prompted {
      return Stop(AuthinfoUnavail);
    }
    var url := Url.JoinInto(cfg.server, rel.value, MAX_URL);
    if url.None? {
      return Stop(AuthinfoUnavail);
    }
    return Go(url.value);
  }

  method BoundWait(cfg: Config, w: World, pl: Platform) returns (deadline: int)
    ensures deadline == Deadline(cfg, w, pl)
  {
    hide StringField, CStr, Ascii, Civil.ParseOf;
    deadline := w.startMs + Truncated(cfg.timeout, MILLISECOND);
    var s := ReadField(w.created, pl, Some(Ascii("data")), Ascii("expires_at"), MAX_EXPIRES);
    if s.Some? {
      var expires := Civil.ParseFields(s.value);
      if expires.Some? {
        var remaining := (expires.value - w.clockAtExpiry) * 1000;
        var server := w.msAtExpiry + remaining;
        if server < deadline {
          deadline := server;
        }
      }
    }
  }

  method CheckAll(wire: SshCert.Wire, cert: SshCert.Certificate, blob: bytes, cas: seq<SshKey.CaKey>, key: bytes,
      user: bytes, cfg: Config, w: World, pl: Platform) returns (ok: bool)
    requires cert.Valid() && SshCert.Fits(wire) && blob == SshCert.Serialise(wire)
             && cert.Fields() == SshCert.View(wire)
    requires Plausible(cfg, w)
    ensures ok == Passes(SshCert.View(wire), SshCert.Signed(wire), cas, key, user, cfg, w, pl)
  {
    SshCert.SignedExtent(blob, wire);
    hide PrincipalAllowed, InWindow, SshCert.Signed, SshCert.Serialise, SshCert.Fits, SshCert.View, Answers;
    var fields := SshCert.Cert(cert.algo, cert.keyBlob[..cert.keyBlobLen], cert.serial, cert.keyId, cert.principals,
                               cert.validAfter, cert.validBefore, cert.signatureKey, cert.signatureAlgo,
                               cert.signature, cert.signedLen);
    assert fields == SshCert.View(wire);
    var signer := CheckCaSignature(fields, blob, cas, pl.verify);
    if !signer.SignedBy? {
      return false;
    }
    if |fields.keyBlob| == 0 {
      return false;
    }
    if |fields.keyBlob| != |key| || fields.keyBlob != key {
      return false;
    }
    var allowed := CheckPrincipal(fields, user, w.mapping);
    if !allowed {
      return false;
    }
    ok := CheckValidity(fields, w.clockAtCheck, cfg.skewTolerance);
  }

  /** The certificate line of an approval: read, parsed and checked. */
  method JudgeLine(line: bytes, cas: seq<SshKey.CaKey>, key: bytes, user: bytes, cfg: Config, w: World, pl: Platform)
    returns (ok: bool)
    requires Plausible(cfg, w)
    ensures ok <==> CertOf(line).Some? && SshCert.PartsFit(CertOf(line).value)
                    && Passes(SshCert.View(CertOf(line).value), SshCert.Signed(CertOf(line).value), cas, key, user,
                       cfg, w, pl)
  {
    hide Passes, SshKey.KeyOf, SshCert.ParseOf, SshCert.Signed, SshCert.Serialise, SshCert.View, SshCert.Fits,
         SshCert.PartsFit;
    var scratch := new byte[SshCert.MAX_CERT];
    var parsed, blank, len, algo := SshKey.ParseLine(line, scratch, SshWire.NAME_CAP);
    if !parsed {
      return false;
    }
    var blob := scratch[..len];
    var cert := new SshCert.Certificate();
    var status := cert.Parse(blob);
    if status != SshCert.Ok {
      return false;
    }
    var wire := SshCert.ParseOf(blob).wire;
    SshCert.ParseIff(blob, wire);
    AcceptedFits(wire);
    ok := CheckAll(wire, cert, blob, cas, key, user, cfg, w, pl);
  }

  lemma {:induction false} AcceptedFits(wire: SshCert.Wire)
    requires SshCert.Fits(wire)
    ensures SshCert.PartsFit(wire)
  {}

  lemma {:induction false} CappedRead(response: bytes, pl: Platform)
    ensures var s := StringField(response, pl.tokenise(response), None, Ascii("error"), MAX_ERROR);
            EnvelopeError(response, pl) <==> s.Some? && CStr(s.value) != []
  {
    hide RawField, Ascii, Json.Unescape;
  }

  method Judge(wait: Waiting.Wait, cas: seq<SshKey.CaKey>, key: bytes, user: bytes, cfg: Config, w: World, pl: Platform)
    returns (code: Pam)
    requires wait.Valid() && Plausible(cfg, w)
    ensures code == Judged(wait.View(), cas, key, user, cfg, w, pl)
  {
    hide StringField, CStr, Ascii, Passes, CertOf, SshCert.PartsFit, SshCert.View, SshCert.Signed, Plausible,
         EnvelopeError;
    var response := wait.response[..wait.dataLen];
    CappedRead(response, pl);
    var error := ReadField(response, pl, None, Ascii("error"), MAX_ERROR);
    if error.Some? && error.value != [] {
      return AuthinfoUnavail;
    }
    if wait.status != Ascii("approved") {
      return AuthErr;
    }
    var line := ReadField(response, pl, Some(Ascii("data")), Ascii("certificate"), MAX_CERT_LINE);
    if line.None? || line.value == [] {
      return AuthErr;
    }
    var ok := JudgeLine(line.value, cas, key, user, cfg, w, pl);
    return if ok then Success else AuthErr;
  }

  /** The armed part of a run. */
  method AwaitDecision(cas: seq<SshKey.CaKey>, key: bytes, user: bytes, cfg: Config, w: World, pl: Platform)
    returns (code: Option<Pam>)
    requires Plausible(cfg, w)
    ensures code == Armed(cas, key, user, cfg, w, pl)
  {
    hide EventsUrl, Deadline, Judged, Loop, Plausible;
    var url := Request(cfg, w, pl);
    if url.Stop? {
      return Some(url.code);
    }
    var deadline := BoundWait(cfg, w, pl);
    var wait := new Waiting.Wait();
    var ended, result, _, _ := RunEvents(w.connections, deadline, wait);
    if !ended {
      return None;
    }
    if result != HttpOk || !wait.have {
      return Some(HttpToPam(if result == HttpOk then Transport else result));
    }
    var c := Judge(wait, cas, key, user, cfg, w, pl);
    return Some(c);
  }

  /** One authentication. None when the offered connections run out while it still waits; any run that
      returns a code has taken the handler down again. */
  method Authenticate(user: bytes, cfg: Config, w: World, pl: Platform, cancel: CancelHandler)
                      returns (code: Option<Pam>)
    requires Plausible(cfg, w) && !cancel.armed
    modifies cancel
    ensures code == Answer(user, cfg, w, pl)
    ensures code.Some? ==> !cancel.armed
  {
    hide Prepared, Armed, Plausible;
    var prepared := Prepare(user, cfg, w, pl);
    if prepared.Stop? {
      return Some(prepared.code);
    }
    var (cas, key) := prepared.value;
    cancel.Arm();
    code := AwaitDecision(cas, key, user, cfg, w, pl);
    if code.None? {
      return;
    }
    cancel.Disarm();
    if code.value != Success && w.interrupted {
      code := Some(Ignore);
    }
  }
}
