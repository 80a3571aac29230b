/** The body of the create request: a fixed field order over the bounded JSON writer. */
module CreateBody {
  import opened Bytes
  import opened Decimal
  import opened Json

  const MAX_BODY := 8192
  const MAX_SHOWN_CAS := 8

  /** What the process says about itself and where it is. */
  datatype Details = Details(
    hostname: bytes, service: bytes, tty: bytes, remoteHost: bytes, requestingUser: bytes, process: bytes,
    uid: nat, pid: nat, ppid: nat,
    machineId: bytes, os: bytes, client: bytes, mode: bytes, clientTime: bytes, addresses: seq<bytes>)

  // ------------------------------------------------------------------- the text

  function Quoted(s: bytes): bytes {
    [QUOTE] + Escape(CStr(s)) + [QUOTE]
  }

  function Name(name: string): bytes {
    Ascii(",\"") + Ascii(name) + Ascii("\":")
  }

  /** Left out when empty: the server tells "not sent" from "sent empty". */
  function Opt(name: string, value: bytes): bytes {
    if CStr(value) == [] then [] else Name(name) + Quoted(value)
  }

  function Number(name: string, v: nat): bytes {
    Name(name) + DecText(v)
  }

  function Items(vs: seq<bytes>): bytes {
    if vs == [] then []
    else if |vs| == 1 then Quoted(vs[0])
    else Items(vs[..|vs| - 1]) + [COMMA] + Quoted(vs[|vs| - 1])
  }

  function Subject(user: bytes, key: bytes): bytes {
    Ascii("{\"public_key\":") + Quoted(key) + Ascii(",\"username\":") + Quoted(user)
  }

  function Context(d: Details): bytes {
    Opt("hostname", d.hostname) + Opt("pam_service", d.service) + Opt("tty", d.tty)
    + Opt("remote_host", d.remoteHost) + Opt("requesting_user", d.requestingUser) + Opt("process", d.process)
  }

  function Caller(d: Details): bytes {
    Number("caller_uid", d.uid) + Number("caller_pid", d.pid) + Number("caller_ppid", d.ppid)
    + Opt("machine_id", d.machineId) + Opt("os", d.os) + Opt("client", d.client) + Opt("mode", d.mode)
    + Opt("client_time", d.clientTime)
  }

  function Trust(fingerprints: seq<bytes>): bytes {
    Ascii(",\"trusted_ca_fingerprints\":[") + Items(Shown(fingerprints)) + Ascii("]")
  }

  function Shown(fingerprints: seq<bytes>): seq<bytes> {
    if |fingerprints| > MAX_SHOWN_CAS then fingerprints[..MAX_SHOWN_CAS] else fingerprints
  }

  function Addresses(addresses: seq<bytes>): bytes {
    if addresses == [] then [] else Ascii("\"source_addresses\":[") + Items(addresses) + Ascii("]")
  }

  function Options(addresses: seq<bytes>): bytes {
    Ascii(",\"requested_options\":{")
    + Addresses(addresses)
    + Ascii("}}")
  }

  function BodyOf(user: bytes, key: bytes, d: Details, fingerprints: seq<bytes>): bytes {
    Subject(user, key) + Context(d) + Caller(d) + Trust(fingerprints) + Options(d.addresses)
  }

  /** A member of the body by its name. */
  datatype Field = Text(name: string, value: bytes) | Count(name: string, n: nat)

  /** What the request tells about the process, in the order the server's own structure has it. */
  function Told(d: Details): seq<Field> {
    [Text("hostname", d.hostname), Text("pam_service", d.service), Text("tty", d.tty),
     Text("remote_host", d.remoteHost), Text("requesting_user", d.requestingUser), Text("process", d.process),
     Count("caller_uid", d.uid), Count("caller_pid", d.pid), Count("caller_ppid", d.ppid),
     Text("machine_id", d.machineId), Text("os", d.os), Text("client", d.client), Text("mode", d.mode),
     Text("client_time", d.clientTime)]
  }

  /** Behind a comma; an empty text is not sent. */
  function FieldText(f: Field): bytes {
    match f
    case Text(name, value) =>
      if value == [] || value[0] == 0 then [] else Ascii(",\"" + name + "\":") + Quoted(value)
    case Count(name, n) => Ascii(",\"" + name + "\":") + DecText(n)
  }

  function ToldText(fields: seq<Field>): bytes {
    if fields == [] then [] else FieldText(fields[0]) + ToldText(fields[1..])
  }

  lemma {:induction false} Joined(a: string, b: string)
    ensures Ascii(a + b) == Ascii(a) + Ascii(b)
  {}

  lemma {:induction false} NameText(name: string)
    ensures Ascii(",\"" + name + "\":") == Name(name)
  {
    Joined(",\"" + name, "\":");
    Joined(",\"", name);
  }

  lemma {:induction false} ToldFirst(f: Field, fields: seq<Field>)
    ensures ToldText([f] + fields) == FieldText(f) + ToldText(fields)
  {
    assert ([f] + fields)[1..] == fields;
    hide FieldText;
  }

  lemma {:induction false} ToldAppend(a: seq<Field>, b: seq<Field>)
    ensures ToldText(a + b) == ToldText(a) + ToldText(b)
  {
    hide FieldText;
    if a == [] {
      assert a + b == b;
    } else {
      ToldAppend(a[1..], b);
      ToldFirst(a[0], a[1..] + b);
      assert a + b == [a[0]] + (a[1..] + b);
      ConcatAssoc(FieldText(a[0]), ToldText(a[1..]), ToldText(b));
    }
  }

  lemma {:induction false} FieldIs(f: Field)
    ensures FieldText(f) == if f.Text? then Opt(f.name, f.value) else Number(f.name, f.n)
  {
    NameText(f.name);
    EmptyIff(if f.Text? then f.value else []);
    hide CStr, Ascii, Quoted;
  }

  /** Three members one after another. */
  lemma {:induction false} ToldThree(a: Field, b: Field, c: Field)
    ensures ToldText([a, b, c]) == FieldText(a) + (FieldText(b) + FieldText(c))
  {
    hide FieldText;
    assert [a, b, c][1..] == [b, c] && [b, c][1..] == [c] && [c][1..] == [];
    assert ToldText([c]) == FieldText(c) + [];
  }

  lemma {:induction false} EmptyIff(s: bytes)
    ensures CStr(s) == [] <==> s == [] || s[0] == 0
  {}

  lemma {:induction false} ToldIs(d: Details)
    ensures ToldText(Told(d)) == Context(d) + Caller(d)
  {
    hide ToldText;
    var f := Told(d);
    assert f == f[..6] + f[6..];
    ToldAppend(f[..6], f[6..]);
    ContextIs(d);
    CallerIs(d);
  }

  lemma {:induction false} ContextIs(d: Details)
    ensures ToldText(Told(d)[..6]) == Context(d)
  {
    hide Opt, ToldText, FieldText;
    var f := Told(d)[..6];
    assert f == [f[0], f[1], f[2]] + [f[3], f[4], f[5]];
    ToldAppend([f[0], f[1], f[2]], [f[3], f[4], f[5]]);
    ToldThree(f[0], f[1], f[2]);
    ToldThree(f[3], f[4], f[5]);
    forall i | 0 <= i < 6 ensures FieldText(f[i]) == Opt(f[i].name, f[i].value) {
      FieldIs(f[i]);
    }
  }

  lemma {:induction false} CallerIs(d: Details)
    ensures ToldText(Told(d)[6..]) == Caller(d)
  {
    hide Opt, Number, ToldText, FieldText;
    var f := Told(d)[6..];
    var front, rest := [f[0], f[1], f[2]], [f[3], f[4], f[5], f[6], f[7]];
    assert f == front + rest;
    ToldAppend(front, rest);
    ToldThree(f[0], f[1], f[2]);
    FieldIs(f[0]);
    FieldIs(f[1]);
    FieldIs(f[2]);
    PlatformIs(d);
  }

  lemma {:induction false} PlatformIs(d: Details)
    ensures ToldText([Text("machine_id", d.machineId), Text("os", d.os), Text("client", d.client),
                      Text("mode", d.mode), Text("client_time", d.clientTime)]) ==
            Opt("machine_id", d.machineId) + Opt("os", d.os) + Opt("client", d.client) + Opt("mode", d.mode)
            + Opt("client_time", d.clientTime)
  {
    hide Opt, ToldText, FieldText;
    var a, b, c := Text("machine_id", d.machineId), Text("os", d.os), Text("client", d.client);
    var e, g := Text("mode", d.mode), Text("client_time", d.clientTime);
    assert [a, b, c, e, g] == [a, b, c] + [e, g];
    ToldAppend([a, b, c], [e, g]);
    ToldThree(a, b, c);
    ToldTwo(e, g);
    FieldIs(a);
    FieldIs(b);
    FieldIs(c);
    FieldIs(e);
    FieldIs(g);
  }

  lemma {:induction false} ToldTwo(a: Field, b: Field)
    ensures ToldText([a, b]) == FieldText(a) + FieldText(b)
  {
    hide FieldText;
    assert [a, b][1..] == [b] && [b][1..] == [];
    assert ToldText([b]) == FieldText(b) + [];
  }

  /** The body, member by member: the key and the account, what the process tells, the first eight
      fingerprints and the addresses. */
  lemma {:induction false} BodyIs(user: bytes, key: bytes, d: Details, fingerprints: seq<bytes>)
    ensures BodyOf(user, key, d, fingerprints) ==
            Ascii("{\"public_key\":") + Quoted(key) + Ascii(",\"username\":") + Quoted(user)
            + ToldText(Told(d))
            + Ascii(",\"trusted_ca_fingerprints\":[")
            + Items(if |fingerprints| > 8 then fingerprints[..8] else fingerprints) + Ascii("]")
            + Ascii(",\"requested_options\":{")
            + (if d.addresses == [] then [] else Ascii("\"source_addresses\":[") + Items(d.addresses) + Ascii("]"))
            + Ascii("}}")
  {
    ToldIs(d);
    hide Quoted, Context, Caller, Items, Ascii, ToldText;
  }

  /** Where the key and the account stand in the body, each behind its own name. */
  lemma {:induction false} SubjectReads(user: bytes, key: bytes, rest: bytes)
    ensures var body := Subject(user, key) + rest;
            var n, m := |Escape(CStr(key))|, |Escape(CStr(user))|;
            && |body| == 30 + n + m + |rest|
            && body[2..12] == Ascii("public_key") && body[15..15 + n] == Escape(CStr(key))
            && body[18 + n..26 + n] == Ascii("username") && body[29 + n..29 + n + m] == Escape(CStr(user))
  {
    var k, u := Escape(CStr(key)), Escape(CStr(user));
    NamesInside();
    hide Ascii, Escape, CStr;
    var a, b := Ascii("{\"public_key\":"), Ascii(",\"username\":");
    var tail := b + ([QUOTE] + u + [QUOTE]) + rest;
    assert Subject(user, key) + rest == a + ([QUOTE] + k + [QUOTE]) + tail;
  }

  lemma {:induction false} NamesInside()
    ensures Ascii("{\"public_key\":")[2..12] == Ascii("public_key")
    ensures Ascii(",\"username\":")[2..10] == Ascii("username")
  {}

  /** Where a reader of JSON text takes a string to end: at the first quote no backslash stands for. */
  function StringEnd(p: bytes): (n: nat)
    ensures n <= |p|
    decreases |p|
  {
    if p == [] || p[0] == QUOTE then 0
    else if p[0] == BACKSLASH && |p| >= 2 then 2 + StringEnd(p[2..])
    else 1 + StringEnd(p[1..])
  }

  lemma {:induction false} EndBehindByte(c: byte, rest: bytes)
    ensures StringEnd(EscapeByte(c) + rest) == |EscapeByte(c)| + StringEnd(rest)
  {
    var e := EscapeByte(c);
    var p := e + rest;
    if |e| == 1 {
      assert p[1..] == rest;
    } else if |e| == 2 {
      assert p[2..] == rest;
    } else {
      PlainBytes(p[2..], 4);
      assert p[2..][4..] == rest;
    }
  }

  lemma {:induction false} PlainBytes(p: bytes, n: nat)
    requires n <= |p| && forall k :: 0 <= k < n ==> p[k] != QUOTE && p[k] != BACKSLASH
    ensures StringEnd(p) == n + StringEnd(p[n..])
    decreases n
  {
    if n > 0 {
      PlainBytes(p[1..], n - 1);
      assert p[1..][n - 1..] == p[n..];
    } else {
      assert p[0..] == p;
    }
  }

  lemma {:induction false} EndBehindText(s: bytes, rest: bytes)
    ensures StringEnd(Escape(s) + rest) == |Escape(s)| + StringEnd(rest)
    decreases |s|
  {
    hide StringEnd, EscapeByte;
    if s == [] {
      assert [] + rest == rest;
    } else {
      var e := EscapeByte(s[|s| - 1]);
      ConcatAssoc(Escape(s[..|s| - 1]), e, rest);
      EndBehindText(s[..|s| - 1], e + rest);
      EndBehindByte(s[|s| - 1], rest);
    }
  }

  /** A C string between its quotes is read back whole whatever follows: its closing quote is the one
      that ends it, and what stands before it unescapes to the string. */
  lemma {:induction false} QuotedReads(s: bytes, rest: bytes)
    ensures var p := (Quoted(s) + rest)[1..];
            && p[StringEnd(p)..] == [QUOTE] + rest
            && Unescape(p[..StringEnd(p)]) == Some(CStr(s))
  {
    hide CStr, Unescape, Escape;
    var text := Escape(CStr(s));
    var p := (Quoted(s) + rest)[1..];
    assert p == text + ([QUOTE] + rest);
    EndBehindText(CStr(s), [QUOTE] + rest);
    assert p[|text|..] == [QUOTE] + rest && p[..|text|] == text;
    StringRoundTrip(CStr(s));
  }

  // ----------------------------------------------------------------- the writing

  /** What a writer holds. */
  datatype Mark = Mark(bad: bool, text: bytes)

  ghost function MarkOf(w: JsonWriter): Mark
    reads w, w.buf
    requires w.Valid()
  {
    Mark(w.bad, w.Written())
  }

  /** From one mark to another: the text was appended, or the writer latched because the text and a NUL
      do not fit. */
  ghost predicate Appended(a: Mark, b: Mark, text: bytes, cap: nat) {
    b.bad == (a.bad || |a.text| + |text| + 1 > cap) && (!b.bad ==> b.text == a.text + text)
  }

  lemma {:induction false} AppendedBoth(a: Mark, b: Mark, c: Mark, x: bytes, y: bytes, cap: nat)
    requires Appended(a, b, x, cap) && Appended(b, c, y, cap)
    ensures Appended(a, c, x + y, cap)
  {
    ConcatAssoc(a.text, x, y);
  }

  /** Appends raw text behind what was appended since `from`. */
  method Raw(w: JsonWriter, text: bytes, ghost from: Mark, ghost sofar: bytes)
    requires w.Valid() && Appended(from, MarkOf(w), sofar, w.buf.Length)
    modifies w, w.buf
    ensures w.Valid() && Appended(from, MarkOf(w), sofar + text, w.buf.Length)
  {
    ghost var before := MarkOf(w);
    w.Append(text);
    AppendedBoth(from, before, MarkOf(w), sofar, text, w.buf.Length);
  }

  lemma {:induction false} QuotedBehind(text: bytes, s: bytes)
    ensures text + [QUOTE] + Escape(CStr(s)) + [QUOTE] == text + Quoted(s)
    ensures |Quoted(s)| == |Escape(CStr(s))| + 2
  {
    hide Escape, CStr;
  }

  method String(w: JsonWriter, s: bytes, ghost from: Mark, ghost sofar: bytes)
    requires w.Valid() && Appended(from, MarkOf(w), sofar, w.buf.Length)
    modifies w, w.buf
    ensures w.Valid() && Appended(from, MarkOf(w), sofar + Quoted(s), w.buf.Length)
  {
    hide Quoted, Escape, CStr;
    ghost var before := MarkOf(w);
    w.AppendString(s);
    QuotedBehind(before.text, s);
    AppendedBoth(from, before, MarkOf(w), sofar, Quoted(s), w.buf.Length);
  }

  /** One optional string field. */
  method PutOpt(w: JsonWriter, name: string, value: bytes, ghost from: Mark, ghost sofar: bytes)
    requires w.Valid() && Appended(from, MarkOf(w), sofar, w.buf.Length)
    modifies w, w.buf
    ensures w.Valid() && Appended(from, MarkOf(w), sofar + Opt(name, value), w.buf.Length)
  {
    hide Appended, Ascii, Quoted, CStr;
    if CStr(value) == [] {
      assert sofar + [] == sofar;
      return;
    }
    Raw(w, Ascii(",\""), from, sofar);
    Raw(w, Ascii(name), from, sofar + Ascii(",\""));
    Raw(w, Ascii("\":"), from, sofar + Ascii(",\"") + Ascii(name));
    String(w, value, from, sofar + Ascii(",\"") + Ascii(name) + Ascii("\":"));
    assert sofar + Ascii(",\"") + Ascii(name) + Ascii("\":") + Quoted(value) == sofar + Opt(name, value);
  }

  /** One integer field, always sent. */
  method PutNumber(w: JsonWriter, name: string, v: nat, ghost from: Mark, ghost sofar: bytes)
    requires w.Valid() && Appended(from, MarkOf(w), sofar, w.buf.Length)
    modifies w, w.buf
    ensures w.Valid() && Appended(from, MarkOf(w), sofar + Number(name, v), w.buf.Length)
  {
    Raw(w, Number(name, v), from, sofar);
  }

  /** Strings with commas between them. */
  method PutItems(w: JsonWriter, vs: seq<bytes>, ghost from: Mark, ghost sofar: bytes)
    requires w.Valid() && Appended(from, MarkOf(w), sofar, w.buf.Length)
    modifies w, w.buf
    ensures w.Valid() && Appended(from, MarkOf(w), sofar + Items(vs), w.buf.Length)
  {
    hide Appended, Quoted;
    assert vs[..0] == [] && sofar + [] == sofar;
    for i := 0 to |vs|
      invariant w.Valid() && Appended(from, MarkOf(w), sofar + Items(vs[..i]), w.buf.Length)
    {
      assert vs[..i + 1][..i] == vs[..i];
      ItemsStep(vs, i, sofar);
      if i > 0 {
        Raw(w, [COMMA], from, sofar + Items(vs[..i]));
      }
      String(w, vs[i], from, if i > 0 then sofar + Items(vs[..i]) + [COMMA] else sofar);
    }
    assert vs[..|vs|] == vs;
  }

  lemma {:induction false} ItemsStep(vs: seq<bytes>, i: nat, sofar: bytes)
    requires i < |vs|
    ensures i == 0 ==> sofar + Items(vs[..i]) == sofar && sofar + Items(vs[..i + 1]) == sofar + Quoted(vs[i])
    ensures i > 0 ==> sofar + Items(vs[..i + 1]) == sofar + Items(vs[..i]) + [COMMA] + Quoted(vs[i])
  {
    hide Quoted;
    assert vs[..i + 1][..i] == vs[..i];
    if i > 0 {
      assert sofar + (Items(vs[..i]) + [COMMA] + Quoted(vs[i])) == sofar + Items(vs[..i]) + [COMMA] + Quoted(vs[i]);
    }
  }

  method PutContext(w: JsonWriter, d: Details, ghost from: Mark, ghost sofar: bytes)
    requires w.Valid() && Appended(from, MarkOf(w), sofar, w.buf.Length)
    modifies w, w.buf
    ensures w.Valid() && Appended(from, MarkOf(w), sofar + Context(d), w.buf.Length)
  {
    hide Appended, Opt;
    ghost var a, b, c := Opt("hostname", d.hostname), Opt("pam_service", d.service), Opt("tty", d.tty);
    ghost var e, f := Opt("remote_host", d.remoteHost), Opt("requesting_user", d.requestingUser);
    ghost var g := Opt("process", d.process);
    PutOpt(w, "hostname", d.hostname, from, sofar);
    PutOpt(w, "pam_service", d.service, from, sofar + a);
    PutOpt(w, "tty", d.tty, from, sofar + a + b);
    PutOpt(w, "remote_host", d.remoteHost, from, sofar + a + b + c);
    PutOpt(w, "requesting_user", d.requestingUser, from, sofar + a + b + c + e);
    PutOpt(w, "process", d.process, from, sofar + a + b + c + e + f);
    assert sofar + a + b + c + e + f + g == sofar + Context(d);
  }

  method PutCaller(w: JsonWriter, d: Details, ghost from: Mark, ghost sofar: bytes)
    requires w.Valid() && Appended(from, MarkOf(w), sofar, w.buf.Length)
    modifies w, w.buf
    ensures w.Valid() && Appended(from, MarkOf(w), sofar + Caller(d), w.buf.Length)
  {
    hide Appended, Opt, Number;
    ghost var a, b, c := Number("caller_uid", d.uid), Number("caller_pid", d.pid), Number("caller_ppid", d.ppid);
    ghost var e, f, g := Opt("machine_id", d.machineId), Opt("os", d.os), Opt("client", d.client);
    ghost var h, i := Opt("mode", d.mode), Opt("client_time", d.clientTime);
    PutNumber(w, "caller_uid", d.uid, from, sofar);
    PutNumber(w, "caller_pid", d.pid, from, sofar + a);
    PutNumber(w, "caller_ppid", d.ppid, from, sofar + a + b);
    PutOpt(w, "machine_id", d.machineId, from, sofar + a + b + c);
    PutOpt(w, "os", d.os, from, sofar + a + b + c + e);
    PutOpt(w, "client", d.client, from, sofar + a + b + c + e + f);
    PutOpt(w, "mode", d.mode, from, sofar + a + b + c + e + f + g);
    PutOpt(w, "client_time", d.clientTime, from, sofar + a + b + c + e + f + g + h);
    assert sofar + a + b + c + e + f + g + h + i == sofar + Caller(d);
  }

  /** The first eight trusted CAs. */
  method PutTrust(w: JsonWriter, fingerprints: seq<bytes>, ghost from: Mark, ghost sofar: bytes)
    requires w.Valid() && Appended(from, MarkOf(w), sofar, w.buf.Length)
    modifies w, w.buf
    ensures w.Valid() && Appended(from, MarkOf(w), sofar + Trust(fingerprints), w.buf.Length)
  {
    hide Appended, Ascii, Items;
    ghost var a, b := Ascii(",\"trusted_ca_fingerprints\":["), Items(Shown(fingerprints));
    Raw(w, Ascii(",\"trusted_ca_fingerprints\":["), from, sofar);
    PutItems(w, Shown(fingerprints), from, sofar + a);
    Raw(w, Ascii("]"), from, sofar + a + b);
    assert sofar + a + b + Ascii("]") == sofar + Trust(fingerprints);
  }

  method PutAddresses(w: JsonWriter, addresses: seq<bytes>, ghost from: Mark, ghost sofar: bytes)
    requires w.Valid() && Appended(from, MarkOf(w), sofar, w.buf.Length)
    modifies w, w.buf
    ensures w.Valid() && Appended(from, MarkOf(w), sofar + Addresses(addresses), w.buf.Length)
  {
    hide Appended, Ascii, Items;
    if addresses == [] {
      assert sofar + [] == sofar;
      return;
    }
    ghost var a, b := Ascii("\"source_addresses\":["), Items(addresses);
    Raw(w, Ascii("\"source_addresses\":["), from, sofar);
    PutItems(w, addresses, from, sofar + a);
    Raw(w, Ascii("]"), from, sofar + a + b);
    assert sofar + a + b + Ascii("]") == sofar + Addresses(addresses);
  }

  method PutOptions(w: JsonWriter, addresses: seq<bytes>, ghost from: Mark, ghost sofar: bytes)
    requires w.Valid() && Appended(from, MarkOf(w), sofar, w.buf.Length)
    modifies w, w.buf
    ensures w.Valid() && Appended(from, MarkOf(w), sofar + Options(addresses), w.buf.Length)
  {
    hide Appended, Ascii, Addresses;
    ghost var a, b := Ascii(",\"requested_options\":{"), Addresses(addresses);
    Raw(w, Ascii(",\"requested_options\":{"), from, sofar);
    PutAddresses(w, addresses, from, sofar + a);
    Raw(w, Ascii("}}"), from, sofar + a + b);
    assert sofar + a + b + Ascii("}}") == sofar + Options(addresses);
  }

  /** The whole body, when it and its NUL fit the buffer. */
  method Build(user: bytes, key: bytes, d: Details, fingerprints: seq<bytes>, buf: array<byte>)
               returns (ok: bool, len: nat)
    requires buf.Length > 0
    modifies buf
    ensures ok == (|BodyOf(user, key, d, fingerprints)| + 1 <= buf.Length)
    ensures ok ==> len == |BodyOf(user, key, d, fingerprints)| && buf[..len] == BodyOf(user, key, d, fingerprints)
  {
    hide Ascii, Quoted, Context, Caller, Trust, Options;
    var w := new JsonWriter(buf);
    ghost var from := MarkOf(w);
    ghost var a, b, c := Ascii("{\"public_key\":"), Quoted(key), Ascii(",\"username\":");
    Raw(w, Ascii("{\"public_key\":"), from, []);
    assert [] + a == a;
    String(w, key, from, a);
    Raw(w, Ascii(",\"username\":"), from, a + b);
    String(w, user, from, a + b + c);
    ghost var sofar := Subject(user, key);
    PutContext(w, d, from, sofar);
    PutCaller(w, d, from, sofar + Context(d));
    PutTrust(w, fingerprints, from, sofar + Context(d) + Caller(d));
    PutOptions(w, d.addresses, from, sofar + Context(d) + Caller(d) + Trust(fingerprints));
    ok, len := !w.bad, w.len;
    assert [] + BodyOf(user, key, d, fingerprints) == BodyOf(user, key, d, fingerprints);
  }
}
