/** Public keys as blobs and as authorized_keys lines, and the trusted CA file. */
module SshKey {
  import opened Bytes
  import opened SshWire
  import SshCert
  import Base64
  import opened Cutting

  const MAX_KEY_LINE := 3072
  const MAX_POINT := 256
  const MAX_CAS := 32
  const MAX_CA_FILE := 32 * 1024
  const P384 := Ascii("ecdsa-sha2-nistp384")
  const P384_CURVE := Ascii("nistp384")

  // ------------------------------------------------------------------- blobs

  function BlobP384(point: bytes): bytes
    requires |point| < UINT32
  {
    Str(P384) + (Str(P384_CURVE) + Str(point))
  }

  method WriteP384(point: bytes, out: array<byte>) returns (ok: bool, len: nat)
    modifies out
    ensures ok == (|point| < UINT32 && |BlobP384(point)| <= out.Length)
    ensures ok ==> len <= out.Length && out[..len] == BlobP384(point)
  {
    hide Ascii;
    var w := new Writer(out);
    w.PutStr(P384);
    w.PutStr(P384_CURVE);
    w.PutStr(point);
    len := 0;
    if w.bad {
      return false, len;
    }
    len := w.len;
    assert out[..len] == w.Written() == [] + Str(P384) + Str(P384_CURVE) + Str(point);
    assert [] + Str(P384) + Str(P384_CURVE) + Str(point) == BlobP384(point);
    ok := true;
  }

  /** The algorithm a blob names, as the C string its reader leaves. */
  function AlgoOf(blob: bytes): Option<bytes> {
    match GetName(blob, NAME_CAP)
    case None => None
    case Some((raw, _)) => Some(CStr(raw))
  }

  /** Characters that stand for themselves everywhere: no blank, no NUL, no hash, no quote, no backslash. */
  predicate Plain(s: bytes) {
    forall c :: c in s ==> 36 <= c < 128 && c != BACKSLASH
  }

  lemma {:induction false} PlainMeans(s: bytes)
    requires Plain(s)
    ensures NulFree(s) && NoSpace(s) && (s != [] ==> s[0] != HASH)
  {
    assert s != [] ==> s[0] in s;
  }

  lemma {:induction false} PlainText(s: string)
    requires forall ch :: ch in s ==> 36 <= ch as int < 128 && ch as int != BACKSLASH
    ensures Plain(Ascii(s))
  {
    forall c | c in Ascii(s) ensures 36 <= c < 128 && c != BACKSLASH {
      var i: nat :| i < |s| && c == Ascii(s)[i];
      assert s[i] in s;
    }
  }

  lemma {:induction false} P384Spelled()
    ensures |P384| == 19 && |P384_CURVE| == 8 && NulFree(P384) && NoSpace(P384) && P384[0] != HASH
  {
    PlainText("ecdsa-sha2-nistp384");
    PlainMeans(P384);
  }

  /** The blob of a generated key always fits, and names its algorithm. */
  lemma {:induction false} GeneratedKeyFits(point: bytes)
    requires |point| <= MAX_POINT
    ensures |BlobP384(point)| <= MAX_KEY_BLOB && AlgoOf(BlobP384(point)) == Some(P384)
  {
    hide Ascii, Str, CStr;
    P384Spelled();
    var rest := Str(P384_CURVE) + Str(point);
    GetStrIff(BlobP384(point), P384, rest);
    CStrOfNulFree(P384);
  }

  lemma {:induction false} PutAllInjective(a: seq<bytes>, b: seq<bytes>)
    requires SshCert.StrsSized(a) && SshCert.StrsSized(b)
    requires SshCert.PutAll(a, []) == SshCert.PutAll(b, [])
    ensures a == b
  {
    if a != [] && b != [] {
      var s := SshCert.PutAll(a, []);
      GetStrIff(s, a[0], SshCert.PutAll(a[1..], []));
      GetStrIff(s, b[0], SshCert.PutAll(b[1..], []));
      PutAllInjective(a[1..], b[1..]);
      assert a == [a[0]] + a[1..] && b == [b[0]] + b[1..];
    }
  }

  /** A certificate's rebuilt key is a generated P-384 key exactly when the base algorithm,
      the curve and the point all agree. */
  lemma {:induction false} KeyBindingIff(h: SshCert.Head, point: bytes)
    requires SshCert.HeadFits(h) && |point| < UINT32
    ensures SshCert.KeyBlob(h) == BlobP384(point) <==>
            SshCert.BaseAlgo(CStr(h.algo), NAME_CAP) == Some(P384) && h.key == [P384_CURVE, point]
  {
    hide CStr, SshCert.BaseAlgo, SshCert.KeyFieldCount, Str, Ascii;
    var base := SshCert.BaseAlgo(CStr(h.algo), NAME_CAP).value;
    var left, right := [base] + h.key, [P384, P384_CURVE, point];
    assert left[1..] == h.key && right[1..] == [P384_CURVE, point] && [P384_CURVE, point][1..] == [point]
           && [point][1..] == [];
    assert SshCert.PutAll(left, []) == SshCert.KeyBlob(h);
    assert Str(point) + [] == Str(point);
    assert SshCert.PutAll([P384_CURVE, point], []) == Str(P384_CURVE) + SshCert.PutAll([point], []);
    assert SshCert.PutAll(right, []) == BlobP384(point);
    if SshCert.KeyBlob(h) == BlobP384(point) {
      PutAllInjective(left, right);
      assert left[0] == right[0];
    }
  }

  // -------------------------------------------------------------------- lines

  predicate IsSpace(c: byte) {
    c == SPACE || c == TAB || c == CR || c == LF
  }

  /** A space, a tab or a line end. */
  predicate White(c: byte) {
    c == ' ' as int || c == '\t' as int || c == '\r' as int || c == '\n' as int
  }

  predicate NoSpace(s: bytes) {
    forall c :: c in s ==> !White(c)
  }

  lemma {:induction false} SpaceIff()
    ensures forall c: byte :: IsSpace(c) <==> White(c)
  {}

  /** The first position at or after i whose spaceness is not `space`. */
  function Run(s: bytes, i: nat, space: bool): (k: nat)
    requires i <= |s|
    ensures i <= k <= |s|
    ensures forall j :: i <= j < k ==> IsSpace(s[j]) == space
    ensures k < |s| ==> IsSpace(s[k]) != space
    decreases |s| - i
  {
    if i < |s| && IsSpace(s[i]) == space then Run(s, i + 1, space) else i
  }

  lemma {:induction false} RunUnique(s: bytes, i: nat, space: bool, k: nat)
    requires i <= k <= |s|
    requires forall j :: i <= j < k ==> IsSpace(s[j]) == space
    requires k < |s| ==> IsSpace(s[k]) != space
    ensures Run(s, i, space) == k
    decreases k - i
  {
    if i < k {
      RunUnique(s, i + 1, space, k);
    }
  }

  /** The first two tokens of a line. */
  datatype Fields = Fields(algo: bytes, text: bytes)

  function FieldsOf(line: bytes): (f: Fields)
    ensures NoSpace(f.algo)
  {
    var a := Run(line, 0, true);
    var b := Run(line, a, false);
    var c := Run(line, b, true);
    var d := Run(line, c, false);
    assert forall x :: x in line[a..b] ==> !IsSpace(x);
    Fields(line[a..b], line[c..d])
  }

  datatype LineKey = NoKey | BadLine | Key(blob: bytes, algo: bytes)

  /** Blank and comment lines hold no key; otherwise type and blob must agree. */
  function KeyOf(line: bytes, blobCap: nat, algoCap: nat): LineKey {
    var f := FieldsOf(line);
    if f.algo == [] || f.algo[0] == HASH then NoKey
    else if |f.algo| >= algoCap || f.text == [] then BadLine
    else match Base64.Decode(f.text)
      case None => BadLine
      case Some(blob) =>
        if |blob| > blobCap then BadLine
        else match AlgoOf(blob)
          case None => BadLine
          case Some(t) => if CStr(f.algo) == t then Key(blob, CStr(f.algo)) else BadLine
  }

  function AuthorizedLine(algo: bytes, blob: bytes): bytes {
    algo + [SPACE] + Base64.Encode(blob) + [LF]
  }

  lemma {:induction false} EncodedIsPlain(b: bytes)
    ensures Plain(Base64.Encode(b))
  {
    hide Base64.Group, Plain;
    if |b| > 2 {
      EncodedIsPlain(b[3..]);
      GroupIsPlain(b[0], b[1], b[2]);
      PlainJoined(Base64.Group(b[0], b[1], b[2]), Base64.Encode(b[3..]));
    } else if |b| == 2 {
      GroupIsPlain(b[0], b[1], 0);
      PlainPadded(Base64.Group(b[0], b[1], 0), 3, [Base64.PAD]);
    } else if |b| == 1 {
      GroupIsPlain(b[0], 0, 0);
      PlainPadded(Base64.Group(b[0], 0, 0), 2, [Base64.PAD, Base64.PAD]);
    } else {
      PlainJoined([], []);
    }
  }

  lemma {:induction false} PlainJoined(a: bytes, b: bytes)
    ensures Plain([]) && (Plain(a) && Plain(b) ==> Plain(a + b))
  {}

  lemma {:induction false} PlainPadded(a: bytes, k: nat, pad: bytes)
    requires k <= |a| && Plain(a) && forall c :: c in pad ==> c == Base64.PAD
    ensures Plain(a[..k] + pad)
  {
    assert forall c :: c in a[..k] ==> c in a;
  }

  lemma {:induction false} GroupIsPlain(a: byte, b: byte, c: byte)
    ensures Plain(Base64.Group(a, b, c))
  {}

  lemma {:induction false} EncodedHasNoSpace(b: bytes)
    ensures NoSpace(Base64.Encode(b))
  {
    EncodedIsPlain(b);
    PlainMeans(Base64.Encode(b));
  }

  lemma {:induction false} LineFields(algo: bytes, text: bytes)
    requires algo != [] && text != [] && NoSpace(algo) && NoSpace(text)
    ensures FieldsOf(algo + [SPACE] + text + [LF]) == Fields(algo, text)
  {
    var line := algo + [SPACE] + text + [LF];
    var b, d := |algo|, |algo| + 1 + |text|;
    assert forall j :: 0 <= j < b ==> line[j] == algo[j] && algo[j] in algo;
    assert forall j :: b < j < d ==> line[j] == text[j - b - 1] && text[j - b - 1] in text;
    RunUnique(line, 0, true, 0);
    RunUnique(line, 0, false, b);
    RunUnique(line, b, true, b + 1);
    RunUnique(line, b + 1, false, d);
    assert line[0..b] == algo && line[b + 1..d] == text;
  }

  lemma {:induction false} LineText(algo: bytes, blob: bytes)
    ensures AuthorizedLine(algo, blob) == algo + Ascii(" ") + Base64.Encode(blob) + Ascii("\n")
  {
    assert Ascii(" ") == [SPACE] && Ascii("\n") == [LF];
  }

  /** Reading back the line written for a blob gives the blob and its algorithm exactly when
      the algorithm's name is one token that does not look like a comment. */
  lemma {:induction false} LineRoundTrip(blob: bytes, algo: bytes, cap: nat)
    requires |blob| <= cap && AlgoOf(blob) == Some(algo)
    ensures KeyOf(AuthorizedLine(algo, blob), cap, NAME_CAP) == Key(blob, algo) <==>
            algo != [] && NoSpace(algo) && algo[0] != '#' as int
  {
    hide AlgoOf, Base64.Encode, Base64.Decode, CStr, GetName, FieldsOf, NoSpace, NulFree, White;
    var text := Base64.Encode(blob);
    var line := AuthorizedLine(algo, blob);
    AlgoOfMeans(blob, algo);
    EncodedHasNoSpace(blob);
    Base64.DecodeIff(text, blob);
    CStrOfNulFree(algo);
    EncodedNotShort(blob);
    if algo != [] && NoSpace(algo) && algo[0] != HASH {
      LineFields(algo, text);
    }
    if algo == [] {
      assert line == [SPACE] + text + [LF];
      OneField(text);
    } else if KeyOf(line, cap, NAME_CAP) == Key(blob, algo) {
      assert algo == CStr(FieldsOf(line).algo);
      TokenIsClean(line);
    }
  }

  lemma {:induction false} OneField(text: bytes)
    requires text != [] && NoSpace(text)
    ensures FieldsOf([SPACE] + text + [LF]) == Fields(text, [])
  {
    var line := [SPACE] + text + [LF];
    var b := 1 + |text|;
    assert forall j :: 1 <= j < b ==> line[j] == text[j - 1] && text[j - 1] in text;
    RunUnique(line, 0, true, 1);
    RunUnique(line, 1, false, b);
    RunUnique(line, b, true, b + 1);
    RunUnique(line, b + 1, false, b + 1);
    assert line[1..b] == text && line[b + 1..b + 1] == [];
  }

  predicate AllSpace(s: bytes) {
    forall c :: c in s ==> White(c)
  }

  /** A line cut into its tokens and what stands between them: the base64 is a whole token. */
  ghost predicate Cut(line: bytes, lead: bytes, token: bytes, gap: bytes, text: bytes, tail: bytes) {
    && line == lead + (token + (gap + (text + tail)))
    && AllSpace(lead) && AllSpace(gap) && gap != []
    && token != [] && NoSpace(token) && text != [] && NoSpace(text)
    && (tail == [] || White(tail[0]))
  }

  /** Where a run of one kind starts with `part` and goes on with something of the other kind, it ends. */
  lemma {:induction false} RunOver(s: bytes, i: nat, part: bytes, rest: bytes, space: bool)
    requires i <= |s| && s[i..] == part + rest
    requires if space then AllSpace(part) else NoSpace(part)
    requires rest == [] || IsSpace(rest[0]) != space
    ensures Run(s, i, space) == i + |part| && i + |part| <= |s|
    ensures s[i..i + |part|] == part && s[i + |part|..] == rest
  {
    var k := i + |part|;
    assert s[i..k] == s[i..][..|part|] && s[k..] == s[i..][|part|..];
    assert forall j :: i <= j < k ==> s[j] == s[i..k][j - i] && s[j] in part;
    RunUnique(s, i, space, k);
  }

  lemma {:induction false} RunSlice(s: bytes, i: nat, space: bool)
    requires i <= |s|
    ensures var run := s[i..Run(s, i, space)];
            if space then AllSpace(run) else NoSpace(run)
  {
    SpaceIff();
    hide IsSpace, White;
  }

  lemma {:induction false} CutHeads(line: bytes, lead: bytes, token: bytes, gap: bytes, text: bytes, tail: bytes)
    requires Cut(line, lead, token, gap, text, tail)
    ensures token != [] && gap != [] && text != []
    ensures !IsSpace((token + (gap + (text + tail)))[0]) && IsSpace((gap + (text + tail))[0])
            && !IsSpace((text + tail)[0])
  {
    SpaceIff();
    hide IsSpace, White;
    assert token[0] in token && gap[0] in gap && text[0] in text;
  }

  lemma {:induction false} CutMeans(line: bytes, lead: bytes, token: bytes, gap: bytes, text: bytes, tail: bytes)
    requires Cut(line, lead, token, gap, text, tail)
    ensures line[0..] == lead + (token + (gap + (text + tail)))
    ensures AllSpace(lead) && NoSpace(token) && AllSpace(gap) && NoSpace(text) && (tail == [] || IsSpace(tail[0]))
  {}

  lemma {:induction false} CutFields(line: bytes, lead: bytes, token: bytes, gap: bytes, text: bytes, tail: bytes)
    requires Cut(line, lead, token, gap, text, tail)
    ensures FieldsOf(line) == Fields(token, text)
  {
    hide *;
    CutHeads(line, lead, token, gap, text, tail);
    CutMeans(line, lead, token, gap, text, tail);
    TwoTokens(line, lead, token, gap + (text + tail), gap, text, tail);
  }

  lemma {:induction false} TwoTokens(line: bytes, lead: bytes, token: bytes, more: bytes, gap: bytes, text: bytes,
                                     tail: bytes)
    requires line[0..] == lead + (token + more) && more == gap + (text + tail)
    requires AllSpace(lead) && NoSpace(token) && AllSpace(gap) && NoSpace(text) && (tail == [] || IsSpace(tail[0]))
    requires token != [] && gap != [] && text != []
    requires !IsSpace((token + more)[0]) && IsSpace(more[0]) && !IsSpace((text + tail)[0])
    ensures FieldsOf(line) == Fields(token, text)
  {
    hide *;
    var a := |lead|;
    var b := a + |token|;
    var c := b + |gap|;
    var d := c + |text|;
    RunsOver(line, 0, a, b, lead, token, more);
    RunsOver(line, b, c, d, gap, text, tail);
    FieldsAt(line, a, b, c, d);
  }

  /** Spaces from i to k and the token behind them up to e. */
  lemma {:induction false} RunsOver(s: bytes, i: nat, k: nat, e: nat, gap: bytes, token: bytes, rest: bytes)
    requires i <= |s| && s[i..] == gap + (token + rest) && token != [] && !IsSpace((token + rest)[0])
    requires AllSpace(gap) && NoSpace(token) && (rest == [] || IsSpace(rest[0]))
    requires k == i + |gap| && e == k + |token|
    ensures e <= |s| && Run(s, i, true) == k && Run(s, k, false) == e
    ensures s[k..e] == token && s[e..] == rest
  {
    hide Run, IsSpace, AllSpace, NoSpace;
    RunOver(s, i, gap, token + rest, true);
    RunOver(s, k, token, rest, false);
  }

  lemma {:induction false} FieldsAt(line: bytes, a: nat, b: nat, c: nat, d: nat)
    requires a <= b <= c <= d <= |line|
    requires Run(line, 0, true) == a && Run(line, a, false) == b && Run(line, b, true) == c && Run(line, c, false) == d
    ensures FieldsOf(line) == Fields(line[a..b], line[c..d])
  {
    hide Run;
  }

  lemma {:induction false} FieldsCut(line: bytes)
    requires FieldsOf(line).algo != [] && FieldsOf(line).text != []
    ensures exists lead, gap, tail :: Cut(line, lead, FieldsOf(line).algo, gap, FieldsOf(line).text, tail)
  {
    SpaceIff();
    hide Run, IsSpace, White, AllSpace, NoSpace, FieldsOf;
    var a := Run(line, 0, true);
    var b := Run(line, a, false);
    var c := Run(line, b, true);
    var d := Run(line, c, false);
    FieldsAt(line, a, b, c, d);
    RunSlice(line, 0, true);
    RunSlice(line, a, false);
    RunSlice(line, b, true);
    RunSlice(line, c, false);
    Regrouped(line, a, b, c, d);
    assert b < |line| && IsSpace(line[b]) && (c < |line| ==> !IsSpace(line[c]));
    assert Cut(line, line[0..a], line[a..b], line[b..c], line[c..d], line[d..]);
  }

  lemma {:induction false} Regrouped(line: bytes, a: nat, b: nat, c: nat, d: nat)
    requires a <= b <= c <= d <= |line|
    ensures line == line[0..a] + (line[a..b] + (line[b..c] + (line[c..d] + line[d..])))
  {}

  /** The lines that hold a key, with this blob and algorithm: spaces, one token that is no comment, a
      gap, the blob in base64 as a whole token, and anything behind a space. The token is the blob's own
      algorithm, as C strings, and both fit their buffers. */
  lemma {:induction false} KeyOfIff(line: bytes, blobCap: nat, algoCap: nat, blob: bytes, algo: bytes)
    ensures KeyOf(line, blobCap, algoCap) == Key(blob, algo) <==>
            && |blob| <= blobCap && AlgoOf(blob) == Some(algo)
            && exists lead, token, gap, tail ::
                 && Cut(line, lead, token, gap, Base64.Encode(blob), tail)
                 && token[0] != '#' as int && |token| < algoCap && CStr(token) == algo
  {
    hide FieldsOf, Cut, Base64.Encode, Base64.Decode, AlgoOf, CStr;
    var f := FieldsOf(line);
    if KeyOf(line, blobCap, algoCap) == Key(blob, algo) {
      Base64.DecodeIff(f.text, blob);
      FieldsCut(line);
    }
    if |blob| <= blobCap && AlgoOf(blob) == Some(algo) {
      Base64.DecodeIff(Base64.Encode(blob), blob);
      forall lead, token, gap, tail | Cut(line, lead, token, gap, Base64.Encode(blob), tail)
        ensures token != [] && f == Fields(token, Base64.Encode(blob)) && Base64.Encode(blob) != []
      {
        CutHeads(line, lead, token, gap, Base64.Encode(blob), tail);
        CutFields(line, lead, token, gap, Base64.Encode(blob), tail);
      }
    }
  }

  /** The lines that hold none: spaces, and then nothing or a comment. */
  lemma {:induction false} NoKeyIff(line: bytes, blobCap: nat, algoCap: nat)
    ensures KeyOf(line, blobCap, algoCap) == NoKey <==>
            exists lead, rest :: line == lead + rest && AllSpace(lead) && (rest == [] || rest[0] == '#' as int)
  {
    hide Base64.Decode, AlgoOf, CStr, AllSpace;
    NoKeyFields(line);
    hide FieldsOf;
  }

  lemma {:induction false} NoKeyFields(line: bytes)
    ensures FieldsOf(line).algo == [] || FieldsOf(line).algo[0] == HASH <==>
            exists lead, rest :: line == lead + rest && AllSpace(lead) && (rest == [] || rest[0] == '#' as int)
  {
    var a := Run(line, 0, true);
    RunAtEnd(line, a);
    if a < |line| {
      RunMoves(line, a);
    }
    LeadingSpace(line);
    hide Run, AllSpace;
  }

  lemma {:induction false} LeadingSpace(line: bytes)
    ensures var a := Run(line, 0, true);
            a == |line| || line[a] == HASH <==>
            exists lead, rest :: line == lead + rest && AllSpace(lead) && (rest == [] || rest[0] == '#' as int)
  {
    hide Run, AllSpace;
    var a := Run(line, 0, true);
    assert line[0..] == line;
    forall lead, rest | line == lead + rest && AllSpace(lead) && (rest == [] || rest[0] == '#' as int)
      ensures a == |lead| && (a < |line| ==> line[a] == HASH)
    {
      HashIsNoSpace();
      RunOver(line, 0, lead, rest, true);
    }
    RunSlice(line, 0, true);
    SplitAt(line, a);
    assert line[0..a] == line[..a];
    if a == |line| || line[a] == HASH {
      assert line == line[..a] + line[a..] && AllSpace(line[..a]) && (line[a..] == [] || line[a..][0] == HASH);
    }
  }

  lemma {:induction false} HashIsNoSpace()
    ensures !IsSpace(HASH)
  {}

  lemma {:induction false} TokenIsClean(line: bytes)
    requires FieldsOf(line).algo != [] && FieldsOf(line).algo[0] != HASH && CStr(FieldsOf(line).algo) != []
    ensures var a := CStr(FieldsOf(line).algo); NoSpace(a) && a[0] != HASH
  {
    var t := FieldsOf(line).algo;
    assert forall c :: c in CStr(t) ==> c in t;
  }

  lemma {:induction false} AlgoOfMeans(blob: bytes, algo: bytes)
    requires AlgoOf(blob) == Some(algo)
    ensures |algo| < NAME_CAP && NulFree(algo) && blob != []
  {}

  /** Every line for a key blob fits the line buffer with its NUL. */
  lemma {:induction false} LineFits(blob: bytes, algo: bytes)
    requires |blob| <= MAX_KEY_BLOB && AlgoOf(blob) == Some(algo)
    ensures |AuthorizedLine(algo, blob)| + 1 <= 3072 == MAX_KEY_LINE
  {
    AlgoOfMeans(blob, algo);
  }

  method WriteLine(blob: bytes, out: array<byte>) returns (ok: bool)
    modifies out
    ensures ok == (AlgoOf(blob).Some? && |AuthorizedLine(AlgoOf(blob).value, blob)| + 1 <= out.Length)
    ensures ok ==> var line := AuthorizedLine(AlgoOf(blob).value, blob);
                   out[..|line|] == line && out[|line|] == 0
  {
    hide CStr, Base64.Encode, GetName, AuthorizedLine;
    var r := new Reader(blob);
    assert r.Rest() == blob;
    var raw;
    ok, raw := r.ReadName(NAME_CAP);
    if !ok {
      return;
    }
    if blob == [] {
      NoNameInNothing();
    }
    ok := PutLine(CStr(raw), blob, out);
  }

  /** Name, space, base64, newline and NUL. */
  method PutLine(algo: bytes, blob: bytes, out: array<byte>) returns (ok: bool)
    requires blob != []
    modifies out
    ensures ok == (|AuthorizedLine(algo, blob)| + 1 <= out.Length)
    ensures ok ==> var line := AuthorizedLine(algo, blob);
                   out[..|line|] == line && out[|line|] == 0
  {
    hide Base64.Encode;
    EncodedNotShort(blob);
    if |algo| + 2 >= out.Length {
      return false;
    }
    Copy(out, 0, algo);
    out[|algo|] := SPACE;
    assert out[..|algo| + 1] == algo + [SPACE];
    ok := Base64.EncodeInto(blob, out, |algo| + 1);
    if !ok {
      return;
    }
    var n := |algo| + 1 + (|blob| + 2) / 3 * 4;
    if n + 2 > out.Length {
      return false;
    }
    out[n], out[n + 1] := LF, 0;
    assert out[..n + 1] == algo + [SPACE] + Base64.Encode(blob) + [LF];
  }

  lemma {:induction false} EncodedNotShort(blob: bytes)
    requires blob != []
    ensures |Base64.Encode(blob)| >= 4
  {}

  lemma {:induction false} NoNameInNothing()
    ensures GetName([], NAME_CAP) == None
  {}

  method SkipRun(s: bytes, from: nat, space: bool) returns (i: nat)
    requires from <= |s|
    ensures i == Run(s, from, space)
  {
    i := from;
    while i < |s| && IsSpace(s[i]) == space
      invariant from <= i <= |s| && Run(s, i, space) == Run(s, from, space)
    {
      i := i + 1;
    }
  }

  /** One line of a key file, or a certificate line: `blank` tells "nothing here" from "malformed". */
  method ParseLine(line: bytes, blob: array<byte>, algoCap: nat)
    returns (ok: bool, blank: bool, blobLen: nat, algo: bytes)
    modifies blob
    ensures blobLen <= blob.Length
    ensures match KeyOf(line, blob.Length, algoCap)
            case NoKey => !ok && blank
            case BadLine => !ok && !blank
            case Key(b, a) => ok && !blank && blob[..blobLen] == b && algo == a
  {
    hide CStr, Base64.Decode, GetName, Run;
    ok, blank, blobLen, algo := false, false, 0, [];
    var a := SkipRun(line, 0, true);
    if a == |line| || line[a] == HASH {
      blank := true;
      RunAtEnd(line, a);
      return;
    }
    var b := SkipRun(line, a, false);
    RunMoves(line, a);
    if b - a >= algoCap {
      return;
    }
    var c := SkipRun(line, b, true);
    var d := SkipRun(line, c, false);
    if d - c == 0 {
      return;
    }
    var text := line[c..d];
    var decoded, w := Base64.DecodeInto(text, blob);
    DecodeAgrees(text, blob.Length);
    if !decoded {
      return;
    }
    Base64.DecodeIff(text, blob[..w]);
    var r := new Reader(blob[..w]);
    assert r.Rest() == blob[..w];
    var named, raw := r.ReadName(NAME_CAP);
    if !named || CStr(line[a..b]) != CStr(raw) {
      return;
    }
    ok, blobLen, algo := true, w, CStr(line[a..b]);
  }

  lemma {:induction false} RunAtEnd(line: bytes, a: nat)
    requires a == Run(line, 0, true)
    ensures a == |line| ==> FieldsOf(line).algo == []
    ensures a < |line| && line[a] == HASH ==> FieldsOf(line).algo != [] && FieldsOf(line).algo[0] == HASH
  {
    if a < |line| { RunMoves(line, a); }
  }

  lemma {:induction false} RunMoves(line: bytes, a: nat)
    requires a < |line| && !IsSpace(line[a])
    ensures Run(line, a, false) > a
  {}

  lemma {:induction false} DecodeAgrees(text: bytes, cap: nat)
    ensures (exists b: bytes :: text == Base64.Encode(b) && |b| <= cap) <==>
            Base64.Decode(text).Some? && |Base64.Decode(text).value| <= cap
  {
    hide Base64.Decode, Base64.Encode;
    forall b: bytes ensures Base64.Decode(text) == Some(b) <==> text == Base64.Encode(b) {
      Base64.DecodeIff(text, b);
    }
    if Base64.Decode(text).Some? {
      Base64.DecodeIff(text, Base64.Decode(text).value);
    }
  }

  // -------------------------------------------------------- the trusted CA file

  datatype CaKey = CaKey(blob: bytes, algo: bytes)
  datatype CaStatus = CaOk | CaMalformed | CaNoneUsable

  /** Whether this build can verify with keys of an algorithm. */
  type Supports = bytes -> bool

  function CaLine(line: bytes): LineKey {
    if line == [] then NoKey else KeyOf(line, MAX_KEY_BLOB, NAME_CAP)
  }

  /** The usable keys of a file's lines, in order. */
  function Usable(lines: seq<bytes>, supports: Supports): seq<CaKey> {
    if lines == [] then []
    else
      var keys, l := Usable(lines[..|lines| - 1], supports), CaLine(lines[|lines| - 1]);
      if l.Key? && supports(l.algo) then keys + [CaKey(l.blob, l.algo)] else keys
  }

  /** A malformed line counts only while there is room left: the first usable key past the
      limit ends the reading. */
  predicate Spoilt(lines: seq<bytes>, supports: Supports) {
    exists i :: 0 <= i < |lines| && CaLine(lines[i]).BadLine? && |Usable(lines[..i], supports)| <= MAX_CAS
  }

  /** What loading these lines answers. */
  ghost function CaAnswer(lines: seq<bytes>, supports: Supports): CaStatus {
    if Spoilt(lines, supports) then CaMalformed
    else if Usable(lines, supports) == [] then CaNoneUsable else CaOk
  }

  /** Whether a line ends the reading, given the usable keys above it. */
  predicate Ends(l: LineKey, kept: nat, supports: Supports) {
    l.BadLine? || (l.Key? && supports(l.algo) && kept >= MAX_CAS)
  }

  /** The line at which the reading ends: the first malformed one or the 33rd usable key. */
  function Stop(lines: seq<bytes>, supports: Supports): (k: nat)
    ensures k <= |lines|
  {
    if lines == [] then 0
    else
      var init := lines[..|lines| - 1];
      if Stop(init, supports) < |init| then Stop(init, supports)
      else if Ends(CaLine(lines[|lines| - 1]), |Usable(init, supports)|, supports) then |init|
      else |lines|
  }

  /** How many lines hold a key this build cannot verify with. */
  function Unusable(lines: seq<bytes>, supports: Supports): nat {
    if lines == [] then 0
    else
      var n, l := Unusable(lines[..|lines| - 1], supports), CaLine(lines[|lines| - 1]);
      if l.Key? && !supports(l.algo) then n + 1 else n
  }

  /** No line above the stop ends the reading, and the one at the stop does. */
  lemma {:induction false} StopMeans(lines: seq<bytes>, supports: Supports)
    ensures var k := Stop(lines, supports);
            && (forall i :: 0 <= i < k ==> !Ends(CaLine(lines[i]), |Usable(lines[..i], supports)|, supports))
            && (k < |lines| ==> Ends(CaLine(lines[k]), |Usable(lines[..k], supports)|, supports))
  {
    hide CaLine, Usable, Ends;
    if lines != [] {
      var init := lines[..|lines| - 1];
      StopMeans(init, supports);
      assert forall i :: 0 <= i < |init| ==> init[i] == lines[i] && init[..i] == lines[..i];
    }
  }

  lemma {:induction false} StopStays(some: seq<bytes>, all: seq<bytes>, supports: Supports)
    requires some <= all && Stop(some, supports) < |some|
    ensures Stop(all, supports) == Stop(some, supports)
    decreases |all|
  {
    hide CaLine, Usable, Ends;
    if |some| < |all| {
      StopStays(some, all[..|all| - 1], supports);
    } else {
      assert some == all;
    }
  }

  class CaList {
    const keys: array<CaKey>
    var count: nat
    var skipped: nat

    ghost predicate Valid()
      reads this
    {
      keys.Length == MAX_CAS && count <= MAX_CAS
    }

    constructor ()
      ensures Valid() && fresh(keys) && count == 0
    {
      keys := new CaKey[MAX_CAS](_ => CaKey([], []));
      count, skipped := 0, 0;
    }

    /** Keeps the first 32 usable keys; a malformed line before then refuses the file. The unusable keys
        counted are those above the line that ended the reading. */
    method Load(data: bytes, supports: Supports) returns (status: CaStatus)
      requires Valid() && |data| < MAX_CA_FILE
      modifies this, keys
      ensures Valid()
      ensures status == CaAnswer(Pieces(data, LF), supports)
      ensures status != CaMalformed ==> keys[..count] == First(Usable(Pieces(data, LF), supports), MAX_CAS)
      ensures var lines := Pieces(data, LF);
              skipped == Unusable(lines[..Stop(lines, supports)], supports)
    {
      hide CaLine, KeyOf, Before, Pieces, CaAnswer, Kept, Usable, Unusable, Stop, Passed;
      count, skipped := 0, 0;
      var n, pos := |data|, 0;
      var blob := new byte[MAX_KEY_BLOB];
      BeforeStart(data, LF);
      KeptStart(supports);
      PassedStart(supports);
      assert keys[..0] == [];
      while pos <= n
        invariant pos <= n + 1 && AtStart(data, LF, pos) && Valid() && fresh(blob) && blob.Length == MAX_KEY_BLOB
        invariant Kept(Before(data, LF, pos), keys[..count], supports)
        invariant Passed(Before(data, LF, pos), skipped, supports)
        decreases n + 1 - pos
      {
        var len := LineLength(data, pos, LF);
        var line := data[pos..pos + len];
        ghost var above, kept := Before(data, LF, pos), keys[..count];
        BeforeNext(data, LF, pos, len);
        BeforePrefix(data, LF, pos + len + 1);
        KeptStep(above, line, Pieces(data, LF), kept, supports);
        PassedStep(above, line, Pieces(data, LF), kept, skipped, supports);
        pos := pos + len + 1;
        if len == 0 {
          EmptyCaLine();
          if pos > n {
            break;
          }
          continue;
        }
        var key := ReadKey(line, blob);
        if key.NoKey? {
          continue;
        }
        if key.BadLine? {
          return CaMalformed;
        }
        if !supports(key.algo) {
          skipped := skipped + 1;
          continue;
        }
        if count >= MAX_CAS {
          return CaOk;
        }
        keys[count] := CaKey(key.blob, key.algo);
        count := count + 1;
        assert keys[..count] == kept + [CaKey(key.blob, key.algo)];
      }
      BeforeEnd(data, LF);
      KeptEnd(Pieces(data, LF), keys[..count], supports);
      PassedEnd(Pieces(data, LF), skipped, supports);
      if count == 0 {
        return CaNoneUsable;
      }
      status := CaOk;
    }

    /** The keys kept so far are all the usable ones, and nothing has spoilt the file. */
    static ghost predicate Kept(lines: seq<bytes>, kept: seq<CaKey>, supports: Supports) {
      kept == Usable(lines, supports) && |kept| <= MAX_CAS && !Spoilt(lines, supports)
    }

    /** No line so far ends the reading, and this many of them are unusable. */
    static ghost predicate Passed(lines: seq<bytes>, skipped: nat, supports: Supports) {
      Stop(lines, supports) == |lines| && skipped == Unusable(lines, supports)
    }

    static lemma {:induction false} PassedStart(supports: Supports)
      ensures Passed([], 0, supports)
    {}

    static lemma {:induction false} PassedStep(above: seq<bytes>, line: bytes, all: seq<bytes>, kept: seq<CaKey>,
                                               skipped: nat, supports: Supports)
      requires above + [line] <= all && Kept(above, kept, supports) && Passed(above, skipped, supports)
      ensures var l := CaLine(line);
              if Ends(l, |kept|, supports) then skipped == Unusable(all[..Stop(all, supports)], supports)
              else Passed(above + [line], if l.Key? && !supports(l.algo) then skipped + 1 else skipped, supports)
    {
      hide CaLine, Usable;
      var some := above + [line];
      assert some[..|above|] == above;
      if Ends(CaLine(line), |kept|, supports) {
        StopStays(some, all, supports);
        assert all[..|above|] == above;
      }
    }

    static lemma {:induction false} PassedEnd(lines: seq<bytes>, skipped: nat, supports: Supports)
      requires Passed(lines, skipped, supports)
      ensures skipped == Unusable(lines[..Stop(lines, supports)], supports)
    {
      assert lines[..|lines|] == lines;
    }

    static lemma {:induction false} KeptStart(supports: Supports)
      ensures Kept([], [], supports)
    {}

    static lemma {:induction false} KeptStep(above: seq<bytes>, line: bytes, all: seq<bytes>, kept: seq<CaKey>,
                                             supports: Supports)
      requires above + [line] <= all && Kept(above, kept, supports)
      ensures match CaLine(line)
              case NoKey => Kept(above + [line], kept, supports)
              case BadLine => CaAnswer(all, supports) == CaMalformed
              case Key(blob, algo) =>
                if !supports(algo) then Kept(above + [line], kept, supports)
                else if |kept| < MAX_CAS then Kept(above + [line], kept + [CaKey(blob, algo)], supports)
                else CaAnswer(all, supports) == CaOk && kept == First(Usable(all, supports), MAX_CAS)
    {
      hide CaLine;
      CaStep(above, line, all, supports);
      var l := CaLine(line);
      if l.Key? && supports(l.algo) && |kept| == MAX_CAS {
        LimitReached(above + [line], all, supports);
      }
    }

    static lemma {:induction false} KeptEnd(lines: seq<bytes>, kept: seq<CaKey>, supports: Supports)
      requires Kept(lines, kept, supports)
      ensures CaAnswer(lines, supports) == if |kept| == 0 then CaNoneUsable else CaOk
      ensures kept == First(Usable(lines, supports), MAX_CAS)
    {}

    static lemma {:induction false} EmptyCaLine()
      ensures CaLine([]) == NoKey
    {}

    static method ReadKey(line: bytes, blob: array<byte>) returns (key: LineKey)
      requires line != [] && blob.Length == MAX_KEY_BLOB
      modifies blob
      ensures key == CaLine(line)
    {
      hide KeyOf;
      var ok, blank, blobLen, algo := ParseLine(line, blob, NAME_CAP);
      key := if ok then Key(blob[..blobLen], algo) else if blank then NoKey else BadLine;
    }

    static lemma {:induction false} CaStep(above: seq<bytes>, line: bytes, all: seq<bytes>, supports: Supports)
      requires above + [line] <= all && |Usable(above, supports)| <= MAX_CAS && !Spoilt(above, supports)
      ensures var l := CaLine(line);
              && Usable(above + [line], supports) ==
                 (if l.Key? && supports(l.algo)
                  then Usable(above, supports) + [CaKey(l.blob, l.algo)] else Usable(above, supports))
              && (l.BadLine? ==> Spoilt(all, supports))
              && (!l.BadLine? ==> !Spoilt(above + [line], supports))
    {
      hide CaLine, Usable;
      var some := above + [line];
      assert some[..|above|] == above && all[..|above|] == above && all[|above|] == line;
      UsableSnoc(above, line, supports);
      if !CaLine(line).BadLine? {
        forall i | 0 <= i < |some| && CaLine(some[i]).BadLine? ensures |Usable(some[..i], supports)| > MAX_CAS {
          assert some[i] == above[i] && some[..i] == above[..i];
        }
      }
    }

    static lemma {:induction false} UsableSnoc(above: seq<bytes>, line: bytes, supports: Supports)
      ensures var l := CaLine(line);
              Usable(above + [line], supports) ==
              if l.Key? && supports(l.algo)
              then Usable(above, supports) + [CaKey(l.blob, l.algo)] else Usable(above, supports)
    {
      assert (above + [line])[..|above|] == above;
    }

    static lemma {:induction false} UsableGrows(some: seq<bytes>, all: seq<bytes>, supports: Supports)
      requires some <= all
      ensures Usable(some, supports) <= Usable(all, supports)
      decreases |all|
    {
      hide CaLine;
      if |some| < |all| {
        UsableGrows(some, all[..|all| - 1], supports);
      } else {
        assert some == all;
      }
    }

    /** Past the 33rd usable key nothing can spoil the file or change what is kept. */
    static lemma {:induction false} LimitReached(some: seq<bytes>, all: seq<bytes>, supports: Supports)
      requires some <= all && |Usable(some, supports)| == MAX_CAS + 1 && !Spoilt(some, supports)
      ensures !Spoilt(all, supports) && Usable(all, supports) != []
      ensures First(Usable(all, supports), MAX_CAS) == Usable(some, supports)[..MAX_CAS]
    {
      hide CaLine, Usable;
      UsableGrows(some, all, supports);
      forall i | 0 <= i < |all| && CaLine(all[i]).BadLine? ensures |Usable(all[..i], supports)| > MAX_CAS {
        if i < |some| {
          assert some[i] == all[i] && some[..i] == all[..i];
        } else {
          UsableGrows(some, all[..i], supports);
        }
      }
    }
  }

  // ------------------------------------------------------ a line that is never read

  function Times(line: bytes, n: nat): (lines: seq<bytes>)
    ensures |lines| == n
  {
    if n == 0 then [] else Times(line, n - 1) + [line]
  }

  function GeneratedLine(point: bytes): bytes
    requires |point| <= MAX_POINT
  {
    P384 + [SPACE] + Base64.Encode(BlobP384(point))
  }

  lemma {:induction false} GeneratedLineReads(point: bytes)
    requires |point| <= MAX_POINT
    ensures CaLine(GeneratedLine(point)) == Key(BlobP384(point), P384)
  {
    hide Base64.Encode, BlobP384, KeyOf, AlgoOf, Ascii, CStr;
    P384Spelled();
    GeneratedKeyFits(point);
    var blob, line := BlobP384(point), GeneratedLine(point);
    var text := Base64.Encode(blob);
    EncodedHasNoSpace(blob);
    AlgoOfMeans(blob, P384);
    EncodedNotShort(blob);
    assert line == [] + (P384 + ([SPACE] + (text + [])));
    assert Cut(line, [], P384, [SPACE], text, []);
    CStrOfNulFree(P384);
    KeyOfIff(line, MAX_KEY_BLOB, NAME_CAP, blob, P384);
  }

  lemma {:induction false} UsableTimes(line: bytes, n: nat, supports: Supports)
    requires CaLine(line).Key? && supports(CaLine(line).algo)
    ensures |Usable(Times(line, n), supports)| == n && !Spoilt(Times(line, n), supports)
  {
    hide CaLine;
    if n > 0 {
      UsableTimes(line, n - 1, supports);
      var above := Times(line, n - 1);
      assert Times(line, n)[..n - 1] == above;
      forall i | 0 <= i < n ensures !CaLine(Times(line, n)[i]).BadLine? {
        TimesAt(line, n, i);
      }
    }
  }

  lemma {:induction false} TimesAt(line: bytes, n: nat, i: nat)
    requires i < n
    ensures Times(line, n)[i] == line
  {
    if i < n - 1 {
      TimesAt(line, n - 1, i);
    }
  }

  lemma {:induction false} OneToken()
    ensures CaLine([COMMA]) == BadLine
  {
    var line := [COMMA];
    RunUnique(line, 0, true, 0);
    RunUnique(line, 0, false, 1);
    RunUnique(line, 1, true, 1);
    RunUnique(line, 1, false, 1);
    FieldsAt(line, 0, 1, 1, 1);
  }

  /** A malformed line refuses the file behind 32 usable keys, and does not behind 33. */
  lemma {:induction false} LateLineUnread(point: bytes, supports: Supports)
    requires |point| <= MAX_POINT && supports(P384)
    ensures CaLine([COMMA]) == BadLine
    ensures CaAnswer(Times(GeneratedLine(point), 32) + [[COMMA]], supports) == CaMalformed
    ensures CaAnswer(Times(GeneratedLine(point), 33) + [[COMMA]], supports) == CaOk
  {
    hide CaLine, GeneratedLine, Usable, Times, P384, Ascii;
    var line := GeneratedLine(point);
    GeneratedLineReads(point);
    OneToken();
    UsableTimes(line, MAX_CAS, supports);
    UsableTimes(line, MAX_CAS + 1, supports);
    var few, many := Times(line, MAX_CAS), Times(line, MAX_CAS + 1);
    CaList.CaStep(few, [COMMA], few + [[COMMA]], supports);
    CaList.LimitReached(many, many + [[COMMA]], supports);
  }
}
