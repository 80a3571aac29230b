/** Event streams as a server writes them, as an independent statement of what the parser reads. */
module EventText {
  import opened Bytes
  import opened Sse

  /** An event with its data line by line, behind lines that mean nothing, in either line ending. */
  datatype Written = Written(noise: seq<bytes>, name: bytes, data: seq<bytes>, crlf: bool) {
    function End(): bytes {
      if crlf then Ascii("\r\n") else Ascii("\n")
    }

    function Text(): bytes {
      NoiseText(noise, End()) + (Ascii("event: ") + name + End()) + (DataText(data, End()) + End())
    }

    function Sent(): Event {
      Event(name, Lines(data))
    }

    /** What one line and one event can hold. */
    predicate Valid() {
      && (forall i :: 0 <= i < |noise| ==> OneLine(noise[i]) && MeansNothing(noise[i]))
      && OneLine(name) && NulFree(name) && |name| < 128
      && (forall i :: 0 <= i < |data| ==> OneLine(data[i]))
      && (|data| > 1 ==> data[0] != []) && |Lines(data)| < 65536
    }
  }

  function NoiseText(ls: seq<bytes>, end: bytes): bytes {
    if ls == [] then [] else NoiseText(ls[..|ls| - 1], end) + (ls[|ls| - 1] + end)
  }

  function DataText(ls: seq<bytes>, end: bytes): bytes {
    if ls == [] then [] else DataText(ls[..|ls| - 1], end) + (Ascii("data: ") + ls[|ls| - 1] + end)
  }

  /** Data lines joined by line feeds. */
  function Lines(ls: seq<bytes>): bytes {
    if ls == [] then []
    else if |ls| == 1 then ls[0]
    else Lines(ls[..|ls| - 1]) + Ascii("\n") + ls[|ls| - 1]
  }

  /** Free of line ends, and short enough for the line buffer behind a field name. */
  predicate OneLine(s: bytes) {
    '\n' as int !in s && '\r' as int !in s && |s| + 8 < 65536
  }

  /** A comment, a line without a colon, or a field other than the two. */
  predicate MeansNothing(l: bytes) {
    l != [] &&
    (|| l[0] == ':' as int || ':' as int !in l
     || exists k :: && 0 < k < |l| && l[k] == ':' as int && ':' as int !in l[..k]
                    && l[..k] != Ascii("event") && l[..k] != Ascii("data"))
  }

  function StreamText(es: seq<Written>): bytes {
    if es == [] then [] else StreamText(es[..|es| - 1]) + es[|es| - 1].Text()
  }

  function AllSent(es: seq<Written>): (r: seq<Event>)
    ensures |r| == |es|
  {
    seq(|es|, i requires 0 <= i < |es| => es[i].Sent())
  }

  // --------------------------------------------------------------------- one line

  /** Plain bytes go into the line buffer. */
  lemma {:induction false} Gathers(s: State, l: bytes, keep: Keep)
    requires !Latched(s) && s.line == [] && '\n' as int !in l && |l| < 65536
    ensures RunFrom(s, l, keep) == s.(line := l)
  {
    if l != [] {
      var init, c := l[..|l| - 1], l[|l| - 1];
      assert c in l && forall x :: x in init ==> x in l;
      Gathers(s, init, keep);
      assert init + [c] == l;
    }
  }

  /** A line and its end: the line is handled. */
  lemma {:induction false} LineFed(s: State, l: bytes, crlf: bool, keep: Keep)
    requires !Latched(s) && s.line == [] && '\n' as int !in l && '\r' as int !in l && |l| + 1 < 65536
    ensures RunFrom(s, l + (if crlf then Ascii("\r\n") else Ascii("\n")), keep) == HandleLine(s, l, keep).(line := [])
  {
    EndBytes();
    var cr := if crlf then Ascii("\r") else [];
    var end := if crlf then Ascii("\r\n") else Ascii("\n");
    hide *;
    Gathers(s, l + cr, keep);
    ConcatAssoc(l, cr, [LF]);
    assert cr + [LF] == end;
    CrTrimmed(l, crlf);
    LineEnds(s, l + cr, l, keep);
    HandleApart(s, l + cr, l, keep);
  }

  lemma {:induction false} EndBytes()
    ensures Ascii("\r\n") == Ascii("\r") + [LF] && Ascii("\n") == [] + [LF] && Ascii("\r") == ['\r' as int]
    ensures '\n' as int !in Ascii("\r")
  {}

  lemma {:induction false} CrTrimmed(l: bytes, crlf: bool)
    requires '\r' as int !in l
    ensures TrimCr(l + if crlf then Ascii("\r") else []) == l
  {
    assert l != [] ==> l[|l| - 1] in l;
    assert l + [] == l;
    TrimCrIff(l + (if crlf then Ascii("\r") else []), l);
  }

  lemma {:induction false} LineEnds(s: State, line: bytes, l: bytes, keep: Keep)
    requires !Latched(s) && RunFrom(s, line, keep) == s.(line := line) && TrimCr(line) == l
    ensures RunFrom(s, line + [LF], keep) == HandleLine(s.(line := line), l, keep).(line := [])
  {
    hide HandleLine, TrimCr;
    assert (line + [LF])[..|line|] == line;
  }

  /** What a line does has nothing to do with the bytes still in the line buffer. */
  lemma {:induction false} HandleApart(s: State, line: bytes, l: bytes, keep: Keep)
    ensures HandleLine(s.(line := line), l, keep).(line := []) == HandleLine(s, l, keep).(line := [])
  {
    hide FieldOf, Ascii, CStr;
  }

  lemma {:induction false} NameLine(s: State, name: bytes, keep: Keep)
    requires OneLine(name) && NulFree(name) && |name| < 128 && !Latched(s)
    ensures HandleLine(s, Ascii("event: ") + name, keep) == s.(name := name, haveEvent := true)
  {
    var l := Ascii("event: ") + name;
    assert Ascii("event: ") == Ascii("event") + Ascii(": ");
    NamesApart();
    FieldIff(l, Ascii("event"), name);
    CStrOfNulFree(name);
    hide FieldOf, Ascii, CStr;
  }

  lemma {:induction false} NamesApart()
    ensures Ascii("event") != [] && ':' as int !in Ascii("event") && Ascii("data") != [] && ':' as int !in Ascii("data")
    ensures Ascii("event") != Ascii("data")
  {
    assert Ascii("event") == ['e' as int, 'v' as int, 'e' as int, 'n' as int, 't' as int];
    assert Ascii("data") == ['d' as int, 'a' as int, 't' as int, 'a' as int];
  }

  lemma {:induction false} DataLine(s: State, d: bytes, keep: Keep)
    requires !Latched(s) && |s.data| + |d| + 1 < 65536
    ensures HandleLine(s, Ascii("data: ") + d, keep) ==
            s.(data := if s.data == [] then d else s.data + Ascii("\n") + d, haveEvent := true)
  {
    var l := Ascii("data: ") + d;
    assert Ascii("data: ") == Ascii("data") + Ascii(": ") && Ascii("\n") == [LF];
    NamesApart();
    FieldIff(l, Ascii("data"), d);
    hide FieldOf, Ascii, CStr;
  }

  lemma {:induction false} NoiseLine(s: State, l: bytes, keep: Keep)
    requires MeansNothing(l)
    ensures HandleLine(s, l, keep) == s
  {
    if FieldOf(l).Some? {
      var (f, v) := FieldOf(l).value;
      FieldIff(l, f, v);
      assert l[|f|] == ':' as int && l[..|f|] == f;
      FirstColon(l, f);
    }
    hide FieldOf, Ascii, CStr;
  }

  lemma {:induction false} FirstColon(l: bytes, f: bytes)
    requires MeansNothing(l) && f != [] && |f| < |l| && l[..|f|] == f && l[|f|] == ':' as int && ':' as int !in f
    ensures f != Ascii("event") && f != Ascii("data")
  {
    hide Ascii;
    assert l[0] == f[0] && f[0] in f && l[|f|] in l;
    IndexAt(l, ':' as int, |f|);
    forall k | 0 < k < |l| && l[k] == ':' as int && ':' as int !in l[..k] ensures k == |f| {
      IndexAt(l, ':' as int, k);
    }
  }

  // -------------------------------------------------------------------- one event

  lemma {:induction false} NoiseFed(s: State, ls: seq<bytes>, crlf: bool, keep: Keep)
    requires !Latched(s) && s.line == []
    requires forall i :: 0 <= i < |ls| ==> OneLine(ls[i]) && MeansNothing(ls[i])
    ensures RunFrom(s, NoiseText(ls, if crlf then Ascii("\r\n") else Ascii("\n")), keep) == s
  {
    var end := if crlf then Ascii("\r\n") else Ascii("\n");
    if ls != [] {
      var init, l := ls[..|ls| - 1], ls[|ls| - 1];
      NoiseFed(s, init, crlf, keep);
      assert OneLine(l) && MeansNothing(l);
      hide MeansNothing, HandleLine, RunFrom, Ascii;
      RunFromAppend(s, NoiseText(init, end), l + end, keep);
      LineFed(s, l, crlf, keep);
      NoiseLine(s, l, keep);
    }
  }

  lemma {:induction false} LinesGrow(ls: seq<bytes>, k: nat)
    requires k <= |ls|
    ensures |Lines(ls[..k])| <= |Lines(ls)|
  {
    if k < |ls| {
      var init := ls[..|ls| - 1];
      LinesGrow(init, k);
      assert init[..k] == ls[..k];
    } else {
      assert ls[..k] == ls;
    }
  }

  lemma {:induction false} LinesLast(ls: seq<bytes>)
    requires ls != [] && (|ls| > 1 ==> ls[0] != [])
    ensures ls[0] != [] ==> Lines(ls) != []
    ensures var init, d := Lines(ls[..|ls| - 1]), ls[|ls| - 1];
            && Lines(ls) == (if init == [] then d else init + Ascii("\n") + d)
            && |init| + |d| <= |Lines(ls)|
  {
    if |ls| > 1 {
      LinesLast(ls[..|ls| - 1]);
    }
  }

  lemma {:induction false} DataFed(s: State, ls: seq<bytes>, crlf: bool, keep: Keep)
    requires !Latched(s) && s.line == [] && s.data == []
    requires (forall i :: 0 <= i < |ls| ==> OneLine(ls[i])) && (|ls| > 1 ==> ls[0] != []) && |Lines(ls)| < 65536
    ensures RunFrom(s, DataText(ls, if crlf then Ascii("\r\n") else Ascii("\n")), keep) ==
            s.(data := Lines(ls), haveEvent := s.haveEvent || ls != [])
  {
    var end := if crlf then Ascii("\r\n") else Ascii("\n");
    if ls != [] {
      var init, d := ls[..|ls| - 1], ls[|ls| - 1];
      LinesGrow(ls, |ls| - 1);
      DataFed(s, init, crlf, keep);
      LinesLast(ls);
      DataIsOneLine(d);
      hide HandleLine, RunFrom, Ascii, Lines;
      var t := s.(data := Lines(init), haveEvent := s.haveEvent || init != []);
      RunFromAppend(s, DataText(init, end), Ascii("data: ") + d + end, keep);
      LineFed(t, Ascii("data: ") + d, crlf, keep);
      DataLine(t, d, keep);
    }
  }

  lemma {:induction false} DataIsOneLine(d: bytes)
    requires OneLine(d)
    ensures var l := Ascii("data: ") + d; '\n' as int !in l && '\r' as int !in l && |l| + 1 < 65536
  {
    assert Ascii("data: ") == ['d' as int, 'a' as int, 't' as int, 'a' as int, ':' as int, ' ' as int];
  }

  lemma {:induction false} NameIsOneLine(n: bytes)
    requires OneLine(n)
    ensures var l := Ascii("event: ") + n; '\n' as int !in l && '\r' as int !in l && |l| + 1 < 65536
  {
    assert Ascii("event: ") ==
           ['e' as int, 'v' as int, 'e' as int, 'n' as int, 't' as int, ':' as int, ' ' as int];
  }

  /** Between two events, with these callbacks made. */
  function Idle(calls: seq<Event>): State {
    State([], [], [], false, false, false, calls)
  }

  /** One event's text makes one callback, whose answer decides whether the parser stops. */
  lemma {:induction false} EventFed(calls: seq<Event>, e: Written, keep: Keep)
    requires e.Valid()
    ensures RunFrom(Idle(calls), e.Text(), keep) == Idle(calls + [e.Sent()]).(stopped := !keep(e.Sent()))
  {
    var s, end := Idle(calls), e.End();
    NameIsOneLine(e.name);
    hide Ascii, RunFrom, HandleLine, Lines, OneLine, MeansNothing;
    var noise, name, data := NoiseText(e.noise, end), Ascii("event: ") + e.name, DataText(e.data, end);
    NoiseFed(s, e.noise, e.crlf, keep);
    RunFromAppend(s, noise, name + end, keep);
    LineFed(s, name, e.crlf, keep);
    NameLine(s, e.name, keep);
    var named := s.(name := e.name, haveEvent := true);
    assert RunFrom(s, noise + (name + end), keep) == named;
    RunFromAppend(s, noise + (name + end), data + end, keep);
    RunFromAppend(named, data, end, keep);
    DataFed(named, e.data, e.crlf, keep);
    BlankFed(named.(data := Lines(e.data)), e.crlf, keep);
  }

  lemma {:induction false} BlankFed(s: State, crlf: bool, keep: Keep)
    requires !Latched(s) && s.line == []
    ensures RunFrom(s, if crlf then Ascii("\r\n") else Ascii("\n"), keep) == Dispatch(s, keep)
  {
    LineFed(s, [], crlf, keep);
    hide Ascii, RunFrom;
    var end := if crlf then Ascii("\r\n") else Ascii("\n");
    assert [] + end == end;
  }

  /** Any events, written out, come back one by one; the parser stops at the last where its callback
      does, and not before. */
  lemma {:induction false} StreamReads(es: seq<Written>, keep: Keep)
    requires forall i :: 0 <= i < |es| ==> es[i].Valid()
    requires forall i :: 0 <= i < |es| - 1 ==> keep(es[i].Sent())
    ensures Run(StreamText(es), keep) ==
            Idle(AllSent(es)).(stopped := es != [] && !keep(es[|es| - 1].Sent()))
  {
    hide RunFrom, Written.Text, Written.Valid, Written.Sent;
    NothingFed(keep);
    if es != [] {
      var init, e := es[..|es| - 1], es[|es| - 1];
      StreamReads(init, keep);
      RunFromAppend(START, StreamText(init), e.Text(), keep);
      EventFed(AllSent(init), e, keep);
      assert AllSent(es) == AllSent(init) + [e.Sent()];
    }
  }

  lemma {:induction false} NothingFed(keep: Keep)
    ensures RunFrom(START, [], keep) == START == Idle([]) && AllSent([]) == []
  {}

  // ------------------------------------------------------------------- the limits

  /** A line overflows the parser exactly from 65536 bytes on. */
  lemma {:induction false} LineOverflowIff(l: bytes, keep: Keep)
    requires '\n' as int !in l
    ensures Run(l, keep).overflow <==> |l| >= 65536
  {
    if |l| < 65536 {
      Gathers(START, l, keep);
    } else {
      var init, c := l[..|l| - 1], l[|l| - 1];
      assert c in l && forall x :: x in init ==> x in l;
      LineOverflowIff(init, keep);
      if |init| < 65536 {
        Gathers(START, init, keep);
      }
    }
  }

  /** A name overflows it exactly from 128 bytes on. */
  lemma {:induction false} NameOverflowIff(name: bytes, crlf: bool, keep: Keep)
    requires OneLine(name)
    ensures Run(Ascii("event: ") + name + (if crlf then Ascii("\r\n") else Ascii("\n")), keep).overflow <==>
            |name| >= 128
  {
    var l := Ascii("event: ") + name;
    EventPrefix();
    LineFed(START, l, crlf, keep);
    FieldIff(l, Ascii("event"), name);
    hide Ascii, FieldOf, RunFrom;
  }

  lemma {:induction false} EventPrefix()
    ensures Ascii("event: ") == Ascii("event") + Ascii(": ") && |Ascii("event")| == 5
    ensures '\n' as int !in Ascii("event: ") && '\r' as int !in Ascii("event: ") && ':' as int !in Ascii("event")
  {}
}
