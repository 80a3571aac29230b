/** The event-stream push parser: a subset of section 9.2 of the WHATWG HTML
    standard, fed in arbitrary chunks, and the batch reading it refines. */
module Sse {
  import opened Bytes
  import opened Cutting

  const MAX_LINE := 64 * 1024
  const MAX_DATA := 64 * 1024
  const MAX_NAME := 128

  datatype Event = Event(name: bytes, data: bytes)

  /** Whether the callback asks for more after this event. */
  type Keep = Event -> bool

  // -------------------------------------------------------------- one line

  /** The index of the first c, or |s|. */
  function IndexOf(s: bytes, c: byte): (i: nat)
    ensures i <= |s| && c !in s[..i]
    ensures i < |s| ==> s[i] == c
  {
    if s == [] || s[0] == c then 0 else 1 + IndexOf(s[1..], c)
  }

  function TrimCr(line: bytes): bytes {
    if line != [] && line[|line| - 1] == CR then line[..|line| - 1] else line
  }

  /** Field name and value; None for a blank line, a comment or a line with no colon. */
  function FieldOf(line: bytes): Option<(bytes, bytes)> {
    if line == [] || line[0] == COLON || IndexOf(line, COLON) == |line| then None
    else
      var i := IndexOf(line, COLON);
      var v := line[i + 1..];
      Some((line[..i], if v != [] && v[0] == SPACE then v[1..] else v))
  }

  /** One carriage return is dropped from the end, where there is one. */
  lemma {:induction false} TrimCrIff(line: bytes, t: bytes)
    ensures TrimCr(line) == t <==>
            line == t + Ascii("\r") || (line == t && (t == [] || t[|t| - 1] != '\r' as int))
  {
    if line != [] {
      assert line == line[..|line| - 1] + [line[|line| - 1]];
    }
  }

  /** The lines that give a field a value: a name without a colon, the colon, one blank at most that
      belongs to neither, and the value. */
  lemma {:induction false} FieldIff(line: bytes, f: bytes, v: bytes)
    ensures FieldOf(line) == Some((f, v)) <==>
            && f != [] && ':' as int !in f
            && (|| line == f + Ascii(": ") + v
                || (line == f + Ascii(":") + v && (v == [] || v[0] != ' ' as int)))
  {
    assert Ascii(": ") == [COLON, SPACE] && Ascii(":") == [COLON];
    var i := IndexOf(line, COLON);
    if i < |line| {
      var rest := line[i + 1..];
      assert line == line[..i] + [COLON] + rest;
      assert rest != [] ==> rest == [rest[0]] + rest[1..];
    }
    if f != [] && COLON !in f && |f| < |line| && line[..|f|] == f && line[|f|] == COLON {
      IndexAt(line, COLON, |f|);
      assert line[0] == f[0] && f[0] in f;
      assert line == f + [COLON, SPACE] + v ==> line[|f| + 1..] == [SPACE] + v;
      assert line == f + [COLON] + v ==> line[|f| + 1..] == v;
    }
    if line == f + [COLON, SPACE] + v || line == f + [COLON] + v {
      assert line[..|f|] == f;
    }
  }

  lemma {:induction false} IndexAt(s: bytes, c: byte, k: nat)
    requires k < |s| && s[k] == c && c !in s[..k]
    ensures IndexOf(s, c) == k
  {
    if k > 0 {
      assert s[0] == s[..k][0] && s[1..][..k - 1] == s[..k][1..];
      IndexAt(s[1..], c, k - 1);
    }
  }

  // ------------------------------------------------------ the push parser's step

  /** Everything the structure holds, plus the callbacks made so far. */
  datatype State = State(line: bytes, name: bytes, data: bytes, haveEvent: bool,
                         overflow: bool, stopped: bool, calls: seq<Event>)

  const START := State([], [], [], false, false, false, [])

  predicate Latched(s: State) {
    s.overflow || s.stopped
  }

  function Dispatch(s: State, keep: Keep): State {
    var e := Event(s.name, s.data);
    s.(name := [], data := [], haveEvent := false,
       stopped := s.stopped || (s.haveEvent && !keep(e)),
       calls := if s.haveEvent then s.calls + [e] else s.calls)
  }

  function HandleLine(s: State, line: bytes, keep: Keep): State {
    if line == [] then Dispatch(s, keep)
    else match FieldOf(line)
      case None => s
      case Some((field, value)) =>
        if field == Ascii("event") then
          if |value| >= MAX_NAME then s.(overflow := true)
          else s.(name := CStr(value), haveEvent := true)
        else if field == Ascii("data") then
          var need := |value| + (if |s.data| > 0 then 1 else 0);
          if |s.data| + need + 1 > MAX_DATA then s.(overflow := true)
          else s.(data := if |s.data| > 0 then s.data + [LF] + value else value, haveEvent := true)
        else s
  }

  function Step(s: State, c: byte, keep: Keep): State {
    if Latched(s) then s
    else if c == LF then HandleLine(s, TrimCr(s.line), keep).(line := [])
    else if |s.line| + 1 >= MAX_LINE then s.(overflow := true)
    else s.(line := s.line + [c])
  }

  function RunFrom(s: State, p: bytes, keep: Keep): State {
    if p == [] then s else Step(RunFrom(s, p[..|p| - 1], keep), p[|p| - 1], keep)
  }

  function Run(p: bytes, keep: Keep): State {
    RunFrom(START, p, keep)
  }

  // ---------------------------------------------------------- chunk invariance

  lemma {:induction false} RunFromAppend(s: State, a: bytes, b: bytes, keep: Keep)
    ensures RunFrom(s, a + b, keep) == RunFrom(RunFrom(s, a, keep), b, keep)
  {
    hide Step;
    if b == [] {
      assert a + b == a;
    } else {
      RunFromAppend(s, a, b[..|b| - 1], keep);
      assert (a + b)[..|a + b| - 1] == a + b[..|b| - 1];
    }
  }

  function Flatten(chunks: seq<bytes>): bytes {
    if chunks == [] then [] else Flatten(chunks[..|chunks| - 1]) + chunks[|chunks| - 1]
  }

  /** One feed call per chunk. */
  function FeedEach(s: State, chunks: seq<bytes>, keep: Keep): State {
    if chunks == [] then s
    else RunFrom(FeedEach(s, chunks[..|chunks| - 1], keep), chunks[|chunks| - 1], keep)
  }

  /** Any two splits of one stream leave the same state: same callbacks, same latches. */
  lemma {:induction false} ChunkInvariance(s: State, chunks: seq<bytes>, keep: Keep)
    ensures FeedEach(s, chunks, keep) == RunFrom(s, Flatten(chunks), keep)
  {
    if chunks != [] {
      var init := chunks[..|chunks| - 1];
      ChunkInvariance(s, init, keep);
      RunFromAppend(s, Flatten(init), chunks[|chunks| - 1], keep);
    }
  }

  lemma {:induction false} LatchStays(s: State, p: bytes, keep: Keep)
    requires Latched(s)
    ensures RunFrom(s, p, keep) == s
  {
    hide Step;
    if p != [] {
      LatchStays(s, p[..|p| - 1], keep);
      StepLatched(s, p[|p| - 1], keep);
    }
  }

  // ----------------------------------------------------------- the batch reading

  /** Complete lines, cut at LF, and the unterminated tail. */
  datatype Split = Split(lines: seq<bytes>, tail: bytes)

  function SplitLines(s: bytes): Split {
    var ps := Pieces(s, LF);
    Split(ps[..|ps| - 1], ps[|ps| - 1])
  }

  function Unsplit(lines: seq<bytes>, tail: bytes): bytes {
    if lines == [] then tail else lines[0] + [LF] + Unsplit(lines[1..], tail)
  }

  lemma {:induction false} UnsplitSnoc(lines: seq<bytes>, l: bytes, tail: bytes)
    ensures Unsplit(lines + [l], tail) == Unsplit(lines, l + [LF] + tail)
  {
    if lines == [] {
      assert [l][1..] == [];
    } else {
      UnsplitSnoc(lines[1..], l, tail);
      assert (lines + [l])[1..] == lines[1..] + [l];
    }
  }

  lemma {:induction false} UnsplitTail(lines: seq<bytes>, tail: bytes, more: bytes)
    ensures Unsplit(lines, tail) + more == Unsplit(lines, tail + more)
  {
    if lines != [] {
      UnsplitTail(lines[1..], tail, more);
      var head := lines[0] + [LF];
      assert head + Unsplit(lines[1..], tail) + more == head + (Unsplit(lines[1..], tail) + more);
    }
  }

  /** The split puts the stream back together and leaves no LF inside a line. */
  lemma {:induction false} SplitLinesMeaning(s: bytes)
    ensures var p := SplitLines(s);
            && Unsplit(p.lines, p.tail) == s
            && LF !in p.tail && forall l :: l in p.lines ==> LF !in l
  {
    if s != [] {
      var init, c := s[..|s| - 1], s[|s| - 1];
      SplitLinesMeaning(init);
      var p := SplitLines(init);
      UnsplitTail(p.lines, p.tail, [c]);
      if c == LF {
        UnsplitSnoc(p.lines, p.tail, []);
        assert p.tail + [LF] + [] == p.tail + [c];
      }
      assert s == init + [c];
    }
  }

  /** Blocks of non-blank lines closed by a blank one, and the block still open. */
  datatype Cut = Cut(closed: seq<seq<bytes>>, open: seq<bytes>)

  function CutBlocks(lines: seq<bytes>): Cut {
    if lines == [] then Cut([], [])
    else
      var p, l := CutBlocks(lines[..|lines| - 1]), TrimCr(lines[|lines| - 1]);
      if l == [] then Cut(p.closed + [p.open], []) else Cut(p.closed, p.open + [l])
  }

  /** The values a block gives one field, in order. */
  function Values(block: seq<bytes>, field: bytes): seq<bytes> {
    if block == [] then []
    else
      var vs := Values(block[..|block| - 1], field);
      match FieldOf(block[|block| - 1])
      case None => vs
      case Some((f, v)) => if f == field then vs + [v] else vs
  }

  function DropEmpty(vs: seq<bytes>): seq<bytes> {
    if vs == [] || vs[0] != [] then vs else DropEmpty(vs[1..])
  }

  function Join(vs: seq<bytes>): bytes {
    if vs == [] then [] else if |vs| == 1 then vs[0] else vs[0] + [LF] + Join(vs[1..])
  }

  /** The data lines joined with LF; empty ones in front add no newline. */
  function DataOf(block: seq<bytes>): bytes {
    Join(DropEmpty(Values(block, Ascii("data"))))
  }

  /** The last event field's value as a C string. */
  function NameOf(block: seq<bytes>): bytes {
    var ns := Values(block, Ascii("event"));
    if ns == [] then [] else CStr(ns[|ns| - 1])
  }

  predicate HasEvent(block: seq<bytes>) {
    Values(block, Ascii("event")) != [] || Values(block, Ascii("data")) != []
  }

  function EventsOf(blocks: seq<seq<bytes>>): seq<Event> {
    if blocks == [] then []
    else
      var es, b := EventsOf(blocks[..|blocks| - 1]), blocks[|blocks| - 1];
      if HasEvent(b) then es + [Event(NameOf(b), DataOf(b))] else es
  }

  function Events(s: bytes): seq<Event> {
    EventsOf(CutBlocks(SplitLines(s).lines).closed)
  }

  predicate BlockFits(block: seq<bytes>) {
    && (forall v :: v in Values(block, Ascii("event")) ==> |v| < MAX_NAME)
    && |DataOf(block)| < MAX_DATA
  }

  /** Every line, name and data value of the stream, finished or not, fits its buffer. */
  predicate Fits(s: bytes) {
    var p := SplitLines(s);
    var q := CutBlocks(p.lines);
    && (forall l :: l in p.lines ==> |l| < MAX_LINE) && |p.tail| < MAX_LINE
    && (forall b :: b in q.closed ==> BlockFits(b)) && BlockFits(q.open)
  }

  predicate Accepting(s: bytes, keep: Keep) {
    Fits(s) && forall e :: e in Events(s) ==> keep(e)
  }

  // ------------------------------------------------------------- refinement

  lemma {:induction false} JoinSnoc(vs: seq<bytes>, v: bytes)
    requires vs != []
    ensures Join(vs + [v]) == Join(vs) + [LF] + v
  {
    if |vs| == 1 {
      assert (vs + [v])[1..] == [v];
    } else {
      JoinSnoc(vs[1..], v);
      assert (vs + [v])[1..] == vs[1..] + [v];
      var h, t := vs[0] + [LF], Join(vs[1..]);
      assert h + (t + [LF] + v) == h + t + [LF] + v;
    }
  }

  lemma {:induction false} DropEmptySnoc(vs: seq<bytes>, v: bytes)
    ensures DropEmpty(vs + [v]) ==
            if DropEmpty(vs) == [] then (if v == [] then [] else [v]) else DropEmpty(vs) + [v]
    ensures DropEmpty(vs) == [] || DropEmpty(vs)[0] != []
  {
    if vs == [] {
      assert [v][1..] == [];
    } else if vs[0] == [] {
      DropEmptySnoc(vs[1..], v);
      assert (vs + [v])[1..] == vs[1..] + [v];
    }
  }

  lemma {:induction false} JoinEmptyIff(vs: seq<bytes>)
    requires vs == [] || vs[0] != []
    ensures Join(vs) == [] <==> vs == []
  {}

  lemma {:induction false} DataSnoc(vs: seq<bytes>, v: bytes)
    ensures var d := Join(DropEmpty(vs));
            Join(DropEmpty(vs + [v])) == if d == [] then v else d + [LF] + v
  {
    DropEmptySnoc(vs, v);
    JoinEmptyIff(DropEmpty(vs));
    if DropEmpty(vs) != [] {
      JoinSnoc(DropEmpty(vs), v);
    }
  }

  lemma {:induction false} ValuesSnoc(block: seq<bytes>, l: bytes, field: bytes)
    ensures Values(block + [l], field) ==
            if FieldOf(l).Some? && FieldOf(l).value.0 == field then Values(block, field) + [FieldOf(l).value.1]
            else Values(block, field)
  {
    assert (block + [l])[..|block|] == block;
  }

  lemma {:induction false} FieldsDiffer()
    ensures Ascii("event") != Ascii("data")
  {
    assert |Ascii("event")| == 5 && |Ascii("data")| == 4;
  }

  /** The part of the state that belongs to the event being built. */
  predicate Building(s: State, block: seq<bytes>) {
    s.name == NameOf(block) && s.data == DataOf(block) && s.haveEvent == HasEvent(block)
  }

  /** A non-blank line extends the open block; it overflows exactly when the block no longer fits. */
  lemma {:induction false} LineExtends(s: State, block: seq<bytes>, l: bytes, keep: Keep)
    requires Building(s, block) && BlockFits(block) && l != [] && !Latched(s)
    ensures var r := HandleLine(s, l, keep);
            && r.calls == s.calls && !r.stopped
            && r.overflow == !BlockFits(block + [l])
            && (!r.overflow ==> Building(r, block + [l]))
  {
    FieldsDiffer();
    ValuesSnoc(block, l, Ascii("event"));
    ValuesSnoc(block, l, Ascii("data"));
    hide Values, FieldOf, CStr, Join, DropEmpty, Ascii;
    if FieldOf(l).Some? {
      DataSnoc(Values(block, Ascii("data")), FieldOf(l).value.1);
    }
  }

  lemma {:induction false} SplitSnoc(s: bytes, c: byte)
    ensures var p := SplitLines(s);
            SplitLines(s + [c]) == if c == LF then Split(p.lines + [p.tail], []) else Split(p.lines, p.tail + [c])
  {
    assert (s + [c])[..|s|] == s;
  }

  lemma {:induction false} CutSnoc(lines: seq<bytes>, l: bytes)
    ensures var p := CutBlocks(lines);
            CutBlocks(lines + [l]) ==
            if TrimCr(l) == [] then Cut(p.closed + [p.open], []) else Cut(p.closed, p.open + [TrimCr(l)])
  {
    assert (lines + [l])[..|lines|] == lines;
  }

  lemma {:induction false} EventsSnoc(blocks: seq<seq<bytes>>, b: seq<bytes>)
    ensures EventsOf(blocks + [b]) ==
            if HasEvent(b) then EventsOf(blocks) + [Event(NameOf(b), DataOf(b))] else EventsOf(blocks)
  {
    assert (blocks + [b])[..|blocks|] == blocks;
  }

  lemma {:induction false} EmptyBlock()
    ensures Building(START, []) && BlockFits([])
  {}

  /** What an unlatched state means. */
  predicate Mirrors(s: State, stream: bytes) {
    && !Latched(s)
    && s.calls == Events(stream)
    && s.line == SplitLines(stream).tail
    && Building(s, CutBlocks(SplitLines(stream).lines).open)
  }

  /** A byte that does not end a line. */
  lemma {:induction false} StepInside(s: State, p: bytes, c: byte, keep: Keep)
    requires Mirrors(s, p) && Accepting(p, keep) && c != LF
    ensures var r := Step(s, c, keep);
            && r.calls == Events(p) && !r.stopped
            && r.overflow == !Fits(p + [c])
            && (!r.overflow ==> Mirrors(r, p + [c]) && Accepting(p + [c], keep))
  {
    SplitSnoc(p, c);
    hide SplitLines, CutBlocks, BlockFits, EventsOf, NameOf, DataOf, HasEvent;
  }

  /** An LF that closes a non-blank line. */
  lemma {:induction false} StepLine(s: State, p: bytes, keep: Keep)
    requires Mirrors(s, p) && Accepting(p, keep) && TrimCr(s.line) != []
    ensures var r := Step(s, LF, keep);
            && r.calls == Events(p) && !r.stopped
            && r.overflow == !Fits(p + [LF])
            && (!r.overflow ==> Mirrors(r, p + [LF]) && Accepting(p + [LF], keep))
  {
    hide SplitLines, CutBlocks, BlockFits, EventsOf, TrimCr, HandleLine, NameOf, DataOf, HasEvent;
    SplitSnoc(p, LF);
    var lines := SplitLines(p).lines;
    CutSnoc(lines, s.line);
    LineExtends(s, CutBlocks(lines).open, TrimCr(s.line), keep);
    var q := SplitLines(p + [LF]);
    assert forall l :: l in q.lines ==> l in lines || l == s.line;
  }

  /** A blank line: the open block is dispatched, if there is anything in it. */
  lemma {:induction false} StepBlank(s: State, p: bytes, keep: Keep)
    requires Mirrors(s, p) && Accepting(p, keep) && TrimCr(s.line) == []
    ensures var r := Step(s, LF, keep);
            && r.calls == Events(p + [LF]) && !r.overflow && Fits(p + [LF])
            && (r.stopped <==> !Accepting(p + [LF], keep))
            && (!r.stopped ==> Mirrors(r, p + [LF]))
  {
    SplitSnoc(p, LF);
    var lines := SplitLines(p).lines;
    var cut := CutBlocks(lines);
    CutSnoc(lines, s.line);
    EventsSnoc(cut.closed, cut.open);
    EmptyBlock();
    hide SplitLines, CutBlocks, BlockFits, EventsOf, TrimCr, NameOf, DataOf, HasEvent;
    var q := SplitLines(p + [LF]);
    assert forall l :: l in q.lines ==> l in lines || l == s.line;
    assert forall b :: b in CutBlocks(q.lines).closed ==> b in cut.closed || b == cut.open;
    var e := Event(NameOf(cut.open), DataOf(cut.open));
    if HasEvent(cut.open) {
      assert e in Events(p + [LF]);
      assert forall x :: x in Events(p + [LF]) ==> x in Events(p) || x == e;
    }
  }

  /** One byte onto an unlatched state. */
  lemma {:induction false} StepMirrors(s: State, p: bytes, c: byte, keep: Keep)
    requires Mirrors(s, p) && Accepting(p, keep)
    ensures var r := Step(s, c, keep);
            && (Accepting(p + [c], keep) ==> Mirrors(r, p + [c]))
            && (!Accepting(p + [c], keep) ==>
                  if Fits(p + [c]) then r.stopped && !r.overflow && r.calls == Events(p + [c])
                  else r.overflow && !r.stopped && r.calls == Events(p))
  {
    if c != LF {
      StepInside(s, p, c, keep);
    } else if TrimCr(s.line) != [] {
      StepLine(s, p, keep);
    } else {
      StepBlank(s, p, keep);
    }
  }

  lemma {:induction false} MirrorsStart(keep: Keep)
    ensures Mirrors(START, []) && Accepting([], keep)
  {
    EmptyBlock();
  }

  /** The longest accepted prefix: where the first stop or overflow strikes. */
  ghost function FirstLatch(s: bytes, keep: Keep): (k: nat)
    ensures k <= |s|
  {
    if s == [] then 0
    else
      var init := s[..|s| - 1];
      var k := FirstLatch(init, keep);
      if k < |init| then k else if Accepting(s, keep) then |s| else |init|
  }

  /** Every run, whole: up to the first stop or overflow the callbacks are the batch
      reading's events, and which of the two it was is decided by whether the bytes fit. */
  lemma {:induction false} RunRefinesBatch(s: bytes, keep: Keep)
    ensures var k := FirstLatch(s, keep);
            var r := Run(s, keep);
            && Accepting(s[..k], keep)
            && (k == |s| ==> Mirrors(r, s))
            && (k < |s| ==> !Accepting(s[..k + 1], keep))
            && (k < |s| ==>
                  if Fits(s[..k + 1]) then r.stopped && !r.overflow && r.calls == Events(s[..k + 1])
                  else r.overflow && !r.stopped && r.calls == Events(s[..k]))
  {
    hide Accepting, Fits, Events, Mirrors, Step, Run, FirstLatch;
    if s == [] {
      MirrorsStart(keep);
      NoBytes(keep);
    } else {
      var init, c := s[..|s| - 1], s[|s| - 1];
      RunRefinesBatch(init, keep);
      OneMoreByte(init, c, keep);
      var k := FirstLatch(init, keep);
      assert s == init + [c];
      if k < |init| {
        assert s[..k] == init[..k] && s[..k + 1] == init[..k + 1];
        StepLatched(Run(init, keep), c, keep);
      } else {
        assert init[..k] == init;
        StepMirrors(Run(init, keep), init, c, keep);
        assert s[..|s|] == s && s[..|init|] == init;
      }
    }
  }

  lemma {:induction false} NoBytes(keep: Keep)
    ensures Run([], keep) == START && FirstLatch([], keep) == 0
  {}

  lemma {:induction false} OneMoreByte(s: bytes, c: byte, keep: Keep)
    ensures Run(s + [c], keep) == Step(Run(s, keep), c, keep)
    ensures var k := FirstLatch(s, keep);
            FirstLatch(s + [c], keep) ==
            if k < |s| then k else if Accepting(s + [c], keep) then |s| + 1 else |s|
  {
    hide Step, Accepting;
    assert (s + [c])[..|s|] == s;
  }

  lemma {:induction false} StepLatched(s: State, c: byte, keep: Keep)
    requires Latched(s)
    ensures Step(s, c, keep) == s
  {}

  /** No latch: the callbacks are all the events, and an unterminated tail gave none. */
  lemma {:induction false} QuietRun(s: bytes, keep: Keep)
    ensures !Latched(Run(s, keep)) <==> Accepting(s, keep)
    ensures Accepting(s, keep) ==> Run(s, keep).calls == Events(s)
  {
    RunRefinesBatch(s, keep);
    var k := FirstLatch(s, keep);
    assert s[..|s|] == s;
    if k < |s| && Accepting(s, keep) {
      PrefixAccepting(s, k + 1, keep);
    }
  }

  lemma {:induction false} PrefixAccepting(s: bytes, k: nat, keep: Keep)
    requires Accepting(s, keep) && k <= |s|
    ensures Accepting(s[..k], keep)
    decreases |s| - k
  {
    if k < |s| {
      PrefixAccepting(s, k + 1, keep);
      hide Accepting;
      assert s[..k + 1] == s[..k] + [s[k]];
      AcceptingInit(s[..k], s[k], keep);
    } else {
      assert s[..k] == s;
    }
  }

  lemma {:induction false} AcceptingInit(p: bytes, c: byte, keep: Keep)
    requires Accepting(p + [c], keep)
    ensures Accepting(p, keep)
  {
    FitsInit(p, c);
    EventsGrow(p, c);
    hide Fits, Events;
    assert forall e :: e in Events(p) ==> e in Events(p + [c]);
  }

  lemma {:induction false} EventsGrow(p: bytes, c: byte)
    ensures Events(p) <= Events(p + [c])
  {
    SplitSnoc(p, c);
    if c == LF {
      CutSnoc(SplitLines(p).lines, SplitLines(p).tail);
      var cut := CutBlocks(SplitLines(p).lines);
      EventsSnoc(cut.closed, cut.open);
    }
  }

  lemma {:induction false} FitsInit(p: bytes, c: byte)
    requires Fits(p + [c])
    ensures Fits(p)
  {
    SplitSnoc(p, c);
    var s, q := SplitLines(p), SplitLines(p + [c]);
    var cut, cut' := CutBlocks(s.lines), CutBlocks(q.lines);
    if c == LF {
      CutSnoc(s.lines, s.tail);
      assert s.tail in q.lines;
      if TrimCr(s.tail) == [] {
        assert cut.open in cut'.closed;
      } else {
        BlockFitsInit(cut.open, TrimCr(s.tail));
      }
    }
    hide SplitLines, CutBlocks, BlockFits, TrimCr;
    assert forall b :: b in cut.closed ==> b in cut'.closed;
    assert forall x :: x in s.lines ==> x in q.lines;
  }

  lemma {:induction false} BlockFitsInit(block: seq<bytes>, l: bytes)
    requires BlockFits(block + [l])
    ensures BlockFits(block)
  {
    ValuesSnoc(block, l, Ascii("event"));
    ValuesSnoc(block, l, Ascii("data"));
    if FieldOf(l).Some? {
      DataSnoc(Values(block, Ascii("data")), FieldOf(l).value.1);
    }
    hide Values, FieldOf, Join, DropEmpty, Ascii;
    assert forall v :: v in Values(block, Ascii("event")) ==> v in Values(block + [l], Ascii("event"));
  }

  /** Bytes after the last LF dispatch nothing. */
  lemma {:induction false} TailIsSilent(s: bytes, t: bytes)
    requires LF !in t
    ensures Events(s + t) == Events(s)
    decreases |t|
  {
    if t == [] {
      assert s + t == s;
    } else {
      var init, c := t[..|t| - 1], t[|t| - 1];
      TailIsSilent(s, init);
      assert s + t == s + init + [c] && c in t;
      SplitSnoc(s + init, c);
    }
  }

  /** Every event is cut from a prefix that ends in LF, so its data is below the parser's cap. */
  lemma {:induction false} EventsFit(s: bytes, i: nat)
    requires Fits(s) && i < |Events(s)|
    ensures |Events(s)[i].data| < MAX_DATA && |Events(s)[i].name| < MAX_NAME
  {
    EventsOfFit(CutBlocks(SplitLines(s).lines).closed, i);
  }

  lemma {:induction false} EventsOfFit(blocks: seq<seq<bytes>>, i: nat)
    requires (forall b :: b in blocks ==> BlockFits(b)) && i < |EventsOf(blocks)|
    ensures |EventsOf(blocks)[i].data| < MAX_DATA && |EventsOf(blocks)[i].name| < MAX_NAME
  {
    var init, b := blocks[..|blocks| - 1], blocks[|blocks| - 1];
    assert b in blocks;
    if i < |EventsOf(init)| {
      EventsOfFit(init, i);
    } else {
      NameFits(b);
    }
  }

  lemma {:induction false} NameFits(block: seq<bytes>)
    requires BlockFits(block)
    ensures |NameOf(block)| < MAX_NAME
  {
    var ns := Values(block, Ascii("event"));
    assert ns != [] ==> ns[|ns| - 1] in ns;
  }

  // ---------------------------------------------------------- the C structure

  class Parser {
    const line: array<byte>
    var lineLen: nat
    const name: array<byte>  // NUL-terminated
    const data: array<byte>
    var dataLen: nat
    var haveEvent: bool
    var overflow: bool
    var stopped: bool
    var calls: seq<Event>    // every callback made since Init

    ghost predicate Valid()
      reads this, name
    {
      && line.Length == MAX_LINE && name.Length == MAX_NAME && data.Length == MAX_DATA
      && line != name && name != data && line != data
      && lineLen < MAX_LINE && dataLen < MAX_DATA
      && |CStr(name[..])| < MAX_NAME
    }

    ghost function View(): State
      reads this, line, name, data
      requires Valid()
    {
      State(line[..lineLen], CStr(name[..]), data[..dataLen], haveEvent, overflow, stopped, calls)
    }

    constructor ()
      ensures Valid() && View() == START && fresh(line) && fresh(name) && fresh(data)
    {
      line := new byte[MAX_LINE](_ => 0);
      name := new byte[MAX_NAME](_ => 0);
      data := new byte[MAX_DATA](_ => 0);
      lineLen, dataLen, haveEvent, overflow, stopped, calls := 0, 0, false, false, false, [];
      new;
      CStrUnique(name[..], []);
    }

    /** Begins a stream, discarding whatever was half-read. */
    method Init()
      requires Valid()
      modifies this, name, data
      ensures Valid() && View() == START
    {
      lineLen := 0;
      SetName([]);
      dataLen := 0;
      data[0] := 0;
      haveEvent, overflow, stopped, calls := false, false, false, [];
    }

    /** Copies a value into the name buffer and terminates it. */
    method SetName(value: bytes)
      requires Valid() && |value| < MAX_NAME
      modifies name
      ensures Valid() && CStr(name[..]) == CStr(value)
    {
      Copy(name, 0, value);
      name[|value|] := 0;
      ghost var c := CStr(value);
      assert name[..|value|] == value;
      assert c <= name[..];
      CStrUnique(name[..], c);
    }

    method DispatchEvent(keep: Keep) returns (more: bool)
      requires Valid() && !Latched(View())
      modifies this, name, data
      ensures Valid() && View() == Dispatch(old(View()), keep)
      ensures more == !stopped
    {
      more := true;
      if haveEvent {
        data[dataLen] := 0;
        var e := Event(CStr(name[..]), data[..dataLen]);
        calls := calls + [e];
        more := keep(e);
        if !more {
          stopped := true;
        }
      }
      SetName([]);
      dataLen := 0;
      haveEvent := false;
    }

    method Handle(keep: Keep) returns (more: bool)
      requires Valid() && !Latched(View())
      modifies this, name, data
      ensures Valid() && View() == HandleLine(old(View()), old(View()).line, keep)
      ensures more == !Latched(View())
    {
      hide FieldOf, Ascii;
      var s := line[..lineLen];
      if lineLen == 0 {
        more := DispatchEvent(keep);
        return;
      }
      var field := FieldOf(s);
      if field.None? {
        return true;
      }
      var value := field.value.1;
      if field.value.0 == Ascii("event") {
        if |value| >= name.Length {
          overflow := true;
          return false;
        }
        SetName(value);
        haveEvent := true;
        return true;
      }
      if field.value.0 == Ascii("data") {
        more := AppendData(value);
        return;
      }
      more := true;
    }

    method AppendData(value: bytes) returns (more: bool)
      requires Valid() && !Latched(View())
      modifies this`dataLen, this`haveEvent, this`overflow, data
      ensures Valid()
      ensures var need := |value| + (if old(dataLen) > 0 then 1 else 0);
              more == (old(dataLen) + need + 1 <= MAX_DATA)
      ensures overflow == !more
      ensures !more ==> data[..dataLen] == old(data[..dataLen]) && haveEvent == old(haveEvent)
      ensures more ==> haveEvent
      ensures more && old(dataLen) > 0 ==> data[..dataLen] == old(data[..dataLen]) + [LF] + value
      ensures more && old(dataLen) == 0 ==> data[..dataLen] == value
    {
      var need := |value| + (if dataLen > 0 then 1 else 0);
      if dataLen + need + 1 > data.Length {
        overflow := true;
        return false;
      }
      if dataLen > 0 {
        data[dataLen] := LF;
        dataLen := dataLen + 1;
        assert data[..dataLen] == old(data[..dataLen]) + [LF];
      }
      Copy(data, dataLen, value);
      dataLen := dataLen + |value|;
      haveEvent := true;
      more := true;
    }

    /** An LF: the line is complete. */
    method EndLine(keep: Keep) returns (more: bool)
      requires Valid() && !Latched(View())
      modifies this, name, data
      ensures Valid() && View() == Step(old(View()), LF, keep)
      ensures more == !Latched(View())
    {
      hide HandleLine;
      ghost var s := View();
      if lineLen > 0 && line[lineLen - 1] == CR {
        lineLen := lineLen - 1;
      }
      assert View() == s.(line := TrimCr(s.line));
      more := Handle(keep);
      HandleIgnoresLine(s, TrimCr(s.line), keep);
      lineLen := 0;
    }

    /** Any other byte joins the line, or overflows it. */
    method ExtendLine(c: byte, keep: Keep) returns (more: bool)
      requires Valid() && !Latched(View()) && c != LF
      modifies this`overflow, this`lineLen, line
      ensures Valid() && View() == Step(old(View()), c, keep)
      ensures more == !Latched(View())
    {
      if lineLen + 1 >= line.Length {
        overflow := true;
        return false;
      }
      line[lineLen] := c;
      lineLen := lineLen + 1;
      more := true;
    }

    /** One chunk, byte by byte. */
    method Feed(p: bytes, keep: Keep) returns (more: bool)
      requires Valid()
      modifies this, line, name, data
      ensures Valid() && View() == RunFrom(old(View()), p, keep)
      ensures more == !Latched(View())
    {
      hide Step;
      ghost var s0 := View();
      if overflow || stopped {
        LatchStays(s0, p, keep);
        return false;
      }
      var i := 0;
      assert p[..0] == [];
      while i < |p|
        invariant 0 <= i <= |p| && Valid()
        invariant View() == RunFrom(s0, p[..i], keep) && !Latched(View())
      {
        RunFromSplit(s0, p, i, keep);
        var more := true;
        if p[i] == LF {
          more := EndLine(keep);
        } else {
          more := ExtendLine(p[i], keep);
        }
        i := i + 1;
        if !more {
          LatchStays(View(), p[i..], keep);
          return false;
        }
      }
      assert p[..i] == p;
      more := true;
    }

    static lemma {:induction false} RunFromSplit(s: State, p: bytes, i: nat, keep: Keep)
      requires i < |p|
      ensures RunFrom(s, p[..i + 1], keep) == Step(RunFrom(s, p[..i], keep), p[i], keep)
      ensures RunFrom(s, p, keep) == RunFrom(RunFrom(s, p[..i + 1], keep), p[i + 1..], keep)
    {
      assert p[..i + 1][..i] == p[..i];
      assert p == p[..i + 1] + p[i + 1..];
      RunFromAppend(s, p[..i + 1], p[i + 1..], keep);
    }

    /** The line buffer plays no part in handling a line but supplying its bytes. */
    static lemma {:induction false} HandleIgnoresLine(s: State, l: bytes, keep: Keep)
      ensures HandleLine(s.(line := l), l, keep).(line := []) == HandleLine(s, l, keep).(line := [])
    {
      hide FieldOf, Ascii, CStr;
    }
  }
}
