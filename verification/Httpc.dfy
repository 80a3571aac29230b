/** The events connection and its reconnect loop. A connection is what the peer
    and the platform make of it: a response code, body chunks and an ending. */
module Httpc {
  import opened Bytes
  import opened Json
  import opened Sse
  import opened Waiting
  import EventText

  const RECONNECT_DELAY_MS := 250
  const POLL_SLICE_MS := 200

  datatype HttpResult = HttpOk | Transport | StatusRefused | TimedOut | Cancelled | TooLarge | Internal

  /** How one turn of the poll loop goes on: the transfer step fails, it finishes the transfer, the
      wait for more fails, or the loop goes round. */
  datatype PollStep = PerformFailed | TransferDone | WaitFailed | Waited

  /** One turn: the clock (in ms) and the cancellation flag it reads, and the body chunks its transfer
      step hands over. */
  datatype Poll = Poll(now: int, fired: bool, chunks: seq<bytes>, step: PollStep)

  /** The clock and cancellation flag as one reconnect pause reads them. */
  datatype Pause = Pause(before: int, firedBefore: bool, after: int, firedAfter: bool, firedLast: bool)

  datatype Connection = Connection(setup: bool, code: nat, polls: seq<Poll>, pause: Pause)

  predicate Retryable(status: nat) {
    status == 429 || status >= 500
  }

  // ------------------------------------------------------------ one connection

  /** Why the poll loop ended; none of these while the offered turns run out first. */
  datatype Ending = Finished | Interrupted | DeadlinePassed | PollFailed | StillPolling

  datatype Polled = Polled(ending: Ending, used: nat, sse: State)

  /** The parser after one transfer step; an error body does not reach it. */
  function Perform(s: State, code: nat, chunks: seq<bytes>): State {
    if code >= 300 then s else RunFrom(s, Flatten(chunks), KEEP)
  }

  /** The poll loop from its i-th turn on. A parser that stopped or overflowed ends the transfer. */
  function PollLoop(c: Connection, deadline: int, i: nat, s: State): (q: Polled)
    requires i <= |c.polls|
    ensures i <= q.used <= |c.polls|
    decreases |c.polls| - i
  {
    if i == |c.polls| then Polled(StillPolling, i, s)
    else
      var p := c.polls[i];
      if p.fired then Polled(Interrupted, i, s)
      else if deadline - p.now <= 0 then Polled(DeadlinePassed, i, s)
      else
        var s' := Perform(s, c.code, p.chunks);
        if p.step == PerformFailed then Polled(PollFailed, i + 1, s')
        else if Latched(s') || p.step == TransferDone then Polled(Finished, i + 1, s')
        else if p.step == WaitFailed then Polled(PollFailed, i + 1, s')
        else PollLoop(c, deadline, i + 1, s')
  }

  /** The chunks of some turns, in order. */
  function Chunks(polls: seq<Poll>): seq<bytes> {
    if polls == [] then [] else Chunks(polls[..|polls| - 1]) + polls[|polls| - 1].chunks
  }

  /** The body as far as it was handed over. */
  function Body(c: Connection, deadline: int): bytes {
    Flatten(Chunks(c.polls[..PollLoop(c, deadline, 0, START).used]))
  }

  datatype Streamed = Streamed(result: HttpResult, status: nat, wait: Outcome) | Pending(wait: Outcome)

  /** Whether the body reaches the event parser. */
  predicate IsStream(c: Connection) {
    c.setup && c.code < 300
  }

  function RunStream(c: Connection, deadline: int, prev: nat, w: Outcome): Streamed {
    if !c.setup then Streamed(Internal, prev, w)
    else
      var q := PollLoop(c, deadline, 0, START);
      var w' := AfterEvents(w, q.sse.calls);
      match q.ending
      case StillPolling => Pending(w')
      case Interrupted => Streamed(Cancelled, prev, w')
      case DeadlinePassed => Streamed(TimedOut, prev, w')
      case PollFailed => Streamed(Transport, prev, w')
      case Finished =>
        if q.sse.stopped then Streamed(HttpOk, c.code, w')
        else if q.sse.overflow then Streamed(TooLarge, c.code, w')
        else if c.code >= 300 && Chunks(c.polls[..q.used]) != [] then Streamed(StatusRefused, c.code, w')
        else Streamed(Transport, c.code, w')
  }

  lemma {:induction false} FlattenAppend(a: seq<bytes>, b: seq<bytes>)
    ensures Flatten(a + b) == Flatten(a) + Flatten(b)
  {
    if b == [] {
      assert a + b == a;
    } else {
      FlattenAppend(a, b[..|b| - 1]);
      assert (a + b)[..|a + b| - 1] == a + b[..|b| - 1];
      ConcatAssoc(Flatten(a), Flatten(b[..|b| - 1]), b[|b| - 1]);
    }
  }

  /** The parser after the first n turns. */
  function ParsedBy(c: Connection, n: nat): State
    requires n <= |c.polls|
  {
    if c.code >= 300 then START else Run(Flatten(Chunks(c.polls[..n])), KEEP)
  }

  lemma {:induction false} ParsedStep(c: Connection, i: nat)
    requires i < |c.polls|
    ensures Perform(ParsedBy(c, i), c.code, c.polls[i].chunks) == ParsedBy(c, i + 1)
  {
    assert c.polls[..i + 1][..i] == c.polls[..i];
    FlattenAppend(Chunks(c.polls[..i]), c.polls[i].chunks);
    RunFromAppend(START, Flatten(Chunks(c.polls[..i])), Flatten(c.polls[i].chunks), KEEP);
  }

  /** The loop leaves the parser where the body handed over leaves it; going on needs it unlatched. */
  lemma {:induction false} PollRuns(c: Connection, deadline: int, i: nat)
    requires i <= |c.polls| && !Latched(ParsedBy(c, i))
    ensures var q := PollLoop(c, deadline, i, ParsedBy(c, i));
            && q.sse == ParsedBy(c, q.used)
            && (Latched(q.sse) ==> q.ending == Finished || q.ending == PollFailed)
    decreases |c.polls| - i
  {
    hide ParsedBy, Perform, Latched;
    if i < |c.polls| {
      ParsedStep(c, i);
      if !Latched(ParsedBy(c, i + 1)) {
        PollRuns(c, deadline, i + 1);
      }
    }
  }

  lemma {:induction false} StreamParsed(c: Connection, deadline: int)
    ensures var q := PollLoop(c, deadline, 0, START);
            && q.sse == (if c.code >= 300 then START else Run(Body(c, deadline), KEEP))
            && (Latched(q.sse) ==> q.ending == Finished || q.ending == PollFailed)
  {
    hide PollLoop;
    assert c.polls[..0] == [];
    assert ParsedBy(c, 0) == START;
    PollRuns(c, deadline, 0);
  }

  /** The data length never reaches the response buffer's size: the callback's own
      too-long branch is unreachable behind the parser's cap. */
  lemma {:induction false} CallsFit(s: bytes, keep: Keep, i: nat)
    requires i < |Run(s, keep).calls|
    ensures |Run(s, keep).calls[i].data| < MAX_RESPONSE
  {
    RunRefinesBatch(s, keep);
    var k := FirstLatch(s, keep);
    assert k == |s| ==> s[..k] == s;
    if k < |s| && Fits(s[..k + 1]) {
      EventsFit(s[..k + 1], i);
    } else {
      EventsFit(s[..k], i);
    }
  }

  /** The body as far as the parser read it before stopping. */
  ghost function ReadPart(s: bytes): bytes {
    var k := FirstLatch(s, KEEP);
    if k < |s| && Fits(s[..k + 1]) then s[..k + 1] else s[..k]
  }

  lemma {:induction false} ReadPartFits(s: bytes)
    ensures ReadPart(s) <= s && Fits(ReadPart(s)) && Run(s, KEEP).calls == Events(ReadPart(s))
  {
    hide Fits, Events, Run;
    RunRefinesBatch(s, KEEP);
    assert s[..|s|] == s;
  }

  /** A run that was not stopped saw only events it kept. */
  lemma {:induction false} QuietCalls(s: bytes)
    requires !Run(s, KEEP).stopped
    ensures forall e :: e in Run(s, KEEP).calls ==> KEEP(e)
  {
    hide Fits, Events, Run;
    RunRefinesBatch(s, KEEP);
    assert s[..|s|] == s;
  }

  /** A stopped run kept every event but its last. */
  lemma {:induction false} StoppedCalls(s: bytes)
    requires Run(s, KEEP).stopped
    ensures var es := Run(s, KEEP).calls;
            es != [] && !KEEP(es[|es| - 1]) && forall e :: e in es[..|es| - 1] ==> KEEP(e)
  {
    hide Fits, Events, Run;
    RunRefinesBatch(s, KEEP);
    var k := FirstLatch(s, KEEP);
    assert s[..|s|] == s;
    assert k < |s| && s[..k + 1] == s[..k] + [s[k]];
    EventsSnocByte(s[..k], s[k]);
    var es := Run(s, KEEP).calls;
    var before := Events(s[..k]);
    assert es != before;
    assert es[..|es| - 1] == before;
  }

  /** The callbacks of a run: all informational, but for a last one that stopped it. */
  lemma {:induction false} CallsShape(s: bytes)
    ensures var es := Run(s, KEEP).calls;
            && (!Run(s, KEEP).stopped ==> forall e :: e in es ==> !IsTerminal(e.name))
            && (Run(s, KEEP).stopped ==>
                  && es != [] && IsTerminal(es[|es| - 1].name)
                  && forall e :: e in es[..|es| - 1] ==> !IsTerminal(e.name))
  {
    var es := Run(s, KEEP).calls;
    forall e | e in es ensures KEEP(e) <==> !IsTerminal(e.name) {
      var i :| 0 <= i < |es| && es[i] == e;
      CallsFit(s, KEEP, i);
    }
    if Run(s, KEEP).stopped {
      StoppedCalls(s);
      assert forall e :: e in es[..|es| - 1] ==> e in es;
    } else {
      QuietCalls(s);
    }
  }

  lemma {:induction false} EventsSnocByte(p: bytes, c: byte)
    ensures Events(p + [c]) == Events(p) ||
            exists e :: Events(p + [c]) == Events(p) + [e]
  {
    SplitSnoc(p, c);
    if c == LF {
      CutSnoc(SplitLines(p).lines, SplitLines(p).tail);
      var cut := CutBlocks(SplitLines(p).lines);
      EventsSnoc(cut.closed, cut.open);
    }
  }

  lemma {:induction false} KeptWhenTerminal(s: bytes, i: nat)
    requires i < |Run(s, KEEP).calls| && IsTerminal(Run(s, KEEP).calls[i].name)
    ensures !KeepWaiting(Run(s, KEEP).calls[i])
  {
    CallsFit(s, KEEP, i);
  }

  /** A transfer step that reports failure although the callback in it had what it wanted. */
  predicate StoppedThenFailed(c: Connection, deadline: int) {
    var q := PollLoop(c, deadline, 0, START);
    c.setup && q.ending == PollFailed && q.sse.stopped
  }

  /** One connection delivers exactly when its transfer finished and the body, as read, holds a terminal
      event; what it records is the first one. */
  lemma {:induction false} StreamOutcome(c: Connection, deadline: int, prev: nat, w: Outcome)
    ensures var r := RunStream(c, deadline, prev, w);
            var first := FirstTerminal(Events(ReadPart(Body(c, deadline))));
            var delivered := r.Streamed? && r.result == HttpOk;
            && (delivered <==> IsStream(c) && PollLoop(c, deadline, 0, START).ending == Finished && first.Some?)
            && (delivered ==> r.wait == Outcome(true, first.value.name, first.value.data))
            && (!delivered && !StoppedThenFailed(c, deadline) ==> r.wait == w)
  {
    hide IsTerminal, Events, Fits, Run, Flatten, ReadPart, PollLoop, AfterEvents, FirstTerminal;
    var q := PollLoop(c, deadline, 0, START);
    StreamParsed(c, deadline);
    AfterNone(w);
    if IsStream(c) {
      RunRecords(Body(c, deadline), w);
    }
  }

  /** What a run of the parser records, and whether anything in it was terminal. */
  lemma {:induction false} RunRecords(s: bytes, w: Outcome)
    ensures var first := FirstTerminal(Events(ReadPart(s)));
            && (Run(s, KEEP).stopped <==> first.Some?)
            && AfterEvents(w, Run(s, KEEP).calls) ==
               if first.Some? then Outcome(true, first.value.name, first.value.data) else w
  {
    CallsShape(s);
    ReadPartFits(s);
    var es := Run(s, KEEP).calls;
    hide IsTerminal, Events, Fits, Run, ReadPart;
    if Run(s, KEEP).stopped {
      var init, e := es[..|es| - 1], es[|es| - 1];
      assert es == init + [e] && e in es;
      assert forall x :: x in init ==> x in es;
      AfterKept(w, init);
      FirstTerminalOf(init, e);
      KeptWhenTerminal(s, |es| - 1);
    } else {
      AfterKept(w, es);
      FirstTerminalOf(es, Event([], []));
    }
  }

  lemma {:induction false} AfterNone(w: Outcome)
    ensures AfterEvents(w, []) == w
  {}

  /** One event and nothing else, as a server sends it. */
  function OneEvent(name: bytes, data: bytes): bytes {
    Ascii("event: ") + name + Ascii("\n") + Ascii("data: ") + data + Ascii("\n\n")
  }

  /** The five statuses that end a wait, by name: a connection below 300 that hands over an event with one
      of them delivers it, and one with any other name leaves the record as it was. */
  lemma {:induction false} EventDecides(c: Connection, deadline: int, prev: nat, w: Outcome, name: bytes, data: bytes)
    requires c.setup && c.code < 300 && PollLoop(c, deadline, 0, START).ending == Finished
    requires Body(c, deadline) == OneEvent(name, data)
    requires EventText.OneLine(name) && NulFree(name) && |name| < 128 && EventText.OneLine(data)
    ensures RunStream(c, deadline, prev, w) ==
            if name == Ascii("approved") || name == Ascii("denied") || name == Ascii("expired")
               || name == Ascii("enrolled") || name == Ascii("failed")
            then Streamed(HttpOk, c.code, Outcome(true, name, data))
            else Streamed(Transport, c.code, w)
  {
    StreamParsed(c, deadline);
    OneEventRuns(name, data, KEEP);
    OneCall(w, Event(name, data));
    hide PollLoop, Run, Body, Ascii, AfterEvents, OneEvent, Chunks;
  }

  lemma {:induction false} OneCall(w: Outcome, e: Event)
    ensures AfterEvents(w, [e]) == AfterEvent(w, e)
  {
    assert [e][..0] == [];
  }

  lemma {:induction false} OneEventRuns(name: bytes, data: bytes, keep: Keep)
    requires EventText.OneLine(name) && NulFree(name) && |name| < 128 && EventText.OneLine(data)
    ensures var e := Event(name, data);
            Run(OneEvent(name, data), keep) == START.(calls := [e], stopped := !keep(e))
  {
    var e := EventText.Written([], name, [data], false);
    OneEventText(e, data);
    assert e.Valid();
    hide OneEvent, Run, EventText.Written.Text, EventText.Written.Valid, EventText.OneLine, Ascii, EventText.StreamText;
    assert e.Sent() == Event(name, data) && EventText.AllSent([e]) == [e.Sent()];
    EventText.StreamReads([e], keep);
  }

  lemma {:induction false} OneEventText(e: EventText.Written, data: bytes)
    requires e.noise == [] && e.data == [data] && !e.crlf
    ensures EventText.StreamText([e]) == OneEvent(e.name, data)
  {
    assert [e][..0] == [] && [data][..0] == [];
    assert EventText.StreamText([]) == [] && EventText.StreamText([e]) == [] + e.Text();
    assert Ascii("\n\n") == Ascii("\n") + Ascii("\n");
    hide Ascii;
    var end := Ascii("\n");
    assert EventText.NoiseText([], end) == [] && EventText.DataText([], end) == [];
    assert EventText.DataText([data], end) == [] + (Ascii("data: ") + data + end);
    Spelled(Ascii("event: "), e.name, end, Ascii("data: "), data);
  }

  lemma {:induction false} Spelled(a: bytes, name: bytes, end: bytes, b: bytes, data: bytes)
    ensures [] + (a + name + end) + (([] + (b + data + end)) + end) == a + name + end + b + data + (end + end)
  {}

  // ---------------------------------------------------------------- the loop

  predicate MayReconnect(p: Pause, deadline: int) {
    !p.firedBefore && deadline - p.before > 0 && !p.firedAfter && p.after < deadline
  }

  datatype Progress = StillWaiting(status: nat, wait: Outcome, used: nat)
                    | Ended(result: HttpResult, status: nat, wait: Outcome, used: nat)

  /** Whether this connection's result ends the wait by itself. */
  predicate Final(r: Streamed)
    requires r.Streamed?
  {
    || r.result == HttpOk || r.result == Cancelled || r.result == TimedOut || r.result == TooLarge
    || (if r.result == StatusRefused then !Retryable(r.status) else r.status == 0)
  }

  /** The loop over the connections the platform offers, from the i-th on. */
  function Loop(cs: seq<Connection>, i: nat, deadline: int, prev: nat, w: Outcome): (p: Progress)
    requires i <= |cs|
    ensures i <= p.used <= |cs| && (p.Ended? ==> i < p.used)
    decreases |cs| - i
  {
    if i == |cs| then StillWaiting(prev, w, i)
    else
      var r := RunStream(cs[i], deadline, prev, w);
      if r.Pending? then StillWaiting(prev, r.wait, i + 1)
      else if Final(r) then Ended(r.result, r.status, r.wait, i + 1)
      else if !MayReconnect(cs[i].pause, deadline) then
        Ended(if cs[i].pause.firedLast then Cancelled else TimedOut, r.status, r.wait, i + 1)
      else Loop(cs, i + 1, deadline, r.status, r.wait)
  }

  /** What was read decides: a terminal event in it is the first of the whole body. */
  lemma {:induction false} FirstOfReadPart(s: bytes)
    ensures FirstTerminal(Events(ReadPart(s))).Some? ==>
              FirstTerminal(Events(s)) == FirstTerminal(Events(ReadPart(s)))
  {
    hide FirstTerminal, Events, ReadPart, Run;
    ReadPartFits(s);
    assert s[..|ReadPart(s)|] == ReadPart(s);
    EventsPrefix(s, |ReadPart(s)|);
    if FirstTerminal(Events(ReadPart(s))).Some? {
      FirstTerminalPrefix(Events(ReadPart(s)), Events(s));
    }
  }

  lemma {:induction false} EventsPrefix(s: bytes, k: nat)
    requires k <= |s|
    ensures Events(s[..k]) <= Events(s)
    decreases |s| - k
  {
    if k == |s| {
      assert s[..k] == s;
    } else {
      hide Events;
      assert s[..k + 1] == s[..k] + [s[k]];
      EventsGrow(s[..k], s[k]);
      EventsPrefix(s, k + 1);
    }
  }

  lemma {:induction false} FirstTerminalPrefix(a: seq<Event>, b: seq<Event>)
    requires a <= b && FirstTerminal(a).Some?
    ensures FirstTerminal(b) == FirstTerminal(a)
  {
    assert a[0] == b[0];
    if !IsTerminal(a[0].name) {
      FirstTerminalPrefix(a[1..], b[1..]);
    }
  }

  /** OK means the record is the first terminal event of the body the last connection delivered; nothing
      of a dropped connection, a half-read tail or an error body is in it. Any other end leaves the record
      as it was, unless a transfer step failed on the very event that stopped it. */
  lemma {:induction false} WaitOutcome(cs: seq<Connection>, i: nat, deadline: int, prev: nat, w: Outcome)
    requires i <= |cs|
    ensures var p := Loop(cs, i, deadline, prev, w);
            if p.Ended? && p.result == HttpOk then
              var last := cs[p.used - 1];
              var first := FirstTerminal(Events(Body(last, deadline)));
              && IsStream(last) && first.Some?
              && p.wait == Outcome(true, first.value.name, first.value.data)
            else (forall k :: i <= k < |cs| ==> !StoppedThenFailed(cs[k], deadline)) ==> p.wait == w
    decreases |cs| - i
  {
    hide FirstTerminal, Fits, Events, Flatten, RunStream, ReadPart, StoppedThenFailed, Body;
    if i < |cs| {
      var r := RunStream(cs[i], deadline, prev, w);
      StreamOutcome(cs[i], deadline, prev, w);
      FirstOfReadPart(Body(cs[i], deadline));
      if r.Streamed? && !Final(r) && MayReconnect(cs[i].pause, deadline) {
        WaitOutcome(cs, i + 1, deadline, r.status, r.wait);
      }
    }
  }

  /** A reconnect happens only after a retryable refusal that sent a body, or with a response code on
      record, from this connection or an earlier one; without one, nothing is retried. */
  lemma {:induction false} ReconnectOnlyWhen(c: Connection, deadline: int, prev: nat, w: Outcome)
    ensures var r := RunStream(c, deadline, prev, w);
            var q := PollLoop(c, deadline, 0, START);
            r.Streamed? && !Final(r) ==>
              if !c.setup || q.ending == PollFailed then prev != 0
              else
                && q.ending == Finished && 0 < c.code
                && (c.code < 300 || Chunks(c.polls[..q.used]) == [] || c.code == 429 || c.code >= 500)
  {
    hide PollLoop, Chunks, AfterEvents;
  }

  /** A transfer that ended without an event and without a refusal is taken up again exactly when it had
      a response code. What earlier connections had does not help. */
  lemma {:induction false} DropIff(c: Connection, deadline: int, prev: nat, w: Outcome)
    requires c.setup && PollLoop(c, deadline, 0, START).ending == Finished
    requires !Latched(PollLoop(c, deadline, 0, START).sse)
    requires c.code < 300 || Chunks(c.polls[..PollLoop(c, deadline, 0, START).used]) == []
    ensures var r := RunStream(c, deadline, prev, w);
            r.Streamed? && r.result == Transport && r.status == c.code && (Final(r) <==> c.code == 0)
  {
    hide PollLoop, Chunks, AfterEvents;
  }

  /** A stream that the server drops in mid-wait, and one that never reaches it. */
  const DROPPED := Connection(true, 200, [Poll(0, false, [], TransferDone)], Pause(0, false, 250, false, false))
  const REFUSED := Connection(true, 0, [Poll(250, false, [], TransferDone)], Pause(250, false, 500, false, false))

  /** So the reconnect does not outlast a server that is still down when it comes: the wait ends there,
      whatever time is left and whatever a third connection would have brought. */
  lemma {:induction false} RestartNotSurvived(rest: seq<Connection>, deadline: int, w: Outcome)
    requires deadline > 250
    ensures Loop([DROPPED, REFUSED] + rest, 0, deadline, 0, w) == Ended(Transport, 0, w, 2)
  {
    EmptyTransfer(DROPPED, deadline);
    EmptyTransfer(REFUSED, deadline);
    NoBody(DROPPED, deadline, 0, w);
    NoBody(REFUSED, deadline, 200, w);
    hide RunStream, PollLoop;
    var cs := [DROPPED, REFUSED] + rest;
    assert cs[0] == DROPPED && cs[1] == REFUSED;
    assert Loop(cs, 1, deadline, 200, w) == Ended(Transport, 0, w, 2);
  }

  lemma {:induction false} EmptyTransfer(c: Connection, deadline: int)
    requires |c.polls| == 1 && c.polls[0].chunks == [] && c.polls[0].step == TransferDone && c.code < 300
    requires !c.polls[0].fired && c.polls[0].now < deadline
    ensures PollLoop(c, deadline, 0, START) == Polled(Finished, 1, START)
  {
    NoChunks();
  }

  lemma {:induction false} NoChunks()
    ensures RunFrom(START, Flatten([]), KEEP) == START && !Latched(START) && START.calls == []
  {}

  lemma {:induction false} NoBody(c: Connection, deadline: int, prev: nat, w: Outcome)
    requires c.setup && c.code < 300 && PollLoop(c, deadline, 0, START) == Polled(Finished, 1, START)
    ensures RunStream(c, deadline, prev, w) == Streamed(Transport, c.code, w)
  {
    NoChunks();
    AfterNone(w);
    hide PollLoop, AfterEvents;
  }

  /** A completed transfer with code 300 or above is reported as a refusal exactly when it carried a
      body: an empty refusal, final or not, counts as a dropped connection. */
  lemma {:induction false} RefusalNeedsBody(c: Connection, deadline: int, prev: nat, w: Outcome)
    requires c.setup && c.code >= 300 && PollLoop(c, deadline, 0, START).ending == Finished
    ensures var r := RunStream(c, deadline, prev, w);
            var body := Chunks(c.polls[..PollLoop(c, deadline, 0, START).used]);
            && (r.result == StatusRefused <==> body != [])
            && (Final(r) <==> body != [] && c.code != 429 && c.code < 500)
  {
    StreamParsed(c, deadline);
    hide PollLoop, Chunks, AfterEvents;
  }

  // ----------------------------------------------------------------------- time

  function Latest(a: int, b: int): int {
    if a < b then b else a
  }

  /** How long one turn or one pause may sleep when it starts at `now` before the deadline. */
  function Sleep(now: int, deadline: int, most: int): int {
    if deadline - now > most then most else deadline - now
  }

  /** The turns from the i-th on keep time: each reading comes at most `lag` after the time the turn
      before it could sleep until. */
  predicate PollsOnTime(polls: seq<Poll>, i: nat, deadline: int, due: int, lag: nat)
    requires i <= |polls|
    decreases |polls| - i
  {
    i == |polls| ||
    (var t := polls[i].now;
     && t <= due + lag
     && (t < deadline ==> PollsOnTime(polls, i + 1, deadline, t + Sleep(t, deadline, POLL_SLICE_MS), lag)))
  }

  /** The last clock reading of a poll loop that began at `now`. */
  function LastReading(c: Connection, deadline: int, now: int): int {
    var q := PollLoop(c, deadline, 0, START);
    if !c.setup || c.polls == [] then now
    else if q.used < |c.polls| && (q.ending == Interrupted || q.ending == DeadlinePassed) then c.polls[q.used].now
    else if q.used == 0 then now
    else c.polls[q.used - 1].now
  }

  /** No poll loop reads a clock more than `lag` past the deadline; it ends for lateness only when it is
      late; and it goes on to a pause only from before the deadline. */
  lemma {:induction false} PollsInTime(c: Connection, deadline: int, i: nat, s: State, due: int, lag: nat)
    requires i <= |c.polls| && PollsOnTime(c.polls, i, deadline, due, lag)
    ensures var q := PollLoop(c, deadline, i, s);
            && (q.ending == Interrupted || q.ending == DeadlinePassed ==>
                  q.used < |c.polls| && c.polls[q.used].now <= Latest(due, deadline) + lag)
            && (q.ending == DeadlinePassed ==> deadline <= c.polls[q.used].now)
            && (i < q.used ==> c.polls[q.used - 1].now < deadline)
            && ((q.ending == Finished || q.ending == PollFailed) ==> i < q.used)
    decreases |c.polls| - i
  {
    hide Perform, Latched;
    if i < |c.polls| {
      var p := c.polls[i];
      if !p.fired && p.now < deadline {
        PollsInTime(c, deadline, i + 1, Perform(s, c.code, p.chunks), p.now + Sleep(p.now, deadline, POLL_SLICE_MS),
                    lag);
      }
    }
  }

  /** Every connection and every pause from the i-th on keeps time, from a reading at `now`. */
  predicate OnTime(cs: seq<Connection>, i: nat, deadline: int, now: int, lag: nat)
    requires i <= |cs|
    decreases |cs| - i
  {
    i == |cs| ||
    (var c := cs[i];
     && PollsOnTime(c.polls, 0, deadline, now, lag)
     && c.pause.before <= LastReading(c, deadline, now) + lag
     && (c.pause.before < deadline ==>
           && c.pause.after <= c.pause.before + Sleep(c.pause.before, deadline, RECONNECT_DELAY_MS) + lag
           && (c.pause.after < deadline ==> OnTime(cs, i + 1, deadline, c.pause.after, lag))))
  }

  /** The last clock reading of the whole wait from the i-th connection on. */
  function LastClock(cs: seq<Connection>, i: nat, deadline: int, prev: nat, w: Outcome, now: int): int
    requires i <= |cs|
    decreases |cs| - i
  {
    if i == |cs| then now
    else
      var c, r := cs[i], RunStream(cs[i], deadline, prev, w);
      if r.Pending? || Final(r) then LastReading(c, deadline, now)
      else if c.pause.firedBefore || deadline - c.pause.before <= 0 then c.pause.before
      else if !MayReconnect(c.pause, deadline) then c.pause.after
      else LastClock(cs, i + 1, deadline, r.status, r.wait, c.pause.after)
  }

  /** On a platform that keeps time within `lag`, a wait begun before the deadline reads no clock later
      than `lag` past it: it outlasts the deadline by no more than one step's own delay. One begun too
      late ends with the first reading it makes. */
  lemma {:induction false} WaitEndsInTime(cs: seq<Connection>, i: nat, deadline: int, prev: nat, w: Outcome, now: int,
                                          lag: nat)
    requires i <= |cs| && OnTime(cs, i, deadline, now, lag)
    ensures LastClock(cs, i, deadline, prev, w, now) <= Latest(now, deadline) + lag
    decreases |cs| - i
  {
    hide PollLoop, AfterEvents, Chunks, PollsOnTime, Retryable;
    if i < |cs| {
      var c, r := cs[i], RunStream(cs[i], deadline, prev, w);
      PollsInTime(c, deadline, 0, START, now, lag);
      if r.Streamed? && !Final(r) && MayReconnect(c.pause, deadline) {
        WaitEndsInTime(cs, i + 1, deadline, r.status, r.wait, c.pause.after, lag);
      }
    }
  }

  /** A fired flag stays fired over a pause. */
  predicate FlagStays(p: Pause) {
    (p.firedBefore ==> p.firedLast) && (p.firedAfter ==> p.firedLast)
  }

  /** Nor does it give up early: it reports a timeout only with a reading at or past the deadline. */
  lemma {:induction false} TimeoutIsLate(cs: seq<Connection>, i: nat, deadline: int, prev: nat, w: Outcome, now: int)
    requires i <= |cs| && forall k :: i <= k < |cs| ==> FlagStays(cs[k].pause)
    ensures var p := Loop(cs, i, deadline, prev, w);
            p.Ended? && p.result == TimedOut ==> deadline <= LastClock(cs, i, deadline, prev, w, now)
    decreases |cs| - i
  {
    hide PollLoop, AfterEvents, Chunks, Retryable;
    if i < |cs| {
      var c, r := cs[i], RunStream(cs[i], deadline, prev, w);
      PollEnding(c, deadline, 0, START);
      if r.Streamed? && !Final(r) && MayReconnect(c.pause, deadline) {
        TimeoutIsLate(cs, i + 1, deadline, r.status, r.wait, c.pause.after);
      }
    }
  }

  lemma {:induction false} PollEnding(c: Connection, deadline: int, i: nat, s: State)
    requires i <= |c.polls|
    ensures var q := PollLoop(c, deadline, i, s);
            && (q.ending == DeadlinePassed ==> q.used < |c.polls| && deadline <= c.polls[q.used].now)
            && (q.ending == Interrupted ==> q.used < |c.polls|)
    decreases |c.polls| - i
  {
    hide Perform, Latched;
    if i < |c.polls| {
      PollEnding(c, deadline, i + 1, Perform(s, c.code, c.polls[i].chunks));
    }
  }

  /** A monotone clock and full sleeps, from `now` on. */
  predicate FullSleeps(cs: seq<Connection>, i: nat, deadline: int, now: int)
    requires i <= |cs|
    decreases |cs| - i
  {
    i == |cs| ||
    (var p := cs[i].pause;
     && now <= p.before
     && p.before + Sleep(p.before, deadline, RECONNECT_DELAY_MS) <= p.after
     && FullSleeps(cs, i + 1, deadline, p.after))
  }

  /** Each reconnect spends at least the delay before the deadline. */
  lemma {:induction false} ReconnectBound(cs: seq<Connection>, i: nat, deadline: int, prev: nat, w: Outcome, now: int)
    requires i <= |cs| && now < deadline && FullSleeps(cs, i, deadline, now)
    ensures Loop(cs, i, deadline, prev, w).used - i <= 1 + (deadline - now) / 250
    decreases |cs| - i
  {
    hide RunStream;
    if i < |cs| {
      var r := RunStream(cs[i], deadline, prev, w);
      var p := cs[i].pause;
      if r.Streamed? && !Final(r) && MayReconnect(p, deadline) {
        assert p.after >= now + RECONNECT_DELAY_MS;
        ReconnectBound(cs, i + 1, deadline, r.status, r.wait, p.after);
      }
    }
  }

  // ------------------------------------------------------------- the C functions

  /** The write callback over the chunks of one transfer step, up to the one that ends the transfer. */
  method Deliver(chunks: seq<bytes>, code: nat, sse: Parser, wait: Wait, ghost w0: Outcome) returns (more: bool)
    requires sse.Valid() && wait.Valid() && !Latched(sse.View()) && wait.View() == AfterEvents(w0, sse.View().calls)
    requires {sse, sse.line, sse.name, sse.data} !! {wait, wait.response}
    modifies sse, sse.line, sse.name, sse.data, wait, wait.response
    ensures sse.Valid() && wait.Valid()
    ensures sse.View() == Perform(old(sse.View()), code, chunks) && more == !Latched(sse.View())
    ensures wait.View() == AfterEvents(w0, sse.View().calls)
  {
    hide Step, AfterEvents;
    ghost var s0 := sse.View();
    more := true;
    if code >= 300 {
      return;
    }
    var i := 0;
    assert chunks[..0] == [];
    while i < |chunks| && more
      invariant 0 <= i <= |chunks| && sse.Valid() && wait.Valid()
      invariant sse.View() == RunFrom(s0, Flatten(chunks[..i]), KEEP) && more == !Latched(sse.View())
      invariant wait.View() == AfterEvents(w0, sse.View().calls)
    {
      assert chunks[..i + 1][..i] == chunks[..i];
      more := DeliverChunk(chunks[i], sse, wait, w0);
      RunFromAppend(s0, Flatten(chunks[..i]), chunks[i], KEEP);
      i := i + 1;
    }
    LatchedRest(s0, chunks, i, KEEP);
  }

  /** One call of the write callback: the parser, and the events it calls back with. */
  method DeliverChunk(chunk: bytes, sse: Parser, wait: Wait, ghost w0: Outcome) returns (more: bool)
    requires sse.Valid() && wait.Valid() && wait.View() == AfterEvents(w0, sse.View().calls)
    requires {sse, sse.line, sse.name, sse.data} !! {wait, wait.response}
    modifies sse, sse.line, sse.name, sse.data, wait, wait.response
    ensures sse.Valid() && wait.Valid()
    ensures sse.View() == RunFrom(old(sse.View()), chunk, KEEP) && more == !Latched(sse.View())
    ensures wait.View() == AfterEvents(w0, sse.View().calls)
  {
    hide RunFrom, AfterEvents, Step, Latched, KeepWaiting;
    var seen := |sse.calls|;
    ghost var s := sse.View();
    CallsGrow(s, chunk, KEEP);
    more := sse.Feed(chunk, KEEP);
    AfterEventsAppend(w0, s.calls, sse.calls[seen..]);
    assert sse.calls == s.calls + sse.calls[seen..];
    wait.OnEvents(sse.calls[seen..]);
  }

  /** One connection: the poll loop, then the classification. `ended` is false when the offered turns
      run out first. */
  method RunOneStream(c: Connection, deadline: int, prev: nat, sse: Parser, wait: Wait)
    returns (ended: bool, result: HttpResult, status: nat)
    requires sse.Valid() && wait.Valid() && sse.View() == START
    requires {sse, sse.line, sse.name, sse.data} !! {wait, wait.response}
    modifies sse, sse.line, sse.name, sse.data, wait, wait.response
    ensures sse.Valid() && wait.Valid()
    ensures RunStream(c, deadline, prev, old(wait.View())) ==
            if ended then Streamed(result, status, wait.View()) else Pending(wait.View())
    ensures !ended ==> status == prev
  {
    hide Perform, AfterEvents, Latched;
    ended, result, status := true, Internal, prev;
    ghost var w0, whole := wait.View(), PollLoop(c, deadline, 0, START);
    AfterNone(w0);
    Unlatched();
    if !c.setup {
      return;
    }
    var statusKnown, i := false, 0;
    while true
      invariant 0 <= i <= |c.polls| && sse.Valid() && wait.Valid() && !Latched(sse.View())
      invariant statusKnown == (Chunks(c.polls[..i]) != []) && status == prev
      invariant PollLoop(c, deadline, i, sse.View()) == whole
      invariant wait.View() == AfterEvents(w0, sse.View().calls)
      decreases |c.polls| - i
    {
      if i == |c.polls| {
        return false, Internal, status;
      }
      var p := c.polls[i];
      var remaining := deadline - p.now;
      if p.fired {
        return true, Cancelled, status;
      }
      if remaining <= 0 {
        return true, TimedOut, status;
      }
      assert c.polls[..i + 1][..i] == c.polls[..i];
      var more := Deliver(p.chunks, c.code, sse, wait, w0);
      statusKnown := statusKnown || p.chunks != [];
      i := i + 1;
      if p.step == PerformFailed {
        return true, Transport, status;
      }
      if !more || p.step == TransferDone {
        break;
      }
      if p.step == WaitFailed {
        return true, Transport, status;
      }
    }
    status := c.code;
    if sse.stopped {
      result := HttpOk;
    } else if sse.overflow {
      result := TooLarge;
    } else if statusKnown && c.code >= 300 {
      result := StatusRefused;
    } else {
      result := Transport;
    }
  }

  lemma {:induction false} Unlatched()
    ensures !Latched(START)
  {}

  lemma {:induction false} CallsGrow(s: State, p: bytes, keep: Keep)
    ensures s.calls <= RunFrom(s, p, keep).calls
  {
    hide Step;
    if p != [] {
      CallsGrow(s, p[..|p| - 1], keep);
      StepGrows(RunFrom(s, p[..|p| - 1], keep), p[|p| - 1], keep);
    }
  }

  lemma {:induction false} StepGrows(s: State, c: byte, keep: Keep)
    ensures s.calls <= Step(s, c, keep).calls
  {
    hide FieldOf, Ascii, TrimCr, CStr;
  }

  /** Chunks after the one that latched change nothing. */
  lemma {:induction false} LatchedRest(s: State, chunks: seq<bytes>, i: nat, keep: Keep)
    requires i <= |chunks|
    requires i == |chunks| || Latched(RunFrom(s, Flatten(chunks[..i]), keep))
    ensures RunFrom(s, Flatten(chunks), keep) == RunFrom(s, Flatten(chunks[..i]), keep)
    decreases |chunks| - i
  {
    if i == |chunks| {
      assert chunks[..i] == chunks;
    } else {
      assert chunks[..i + 1][..i] == chunks[..i];
      RunFromAppend(s, Flatten(chunks[..i]), chunks[i], keep);
      LatchStays(RunFrom(s, Flatten(chunks[..i]), keep), chunks[i], keep);
      LatchedRest(s, chunks, i + 1, keep);
    }
  }

  /** Waits out the delay; the pause says what the clock and the flag read. */
  method WaitToReconnect(p: Pause, deadline: int) returns (again: bool, slept: int)
    ensures again == MayReconnect(p, deadline)
    ensures again ==> slept == if deadline - p.before > 250 then 250 else deadline - p.before
  {
    slept := 0;
    var left := deadline - p.before;
    if p.firedBefore || left <= 0 {
      return false, slept;
    }
    if left > RECONNECT_DELAY_MS {
      left := RECONNECT_DELAY_MS;
    }
    slept := left;
    again := !p.firedAfter && p.after < deadline;
  }

  /** The reconnect loop. `ended` is false when the offered connections run out first. */
  method RunEvents(cs: seq<Connection>, deadline: int, wait: Wait)
    returns (ended: bool, result: HttpResult, status: nat, used: nat)
    requires wait.Valid()
    modifies wait, wait.response
    ensures wait.Valid()
    ensures var p := Loop(cs, 0, deadline, 0, old(wait.View()));
            if ended then p == Ended(result, status, wait.View(), used)
            else p == StillWaiting(status, wait.View(), used)
  {
    hide RunStream;
    var sse := new Parser();
    status, used, result := 0, 0, Transport;
    ghost var p := Loop(cs, 0, deadline, 0, wait.View());
    while used < |cs|
      invariant used <= |cs| && wait.Valid() && sse.Valid()
      invariant fresh(sse) && fresh(sse.line) && fresh(sse.name) && fresh(sse.data)
      invariant Loop(cs, used, deadline, status, wait.View()) == p
    {
      sse.Init();
      var c := cs[used];
      ended, result, status := RunOneStream(c, deadline, status, sse, wait);
      used := used + 1;
      if !ended {
        return;
      }
      if result == HttpOk {
        return true, result, status, used;
      }
      if result == Cancelled || result == TimedOut || result == TooLarge {
        return true, result, status, used;
      }
      if result == StatusRefused {
        if !Retryable(status) {
          return true, result, status, used;
        }
      } else if status == 0 {
        return true, result, status, used;
      }
      var again, _ := WaitToReconnect(c.pause, deadline);
      if !again {
        result := if c.pause.firedLast then Cancelled else TimedOut;
        return true, result, status, used;
      }
    }
    ended := false;
  }
}
