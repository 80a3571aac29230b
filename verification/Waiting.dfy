/** What the wait is looking for: the terminal statuses and the event callback. */
module Waiting {
  import opened Bytes
  import opened Json
  import opened Sse

  /** The five statuses that resolve a request. */
  predicate IsTerminal(name: bytes) {
    || name == Ascii("approved") || name == Ascii("denied") || name == Ascii("expired")
    || name == Ascii("enrolled") || name == Ascii("failed")
  }

  /** Whether the callback lets the stream go on. */
  predicate KeepWaiting(e: Event) {
    !IsTerminal(e.name) || |e.data| >= MAX_RESPONSE
  }

  const KEEP: Keep := e => KeepWaiting(e)

  datatype Outcome = Outcome(have: bool, status: bytes, response: bytes)

  function AfterEvent(w: Outcome, e: Event): Outcome {
    if KeepWaiting(e) then w else Outcome(true, e.name, e.data)
  }

  function AfterEvents(w: Outcome, es: seq<Event>): Outcome {
    if es == [] then w else AfterEvent(AfterEvents(w, es[..|es| - 1]), es[|es| - 1])
  }

  lemma {:induction false} AfterEventsAppend(w: Outcome, a: seq<Event>, b: seq<Event>)
    ensures AfterEvents(w, a + b) == AfterEvents(AfterEvents(w, a), b)
  {
    if b == [] {
      assert a + b == a;
    } else {
      AfterEventsAppend(w, a, b[..|b| - 1]);
      assert (a + b)[..|a + b| - 1] == a + b[..|b| - 1];
    }
  }

  lemma {:induction false} AfterKept(w: Outcome, es: seq<Event>)
    requires forall e :: e in es ==> KeepWaiting(e)
    ensures AfterEvents(w, es) == w
  {
    if es != [] {
      AfterKept(w, es[..|es| - 1]);
    }
  }

  /** The first terminal event of a sequence. */
  function FirstTerminal(es: seq<Event>): Option<Event> {
    if es == [] then None
    else if IsTerminal(es[0].name) then Some(es[0])
    else FirstTerminal(es[1..])
  }

  lemma {:induction false} FirstTerminalOf(es: seq<Event>, e: Event)
    requires forall x :: x in es ==> !IsTerminal(x.name)
    ensures FirstTerminal(es + [e]) == if IsTerminal(e.name) then Some(e) else None
    ensures FirstTerminal(es) == None
  {
    if es == [] {
      assert ([] + [e])[1..] == [];
    } else {
      assert es[0] in es;
      FirstTerminalOf(es[1..], e);
      assert (es + [e])[1..] == es[1..] + [e];
    }
  }

  class Wait {
    var have: bool
    var status: bytes
    const response: array<byte>
    var dataLen: nat

    ghost predicate Valid()
      reads this
    {
      response.Length == MAX_RESPONSE && dataLen < MAX_RESPONSE
    }

    ghost function View(): Outcome
      reads this, response
      requires Valid()
    {
      Outcome(have, status, response[..dataLen])
    }

    constructor ()
      ensures Valid() && View() == Outcome(false, [], []) && fresh(response)
    {
      have, status, dataLen := false, [], 0;
      response := new byte[MAX_RESPONSE];
    }

    /** Records the first terminal event and stops the stream. */
    method OnEvent(name: bytes, data: bytes) returns (more: bool)
      requires Valid()
      modifies this, response
      ensures Valid() && View() == AfterEvent(old(View()), Event(name, data))
      ensures more == KeepWaiting(Event(name, data))
    {
      if !IsTerminal(name) {
        return true;
      }
      if |data| >= response.Length {
        return true;
      }
      status := name;
      Copy(response, 0, data);
      assert response[..|data|] == data;
      response[|data|] := 0;
      dataLen := |data|;
      have := true;
      more := false;
    }

    /** The callbacks one chunk caused, in order. */
    method OnEvents(es: seq<Event>)
      requires Valid()
      modifies this, response
      ensures Valid() && View() == AfterEvents(old(View()), es)
    {
      var i := 0;
      assert es[..0] == [];
      while i < |es|
        invariant 0 <= i <= |es| && Valid()
        invariant View() == AfterEvents(old(View()), es[..i])
      {
        assert es[..i + 1][..i] == es[..i];
        var _ := OnEvent(es[i].name, es[i].data);
        i := i + 1;
      }
      assert es[..i] == es;
    }
  }
}
