/** The keep-alive client: one request at a time over a connection that is reused while it lives. The
    outcomes of connecting, sending and receiving, and whether an idle connection turns out dead, are inputs. */
module HttpClients {
  import opened Text
  import opened HttpResponses
  import opened HttpDelivery

  // ---- reading one response

  /** What the read loop returns and leaves in the buffer. A read past the last one fails; the source then
      asks once more whether a body delimited by the close is complete. */
  function ReadResult(buffer: string, arrivals: seq<string>): (Option<HttpResponse>, string)
    decreases arrivals
  {
    match ParsedHttp(buffer, false)
    case Failed => (None, buffer)
    case Complete(response, consumed) => (Some(response), buffer[consumed..])
    case NeedMore =>
      if arrivals != [] then ReadResult(buffer + arrivals[0], arrivals[1..])
      else
        match ParsedHttp(buffer, true)
        case Complete(response, _) => (Some(response), buffer)
        case _ => (None, buffer)
  }

  /** The buffer and the arrivals not yet read make up `rest`. */
  ghost predicate Leaves(buffer: string, arrivals: seq<string>, rest: string) {
    exists k: nat :: k <= |arrivals| && buffer + Flat(arrivals[k..]) == rest
  }

  lemma LeavesLater(buffer: string, arrivals: seq<string>, rest: string)
    requires arrivals != [] && Leaves(buffer, arrivals[1..], rest)
    ensures Leaves(buffer, arrivals, rest)
  {
    var k: nat :| k <= |arrivals[1..]| && buffer + Flat(arrivals[1..][k..]) == rest;
    assert arrivals[1..][k..] == arrivals[k + 1..];
  }

  /** If the pending bytes start with a response, the read loop returns that one and leaves the rest, or
      fails; and it does not fail if the response is steady. */
  lemma {:induction false} ReadIsFirstResponse(buffer: string, arrivals: seq<string>)
    requires ParsedHttp(buffer + Flat(arrivals), false).Complete?
    ensures var whole := buffer + Flat(arrivals);
      var first := ParsedHttp(whole, false);
      var (response, rest) := ReadResult(buffer, arrivals);
      && (response.Some? ==> response == Some(first.response) && Leaves(rest, arrivals, whole[first.consumed..]))
      && (Steady(whole) ==> response.Some?)
    decreases arrivals
  {
    hide ParsedHttp, Steady, Leaves;
    var whole := buffer + Flat(arrivals);
    var first := ParsedHttp(whole, false);
    var now := ParsedHttp(buffer, false);
    if now.Complete? {
      CompleteIsStable(buffer, Flat(arrivals));
      LeavesAll(buffer, arrivals, now.consumed);
    } else {
      assert whole[..|buffer|] == buffer;
      if Steady(whole) && |buffer| < first.consumed { SteadyPrefix(whole, |buffer|); }
      if |buffer| >= first.consumed { CompletePrefix(whole, |buffer|); }
      if now.NeedMore? && arrivals != [] {
        assert whole == buffer + arrivals[0] + Flat(arrivals[1..]);
        ReadIsFirstResponse(buffer + arrivals[0], arrivals[1..]);
        var (response, rest) := ReadResult(buffer, arrivals);
        if response.Some? { LeavesLater(rest, arrivals, whole[first.consumed..]); }
      }
    }
  }

  lemma LeavesAll(buffer: string, arrivals: seq<string>, n: nat)
    requires n <= |buffer|
    ensures Leaves(buffer[n..], arrivals, (buffer + Flat(arrivals))[n..])
  {
    assert arrivals[0..] == arrivals;
    assert buffer[n..] + Flat(arrivals[0..]) == (buffer + Flat(arrivals))[n..];
  }

  /** A read that takes nothing off the buffer leaves every byte received in it, in order. */
  lemma {:induction false} ReadKeepsItsBytes(buffer: string, arrivals: seq<string>)
    ensures var (response, rest) := ReadResult(buffer, arrivals);
      exists k: nat, n: nat ::
        && k <= |arrivals| && n <= |buffer + Flat(arrivals[..k])|
        && rest == (buffer + Flat(arrivals[..k]))[n..] && (n > 0 ==> response.Some?)
    decreases arrivals
  {
    hide ParsedHttp;
    var none := arrivals[..0];
    assert buffer + Flat(none) == buffer;
    var now := ParsedHttp(buffer, false);
    if now.NeedMore? && arrivals != [] {
      ReadKeepsItsBytes(buffer + arrivals[0], arrivals[1..]);
      var (response, rest) := ReadResult(buffer, arrivals);
      var k: nat, n: nat :| k <= |arrivals[1..]| && n <= |buffer + arrivals[0] + Flat(arrivals[1..][..k])|
        && rest == (buffer + arrivals[0] + Flat(arrivals[1..][..k]))[n..] && (n > 0 ==> response.Some?);
      assert arrivals[..k + 1][1..] == arrivals[1..][..k] && arrivals[..k + 1][0] == arrivals[0];
      assert buffer + Flat(arrivals[..k + 1]) == buffer + arrivals[0] + Flat(arrivals[1..][..k]);
    } else {
      var n := if now.Complete? then now.consumed else 0;
      assert buffer[0..] == buffer;
      assert ReadResult(buffer, arrivals).1 == (buffer + Flat(arrivals[..0]))[n..];
    }
  }

  /** The response is already complete once its bytes are there. */
  lemma CompletePrefix(s: string, k: nat)
    requires ParsedHttp(s, false).Complete? && ParsedHttp(s, false).consumed <= k <= |s|
    ensures ParsedHttp(s[..k], false) == ParsedHttp(s, false)
  {
    hide Search, ParsedHeaders, Chunked;
    SearchInPrefix(s, k, BLANK_LINE, 0);
    var end := Search(s, BLANK_LINE, 0).value;
    SliceOfSlice(s, 0, k, 0, end);
    assert s[..k][..end] == s[..end];
    var h := ParsedHeaders(s[..end]).value;
    if h.chunked {
      ChunkedCut(s, end + 4, "", k);
    } else if h.contentLength.Some? {
      SliceOfSlice(s, 0, k, end + 4, end + 4 + h.contentLength.value);
    }
  }

  lemma {:induction false} TrailerCut(s: string, pos: nat, k: nat)
    requires pos <= k <= |s| && TrailerEnd(s, pos).Some? && TrailerEnd(s, pos).value <= k
    ensures TrailerEnd(s[..k], pos) == TrailerEnd(s, pos)
    decreases |s| - pos
  {
    hide Search;
    SearchInPrefix(s, k, CRLF, pos);
    var end := Search(s, CRLF, pos).value;
    if end != pos { TrailerCut(s, end + 2, k); }
  }

  lemma {:induction false} ChunkedCut(s: string, pos: nat, body: string, k: nat)
    requires pos <= k <= |s| && Chunked(s, pos, body).Done? && Chunked(s, pos, body).end <= k
    ensures Chunked(s[..k], pos, body) == Chunked(s, pos, body)
    decreases |s| - pos
  {
    hide ChunkAt, TrailerEnd;
    ChunkLineInPrefix(s, k, pos);
    var line := ChunkAt(s, pos);
    if line.size == 0 {
      TrailerCut(s, line.start, k);
    } else {
      var end := line.start + line.size;
      SliceOfSlice(s, 0, k, line.start, end);
      SliceOfSlice(s, 0, k, end, end + 2);
      ChunkedCut(s, end + 2, body + s[line.start..end], k);
    }
  }

  /** Only a body delimited by the close can complete at end of stream, and it ends the connection. */
  lemma CloseDelimitedEndsConnection(buffer: string)
    requires ParsedHttp(buffer, false).NeedMore? && ParsedHttp(buffer, true).Complete?
    ensures !ParsedHttp(buffer, true).response.keepAlive && ParsedHttp(buffer, true).consumed == |buffer|
  {
    hide Search, ParsedHeaders, Chunked;
  }

  // ---- one request as a step

  /** `_tls` holding a connection, the receive buffer and the connection counter. */
  datatype Client = Client(connected: bool, buffer: string, connections: nat)

  /** What the outside does during one request, starting with the signer; later fields matter only if the
      step gets that far. */
  datatype Outside = Outside(
    signed: bool, idleDead: bool, open1: bool, send1: bool, open2: bool, send2: bool, arrivals: seq<string>)

  datatype Event = Opened | OpenFailed | SendFailed(request: string) | SendOk(request: string) | ReadOk | ReadFailed

  datatype Step = Step(client: Client, response: Option<HttpResponse>, events: seq<Event>)

  function Receive(c: Client, arrivals: seq<string>, events: seq<Event>): Step {
    var (response, buffer) := ReadResult(c.buffer, arrivals);
    var alive := response.Some? && response.value.keepAlive;
    Step(Client(alive, buffer, c.connections), response, events + [if response.Some? then ReadOk else ReadFailed])
  }

  function Fresh(c: Client): Client { Client(true, "", c.connections + 1) }

  /** An attempt to open drops the old connection and its buffer even when it fails. */
  function Dropped(c: Client): Client { Client(false, "", c.connections) }

  function Requested(c: Client, request: string, o: Outside): Step {
    var reused := c.connected && !o.idleDead;
    if !o.signed then Step(c, None, [])
    else if !reused && !o.open1 then Step(Dropped(c), None, [OpenFailed])
    else
      var c1 := if reused then c else Fresh(c);
      var e1 := if reused then [] else [Opened];
      if o.send1 then Receive(c1, o.arrivals, e1 + [SendOk(request)])
      else if !reused then Step(c1.(connected := false), None, e1 + [SendFailed(request)])
      else if !o.open2 then Step(Dropped(c), None, [SendFailed(request), OpenFailed])
      else if o.send2 then Receive(Fresh(c), o.arrivals, [SendFailed(request), Opened, SendOk(request)])
      else Step(Fresh(c).(connected := false), None, [SendFailed(request), Opened, SendFailed(request)])
  }

  class HttpClient {
    var connected: bool
    var buffer: string
    var connections: nat

    ghost function State(): Client
      reads this
    {
      Client(connected, buffer, connections)
    }

    constructor ()
      ensures State() == Client(false, "", 0)
    {
      connected, buffer, connections := false, "", 0;
    }

    method OpenConnection(succeeds: bool) returns (ok: bool)
      modifies this
      ensures ok == succeeds
      ensures State() == if ok then Fresh(old(State())) else Dropped(old(State()))
    {
      connected, buffer := false, "";
      if !succeeds { return false; }
      connected, connections := true, connections + 1;
      return true;
    }

    method ReadResponse(arrivals: seq<string>) returns (response: Option<HttpResponse>)
      modifies this`buffer
      ensures (response, buffer) == ReadResult(old(buffer), arrivals)
    {
      var i := 0;
      assert arrivals[0..] == arrivals;
      while true
        invariant 0 <= i <= |arrivals| && ReadResult(old(buffer), arrivals) == ReadResult(buffer, arrivals[i..])
        decreases |arrivals| - i
      {
        var parsed := ParseHttpResponse(buffer, false);
        if parsed.Failed? { return None; }
        if parsed.Complete? {
          buffer := buffer[parsed.consumed..];
          return Some(parsed.response);
        }
        if i == |arrivals| {
          var final := ParseHttpResponse(buffer, true);
          return if final.Complete? then Some(final.response) else None;
        }
        assert arrivals[i..][1..] == arrivals[i + 1..];
        buffer, i := buffer + arrivals[i], i + 1;
      }
    }

    /** Every state change and every event, in order, is that of the step. */
    method Request(request: string, o: Outside) returns (response: Option<HttpResponse>, events: seq<Event>)
      modifies this
      ensures Requested(old(State()), request, o) == Step(State(), response, events)
    {
      events := [];
      if !o.signed { return None, []; }
      var reused := connected && !o.idleDead;
      if !reused {
        var ok := OpenConnection(o.open1);
        if !ok { return None, [OpenFailed]; }
        events := [Opened];
      }
      var sent := o.send1;
      events := events + [if sent then SendOk(request) else SendFailed(request)];
      if !sent && reused {
        var ok := OpenConnection(o.open2);
        if !ok { return None, events + [OpenFailed]; }
        sent := o.send2;
        events := events + [Opened, if sent then SendOk(request) else SendFailed(request)];
      }
      if !sent {
        connected := false;
        return None, events;
      }
      response := ReadResponse(o.arrivals);
      events := events + [if response.Some? then ReadOk else ReadFailed];
      if response.None? || !response.value.keepAlive { connected := false; }
    }
  }

  // ---- what a request may do

  predicate IsSend(e: Event) { e.SendOk? || e.SendFailed? }

  /** Sends of one request: only this request; a second send only after the first failed on a reused
      connection, and over a newly opened one; nothing after a read. */
  ghost predicate SafeSends(request: string, reused: bool, es: seq<Event>) {
    && (forall i :: 0 <= i < |es| && IsSend(es[i]) ==> es[i].request == request)
    && (forall i, j :: 0 <= i < j < |es| && IsSend(es[i]) && IsSend(es[j]) ==>
          reused && es[i].SendFailed? && exists k :: i < k < j && es[k].Opened?)
    && (forall i, j :: 0 <= i < j < |es| && IsSend(es[i]) && es[i].SendOk? ==> !IsSend(es[j]))
    && (forall i :: 0 <= i < |es| && (es[i].ReadOk? || es[i].ReadFailed?) ==> i == |es| - 1)
  }

  lemma RequestSendsSafely(c: Client, request: string, o: Outside)
    ensures SafeSends(request, c.connected && !o.idleDead, Requested(c, request, o).events)
    ensures Requested(c, request, o).response.Some? ==> SendOk(request) in Requested(c, request, o).events
  {
    hide ReadResult;
    var es := Requested(c, request, o).events;
    if o.signed && c.connected && !o.idleDead && !o.send1 && o.open2 { assert es[1].Opened?; }
    if Requested(c, request, o).response.Some? {
      assert es[|es| - 2] == SendOk(request);
    }
  }

  function Sends(es: seq<Event>): nat { if es == [] then 0 else (if IsSend(es[0]) then 1 else 0) + Sends(es[1..]) }

  function Opens(es: seq<Event>): nat { if es == [] then 0 else (if es[0].Opened? then 1 else 0) + Opens(es[1..]) }

  /** Which sends a request makes: the first exactly if there is a connection for it, the second exactly if the
      first failed on a reused connection and a new one could be opened. */
  lemma RequestSendsExactly(c: Client, request: string, o: Outside)
    ensures var (step, reused) := (Requested(c, request, o), c.connected && !o.idleDead);
      && Sends(step.events) == (if !o.signed || (!reused && !o.open1) then 0
                                else if reused && !o.send1 && o.open2 then 2
                                else 1)
      && (SendOk(request) in step.events <==>
            o.signed && if reused then o.send1 || (o.open2 && o.send2) else o.open1 && o.send1)
      && Opens(step.events) == (if !o.signed then 0
                                else if reused then if !o.send1 && o.open2 then 1 else 0
                                else if o.open1 then 1 else 0)
      && step.client.connections == c.connections + Opens(step.events)
  {
    hide ReadResult;
    CountEvents(Requested(c, request, o).events);
  }

  /** A connection is kept exactly by a response that allows it. */
  lemma ConnectionIsKeptExactly(c: Client, request: string, o: Outside)
    ensures var step := Requested(c, request, o);
      && (step.client.connected <==> if o.signed then step.response.Some? && step.response.value.keepAlive else c.connected)
      && (OpenFailed in step.events ==> step.client.buffer == "")
  {
    hide ReadResult;
  }

  lemma CountEvents(es: seq<Event>)
    requires |es| <= 4
    ensures Sends(es) == (if |es| > 0 && IsSend(es[0]) then 1 else 0) + (if |es| > 1 && IsSend(es[1]) then 1 else 0)
                       + (if |es| > 2 && IsSend(es[2]) then 1 else 0) + (if |es| > 3 && IsSend(es[3]) then 1 else 0)
    ensures Opens(es) == (if |es| > 0 && es[0].Opened? then 1 else 0) + (if |es| > 1 && es[1].Opened? then 1 else 0)
                       + (if |es| > 2 && es[2].Opened? then 1 else 0) + (if |es| > 3 && es[3].Opened? then 1 else 0)
  {
    if |es| > 0 { assert forall k :: 0 <= k < |es| - 1 ==> es[1..][k] == es[k + 1]; }
    if |es| > 1 { assert es[1..][1..] == es[2..]; }
    if |es| > 2 { assert es[2..][1..] == es[3..]; }
    if |es| > 3 { assert es[3..][1..] == []; }
  }

  // ---- whole runs against a server that answers each request once

  /** One call: the request, what happened outside, and the server's answer to it. */
  datatype Exchange = Exchange(request: string, outside: Outside, answer: string)

  /** An answer that is one self-delimited response and nothing more. */
  ghost predicate SelfDelimited(answer: string) {
    ParsedHttp(answer, false).Complete? && ParsedHttp(answer, false).consumed == |answer|
  }

  /** The reads deliver the server's answer cut up in any way, or its beginning before a read fails. */
  ghost predicate Honest(x: Exchange) { SelfDelimited(x.answer) && Flat(x.outside.arrivals) <= x.answer }

  /** All of the answer arrives, and no length guard fires before it is complete. */
  ghost predicate ArrivesWhole(x: Exchange) { Steady(x.answer) && Flat(x.outside.arrivals) == x.answer }

  function Run(c: Client, xs: seq<Exchange>): seq<Step>
    decreases xs
  {
    if xs == [] then [] else
      var step := Requested(c, xs[0].request, xs[0].outside);
      [step] + Run(step.client, xs[1..])
  }

  ghost predicate Clean(c: Client) { c.connected ==> c.buffer == "" }

  lemma AnswerIsRead(arrivals: seq<string>, answer: string)
    requires SelfDelimited(answer) && Steady(answer) && Flat(arrivals) == answer
    ensures ReadResult("", arrivals) == (Some(ParsedHttp(answer, false).response), "")
  {
    hide ParsedHttp, Steady;
    assert "" + Flat(arrivals) == answer;
    ReadIsFirstResponse("", arrivals);
    CutRead("", arrivals, answer);
  }

  /** A failed read cannot turn the beginning of an answer into a response. */
  lemma CutIsNotComplete(cut: string, rest: string)
    requires SelfDelimited(cut + rest) && ParsedHttp(cut, false).NeedMore?
    ensures !ParsedHttp(cut, true).Complete?
  {
    hide Search, ParsedHeaders, Chunked;
    var found := Search(cut, BLANK_LINE, 0);
    if found.Some? {
      SearchIsStable(cut, rest, BLANK_LINE, 0);
      assert (cut + rest)[..found.value] == cut[..found.value];
    }
  }

  /** Of an answer or its beginning, the read loop returns the server's response and leaves nothing, or fails. */
  lemma {:induction false} CutRead(buffer: string, arrivals: seq<string>, answer: string)
    requires SelfDelimited(answer) && buffer + Flat(arrivals) <= answer
    ensures var (response, rest) := ReadResult(buffer, arrivals);
      response.Some? ==> response == Some(ParsedHttp(answer, false).response) && rest == ""
    decreases arrivals
  {
    hide ParsedHttp;
    var rest := answer[|buffer|..];
    assert buffer == (buffer + Flat(arrivals))[..|buffer|] == answer[..|buffer|];
    assert answer == buffer + rest;
    var now := ParsedHttp(buffer, false);
    if now.Complete? {
      CompleteIsStable(buffer, rest);
    } else if now.NeedMore? {
      if arrivals != [] {
        assert buffer + Flat(arrivals) == buffer + arrivals[0] + Flat(arrivals[1..]);
        CutRead(buffer + arrivals[0], arrivals[1..], answer);
      } else {
        CutIsNotComplete(buffer, rest);
      }
    }
  }

  ghost function AnswerTo(x: Exchange): HttpResponse
    requires Honest(x)
  {
    ParsedHttp(x.answer, false).response
  }

  /** A request on a clean client returns its own answer or nothing, and leaves the client clean even if a
      read failed partway. */
  lemma ExchangeIsMatched(c: Client, x: Exchange)
    requires Clean(c) && Honest(x)
    ensures var step := Requested(c, x.request, x.outside);
      && Clean(step.client)
      && (step.response.Some? ==> step.response == Some(AnswerTo(x)))
      && (ArrivesWhole(x) && SendOk(x.request) in step.events ==> step.response.Some?)
  {
    hide ParsedHttp, Steady, ReadResult;
    assert "" + Flat(x.outside.arrivals) == Flat(x.outside.arrivals);
    CutRead("", x.outside.arrivals, x.answer);
    if ArrivesWhole(x) { AnswerIsRead(x.outside.arrivals, x.answer); }
  }

  /** Over any run, whatever fails in it, every response returned is the server's answer to that very request;
      and a request that was sent gets its answer whenever all of it arrives. */
  lemma {:induction false} ResponsesMatchRequests(c: Client, xs: seq<Exchange>, i: nat)
    requires Clean(c) && i < |xs| && forall k :: 0 <= k < |xs| ==> Honest(xs[k])
    ensures |Run(c, xs)| == |xs|
    ensures var step := Run(c, xs)[i];
      && Clean(step.client)
      && (step.response.Some? ==> step.response == Some(AnswerTo(xs[i])) && SendOk(xs[i].request) in step.events)
      && (ArrivesWhole(xs[i]) && SendOk(xs[i].request) in step.events ==> step.response.Some?)
    decreases xs
  {
    hide ParsedHttp, Requested, Honest, AnswerTo, ArrivesWhole;
    var step := Requested(c, xs[0].request, xs[0].outside);
    ExchangeIsMatched(c, xs[0]);
    RequestSendsSafely(c, xs[0].request, xs[0].outside);
    if |xs| > 1 { ResponsesMatchRequests(step.client, xs[1..], if i > 0 then i - 1 else 0); }
  }
}
