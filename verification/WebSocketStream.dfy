/** The receiving end of a WebSocket: a buffer that the parser is re-run on whenever bytes arrive. */
module WebSocketStream {
  import opened Text
  import opened WebSocketFrames

  const RECEIVE_BUFFER_SIZE := 4096

  /** The frames a byte stream holds, up to the first malformed or unfinished one. */
  function FramesOf(stream: seq<byte>): seq<Frame>
    decreases |stream|
  {
    match ParseFrame(stream)
    case Parsed(frame, consumed) => [frame] + FramesOf(stream[consumed..])
    case _ => []
  }

  /** A frame, bytes that are no frame, or a read that failed. */
  datatype Received = Got(frame: Frame) | BadFrame | ReadFailed

  class WebSocket {
    var buffer: seq<byte>
    /** What the coming socket reads return, one by one; a read beyond them fails. */
    var incoming: seq<seq<byte>>

    ghost predicate Valid()
      reads this
    {
      && |buffer| <= MAX_PAYLOAD + 13 + RECEIVE_BUFFER_SIZE
      && forall i :: 0 <= i < |incoming| ==> |incoming[i]| <= RECEIVE_BUFFER_SIZE
    }

    /** Everything received or still to come, however it is cut up. */
    ghost function Pending(): seq<byte>
      reads this
    {
      buffer + Flat(incoming)
    }

    constructor (incoming: seq<seq<byte>>)
      requires forall i :: 0 <= i < |incoming| ==> |incoming[i]| <= RECEIVE_BUFFER_SIZE
      ensures Valid() && Pending() == Flat(incoming)
    {
      buffer := [];
      this.incoming := incoming;
    }

    /** The outcome depends on the pending bytes alone, not on how the reads divide them. */
    method ReceiveFrame() returns (r: Received)
      requires Valid()
      modifies this
      ensures Valid()
      ensures match ParseFrame(old(Pending()))
              case Parsed(frame, consumed) => r == Got(frame) && Pending() == old(Pending())[consumed..]
              case Malformed => r == BadFrame && Pending() == old(Pending())
              case Incomplete => r == ReadFailed && Pending() == old(Pending()) && incoming == []
    {
      while true
        invariant Valid() && Pending() == old(Pending())
        decreases |incoming|
      {
        var result := FrameParser(buffer);
        if !result.Incomplete? { ResultIsStable(buffer, Flat(incoming)); }
        if result.Parsed? {
          assert Pending()[result.consumed..] == buffer[result.consumed..] + Flat(incoming);
          buffer := buffer[result.consumed..];
          return Got(result.frame);
        }
        if result.Malformed? { return BadFrame; }
        IncompleteIsShort(buffer);
        if incoming == [] {
          assert buffer + Flat(incoming) == buffer;
          return ReadFailed;
        }
        assert buffer + (incoming[0] + Flat(incoming[1..])) == buffer + incoming[0] + Flat(incoming[1..]);
        buffer, incoming := buffer + incoming[0], incoming[1..];
      }
    }

    /** A whole session: the frames received are those of the stream, for every segmentation. */
    method ReceiveAll() returns (frames: seq<Frame>)
      requires Valid()
      modifies this
      ensures Valid() && frames == FramesOf(old(Pending()))
    {
      hide ParseFrame;
      frames := [];
      while true
        invariant Valid() && frames + FramesOf(Pending()) == FramesOf(old(Pending()))
        decreases |Pending()|
      {
        ghost var rest := Pending();
        var r := ReceiveFrame();
        if !r.Got? {
          assert frames + [] == frames;
          return;
        }
        assert frames + ([r.frame] + FramesOf(Pending())) == frames + [r.frame] + FramesOf(Pending());
        frames := frames + [r.frame];
      }
    }
  }

  // ---- end to end

  /** A frame to send: the builder sets FIN and masks with its own key. */
  datatype Outgoing = Outgoing(opcode: Opcode, payload: seq<byte>, key: seq<byte>)

  predicate Sendable(o: Outgoing) {
    && |o.key| == 4 && |o.payload| <= 16777216
    && (o.opcode == Close || o.opcode == Ping || o.opcode == Pong ==> |o.payload| <= 125)
  }

  predicate AllSendable(os: seq<Outgoing>) { forall i :: 0 <= i < |os| ==> Sendable(os[i]) }

  function Sent(os: seq<Outgoing>): seq<byte>
    requires AllSendable(os)
  {
    if os == [] then [] else Built(os[0].opcode, os[0].payload, os[0].key) + Sent(os[1..])
  }

  /** What was sent frame by frame is received frame by frame; a cut-off last frame is not delivered. */
  lemma {:induction false} SentIsReceived(os: seq<Outgoing>, rest: seq<byte>)
    requires AllSendable(os) && !ParseFrame(rest).Parsed?
    ensures var frames := FramesOf(Sent(os) + rest);
      |frames| == |os| && forall i :: 0 <= i < |os| ==>
        frames[i] == Frame(true, os[i].opcode, Some(os[i].key), os[i].payload)
  {
    if os == [] {
      assert Sent(os) + rest == rest;
    } else {
      var b, tail := Built(os[0].opcode, os[0].payload, os[0].key), Sent(os[1..]) + rest;
      FrameRoundTrip(os[0].opcode, os[0].payload, os[0].key);
      assert Sent(os) + rest == b + tail;
      ResultIsStable(b, tail);
      assert (b + tail)[|b|..] == tail;
      hide ParseFrame, Built;
      SentIsReceived(os[1..], rest);
    }
  }
}
