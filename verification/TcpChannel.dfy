/**
 * The client's write queue (src/tcp/tcp_client.hpp) and the server's read loop
 * (src/tcp/tcp_session.hpp), joined by a byte stream: delivery is FIFO and
 * exactly once however the stream is cut into pieces.
 */
module TcpChannel {
  import opened TcpMessage

  /** What a reader has made of a stream: the messages delivered, the bytes still pending, whether it gave up. */
  datatype Reading = Reading(delivered: seq<Message>, pending: seq<Byte>, failed: bool)

  function Read(stream: seq<Byte>): Reading
    decreases |stream|
  {
    match NextFrame(stream)
    case NeedMore => Reading([], stream, false)
    case TooLarge => Reading([], stream, true)
    case Malformed => Reading([], stream, true)
    case Complete(m, length) =>
      var later := Read(stream[length..]);
      Reading([m] + later.delivered, later.pending, later.failed)
  }

  /** The reading of a stream whose front has been read already, after what was delivered before. */
  function After(delivered: seq<Message>, later: Reading): Reading
  {
    Reading(delivered + later.delivered, later.pending, later.failed)
  }

  lemma ReadStep(stream: seq<Byte>, m: Message, length: nat)
    requires NextFrame(stream) == Complete(m, length)
    ensures length <= |stream| && Read(stream) == After([m], Read(stream[length..]))
  {}

  lemma AfterAfter(first: seq<Message>, second: seq<Message>, later: Reading)
    ensures After(first, After(second, later)) == After(first + second, later)
  {
    assert first + (second + later.delivered) == (first + second) + later.delivered;
  }

  /** Bytes may arrive in any pieces: reading a stream is reading its front and carrying on from what is pending. */
  lemma {:induction false} ReadInPieces(front: seq<Byte>, more: seq<Byte>)
    requires !Read(front).failed
    ensures Read(front + more) == After(Read(front).delivered, Read(Read(front).pending + more))
    decreases |front|
  {
    var f := NextFrame(front);
    if f.Complete? {
      FrameIsLocal(front, more);
      var rest := front[f.length..];
      assert (front + more)[f.length..] == rest + more;
      ReadStep(front, f.message, f.length);
      ReadStep(front + more, f.message, f.length);
      ReadInPieces(rest, more);
      AfterAfter([f.message], Read(rest).delivered, Read(Read(rest).pending + more));
    } else {
      assert Read(front) == Reading([], front, false);
    }
  }

  /** A reader that has given up delivers nothing more. */
  lemma {:induction false} FailureIsFinal(front: seq<Byte>, more: seq<Byte>)
    requires Read(front).failed
    ensures Read(front + more).failed && Read(front + more).delivered == Read(front).delivered
    decreases |front|
  {
    FrameIsLocal(front, more);
    match NextFrame(front)
    case Complete(m, length) =>
      assert (front + more)[length..] == front[length..] + more;
      FailureIsFinal(front[length..], more);
    case _ =>
  }

  /** A whole message at the front is delivered first. */
  lemma ReadFirst(m: Message, rest: seq<Byte>)
    requires m.Legal()
    ensures Read(m.Bytes() + rest) == Read(rest).(delivered := [m] + Read(rest).delivered)
  {
    FrameRoundTrip(m, rest);
    assert (m.Bytes() + rest)[|m.Bytes()|..] == rest;
  }

  /** The encodings of whole messages, plus a strict piece of the next one, read back as exactly those messages. */
  lemma {:induction false} ReadEncodings(ms: seq<Message>, tail: seq<Byte>)
    requires AllLegal(ms) && NextFrame(tail) == NeedMore
    ensures Read(BytesOf(ms) + tail) == Reading(ms, tail, false)
  {
    if ms == [] {
      assert BytesOf(ms) + tail == tail;
    } else {
      var head, rest := ms[0].Bytes(), BytesOf(ms[1..]) + tail;
      assert BytesOf(ms) + tail == head + rest;
      ReadEncodings(ms[1..], tail);
      ReadFirst(ms[0], rest);
      assert ms == [ms[0]] + ms[1..];
    }
  }

  /** TCPSession: header and body reads alternate as bytes come in, and each body goes to the callback. */
  class TcpSession {
    var pending: seq<Byte>
    var delivered: seq<Message>
    var failed: bool
    ghost var received: seq<Byte>

    ghost predicate Valid()
      reads this
    {
      Read(received) == Reading(delivered, pending, failed)
    }

    constructor ()
      ensures Valid() && received == [] && delivered == [] && !failed
    {
      pending, delivered, failed, received := [], [], false, [];
    }

    method OnBytes(bytes: seq<Byte>)
      requires Valid() && !failed
      modifies this
      ensures Valid()
      ensures received == old(received) + bytes
      ensures old(delivered) <= delivered
    {
      ReadInPieces(received, bytes);
      received := received + bytes;
      pending := pending + bytes;
      ghost var goal := Read(received);
      var waiting := false;
      while !waiting && !failed
        invariant received == old(received) + bytes && old(delivered) <= delivered
        invariant goal == Read(received)
        invariant goal == After(delivered, Read(pending))
        invariant failed ==> Read(pending) == Reading([], pending, true)
        invariant waiting ==> Read(pending) == Reading([], pending, false) && !failed
        decreases |pending|, !waiting && !failed
      {
        // do_read_header, then do_read_body when the header is acceptable
        match NextFrame(pending) {
          case NeedMore => waiting := true;
          case TooLarge => failed := true;
          case Malformed => failed := true;
          case Complete(m, length) =>
            ReadStep(pending, m, length);
            AfterAfter(delivered, [m], Read(pending[length..]));
            delivered := delivered + [m];
            pending := pending[length..];
        }
      }
    }
  }

  /** The state of the client's write side. */
  datatype WriteSide = WriteSide(
    queue: seq<Message>,
    posted: bool,          // do_write is posted to the I/O context and has not run
    writing: bool,         // an asynchronous write of the front message is under way
    sent: nat,             // bytes of the front message already on the wire
    wire: seq<Byte>,
    submitted: seq<Message>,
    completed: seq<Message>)
  {
    ghost predicate Valid()
    {
      && AllLegal(submitted) && submitted == completed + queue
      && AllLegal(completed) && AllLegal(queue)
      // a nonempty queue has exactly one pending write, an empty one none
      && (queue != [] ==> posted != writing)
      && (queue == [] ==> !posted && !writing)
      && (writing ==> sent <= |queue[0].Bytes()|)
      && (!writing ==> sent == 0)
      && wire == BytesOf(completed) + if writing then queue[0].Bytes()[..sent] else []
    }
  }

  /**
   * At every moment the reader has received a prefix of what was submitted, in
   * order; when the queue has drained it has received exactly all of it.
   */
  lemma ChannelDelivers(w: WriteSide)
    requires w.Valid()
    ensures !Read(w.wire).failed
    ensures w.completed <= Read(w.wire).delivered <= w.submitted
    ensures w.queue == [] ==> Read(w.wire) == Reading(w.submitted, [], false)
  {
    var tail := if w.writing then w.queue[0].Bytes()[..w.sent] else [];
    if w.writing && w.sent == |w.queue[0].Bytes()| {
      BytesOfAppend(w.completed, [w.queue[0]]);
      BytesOfCons(w.queue[0], []);
      assert [w.queue[0]] + [] == [w.queue[0]];
      assert tail == w.queue[0].Bytes();
      assert w.wire == BytesOf(w.completed + [w.queue[0]]) + [];
      ReadEncodings(w.completed + [w.queue[0]], []);
    } else {
      if w.writing { PartialFrame(w.queue[0], w.sent); }
      ReadEncodings(w.completed, tail);
    }
  }

  /** The first k messages have come in whole, and the next one has not. */
  predicate Wholly(ms: seq<Message>, k: nat, received: seq<Byte>)
    requires AllLegal(ms) && k <= |ms|
  {
    |BytesOf(ms[..k])| <= |received| && (k < |ms| ==> |received| < |BytesOf(ms[..k + 1])|)
  }

  lemma NothingRead()
    ensures Read([]) == Reading([], [], false) && BytesOf([]) == []
  {}

  lemma ReadIncomplete(stream: seq<Byte>)
    requires NextFrame(stream) == NeedMore
    ensures Read(stream) == Reading([], stream, false)
  {}

  /** A reader that has received some of the bytes has delivered exactly the messages that came in whole. */
  lemma {:induction false} ReadPart(ms: seq<Message>, received: seq<Byte>) returns (k: nat)
    requires AllLegal(ms) && received <= BytesOf(ms)
    ensures k <= |ms| && Wholly(ms, k, received)
    ensures Read(received) == Reading(ms[..k], received[|BytesOf(ms[..k])|..], false)
  {
    hide NextFrame, ParseFrom, Read;
    NothingRead();
    if ms == [] {
      k := 0;
      assert received == [];
    } else if |received| < |ms[0].Bytes()| {
      k := 0;
      OneMoreMessage(ms, 0);
      PartialFrame(ms[0], |received|);
      assert received == ms[0].Bytes()[..|received|];
      ReadIncomplete(received);
    } else {
      var first := ms[0].Bytes();
      var rest := received[|first|..];
      assert received == first + rest;
      var j := ReadPart(ms[1..], rest);
      k := j + 1;
      ReadFirst(ms[0], rest);
      OneMoreMessage(ms, j);
      if j < |ms[1..]| { OneMoreMessage(ms, j + 1); }
      assert received[|BytesOf(ms[..k])|..] == rest[|BytesOf(ms[1..][..j])|..];
    }
  }

  lemma OneMoreMessage(ms: seq<Message>, j: nat)
    requires AllLegal(ms) && j < |ms|
    ensures ms[..j + 1] == [ms[0]] + ms[1..][..j]
    ensures BytesOf(ms[..j + 1]) == ms[0].Bytes() + BytesOf(ms[1..][..j])
  {
    assert ms[..j + 1] == [ms[0]] + ms[1..][..j];
    BytesOfCons(ms[0], ms[1..][..j]);
  }

  /** What is on the wire is the front of what was submitted. */
  lemma WireIsPrefix(w: WriteSide)
    requires w.Valid()
    ensures w.wire <= BytesOf(w.submitted)
  {
    BytesOfAppend(w.completed, w.queue);
    if w.writing {
      BytesOfCons(w.queue[0], w.queue[1..]);
      assert w.queue == [w.queue[0]] + w.queue[1..];
    }
  }

  /**
   * Writer and session together: however much of the wire the session has
   * received, it has delivered exactly the submitted messages that came in
   * whole, in `write_message` order, each once, and has not given up.
   */
  lemma SessionDelivers(w: WriteSide, session: TcpSession) returns (k: nat)
    requires w.Valid() && session.Valid() && session.received <= w.wire
    ensures k <= |w.submitted| && Wholly(w.submitted, k, session.received)
    ensures !session.failed && session.delivered == w.submitted[..k]
    ensures w.queue == [] && session.received == w.wire ==> session.delivered == w.submitted
  {
    WireIsPrefix(w);
    k := ReadPart(w.submitted, session.received);
    ChannelDelivers(w);
  }

  /** TCPClient's write side: write_message, do_write and its completion handler. */
  class TcpClient {
    var side: WriteSide

    ghost predicate Valid()
      reads this
    {
      side.Valid()
    }

    constructor ()
      ensures Valid() && side == WriteSide([], false, false, 0, [], [], [])
    {
      side := WriteSide([], false, false, 0, [], [], []);
    }

    method WriteMessage(message: Message)
      requires Valid() && message.Legal()
      modifies this
      ensures Valid()
      ensures side.submitted == old(side.submitted) + [message] && side.wire == old(side.wire)
      ensures side.queue == old(side.queue) + [message]
    {
      var writeInProgress := side.queue != [];
      side := side.(queue := side.queue + [message], submitted := side.submitted + [message]);
      if !writeInProgress {
        side := side.(posted := true);
      }
    }

    /** The posted do_write runs and starts the asynchronous write of the front message. */
    method RunPosted()
      requires Valid() && side.posted
      modifies this
      ensures Valid() && side.writing && !side.posted
      ensures side == old(side).(posted := false, writing := true)
    {
      side := side.(posted := false, writing := true);
      assert side.queue[0].Bytes()[..0] == [];
    }

    /** The operating system takes some more bytes of the message being written. */
    method Transmit(count: nat)
      requires Valid() && side.writing && side.sent + count <= |side.queue[0].Bytes()|
      modifies this
      ensures Valid()
      ensures old(side.wire) <= side.wire && |side.wire| == |old(side.wire)| + count
      ensures side.queue == old(side.queue) && side.submitted == old(side.submitted)
    {
      var bytes := side.queue[0].Bytes();
      assert bytes[..side.sent] + bytes[side.sent..side.sent + count] == bytes[..side.sent + count];
      side := side.(wire := side.wire + bytes[side.sent..side.sent + count], sent := side.sent + count);
    }

    /** The completion handler: pop the front and go straight on to the next message, if any. */
    method WriteCompleted()
      requires Valid() && side.writing && side.sent == |side.queue[0].Bytes()|
      modifies this
      ensures Valid()
      ensures side.queue == old(side.queue)[1..] && side.wire == old(side.wire)
      ensures side.submitted == old(side.submitted)
      ensures side.writing <==> side.queue != []
    {
      var front := side.queue[0];
      BytesOfAppend(side.completed, [front]);
      BytesOfCons(front, []);
      assert [front] + [] == [front];
      side := side.(queue := side.queue[1..], completed := side.completed + [front], writing := false, sent := 0);
      if side.queue != [] {
        side := side.(writing := true);
        assert side.queue[0].Bytes()[..0] == [];
      }
    }
  }
}
