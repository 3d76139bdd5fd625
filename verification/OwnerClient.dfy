/**
 The owner-protocol client over any ordered transport and session codec. Both answer as they like within their
 contracts; what they answered is kept, and the client's flags and results are determined by it.
 */
module OwnerClient {
  import opened Bytes
  import opened Wrappers

  type Frame = seq<Byte>
  type Body = seq<Byte>

  datatype Progress = Complete | Pending
  datatype Answer = Arrived(frame: Frame) | Nothing | PeerGone
  datatype ClientPoll = Empty | PeerClosed | Message(body: Body)
  datatype ClientError = Closed | AuthenticationBoundary | Backpressured | Codec | Transport

  /** One call of the transport and its answer. */
  datatype Spoke =
    | Sent(ok: bool) | Flushed(flushed: Result<Progress, ()>) | Received(answer: Result<Answer, ()>)
    | Finished(finished: Result<Progress, ()>) | Aborted

  /** A transport, known only by its contract. */
  class OrderedTransport {
    /** Every frame it accepted, how many of them have crossed for certain, and every frame it handed over. */
    ghost var accepted: seq<Frame>
    ghost var flushedThrough: nat
    ghost var handed: seq<Frame>
    /** Every call and its answer, and whether one of them was the end of the connection. */
    ghost var log: seq<Spoke>
    ghost var ended: bool

    ghost predicate Valid()
      reads this
    {
      flushedThrough <= |accepted|
    }

    constructor ()
      ensures Valid() && accepted == [] && flushedThrough == 0 && handed == [] && log == [] && !ended
    {
      accepted, flushedThrough, handed, log, ended := [], 0, [], [], false;
    }

    /** Accepts a whole frame, or makes no change. */
    method TrySend(frame: Frame) returns (ok: bool, ghost receipt: nat)
      requires Valid()
      modifies this`accepted, this`log
      ensures Valid() && log == old(log) + [Sent(ok)]
      ensures accepted == if ok then old(accepted) + [frame] else old(accepted)
      ensures receipt == |accepted|
    {
      ok := *;
      if ok {
        accepted := accepted + [frame];
      }
      receipt := |accepted|;
      log := log + [Sent(ok)];
    }

    /** Complete only after the receipt's frame and all earlier ones crossed. */
    method Flush(ghost receipt: nat) returns (r: Result<Progress, ()>)
      requires Valid() && receipt <= |accepted|
      modifies this`flushedThrough, this`log
      ensures Valid() && old(flushedThrough) <= flushedThrough && log == old(log) + [Flushed(r)]
      ensures r == Success(Complete) ==> receipt <= flushedThrough
      ensures r != Success(Complete) ==> flushedThrough == old(flushedThrough)
    {
      r := *;
      if r == Success(Complete) {
        flushedThrough := if flushedThrough < receipt then receipt else flushedThrough;
      }
      log := log + [Flushed(r)];
    }

    method TryReceive() returns (r: Result<Answer, ()>)
      modifies this`handed, this`log, this`ended
      ensures log == old(log) + [Received(r)] && (ended <==> old(ended) || r == Success(PeerGone))
      ensures handed == if r.Success? && r.value.Arrived? then old(handed) + [r.value.frame] else old(handed)
    {
      r := *;
      if r.Success? && r.value.Arrived? {
        handed := handed + [r.value.frame];
      }
      log, ended := log + [Received(r)], ended || r == Success(PeerGone);
    }

    /** Graceful: complete only after everything accepted crossed. */
    method Close() returns (r: Result<Progress, ()>)
      requires Valid()
      modifies this`flushedThrough, this`log, this`ended
      ensures Valid() && old(flushedThrough) <= flushedThrough
      ensures log == old(log) + [Finished(r)] && (ended <==> old(ended) || r == Success(Complete))
      ensures r == Success(Complete) ==> flushedThrough == |accepted|
      ensures r != Success(Complete) ==> flushedThrough == old(flushedThrough)
    {
      r := *;
      if r == Success(Complete) {
        flushedThrough := |accepted|;
      }
      log, ended := log + [Finished(r)], ended || r == Success(Complete);
    }

    method Abort()
      modifies this`log, this`ended
      ensures log == old(log) + [Aborted] && ended
    {
      log, ended := log + [Aborted], true;
    }
  }

  /** A session codec, known only by what it made of requests and frames. */
  class SessionCodec {
    ghost var encoded: seq<Frame>
    /** Every frame it was given, and every message it found in one. */
    ghost var given: seq<Frame>
    ghost var messages: seq<Body>

    constructor ()
      ensures encoded == [] && given == [] && messages == []
    {
      encoded, given, messages := [], [], [];
    }

    method EncodeRequest() returns (frame: Option<Frame>)
      modifies this`encoded
      ensures encoded == if frame.Some? then old(encoded) + [frame.value] else old(encoded)
    {
      frame := *;
      if frame.Some? {
        encoded := encoded + [frame.value];
      }
    }

    method ReceiveOwnerFrame(frame: Frame) returns (body: Option<Body>)
      modifies this`given, this`messages
      ensures given == old(given) + [frame]
      ensures messages == if body.Some? then old(messages) + [body.value] else old(messages)
    {
      body := *;
      given := given + [frame];
      if body.Some? {
        messages := messages + [body.value];
      }
    }
  }

  class OwnerProtocolClient {
    const transport: OrderedTransport
    const codec: SessionCodec
    /** Whether an accepted write awaits its flush; the receipt itself only the transport can read. */
    var pendingFlush: bool
    var closing: bool
    var closed: bool
    ghost var receipt: nat
    /** Every message a poll returned. */
    ghost var returned: seq<Body>

    ghost predicate Valid()
      reads this, transport, codec
    {
      && transport.Valid()
      && transport.accepted <= codec.encoded
      && (transport.accepted != codec.encoded ==> closed && |codec.encoded| == |transport.accepted| + 1)
      && (!closed && pendingFlush ==> receipt == |transport.accepted|)
      && (!closed && !pendingFlush && !closing ==> transport.flushedThrough == |transport.accepted|)
      && (!closed ==> |transport.accepted| <= transport.flushedThrough + 1)
      && (closed <==> transport.ended)
      && codec.given == transport.handed && returned == codec.messages
    }

    /** What no call undoes, and what a closed client never does again. */
    twostate predicate Advances()
      reads this, transport, codec
    {
      && old(transport.accepted) <= transport.accepted && old(codec.encoded) <= codec.encoded
      && old(transport.flushedThrough) <= transport.flushedThrough && old(returned) <= returned
      && (old(closed) ==> closed && codec.encoded == old(codec.encoded) && returned == old(returned))
      && (old(closed) || old(closing) ==> transport.accepted == old(transport.accepted))
      && (old(closing) ==> closing)
      && (transport.accepted != old(transport.accepted) ==>
            && |transport.accepted| == |old(transport.accepted)| + 1
            && old(transport.flushedThrough) == |old(transport.accepted)|)
    }

    /** What the transport was asked since, call by call. */
    twostate predicate Asked(new calls: seq<Spoke>)
      reads transport`log
    {
      transport.log == old(transport.log) + calls
    }

    /** A client is made only for a transport and a codec from the same side of the test boundary. */
    static method New(transport: OrderedTransport, transportTestOnly: bool, codec: SessionCodec, codecTestOnly: bool)
      returns (r: Result<OwnerProtocolClient, ClientError>)
      requires transport.Valid() && transport.accepted == [] && transport.handed == [] && !transport.ended
      requires codec.encoded == [] && codec.given == [] && codec.messages == []
      ensures r.Success? <==> transportTestOnly == codecTestOnly
      ensures r.Success? ==> fresh(r.value) && r.value.Valid() && r.value.transport == transport && r.value.codec == codec
      ensures r.Success? ==> !r.value.closed && !r.value.closing && !r.value.pendingFlush
      ensures r.Failure? ==> r.error == AuthenticationBoundary
    {
      if transportTestOnly != codecTestOnly {
        return Failure(AuthenticationBoundary);
      }
      var client := new OwnerProtocolClient(transport, codec);
      return Success(client);
    }

    constructor (transport: OrderedTransport, codec: SessionCodec)
      requires transport.Valid() && transport.accepted == [] && transport.handed == [] && !transport.ended
      requires codec.encoded == [] && codec.given == [] && codec.messages == []
      ensures Valid() && this.transport == transport && this.codec == codec && !closed && !closing && !pendingFlush
    {
      this.transport, this.codec := transport, codec;
      pendingFlush, closing, closed := false, false, false;
      receipt, returned := 0, [];
    }

    method FatalClose()
      modifies this`pendingFlush, this`closed, transport`log, transport`ended
      ensures closed && transport.ended && !pendingFlush && Asked([Aborted])
    {
      transport.Abort();
      pendingFlush, closed := false, true;
    }

    /**
     Encodes a request and hands its frame over once. A refusal changes nothing; a codec or transport error
     closes the client for good, so that nothing is ever sent again.
     */
    method SendRequest() returns (r: Result<(), ClientError>)
      requires Valid()
      modifies this`pendingFlush, this`closed, this`receipt, codec`encoded
      modifies transport`accepted, transport`flushedThrough, transport`log, transport`ended
      ensures Valid() && Advances()
      ensures r == Failure(Closed) <==> old(closed) || old(closing)
      ensures r == Failure(Backpressured) <==> !old(closed) && !old(closing) && old(pendingFlush)
      ensures r == Failure(Closed) || r == Failure(Backpressured) ==>
        && codec.encoded == old(codec.encoded) && transport.accepted == old(transport.accepted) && Asked([])
        && pendingFlush == old(pendingFlush) && closed == old(closed)
      ensures r == Failure(Codec) ==> closed && codec.encoded == old(codec.encoded) && Asked([Aborted])
      ensures r.Failure? ==> r.error in {Closed, Backpressured, Codec, Transport}
      ensures r.Success? || r == Failure(Transport) ==> |codec.encoded| == |old(codec.encoded)| + 1 && HandedOver(r)
    {
      if closed || closing {
        return Failure(Closed);
      }
      if pendingFlush {
        return Failure(Backpressured);
      }
      var made := codec.EncodeRequest();
      if made.None? {
        FatalClose();
        return Failure(Codec);
      }
      r := HandOver(made.value);
    }

    /** How the transport took the frame just encoded. */
    twostate predicate HandedOver(new r: Result<(), ClientError>)
      reads transport`log, transport`accepted, this`closed, this`pendingFlush, codec`encoded
    {
      if r.Success? then
        && !closed && codec.encoded == transport.accepted && Asked([Sent(true), Flushed(Success(if pendingFlush then Pending else Complete))])
      else
        && r == Failure(Transport) && closed
        && (Asked([Sent(false), Aborted]) || Asked([Sent(true), Flushed(Failure(())), Aborted]))
    }

    /** Sends one encoded frame and asks for its flush. */
    method HandOver(frame: Frame) returns (r: Result<(), ClientError>)
      requires transport.Valid() && !closed && !closing && !pendingFlush && !transport.ended
      requires codec.encoded == transport.accepted + [frame] && transport.flushedThrough == |transport.accepted|
      requires codec.given == transport.handed && returned == codec.messages
      modifies this`pendingFlush, this`closed, this`receipt
      modifies transport`accepted, transport`flushedThrough, transport`log, transport`ended
      ensures Valid() && HandedOver(r) && old(transport.flushedThrough) <= transport.flushedThrough
      ensures transport.accepted == old(transport.accepted) || transport.accepted == old(transport.accepted) + [frame]
    {
      var ok;
      ok, receipt := transport.TrySend(frame);
      if !ok {
        FatalClose();
        return Failure(Transport);
      }
      var flushed := transport.Flush(receipt);
      if flushed.Failure? {
        assert flushed.error == ();
        FatalClose();
        return Failure(Transport);
      }
      pendingFlush := flushed.value == Pending;
      return Success(());
    }

    /** Serves the pending flush, then the closing, then the next message; accepts nothing itself. */
    method Poll() returns (r: Result<ClientPoll, ClientError>)
      requires Valid()
      modifies this`pendingFlush, this`closed, this`returned, codec`given, codec`messages
      modifies transport`flushedThrough, transport`handed, transport`log, transport`ended
      ensures Valid() && Advances() && Polled(r)
    {
      if closed {
        return Success(PeerClosed);
      }
      if pendingFlush {
        var flushed := transport.Flush(receipt);
        if flushed.Failure? {
          FatalClose();
          return Failure(Transport);
        }
        if flushed.value == Pending {
          return Success(Empty);
        }
        pendingFlush := false;
      }
      if closing {
        r := PollClosing();
      } else {
        r := PollReceiving();
      }
    }

    /**
     What a poll did and answered: nothing once closed; first the pending flush, which may fail for good or stay
     pending; then the graceful close or the next frame.
     */
    twostate predicate Polled(new r: Result<ClientPoll, ClientError>)
      reads this, transport, codec
    {
      var n := |old(transport.log)|;
      if old(closed) then r == Success(PeerClosed) && Asked([])
      else if !old(pendingFlush) then Served(n, r)
      else
        && n < |transport.log| && transport.log[n].Flushed? && old(transport.log) <= transport.log
        && match transport.log[n].flushed
           case Failure(_) => r == Failure(Transport) && closed && transport.log[n + 1..] == [Aborted]
           case Success(Pending) => r == Success(Empty) && !closed && pendingFlush && |transport.log| == n + 1
           case Success(Complete) => Served(n + 1, r)
    }

    /** The part of a poll after the flush, its first call being the one numbered `n`. */
    ghost predicate Served(n: nat, r: Result<ClientPoll, ClientError>)
      reads this, transport, codec
    {
      && n < |transport.log| && !pendingFlush
      && if closing then ServedClosing(n, r) else ServedReceiving(n, r)
    }

    ghost predicate ServedClosing(n: nat, r: Result<ClientPoll, ClientError>)
      reads this`closed, transport`log, transport`flushedThrough, transport`accepted
    {
      && n + 1 == |transport.log| && transport.log[n].Finished?
      && match transport.log[n].finished
         case Failure(_) => r == Failure(Transport) && !closed
         case Success(Pending) => r == Success(Empty) && !closed
         case Success(Complete) => r == Success(PeerClosed) && closed && transport.flushedThrough == |transport.accepted|
    }

    ghost predicate ServedReceiving(n: nat, r: Result<ClientPoll, ClientError>)
      reads this, transport, codec
    {
      && n < |transport.log| && transport.log[n].Received?
      && match transport.log[n].answer
         case Failure(_) => r == Failure(Transport) && closed && transport.log[n + 1..] == [Aborted]
         case Success(Nothing) => r == Success(Empty) && !closed && |transport.log| == n + 1
         case Success(PeerGone) => r == Success(PeerClosed) && closed && |transport.log| == n + 1
         case Success(Arrived(frame)) =>
           && codec.given != [] && codec.given[|codec.given| - 1] == frame
           && if r == Failure(Codec) then closed && transport.log[n + 1..] == [Aborted]
              else !closed && |transport.log| == n + 1 && returned != [] && r == Success(Message(returned[|returned| - 1]))
    }

    /** A close that fails leaves the client closing, to be polled again. */
    method PollClosing() returns (r: Result<ClientPoll, ClientError>)
      requires Valid() && closing && !closed && !pendingFlush
      modifies this`closed, transport`flushedThrough, transport`log, transport`ended
      ensures Valid() && old(transport.flushedThrough) <= transport.flushedThrough
      ensures ServedClosing(|old(transport.log)|, r) && old(transport.log) <= transport.log
    {
      var progress := transport.Close();
      if progress.Failure? {
        return Failure(Transport);
      }
      if progress.value == Pending {
        return Success(Empty);
      }
      closed := true;
      return Success(PeerClosed);
    }

    method PollReceiving() returns (r: Result<ClientPoll, ClientError>)
      requires Valid() && !closing && !closed && !pendingFlush
      modifies this`closed, this`pendingFlush, this`returned, codec`given, codec`messages
      modifies transport`handed, transport`log, transport`ended
      ensures Valid() && old(returned) <= returned && !pendingFlush
      ensures ServedReceiving(|old(transport.log)|, r) && old(transport.log) <= transport.log
    {
      var answer := transport.TryReceive();
      if answer.Failure? {
        FatalClose();
        return Failure(Transport);
      }
      match answer.value
      case Nothing => return Success(Empty);
      case PeerGone =>
        closed := true;
        return Success(PeerClosed);
      case Arrived(frame) =>
        var body := codec.ReceiveOwnerFrame(frame);
        if body.None? {
          FatalClose();
          return Failure(Codec);
        }
        returned := returned + [body.value];
        return Success(Message(body.value));
    }

    /** Begins the graceful close; it is complete only when every accepted frame has crossed. */
    method Close() returns (r: Result<Progress, ClientError>)
      requires Valid()
      modifies this`closing, this`closed, transport`flushedThrough, transport`log, transport`ended
      ensures Valid() && Advances()
      ensures old(closed) ==> r == Success(Complete) && Asked([]) && closing == old(closing)
      ensures !old(closed) ==> closing && (closed <==> r == Success(Complete))
      ensures !old(closed) && closed ==> transport.flushedThrough == |transport.accepted|
      ensures !old(closed) ==> Asked([Finished(if r.Success? then Success(r.value) else Failure(()))])
      ensures r.Failure? ==> r.error == Transport
    {
      if closed {
        return Success(Complete);
      }
      closing := true;
      var progress := transport.Close();
      if progress.Failure? {
        assert progress.error == ();
        return Failure(Transport);
      }
      if progress.value == Complete {
        closed := true;
      }
      return Success(progress.value);
    }

    method Abort()
      requires Valid()
      modifies this`pendingFlush, this`closed, transport`log, transport`ended
      ensures Valid() && Advances() && closed && Asked([Aborted])
    {
      FatalClose();
    }
  }

  datatype Call = Send | PollOnce | CloseGently | AbortNow

  /**
   Any run of calls: what the transport accepted are the requests' frames in order, each at most once, with none
   left out except a last one on which the client closed; every frame the transport handed over was decoded once,
   and every message found was returned by one poll, in order.
   */
  method Run(client: OwnerProtocolClient, calls: seq<Call>)
    requires client.Valid()
    modifies client, client.transport, client.codec
    ensures client.Valid()
    ensures client.transport.accepted <= client.codec.encoded && |client.codec.encoded| <= |client.transport.accepted| + 1
    ensures !client.closed ==> client.transport.accepted == client.codec.encoded
    ensures client.codec.given == client.transport.handed && client.returned == client.codec.messages
    ensures old(client.closed) ==> client.closed && client.transport.accepted == old(client.transport.accepted)
    ensures |client.codec.encoded| <= |old(client.codec.encoded)| + |calls|
  {
    for i := 0 to |calls|
      invariant client.Valid()
      invariant old(client.closed) ==> client.closed && client.transport.accepted == old(client.transport.accepted)
      invariant |client.codec.encoded| <= |old(client.codec.encoded)| + i
    {
      match calls[i]
      case Send => var _ := client.SendRequest();
      case PollOnce => var _ := client.Poll();
      case CloseGently => var _ := client.Close();
      case AbortNow => client.Abort();
    }
  }
}
