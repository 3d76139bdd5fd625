/** The in-memory ordered transport: two endpoints over two one-way queues with flush receipts. */
module OrderedTransport {
  import opened Bytes
  import opened Wrappers
  import Framing

  type WireFrame = seq<Byte>

  const MAX_QUEUE_CAPACITY: nat := 64
  const MAX_FRAME_LENGTH: nat := Framing.PREFIX + Framing.MAX_BODY_LENGTH

  datatype TransportError =
    | InvalidCapacity | Closed | PeerClosed | QueueFull | InvalidFrame | SequenceExhausted | WrongReceipt | UnknownReceipt

  datatype Received = Arrived(bytes: WireFrame) | Empty | PeerGone

  datatype FlushReceipt = FlushReceipt(transportId: nat, sequence: nat)

  datatype Side = Client | Server

  datatype Action =
    | Send(frame: WireFrame) | SendFault(frame: WireFrame) | FlushThrough(receipt: FlushReceipt)
    | Receive | CloseGracefully | AbortNow | ControlAbort | DropEndpoint

  datatype Pending = Pending(sequence: nat, bytes: WireFrame)

  /** One direction of the link, with the open flag of the endpoint that writes it. */
  class Direction {
    const capacity: nat
    var open: bool
    var pending: seq<Pending>
    var delivered: seq<WireFrame>
    var sentHighWater: nat
    var flushedHighWater: nat
    /** Every frame ever accepted from the writer, every frame ever handed to the reader. */
    ghost var accepted: seq<WireFrame>
    ghost var received: seq<WireFrame>
    /** The writing endpoint itself is gone. */
    var dropped: bool

    ghost predicate Valid()
      reads this
    {
      && sentHighWater == |accepted| <= U64_MAX
      && flushedHighWater <= sentHighWater
      && received + delivered == accepted[..flushedHighWater]
      && |pending| <= capacity
      && (forall i | 0 <= i < |pending| ::
            pending[i].sequence == flushedHighWater + 1 + i && flushedHighWater + i < |accepted|
            && pending[i].bytes == accepted[flushedHighWater + i])
      && (open ==> |pending| == sentHighWater - flushedHighWater)
      && (open ==> !dropped)
      && (!open && !dropped ==> pending == [])
    }

    /** What no call undoes; a closed direction carries nothing more. */
    twostate predicate Advances()
      reads this
    {
      && old(accepted) <= accepted && old(received) <= received
      && old(flushedHighWater) <= flushedHighWater
      && (!old(open) ==> !open && accepted == old(accepted) && flushedHighWater == old(flushedHighWater))
      && (old(dropped) ==> dropped)
    }

    constructor (capacity: nat)
      ensures Valid() && open && !dropped && this.capacity == capacity
      ensures accepted == [] && received == [] && pending == [] && delivered == []
    {
      this.capacity := capacity;
      open, pending, delivered, sentHighWater, flushedHighWater := true, [], [], 0, 0;
      accepted, received, dropped := [], [], false;
    }

    /** Queues one frame behind all the others, or changes nothing. */
    method Accept(frame: WireFrame) returns (r: Result<nat, TransportError>)
      requires Valid() && open
      modifies this`pending, this`sentHighWater, this`accepted
      ensures Valid()
      ensures r.Success? ==> accepted == old(accepted) + [frame] && r.value == |accepted|
      ensures r.Failure? ==> accepted == old(accepted) && pending == old(pending) && sentHighWater == old(sentHighWater)
      ensures r.Failure? <==> |old(pending)| >= capacity || |old(accepted)| == U64_MAX
      ensures r.Failure? ==> r.error == if |pending| >= capacity then QueueFull else SequenceExhausted
    {
      if |pending| >= capacity {
        return Failure(QueueFull);
      }
      if sentHighWater == U64_MAX {
        return Failure(SequenceExhausted);
      }
      sentHighWater := sentHighWater + 1;
      accepted := accepted + [frame];
      pending := pending + [Pending(sentHighWater, frame)];
      return Success(sentHighWater);
    }

    /** Moves the first pending frame across. */
    method Cross()
      requires Valid() && open && pending != []
      modifies this`pending, this`delivered, this`flushedHighWater
      ensures Valid() && flushedHighWater == old(flushedHighWater) + 1 && pending == old(pending)[1..]
    {
      var frame := pending[0];
      assert accepted[..flushedHighWater + 1] == accepted[..flushedHighWater] + [frame.bytes];
      assert received + (delivered + [frame.bytes]) == received + delivered + [frame.bytes];
      pending, delivered, flushedHighWater := pending[1..], delivered + [frame.bytes], frame.sequence;
    }

    /** Moves everything up to `sequence` across. */
    method CrossThrough(sequence: nat)
      requires Valid() && open && flushedHighWater < sequence <= sentHighWater
      modifies this`pending, this`delivered, this`flushedHighWater
      ensures Valid() && flushedHighWater == sequence
    {
      while pending != [] && pending[0].sequence <= sequence
        invariant Valid() && flushedHighWater <= sequence
        decreases |pending|
      {
        Cross();
      }
    }

    /** Hands the oldest delivered frame to the reader. */
    method Take() returns (frame: WireFrame)
      requires Valid() && delivered != []
      modifies this`delivered, this`received
      ensures Valid() && received == old(received) + [frame] && delivered == old(delivered)[1..]
      ensures frame == accepted[|old(received)|]
    {
      frame := delivered[0];
      assert (received + delivered)[|received|] == frame;
      assert received + delivered == received + [frame] + delivered[1..];
      delivered := delivered[1..];
      received := received + [frame];
    }

    /** Drains what is pending and closes. */
    method Drain()
      requires Valid() && !dropped
      modifies this`open, this`pending, this`delivered, this`flushedHighWater
      ensures Valid() && !open && pending == []
      ensures old(open) ==> received + delivered == accepted
      ensures !old(open) ==> delivered == old(delivered) && flushedHighWater == old(flushedHighWater)
      ensures old(flushedHighWater) <= flushedHighWater
    {
      while pending != []
        invariant Valid() && open == old(open) && old(flushedHighWater) <= flushedHighWater
        invariant !open ==> pending == [] && delivered == old(delivered) && flushedHighWater == old(flushedHighWater)
        decreases |pending|
      {
        Cross();
      }
      open := false;
      assert accepted[..|accepted|] == accepted;
    }

    /** Closes and forgets what was not flushed; nothing that crossed is lost. */
    method Abort()
      requires Valid()
      modifies this`open, this`pending
      ensures Valid() && !open && pending == []
    {
      open := false;
      pending := [];
    }

    /** The writing endpoint goes away; what it did not flush stays where it is. */
    method DropWriter()
      requires Valid()
      modifies this`open, this`dropped
      ensures Valid() && !open && dropped
    {
      open, dropped := false, true;
    }
  }

  /** One endpoint: it writes `outbound` and reads `inbound`. */
  class Endpoint {
    const outbound: Direction
    const inbound: Direction
    const id: nat
    var peerClosedReported: bool
    /** How often this endpoint was told that its peer is gone. */
    ghost var reports: nat

    ghost predicate Valid()
      reads this, outbound, inbound
    {
      && outbound != inbound && outbound.Valid() && inbound.Valid()
      && reports == (if peerClosedReported then 1 else 0)
      && (peerClosedReported ==> !inbound.open && inbound.delivered == [])
    }

    constructor (outbound: Direction, inbound: Direction, id: nat)
      requires outbound != inbound && outbound.Valid() && inbound.Valid()
      ensures this.outbound == outbound && this.inbound == inbound && this.id == id
      ensures Valid() && !peerClosedReported
    {
      this.outbound, this.inbound, this.id := outbound, inbound, id;
      peerClosedReported, reports := false, 0;
    }

    /** When a frame of legal length is refused so. */
    ghost predicate Refuses(error: TransportError)
      reads this, outbound, inbound
    {
      match error
      case Closed => !outbound.open
      case PeerClosed => outbound.open && !inbound.open
      case QueueFull => outbound.open && inbound.open && |outbound.pending| == outbound.capacity
      case SequenceExhausted => outbound.open && inbound.open && |outbound.pending| < outbound.capacity && |outbound.accepted| == 0xFFFF_FFFF_FFFF_FFFF
      case _ => false
    }

    /** Accepts a whole frame, or makes no change. */
    method TrySend(frame: WireFrame) returns (r: Result<FlushReceipt, TransportError>)
      requires Valid() && !outbound.dropped
      modifies outbound
      ensures Valid() && outbound.Advances()
      ensures r.Success? <==>
        && Framing.DecodeOuterFrame(frame).Success? && outbound.open && inbound.open
        && |old(outbound.pending)| < outbound.capacity && |old(outbound.accepted)| < U64_MAX
      ensures r.Success? ==>
        && outbound.accepted == old(outbound.accepted) + [frame]
        && r.value == FlushReceipt(id, |outbound.accepted|)
        && outbound.flushedHighWater == old(outbound.flushedHighWater)
      ensures r.Failure? ==> outbound.accepted == old(outbound.accepted) && outbound.pending == old(outbound.pending)
      ensures outbound.open == old(outbound.open) && outbound.delivered == old(outbound.delivered)
      ensures r == Failure(InvalidFrame) <==> Framing.DecodeOuterFrame(frame).Failure?
      ensures r.Failure? && r.error != InvalidFrame ==> old(Refuses(r.error))
    {
      if |frame| > MAX_FRAME_LENGTH || Framing.DecodeOuterFrame(frame).Failure? {
        return Failure(InvalidFrame);
      }
      r := TrySendBounded(frame);
    }

    /** The seam for tests of a receiver: any frame of bounded length. */
    method TrySendBounded(frame: WireFrame) returns (r: Result<FlushReceipt, TransportError>)
      requires Valid() && !outbound.dropped
      modifies outbound`pending, outbound`sentHighWater, outbound`accepted
      ensures Valid() && outbound.Advances()
      ensures r.Success? <==>
        && |frame| <= 16388 && outbound.open && inbound.open
        && |old(outbound.pending)| < outbound.capacity && |old(outbound.accepted)| < U64_MAX
      ensures r.Success? ==>
        && outbound.accepted == old(outbound.accepted) + [frame]
        && r.value == FlushReceipt(id, |outbound.accepted|)
      ensures r.Failure? ==> outbound.accepted == old(outbound.accepted) && outbound.pending == old(outbound.pending)
      ensures r == Failure(InvalidFrame) <==> |frame| > 16388
      ensures r.Failure? && r.error != InvalidFrame ==> old(Refuses(r.error))
    {
      if |frame| > MAX_FRAME_LENGTH {
        return Failure(InvalidFrame);
      }
      if !outbound.open {
        return Failure(Closed);
      }
      if !inbound.open {
        return Failure(PeerClosed);
      }
      var accepted := outbound.Accept(frame);
      match accepted
      case Success(sequence) => r := Success(FlushReceipt(id, sequence));
      case Failure(error) => r := Failure(error);
    }

    /**
     A flushed receipt means that its frame and all earlier ones have crossed. It can be flushed once, by the
     endpoint that got it, while both ends are open.
     */
    method Flush(receipt: FlushReceipt) returns (refusal: Option<TransportError>)
      requires Valid() && !outbound.dropped
      modifies outbound`pending, outbound`delivered, outbound`flushedHighWater
      ensures Valid() && outbound.Advances()
      ensures refusal.None? <==>
        && receipt.transportId == id && old(outbound.open) && inbound.open
        && old(outbound.flushedHighWater) < receipt.sequence <= |outbound.accepted|
      ensures refusal == Some(WrongReceipt) <==> receipt.transportId != id
      ensures refusal == Some(Closed) <==> receipt.transportId == id && !old(outbound.open)
      ensures refusal == Some(PeerClosed) <==> receipt.transportId == id && old(outbound.open) && !inbound.open
      ensures refusal.Some? ==> refusal.value in {WrongReceipt, Closed, PeerClosed, UnknownReceipt}
      ensures refusal.None? ==>
        && outbound.flushedHighWater == receipt.sequence
        && outbound.received + outbound.delivered == outbound.accepted[..receipt.sequence]
      ensures refusal.Some? ==>
        && outbound.pending == old(outbound.pending) && outbound.delivered == old(outbound.delivered)
        && outbound.flushedHighWater == old(outbound.flushedHighWater)
    {
      if receipt.transportId != id {
        return Some(WrongReceipt);
      }
      if !outbound.open {
        return Some(Closed);
      }
      if !inbound.open {
        return Some(PeerClosed);
      }
      if receipt.sequence == 0 || receipt.sequence > outbound.sentHighWater || receipt.sequence <= outbound.flushedHighWater {
        return Some(UnknownReceipt);
      }
      outbound.CrossThrough(receipt.sequence);
      return None;
    }

    /** A frame that was accepted can be flushed at once, and then everything accepted has crossed. */
    method SendAndFlush(frame: WireFrame) returns (sent: Result<FlushReceipt, TransportError>, refusal: Option<TransportError>)
      requires Valid() && !outbound.dropped
      modifies outbound
      ensures Valid() && outbound.Advances()
      ensures sent.Success? ==>
        refusal.None? && outbound.received + outbound.delivered == outbound.accepted == old(outbound.accepted) + [frame]
      ensures sent.Failure? ==> outbound.accepted == old(outbound.accepted) && outbound.pending == old(outbound.pending)
    {
      refusal := None;
      sent := TrySend(frame);
      if sent.Success? {
        refusal := Flush(sent.value);
        assert outbound.accepted[..|outbound.accepted|] == outbound.accepted;
      }
    }

    /** The next frame in the order of acceptance; the peer's end once, after everything it delivered. */
    method TryReceive() returns (r: Received)
      requires Valid() && !outbound.dropped
      modifies this, inbound`delivered, inbound`received
      ensures Valid() && inbound.Advances()
      ensures old(inbound.delivered) != [] ==> inbound.delivered == old(inbound.delivered)[1..]
      ensures old(inbound.delivered) != [] ==>
        && r == Arrived(inbound.accepted[|old(inbound.received)|])
        && inbound.received == old(inbound.received) + [r.bytes] && reports == old(reports)
      ensures old(inbound.delivered) == [] ==> !r.Arrived? && inbound.received == old(inbound.received)
      ensures r.PeerGone? <==> old(inbound.delivered) == [] && !inbound.open && !old(peerClosedReported)
      ensures r.PeerGone? ==> reports == 1 && inbound.received == inbound.accepted[..inbound.flushedHighWater]
      ensures old(peerClosedReported) ==> r == Empty && peerClosedReported
    {
      if inbound.delivered != [] {
        var frame := inbound.Take();
        return Arrived(frame);
      }
      if !inbound.open && !peerClosedReported {
        peerClosedReported, reports := true, reports + 1;
        assert inbound.received + [] == inbound.received;
        return PeerGone;
      }
      return Empty;
    }

    /** Enough calls hand over everything that crossed, in the order in which it was accepted. */
    method ReceiveAll() returns (frames: seq<WireFrame>)
      requires Valid() && !outbound.dropped
      modifies this, inbound`delivered, inbound`received
      ensures Valid() && inbound.Advances() && inbound.delivered == []
      ensures inbound.received == old(inbound.received) + frames == inbound.accepted[..inbound.flushedHighWater]
    {
      frames := [];
      while inbound.delivered != []
        invariant Valid() && inbound.Advances() && inbound.received == old(inbound.received) + frames
        decreases |inbound.delivered|
      {
        var r := TryReceive();
        frames := frames + [r.bytes];
      }
      assert inbound.received + [] == inbound.received;
    }

    /** Graceful close: nothing accepted is lost. Refused while the peer is gone and something is pending. */
    method Close() returns (refusal: Option<TransportError>)
      requires Valid() && !outbound.dropped
      modifies outbound`open, outbound`pending, outbound`delivered, outbound`flushedHighWater
      ensures Valid() && outbound.Advances()
      ensures refusal == if !inbound.open && old(outbound.pending) != [] then Some(PeerClosed) else None
      ensures refusal.None? ==> !outbound.open && outbound.pending == []
      ensures refusal.None? && old(outbound.open) ==> outbound.received + outbound.delivered == outbound.accepted
      ensures refusal.Some? || !old(outbound.open) ==>
        && outbound.open == old(outbound.open) && outbound.pending == old(outbound.pending)
        && outbound.delivered == old(outbound.delivered)
    {
      if !inbound.open && outbound.pending != [] {
        return Some(PeerClosed);
      }
      outbound.Drain();
      return None;
    }

    /** Abort, by the endpoint or by its control: only what had not been flushed is lost. */
    method Abort()
      requires Valid()
      modifies outbound`open, outbound`pending
      ensures Valid() && outbound.Advances() && !outbound.open && outbound.pending == []
      ensures outbound.received + outbound.delivered == outbound.accepted[..outbound.flushedHighWater]
    {
      outbound.Abort();
    }

    method Drop()
      requires Valid() && !outbound.dropped
      modifies outbound`open, outbound`dropped
      ensures Valid() && outbound.Advances() && !outbound.open && outbound.dropped
    {
      outbound.DropWriter();
    }

    /** One step of this endpoint; after it was dropped only its control acts. */
    method Perform(action: Action)
      requires Valid() && (action.ControlAbort? || !outbound.dropped)
      modifies this, outbound, inbound`delivered, inbound`received
      ensures Valid() && outbound.Advances() && inbound.Advances()
      ensures inbound.delivered == old(inbound.delivered) || inbound.open == old(inbound.open)
      ensures old(peerClosedReported) ==> peerClosedReported && inbound.delivered == []
      ensures !old(outbound.open) ==> outbound.delivered == old(outbound.delivered)
    {
      match action
      case Send(frame) => var _ := TrySend(frame);
      case SendFault(frame) => var _ := TrySendBounded(frame);
      case FlushThrough(receipt) => var _ := Flush(receipt);
      case Receive => var _ := TryReceive();
      case CloseGracefully => var _ := Close();
      case AbortNow => Abort();
      case ControlAbort => Abort();
      case DropEndpoint => Drop();
    }
  }

  /** Both endpoints of a link. */
  class Pair {
    const client: Endpoint
    const server: Endpoint

    ghost predicate Valid()
      reads this, client, server, client.outbound, client.inbound
    {
      && client != server && client.id != server.id
      && client.outbound == server.inbound && client.inbound == server.outbound
      && client.Valid() && server.Valid()
    }

    constructor (capacity: nat, firstId: nat)
      requires 0 < capacity
      ensures Valid() && fresh(client) && fresh(server) && fresh(client.outbound) && fresh(client.inbound)
      ensures client.id == firstId && server.id == firstId + 1 && client.outbound.capacity == capacity
    {
      var there := new Direction(capacity);
      var back := new Direction(capacity);
      client := new Endpoint(there, back, firstId);
      server := new Endpoint(back, there, firstId + 1);
    }

    function At(side: Side): Endpoint
      reads this
    {
      if side == Client then client else server
    }

    /** What every step of either endpoint, or of its control, keeps. */
    twostate predicate Advances()
      reads this, client, server, client.outbound, client.inbound
    {
      && client.outbound.Advances() && client.inbound.Advances()
      && (old(client.peerClosedReported) ==> client.peerClosedReported)
      && (old(server.peerClosedReported) ==> server.peerClosedReported)
    }

    /** One step of any interleaving; an endpoint that was dropped takes none, its control still may. */
    method Perform(side: Side, action: Action)
      requires Valid() && (action.ControlAbort? || !At(side).outbound.dropped)
      modifies client, server, client.outbound, client.inbound
      ensures Valid() && Advances()
    {
      if side == Client {
        client.Perform(action);
      } else {
        server.Perform(action);
      }
    }

    /**
     Any interleaving: in each direction what was received is a prefix of what was accepted, no queue outgrows
     its capacity, and each endpoint hears of its peer's end at most once.
     */
    method Run(steps: seq<(Side, Action)>)
      requires Valid()
      modifies client, server, client.outbound, client.inbound
      ensures Valid() && Advances()
      ensures client.outbound.received <= client.outbound.accepted && client.inbound.received <= client.inbound.accepted
      ensures |client.outbound.pending| <= client.outbound.capacity && |client.inbound.pending| <= client.inbound.capacity
      ensures client.reports <= 1 && server.reports <= 1
    {
      for i := 0 to |steps|
        invariant Valid() && Advances()
      {
        var (side, action) := steps[i];
        if action.ControlAbort? || !At(side).outbound.dropped {
          Perform(side, action);
        }
      }
    }
  }

  /** A link of a legal capacity whose endpoints take the next two transport ids. */
  method Connect(capacity: nat, nextId: U64) returns (r: Result<Pair, TransportError>)
    requires 0 < capacity
    ensures r.Success? <==> capacity <= 64 && nextId + 2 <= U64_MAX
    ensures r.Success? ==> fresh(r.value) && r.value.Valid() && r.value.client.id == nextId && r.value.server.id == nextId + 1
    ensures r.Failure? ==> r.error == if capacity > 64 then InvalidCapacity else SequenceExhausted
  {
    if capacity > MAX_QUEUE_CAPACITY {
      return Failure(InvalidCapacity);
    }
    if nextId + 2 > U64_MAX {
      return Failure(SequenceExhausted);
    }
    var pair := new Pair(capacity, nextId);
    return Success(pair);
  }
}
