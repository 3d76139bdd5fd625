/** Length-prefixed outer frames, and reading them from a stream that answers in any pieces. */
module Framing {
  import opened Bytes
  import opened Wrappers

  const MAX_BODY_LENGTH: nat := 16384
  const PREFIX: nat := 4

  datatype FramingError = InvalidLength | Truncated | TrailingBytes | Io

  predicate ValidLength(length: nat) { 1 <= length <= MAX_BODY_LENGTH }

  function Frame(body: seq<Byte>): (frame: seq<Byte>)
    requires |body| <= U32_MAX
    ensures |frame| == PREFIX + |body|
  {
    Four(|body|) + body
  }

  method EncodeOuterFrame(body: seq<Byte>) returns (r: Result<seq<Byte>, FramingError>)
    ensures r == if 1 <= |body| <= 16384 then Success(Frame(body)) else Failure(InvalidLength)
    ensures r.Success? ==>
      && |r.value| == 4 + |body| && r.value[4..] == body
      && |body| == r.value[0] as int * 0x100_0000 + r.value[1] as int * 0x1_0000 + r.value[2] as int * 0x100 + r.value[3] as int
  {
    if !ValidLength(|body|) {
      return Failure(InvalidLength);
    }
    FourDecodes(|body|);
    var frame := Four(|body|);
    frame := frame + body;
    return Success(frame);
  }

  function DecodeOuterFrame(frame: seq<Byte>): (r: Result<seq<Byte>, FramingError>) {
    if |frame| < PREFIX then Failure(Truncated)
    else
      var length := FromFour(frame);
      if !ValidLength(length) then Failure(InvalidLength)
      else if |frame| < PREFIX + length then Failure(Truncated)
      else if |frame| > PREFIX + length then Failure(TrailingBytes)
      else Success(frame[PREFIX..])
  }

  lemma FrameLength(body: seq<Byte>, after: seq<Byte>)
    requires ValidLength(|body|)
    ensures FromFour(Frame(body) + after) == |body|
  {
    var data := Frame(body) + after;
    assert forall k | 0 <= k < PREFIX :: data[k] == Four(|body|)[k];
    FourDecodes(|body|);
  }

  /** Decoding accepts exactly the frames of valid bodies, and returns the body. */
  lemma DecodesExactlyFrames(frame: seq<Byte>, body: seq<Byte>)
    ensures DecodeOuterFrame(frame) == Success(body) <==> 1 <= |body| <= 16384 && frame == Frame(body)
  {
    if ValidLength(|body|) && frame == Frame(body) {
      FrameLength(body, []);
      assert Frame(body) + [] == frame;
    }
    if DecodeOuterFrame(frame) == Success(body) {
      FourEncodes(frame[..PREFIX]);
      assert frame == frame[..PREFIX] + frame[PREFIX..];
    }
  }

  /** Why a frame is refused: cut short, announcing a length no body has, or followed by more. */
  lemma DecodeErrorsAre(frame: seq<Byte>)
    ensures var r := DecodeOuterFrame(frame);
      && (|frame| < 4 ==> r == Failure(Truncated))
      && (|frame| >= 4 ==>
            var length := frame[0] as int * 0x100_0000 + frame[1] as int * 0x1_0000 + frame[2] as int * 0x100 + frame[3] as int;
            && (r == Failure(InvalidLength) <==> !(1 <= length <= 16384))
            && (r == Failure(Truncated) <==> 1 <= length <= 16384 && |frame| < 4 + length)
            && (r == Failure(TrailingBytes) <==> 1 <= length <= 16384 && |frame| > 4 + length))
  {
  }

  // -------------------------------------------------------------------------
  // Streams

  /** What reading one frame off a stream yields, and what it leaves of the stream. */
  function ParseNext(data: seq<Byte>): (r: (Result<Option<seq<Byte>>, FramingError>, seq<Byte>))
    ensures r.0.Success? && r.0.value.Some? ==> |r.1| < |data|
  {
    if data == [] then (Success(None), [])
    else if |data| < PREFIX then (Failure(Truncated), [])
    else
      var length := FromFour(data);
      if !ValidLength(length) then (Failure(InvalidLength), data[PREFIX..])
      else if |data| < PREFIX + length then (Failure(Truncated), [])
      else (Success(Some(data[PREFIX..PREFIX + length])), data[PREFIX + length..])
  }

  /** `found`, then the bodies of a whole stream, and the error it ends with if it does not end cleanly. */
  function ParseAll(data: seq<Byte>, found: seq<seq<Byte>>): (r: (seq<seq<Byte>>, Option<FramingError>))
    decreases |data|
  {
    match ParseNext(data)
    case (Failure(error), _) => (found, Some(error))
    case (Success(None), _) => (found, None)
    case (Success(Some(body)), rest) => ParseAll(rest, found + [body])
  }

  predicate ValidBodies(bodies: seq<seq<Byte>>) {
    forall i | 0 <= i < |bodies| :: ValidLength(|bodies[i]|)
  }

  function Stream(bodies: seq<seq<Byte>>): seq<Byte>
    requires ValidBodies(bodies)
  {
    if bodies == [] then [] else Frame(bodies[0]) + Stream(bodies[1..])
  }

  lemma FirstFrameParses(body: seq<Byte>, rest: seq<Byte>)
    requires ValidLength(|body|)
    ensures ParseNext(Frame(body) + rest) == (Success(Some(body)), rest)
  {
    FrameLength(body, rest);
    var data := Frame(body) + rest;
    assert data[PREFIX..PREFIX + |body|] == body && data[PREFIX + |body|..] == rest;
  }

  lemma OneFrameParses(body: seq<Byte>, rest: seq<Byte>, found: seq<seq<Byte>>)
    requires ValidLength(|body|)
    ensures ParseAll(Frame(body) + rest, found) == ParseAll(rest, found + [body])
  {
    FirstFrameParses(body, rest);
  }

  /** After any frames comes whatever the rest of the stream holds. */
  lemma {:induction false} FramesParseFirst(bodies: seq<seq<Byte>>, rest: seq<Byte>, found: seq<seq<Byte>>)
    requires ValidBodies(bodies)
    ensures ParseAll(Stream(bodies) + rest, found) == ParseAll(rest, found + bodies)
  {
    if bodies == [] {
      assert Stream(bodies) + rest == rest && found + bodies == found;
    } else {
      var tail := Stream(bodies[1..]) + rest;
      assert Stream(bodies) + rest == Frame(bodies[0]) + tail;
      OneFrameParses(bodies[0], tail, found);
      FramesParseFirst(bodies[1..], rest, found + [bodies[0]]);
      assert found + [bodies[0]] + bodies[1..] == found + bodies;
    }
  }

  /** A stream of frames is read back body by body to its clean end. */
  lemma StreamReadsBack(bodies: seq<seq<Byte>>)
    requires ValidBodies(bodies)
    ensures ParseAll(Stream(bodies), []) == (bodies, None)
  {
    FramesParseFirst(bodies, [], []);
    assert Stream(bodies) + [] == Stream(bodies) && [] + bodies == bodies;
  }

  /** A stream cut inside a frame ends in a truncation, after the bodies of all the frames before. */
  lemma CutInsideFrameIsTruncated(bodies: seq<seq<Byte>>, body: seq<Byte>, k: nat)
    requires ValidBodies(bodies) && ValidLength(|body|) && 0 < k < |Frame(body)|
    ensures ParseAll(Stream(bodies) + Frame(body)[..k], []) == (bodies, Some(Truncated))
  {
    var cut := Frame(body)[..k];
    FrameLength(body, []);
    assert Frame(body) + [] == Frame(body) && (k >= PREFIX ==> FromFour(cut) == FromFour(Frame(body)));
    assert ParseNext(cut).0 == Failure(Truncated);
    FramesParseFirst(bodies, cut, []);
    assert [] + bodies == bodies;
  }

  // -------------------------------------------------------------------------
  // Reading

  /** How a reader answers its next call; once its schedule is used up it gives all it can. */
  datatype Turn = Interrupt | Break | Give(most: nat)

  datatype Answer = Got(bytes: seq<Byte>) | Interrupted | Broken

  class Reader {
    /** What has not been read yet. */
    var data: seq<Byte>
    var schedule: seq<Turn>

    constructor (data: seq<Byte>, schedule: seq<Turn>)
      ensures this.data == data && this.schedule == schedule
    {
      this.data, this.schedule := data, schedule;
    }

    /** Gives some of what is left, and nothing only at its end. */
    method Read(want: nat) returns (a: Answer)
      requires want > 0
      modifies this
      ensures a.Got? ==>
        && |a.bytes| <= want && |a.bytes| <= |old(data)| && (a.bytes == [] <==> old(data) == [])
        && a.bytes == old(data)[..|a.bytes|] && data == old(data)[|a.bytes|..]
      ensures !a.Got? ==> data == old(data) && |schedule| < |old(schedule)|
      ensures a.Broken? ==> Break in old(schedule)
      ensures |schedule| <= |old(schedule)| && (Break in schedule ==> Break in old(schedule))
    {
      var most := want;
      if schedule != [] {
        var turn := schedule[0];
        schedule := schedule[1..];
        match turn
        case Interrupt => return Interrupted;
        case Break => return Broken;
        case Give(n) => most := if n == 0 then 1 else n;
      }
      var count := if most < want then most else want;
      count := if count < |data| then count else |data|;
      a := Got(data[..count]);
      data := data[count..];
    }
  }

  datatype Filling = Full | Ended(read: nat) | Unreadable

  method CopyAt(buffer: array<Byte>, at: nat, bytes: seq<Byte>)
    requires at + |bytes| <= buffer.Length
    modifies buffer
    ensures buffer[..at + |bytes|] == old(buffer[..at]) + bytes
  {
    forall i | 0 <= i < |bytes| {
      buffer[at + i] := bytes[i];
    }
  }

  /** Fills a buffer, taking up interrupted reads again. */
  method Fill(reader: Reader, buffer: array<Byte>) returns (end: Filling)
    modifies reader, buffer
    ensures match end
      case Full => buffer.Length <= |old(reader.data)| && buffer[..] == old(reader.data)[..buffer.Length]
                   && reader.data == old(reader.data)[buffer.Length..]
      case Ended(read) => read == |old(reader.data)| < buffer.Length && reader.data == []
      case Unreadable => Break in old(reader.schedule)
    ensures Break in reader.schedule ==> Break in old(reader.schedule)
  {
    var read := 0;
    while read < buffer.Length
      invariant 0 <= read <= buffer.Length && read <= |old(reader.data)|
      invariant buffer[..read] == old(reader.data)[..read]
      invariant reader.data == old(reader.data)[read..]
      invariant Break in reader.schedule ==> Break in old(reader.schedule)
      decreases buffer.Length - read, |reader.schedule|
    {
      var a := reader.Read(buffer.Length - read);
      match a
      case Interrupted =>
      case Broken => return Unreadable;
      case Got(bytes) =>
        if bytes == [] {
          return Ended(read);
        }
        ghost var data := old(reader.data);
        assert data[..read] + bytes == data[..read + |bytes|] && data[read..][|bytes|..] == data[read + |bytes|..];
        CopyAt(buffer, read, bytes);
        read := read + |bytes|;
    }
    return Full;
  }

  /** Reads one frame: whatever the reader's schedule, what the data alone determine. */
  method ReadOuterFrame(reader: Reader) returns (r: Result<Option<seq<Byte>>, FramingError>)
    modifies reader
    ensures r == Failure(Io) ==> Break in old(reader.schedule)
    ensures r != Failure(Io) ==> (r, reader.data) == ParseNext(old(reader.data))
    ensures Break in reader.schedule ==> Break in old(reader.schedule)
  {
    var prefix := new Byte[PREFIX];
    var end := Fill(reader, prefix);
    if end.Unreadable? {
      return Failure(Io);
    }
    if end.Ended? {
      return if end.read == 0 then Success(None) else Failure(Truncated);
    }
    ghost var data := old(reader.data);
    var length := FromFour(prefix[..]);
    assert length == FromFour(data);
    if !ValidLength(length) {
      return Failure(InvalidLength);
    }
    var body := new Byte[length];
    end := Fill(reader, body);
    if end.Unreadable? {
      return Failure(Io);
    }
    if end.Ended? {
      return Failure(Truncated);
    }
    assert data[PREFIX..][..length] == data[PREFIX..PREFIX + length];
    assert data[PREFIX..][length..] == data[PREFIX + length..];
    return Success(Some(body[..]));
  }

  /** Repeated reading: without a broken call, exactly the bodies and the end that the data determine. */
  method ReadAll(reader: Reader) returns (bodies: seq<seq<Byte>>, error: Option<FramingError>)
    modifies reader
    ensures error == Some(Io) ==> Break in old(reader.schedule)
    ensures error != Some(Io) ==> (bodies, error) == ParseAll(old(reader.data), [])
  {
    bodies := [];
    while true
      invariant ParseAll(old(reader.data), []) == ParseAll(reader.data, bodies)
      invariant Break in reader.schedule ==> Break in old(reader.schedule)
      decreases |reader.data|
    {
      var next := ReadOuterFrame(reader);
      match next
      case Failure(e) => return bodies, Some(e);
      case Success(None) => return bodies, None;
      case Success(Some(body)) => bodies := bodies + [body];
    }
  }
}
