/** The 328-byte release policy: its encoding into a fixed buffer and its exact decoding. */
module ReleasePolicy {
  import opened Bytes
  import opened FixedBuffer
  import opened Wrappers

  const POLICY_BYTES: nat := 328
  const MAGIC: seq<Byte> := [0x54, 0x51, 0x4B, 0x4F, 0x50, 0x4F, 0x4C, 0x31]
  const PROTOCOL_MAJOR: nat := 1
  const COMPATIBILITY_EPOCH: nat := 1

  datatype PolicyError =
    | InvalidLength | InvalidHeader | InvalidTag | NonzeroReserved | InvalidPredecessor | InvalidProtocol

  datatype Platform = Windows | Macos
  datatype Architecture = X64 | Arm64
  datatype OwnerMode = SafeDisabled | EnabledCandidate

  function PlatformTag(p: Platform): Byte { match p case Windows => 1 case Macos => 2 }

  function PlatformOf(tag: Byte): Option<Platform> {
    if tag == 1 then Some(Windows) else if tag == 2 then Some(Macos) else None
  }

  function ArchitectureTag(a: Architecture): Byte { match a case X64 => 1 case Arm64 => 2 }

  function ArchitectureOf(tag: Byte): Option<Architecture> {
    if tag == 1 then Some(X64) else if tag == 2 then Some(Arm64) else None
  }

  function ModeTag(m: OwnerMode): Byte { match m case SafeDisabled => 1 case EnabledCandidate => 2 }

  function ModeOf(tag: Byte): Option<OwnerMode> {
    if tag == 1 then Some(SafeDisabled) else if tag == 2 then Some(EnabledCandidate) else None
  }

  // -------------------------------------------------------------------------
  // Protocol headers

  datatype ProtocolHeader = ProtocolHeader(major: U16, minor: U16, epoch: U32, supported: U64, required: U64) {
    /** The base feature is bit 0. */
    predicate Valid() {
      && major == PROTOCOL_MAJOR && epoch == COMPATIBILITY_EPOCH
      && supported % 2 == 1 && required % 2 == 1
      && BitsWithin(required, supported)
      && required / 2 == 0
    }
  }

  /** Every bit set in `part` is set in `whole`. */
  predicate BitsWithin(part: nat, whole: nat) {
    part == 0 || (part % 2 <= whole % 2 && BitsWithin(part / 2, whole / 2))
  }

  /** Whether bit `k` of `n` is set. */
  ghost predicate Bit(n: nat, k: nat) {
    if k == 0 then n % 2 == 1 else Bit(n / 2, k - 1)
  }

  lemma {:induction false} WithinBit(part: nat, whole: nat, k: nat)
    requires BitsWithin(part, whole) && Bit(part, k)
    ensures Bit(whole, k)
  {
    if part == 0 {
      NoBit(k);
    } else if k > 0 {
      WithinBit(part / 2, whole / 2, k - 1);
    }
  }

  lemma {:induction false} NoBit(k: nat)
    ensures !Bit(0, k)
  {
    if k > 0 { NoBit(k - 1); }
  }

  lemma {:induction false} OutsideBit(part: nat, whole: nat) returns (k: nat)
    requires !BitsWithin(part, whole)
    ensures Bit(part, k) && !Bit(whole, k)
  {
    if part % 2 > whole % 2 {
      k := 0;
    } else {
      var below := OutsideBit(part / 2, whole / 2);
      k := below + 1;
    }
  }

  lemma BitsWithinIs(part: nat, whole: nat)
    ensures BitsWithin(part, whole) <==> forall k :: Bit(part, k) ==> Bit(whole, k)
  {
    if BitsWithin(part, whole) {
      forall k: nat | Bit(part, k) ensures Bit(whole, k) { WithinBit(part, whole, k); }
    } else {
      var k := OutsideBit(part, whole);
    }
  }

  /** A header is valid exactly when it is of this version and requires the base feature alone, which it supports. */
  lemma ValidHeaderIs(h: ProtocolHeader)
    ensures h.Valid() <==> h.major == 1 && h.epoch == 1 && h.supported % 2 == 1 && h.required == 1
  {
    if h.required == 1 && h.supported % 2 == 1 {
      assert BitsWithin(0, h.supported / 2);
    }
  }

  function ProtocolBytes(h: ProtocolHeader): (r: seq<Byte>)
    ensures |r| == 24
  {
    Two(h.major) + Two(h.minor) + Four(h.epoch) + Eight(h.supported) + Eight(h.required)
  }

  function ReadProtocol(b: seq<Byte>): ProtocolHeader
    requires |b| == 24
  {
    ProtocolHeader(FromTwo(b[0..2]), FromTwo(b[2..4]), FromFour(b[4..8]), FromEight(b[8..16]), FromEight(b[16..24]))
  }

  lemma ProtocolDecodes(h: ProtocolHeader)
    ensures ReadProtocol(ProtocolBytes(h)) == h
  {
    var b := ProtocolBytes(h);
    assert b[0..2] == Two(h.major) && b[2..4] == Two(h.minor) && b[4..8] == Four(h.epoch);
    assert b[8..16] == Eight(h.supported) && b[16..24] == Eight(h.required);
    FourDecodes(h.epoch);
    EightDecodes(h.supported);
    EightDecodes(h.required);
  }

  lemma ProtocolEncodes(b: seq<Byte>)
    requires |b| == 24
    ensures ProtocolBytes(ReadProtocol(b)) == b
  {
    FourEncodes(b[4..8]);
    EightEncodes(b[8..16]);
    EightEncodes(b[16..24]);
    assert b == b[0..2] + b[2..4] + b[4..8] + b[8..16] + b[16..24];
    assert Two(FromTwo(b[0..2])) == b[0..2] && Two(FromTwo(b[2..4])) == b[2..4];
  }

  // -------------------------------------------------------------------------
  // Policies

  datatype Predecessor = Predecessor(
    releaseBuild: Digest, gateway: Digest, owner: Digest, platform: Platform, architecture: Architecture)

  datatype Policy = Policy(
    platform: Platform, architecture: Architecture, mode: OwnerMode,
    releaseBuild: Digest, gateway: Digest, owner: Digest, gatewaySigner: Digest, ownerSigner: Digest,
    gatewayProtocol: ProtocolHeader, ownerProtocol: ProtocolHeader, predecessor: Option<Predecessor>)
  {
    function Fault(): Option<PolicyError> {
      if !gatewayProtocol.Valid() || !ownerProtocol.Valid() then Some(InvalidProtocol)
      else if predecessor.Some?
              && (predecessor.value.platform != platform || predecessor.value.architecture != architecture)
      then Some(InvalidPredecessor)
      else None
    }

    function Head(): (r: seq<Byte>)
      ensures |r| == 16
    {
      MAGIC + (Two(1) + Tags())
    }

    function Tags(): (r: seq<Byte>)
      ensures |r| == 6
    {
      [PlatformTag(platform), ArchitectureTag(architecture), ModeTag(mode), if predecessor.Some? then 1 else 0, 0, 0]
    }

    function Digests(): (r: seq<Byte>)
      ensures |r| == 160
    {
      releaseBuild + (gateway + (owner + (gatewaySigner + ownerSigner)))
    }

    function Protocols(): (r: seq<Byte>)
      ensures |r| == 48
    {
      ProtocolBytes(gatewayProtocol) + ProtocolBytes(ownerProtocol)
    }

    function Tail(): (r: seq<Byte>)
      ensures |r| == 104
    {
      match predecessor
      case None => Zeros(104)
      case Some(p) =>
        p.releaseBuild + (p.gateway + (p.owner + ([PlatformTag(p.platform), ArchitectureTag(p.architecture)] + Zeros(6))))
    }

    function Bytes(): (r: seq<Byte>)
      ensures |r| == POLICY_BYTES
    {
      Head() + (Digests() + (Protocols() + Tail()))
    }
  }

  /** A policy is in order exactly if both headers are, and a predecessor was made for the same platform and architecture. */
  lemma InOrderExactlyWhen(p: Policy)
    ensures p.Fault().None? <==>
      && (forall h | h in {p.gatewayProtocol, p.ownerProtocol} ::
            h.major == 1 && h.epoch == 1 && h.supported % 2 == 1 && h.required == 1)
      && (p.predecessor.Some? ==>
            p.predecessor.value.platform == p.platform && p.predecessor.value.architecture == p.architecture)
    ensures p.Fault() == Some(InvalidProtocol) <==> !p.gatewayProtocol.Valid() || !p.ownerProtocol.Valid()
    ensures p.Fault() in {None, Some(InvalidProtocol), Some(InvalidPredecessor)}
  {
    ValidHeaderIs(p.gatewayProtocol);
    ValidHeaderIs(p.ownerProtocol);
  }

  /** The first sixteen bytes: "TQKOPOL1", version 1 in two bytes, three tags, the predecessor flag and two zeros. */
  lemma HeadLayout(p: Policy)
    ensures |p.Bytes()| == 328
    ensures p.Bytes()[..16] == Text("TQKOPOL1") + [0, 1] + [
      (match p.platform case Windows => 1 case Macos => 2),
      (match p.architecture case X64 => 1 case Arm64 => 2),
      (match p.mode case SafeDisabled => 1 case EnabledCandidate => 2),
      (if p.predecessor.Some? then 1 else 0), 0, 0]
  {
    assert p.Bytes()[..16] == p.Head();
    assert Text("TQKOPOL1") == MAGIC;
  }

  function ReadPredecessor(b: seq<Byte>): Result<Option<Predecessor>, PolicyError>
    requires |b| == POLICY_BYTES
  {
    if b[13] == 0 then
      if AllZero(b[224..328]) then Success(None) else Failure(InvalidPredecessor)
    else if b[13] == 1 then
      if PlatformOf(b[320]).None? || ArchitectureOf(b[321]).None? then Failure(InvalidPredecessor)
      else Success(Some(Predecessor(
        b[224..256], b[256..288], b[288..320], PlatformOf(b[320]).value, ArchitectureOf(b[321]).value)))
    else Failure(InvalidPredecessor)
  }

  function Decode(b: seq<Byte>): (r: Result<Policy, PolicyError>) {
    if |b| != POLICY_BYTES then Failure(InvalidLength)
    else if b[0..8] != MAGIC || b[8..10] != Two(1) then Failure(InvalidHeader)
    else if !AllZero(b[14..16]) || !AllZero(b[322..328]) then Failure(NonzeroReserved)
    else if PlatformOf(b[10]).None? || ArchitectureOf(b[11]).None? || ModeOf(b[12]).None? then Failure(InvalidTag)
    else match ReadPredecessor(b)
      case Failure(error) => Failure(error)
      case Success(predecessor) =>
        var policy := Policy(
          PlatformOf(b[10]).value, ArchitectureOf(b[11]).value, ModeOf(b[12]).value,
          b[16..48], b[48..80], b[80..112], b[112..144], b[144..176],
          ReadProtocol(b[176..200]), ReadProtocol(b[200..224]), predecessor);
        if policy.Fault().Some? then Failure(policy.Fault().value) else Success(policy)
  }

  /** Why a blob is refused, in the order of the checks: its length, its header, its reserved bytes, its tags, the rest. */
  lemma DecodeErrorsAre(b: seq<Byte>)
    ensures Decode(b) == Failure(InvalidLength) <==> |b| != 328
    ensures |b| == 328 ==>
      var r, header := Decode(b), b[..10] == Text("TQKOPOL1") + [0, 1];
      var reserved := forall i | i in {14, 15, 322, 323, 324, 325, 326, 327} :: b[i] == 0;
      var tags := 1 <= b[10] <= 2 && 1 <= b[11] <= 2 && 1 <= b[12] <= 2;
      && (r == Failure(InvalidHeader) <==> !header)
      && (r == Failure(NonzeroReserved) <==> header && !reserved)
      && (r == Failure(InvalidTag) <==> header && reserved && !tags)
      && (header && reserved && tags && MisplacedPredecessor(b) ==> r == Failure(InvalidPredecessor))
  {
    if |b| == 328 {
      assert Text("TQKOPOL1") == MAGIC;
      assert b[..10] == b[0..8] + b[8..10];
      assert forall i | 0 <= i < 2 :: b[14..16][i] == b[14 + i];
      assert forall i | 0 <= i < 6 :: b[322..328][i] == b[322 + i];
      assert forall i | 322 <= i < 328 :: b[i] == b[322..328][i - 322];
    }
  }

  /** The predecessor's flag is none, or contradicts what is in its place. */
  ghost predicate MisplacedPredecessor(b: seq<Byte>)
    requires |b| == POLICY_BYTES
  {
    || b[13] > 1
    || (b[13] == 0 && exists i | 224 <= i < 328 :: b[i] != 0)
    || (b[13] == 1 && !(1 <= b[320] <= 2 && 1 <= b[321] <= 2))
  }

  // -------------------------------------------------------------------------
  // Decoding and encoding are inverse

  lemma HeadIs(b: seq<Byte>, p: Policy)
    requires |b| == POLICY_BYTES
    ensures b[0..16] == p.Head() <==>
      && b[0..8] == MAGIC && b[8..10] == Two(1)
      && b[10] == PlatformTag(p.platform) && b[11] == ArchitectureTag(p.architecture) && b[12] == ModeTag(p.mode)
      && b[13] == (if p.predecessor.Some? then 1 else 0) && AllZero(b[14..16])
  {
    SplitIs(b, 0, 16, MAGIC, Two(1) + p.Tags());
    SplitIs(b, 8, 16, Two(1), p.Tags());
    assert b[10..16] == [b[10], b[11], b[12], b[13], b[14], b[15]];
    assert b[14..16] == [b[14], b[15]];
  }

  lemma DigestsAre(b: seq<Byte>, p: Policy)
    requires |b| == POLICY_BYTES
    ensures b[16..176] == p.Digests() <==>
      && b[16..48] == p.releaseBuild && b[48..80] == p.gateway && b[80..112] == p.owner
      && b[112..144] == p.gatewaySigner && b[144..176] == p.ownerSigner
  {
    var signers := p.gatewaySigner + p.ownerSigner;
    SplitIs(b, 16, 176, p.releaseBuild, p.gateway + (p.owner + signers));
    SplitIs(b, 48, 176, p.gateway, p.owner + signers);
    SplitIs(b, 80, 176, p.owner, signers);
    SplitIs(b, 112, 176, p.gatewaySigner, p.ownerSigner);
  }

  lemma ProtocolsAre(b: seq<Byte>, p: Policy)
    requires |b| == POLICY_BYTES
    ensures b[176..224] == p.Protocols() <==>
      ReadProtocol(b[176..200]) == p.gatewayProtocol && ReadProtocol(b[200..224]) == p.ownerProtocol
  {
    SplitIs(b, 176, 224, ProtocolBytes(p.gatewayProtocol), ProtocolBytes(p.ownerProtocol));
    ProtocolDecodes(p.gatewayProtocol);
    ProtocolDecodes(p.ownerProtocol);
    ProtocolEncodes(b[176..200]);
    ProtocolEncodes(b[200..224]);
  }

  lemma TailIs(b: seq<Byte>, p: Policy)
    requires |b| == POLICY_BYTES && b[13] == if p.predecessor.Some? then 1 else 0
    ensures b[224..328] == p.Tail() <==> AllZero(b[322..328]) && ReadPredecessor(b) == Success(p.predecessor)
  {
    ZerosAre(b[224..328]);
    ZerosAre(b[322..328]);
    match p.predecessor
    case None =>
      assert forall i | 0 <= i < 6 :: b[322..328][i] == b[224..328][98 + i];
    case Some(v) =>
      var tags := [PlatformTag(v.platform), ArchitectureTag(v.architecture)];
      SplitIs(b, 224, 328, v.releaseBuild, v.gateway + (v.owner + (tags + Zeros(6))));
      SplitIs(b, 256, 328, v.gateway, v.owner + (tags + Zeros(6)));
      SplitIs(b, 288, 328, v.owner, tags + Zeros(6));
      SplitIs(b, 320, 328, tags, Zeros(6));
      assert b[320..322] == [b[320], b[321]];
  }

  lemma SectionsAre(b: seq<Byte>, p: Policy)
    requires |b| == POLICY_BYTES
    ensures b == p.Bytes() <==>
      b[0..16] == p.Head() && b[16..176] == p.Digests() && b[176..224] == p.Protocols() && b[224..328] == p.Tail()
  {
    assert b[0..328] == b;
    SplitIs(b, 0, 328, p.Head(), p.Digests() + (p.Protocols() + p.Tail()));
    SplitIs(b, 16, 328, p.Digests(), p.Protocols() + p.Tail());
    SplitIs(b, 176, 328, p.Protocols(), p.Tail());
  }

  /** What the decoder reads when header, reserved bytes and tags are in order. */
  lemma ReadsThePolicy(b: seq<Byte>, p: Policy)
    requires |b| == POLICY_BYTES
    ensures b == p.Bytes() <==>
      && b[0..8] == MAGIC && b[8..10] == Two(1) && AllZero(b[14..16]) && AllZero(b[322..328])
      && PlatformOf(b[10]) == Some(p.platform) && ArchitectureOf(b[11]) == Some(p.architecture)
      && ModeOf(b[12]) == Some(p.mode) && ReadPredecessor(b) == Success(p.predecessor)
      && b[16..48] == p.releaseBuild && b[48..80] == p.gateway && b[80..112] == p.owner
      && b[112..144] == p.gatewaySigner && b[144..176] == p.ownerSigner
      && ReadProtocol(b[176..200]) == p.gatewayProtocol && ReadProtocol(b[200..224]) == p.ownerProtocol
  {
    SectionsAre(b, p);
    HeadIs(b, p);
    DigestsAre(b, p);
    ProtocolsAre(b, p);
    if b[13] == if p.predecessor.Some? then 1 else 0 {
      TailIs(b, p);
    }
  }

  /** A blob is accepted as a policy exactly when the policy is valid and the blob is its encoding. */
  lemma DecodesExactlyEncodings(b: seq<Byte>, p: Policy)
    ensures Decode(b) == Success(p) <==> p.Fault().None? && b == p.Bytes()
  {
    if |b| == POLICY_BYTES {
      ReadsThePolicy(b, p);
    }
  }

  // -------------------------------------------------------------------------
  // Filling the buffer

  method EncodeProtocol(a: array<Byte>, ghost done: seq<Byte>, at: nat, h: ProtocolHeader)
    requires at == |done| && at + 24 <= a.Length && Filled(a, done)
    modifies a
    ensures Filled(a, done + ProtocolBytes(h))
  {
    ghost var major, minor, epoch := Two(h.major), Two(h.minor), Four(h.epoch);
    ghost var supported, required := Eight(h.supported), Eight(h.required);
    CopyInto(a, done, at, Two(h.major));
    CopyInto(a, done + major, at + 2, Two(h.minor));
    CopyInto(a, done + major + minor, at + 4, Four(h.epoch));
    CopyInto(a, done + major + minor + epoch, at + 8, Eight(h.supported));
    CopyInto(a, done + major + minor + epoch + supported, at + 16, Eight(h.required));
    assert done + major + minor + epoch + supported + required == done + (major + minor + epoch + supported + required);
  }

  method EncodeHead(a: array<Byte>, p: Policy)
    requires a.Length == POLICY_BYTES && Filled(a, [])
    modifies a
    ensures Filled(a, p.Head())
  {
    CopyInto(a, [], 0, MAGIC);
    assert [] + MAGIC == MAGIC;
    CopyInto(a, MAGIC, 8, Two(1));
    ghost var done := MAGIC + Two(1);
    a[10] := PlatformTag(p.platform);
    a[11] := ArchitectureTag(p.architecture);
    a[12] := ModeTag(p.mode);
    a[13] := if p.predecessor.Some? then 1 else 0;
    assert forall i | 0 <= i < 10 :: a[i] == done[i];
    assert forall i | 0 <= i < 16 :: a[i] == p.Head()[i];
  }

  method EncodeDigests(a: array<Byte>, p: Policy)
    requires a.Length == POLICY_BYTES && Filled(a, p.Head())
    modifies a
    ensures Filled(a, p.Head() + p.Digests())
  {
    ghost var head := p.Head();
    CopyInto(a, head, 16, p.releaseBuild);
    CopyInto(a, head + p.releaseBuild, 48, p.gateway);
    CopyInto(a, head + p.releaseBuild + p.gateway, 80, p.owner);
    CopyInto(a, head + p.releaseBuild + p.gateway + p.owner, 112, p.gatewaySigner);
    CopyInto(a, head + p.releaseBuild + p.gateway + p.owner + p.gatewaySigner, 144, p.ownerSigner);
    assert head + p.releaseBuild + p.gateway + p.owner + p.gatewaySigner + p.ownerSigner == head + p.Digests();
  }

  method EncodeProtocols(a: array<Byte>, ghost done: seq<Byte>, p: Policy)
    requires a.Length == POLICY_BYTES && |done| == 176 && Filled(a, done)
    modifies a
    ensures Filled(a, done + p.Protocols())
  {
    ghost var gateway, owner := ProtocolBytes(p.gatewayProtocol), ProtocolBytes(p.ownerProtocol);
    EncodeProtocol(a, done, 176, p.gatewayProtocol);
    EncodeProtocol(a, done + gateway, 200, p.ownerProtocol);
    assert done + gateway + owner == done + (gateway + owner);
  }

  method EncodeTail(a: array<Byte>, ghost done: seq<Byte>, p: Policy)
    requires a.Length == POLICY_BYTES && |done| == 224 && Filled(a, done)
    modifies a
    ensures a[..] == done + p.Tail()
  {
    match p.predecessor
    case None =>
      assert a[..] == done + p.Tail();
    case Some(v) =>
      CopyInto(a, done, 224, v.releaseBuild);
      CopyInto(a, done + v.releaseBuild, 256, v.gateway);
      CopyInto(a, done + v.releaseBuild + v.gateway, 288, v.owner);
      ghost var all := done + v.releaseBuild + v.gateway + v.owner;
      a[320] := PlatformTag(v.platform);
      a[321] := ArchitectureTag(v.architecture);
      assert forall i | 0 <= i < 320 :: a[i] == all[i];
      assert a[..] == all + ([PlatformTag(v.platform), ArchitectureTag(v.architecture)] + Zeros(6));
      ghost var rest := [PlatformTag(v.platform), ArchitectureTag(v.architecture)] + Zeros(6);
      assert all + rest == done + (v.releaseBuild + (v.gateway + (v.owner + rest)));
  }

  lemma BytesInParts(p: Policy)
    ensures p.Head() + p.Digests() + p.Protocols() + p.Tail() == p.Bytes()
  {
  }

  /** Fills the fixed buffer field by field. */
  method Encode(p: Policy) returns (r: Result<array<Byte>, PolicyError>)
    ensures r.Failure? <==> p.Fault().Some?
    ensures r.Failure? ==> Some(r.error) == p.Fault()
    ensures r.Success? ==> fresh(r.value) && r.value[..] == p.Bytes()
  {
    if p.Fault().Some? {
      return Failure(p.Fault().value);
    }
    var bytes := new Byte[POLICY_BYTES](_ => 0);
    EncodeHead(bytes, p);
    EncodeDigests(bytes, p);
    ghost var done := p.Head() + p.Digests();
    EncodeProtocols(bytes, done, p);
    EncodeTail(bytes, done + p.Protocols(), p);
    BytesInParts(p);
    assert bytes[..] == bytes[..POLICY_BYTES];
    return Success(bytes);
  }
}
