/** The fixed 168-byte macOS installed-maintenance record; a blank record stands for none. */
module MaintenanceRecord {
  import opened Bytes
  import opened FixedBuffer
  import opened Wrappers

  const RECORD_BYTES: nat := 168
  const MAGIC: seq<Byte> := [0x54, 0x51, 0x4B, 0x4D, 0x32]

  datatype RecordError = Invalid

  datatype Phase = InProgress | InstallationComplete | RolledBack
  datatype Operation = Update | Uninstall | Rollback

  function PhaseTag(p: Phase): Byte { match p case InProgress => 1 case InstallationComplete => 2 case RolledBack => 3 }

  function PhaseOf(tag: Byte): Option<Phase> {
    if tag == 1 then Some(InProgress) else if tag == 2 then Some(InstallationComplete)
    else if tag == 3 then Some(RolledBack) else None
  }

  function OperationTag(o: Operation): Byte { match o case Update => 1 case Uninstall => 2 case Rollback => 3 }

  function OperationOf(tag: Byte): Option<Operation> {
    if tag == 1 then Some(Update) else if tag == 2 then Some(Uninstall) else if tag == 3 then Some(Rollback) else None
  }

  /** An absent digest is written as zeros. */
  function DigestBytes(d: Option<Digest>): Digest {
    match d case None => Zeros(32) case Some(value) => value
  }

  function DigestOf(b: Digest): Option<Digest> { if AllZero(b) then None else Some(b) }

  datatype Record = Record(
    phase: Phase, operation: Operation, transaction: Digest, sourceBuild: Digest,
    targetBuild: Option<Digest>, targetOwner: Option<Digest>, ownerHandoff: Digest)
  {
    predicate Valid() {
      && !AllZero(transaction) && !AllZero(sourceBuild) && !AllZero(ownerHandoff)
      && (targetBuild.Some? <==> targetOwner.Some?)
      && (operation == Uninstall <==> !(targetBuild.Some? && targetOwner.Some?))
      && !(phase == InstallationComplete && operation == Uninstall)
    }

    /** No digest that is present is written like an absent one. */
    predicate PresentTargetsNonzero() {
      (targetBuild.Some? ==> !AllZero(targetBuild.value)) && (targetOwner.Some? ==> !AllZero(targetOwner.value))
    }

    function Head(): (r: seq<Byte>)
      ensures |r| == 8
    {
      MAGIC + [PhaseTag(phase), OperationTag(operation), 0]
    }

    function Targets(): (r: seq<Byte>)
      ensures |r| == 64
    {
      DigestBytes(targetBuild) + DigestBytes(targetOwner)
    }

    function Bytes(): (r: seq<Byte>)
      ensures |r| == RECORD_BYTES
    {
      Head() + (transaction + (sourceBuild + (Targets() + ownerHandoff)))
    }
  }

  /**
   A record is valid exactly if its three own digests are present and it is an update or a rollback with both
   targets, or an uninstall without any that is still under way or was rolled back.
   */
  lemma ValidRecordsAre(r: Record)
    ensures r.Valid() <==>
      && (exists i | 0 <= i < 32 :: r.transaction[i] != 0)
      && (exists i | 0 <= i < 32 :: r.sourceBuild[i] != 0)
      && (exists i | 0 <= i < 32 :: r.ownerHandoff[i] != 0)
      && (if r.targetBuild.Some? then r.targetOwner.Some? && r.operation in {Update, Rollback}
          else r.targetOwner.None? && r.operation == Uninstall && r.phase in {InProgress, RolledBack})
  {
  }

  /** The first eight bytes: "TQKM2", the phase and the operation counted from one, and a zero. */
  lemma HeadLayout(r: Record)
    ensures |r.Bytes()| == 168
    ensures r.Bytes()[..8] == Text("TQKM2") + [
      (match r.phase case InProgress => 1 case InstallationComplete => 2 case RolledBack => 3),
      (match r.operation case Update => 1 case Uninstall => 2 case Rollback => 3), 0]
  {
    assert r.Bytes()[..8] == r.Head();
    assert Text("TQKM2") == MAGIC;
  }

  /** What the fields of a record's bytes say, when its tags are known. */
  function ReadRecord(b: seq<Byte>): Record
    requires |b| == RECORD_BYTES && PhaseOf(b[5]).Some? && OperationOf(b[6]).Some?
  {
    Record(PhaseOf(b[5]).value, OperationOf(b[6]).value, b[8..40], b[40..72],
           DigestOf(b[72..104]), DigestOf(b[104..136]), b[136..168])
  }

  function Decode(b: seq<Byte>): (r: Result<Option<Record>, RecordError>) {
    if |b| != RECORD_BYTES then Failure(Invalid)
    else if AllZero(b) then Success(None)
    else if b[..5] != MAGIC || b[7] != 0 then Failure(Invalid)
    else if PhaseOf(b[5]).None? || OperationOf(b[6]).None? then Failure(Invalid)
    else if !ReadRecord(b).Valid() then Failure(Invalid)
    else Success(Some(ReadRecord(b)))
  }

  method Encode(r: Record) returns (result: Result<array<Byte>, RecordError>)
    ensures result.Success? <==> r.Valid()
    ensures result.Success? ==> fresh(result.value) && result.value[..] == r.Bytes()
  {
    if !r.Valid() {
      return Failure(Invalid);
    }
    var bytes := new Byte[RECORD_BYTES](_ => 0);
    EncodeHead(bytes, r);
    ghost var head := r.Head();
    CopyInto(bytes, head, 8, r.transaction);
    CopyInto(bytes, head + r.transaction, 40, r.sourceBuild);
    ghost var done := head + r.transaction + r.sourceBuild;
    EncodeTarget(bytes, done, 72, r.targetBuild);
    EncodeTarget(bytes, done + DigestBytes(r.targetBuild), 104, r.targetOwner);
    assert done + DigestBytes(r.targetBuild) + DigestBytes(r.targetOwner) == done + r.Targets();
    CopyInto(bytes, done + r.Targets(), 136, r.ownerHandoff);
    assert done + r.Targets() + r.ownerHandoff == r.Bytes();
    assert bytes[..RECORD_BYTES] == bytes[..];
    return Success(bytes);
  }

  method EncodeHead(a: array<Byte>, r: Record)
    requires a.Length == RECORD_BYTES && Filled(a, [])
    modifies a
    ensures Filled(a, r.Head())
  {
    CopyInto(a, [], 0, MAGIC);
    assert [] + MAGIC == MAGIC;
    a[5] := PhaseTag(r.phase);
    a[6] := OperationTag(r.operation);
    assert forall i | 0 <= i < 5 :: a[i] == MAGIC[i];
    assert forall i | 0 <= i < 8 :: a[i] == r.Head()[i];
  }

  method EncodeTarget(a: array<Byte>, ghost done: seq<Byte>, at: nat, target: Option<Digest>)
    requires at == |done| && at + 32 <= a.Length && Filled(a, done)
    modifies a
    ensures Filled(a, done + DigestBytes(target))
  {
    match target
    case Some(value) => CopyInto(a, done, at, value);
    case None =>
      assert forall i | 0 <= i < at :: a[i] == done[i];
      assert a[..at + 32] == done + Zeros(32);
  }

  // -------------------------------------------------------------------------

  lemma HeadIs(b: seq<Byte>, r: Record)
    requires |b| == RECORD_BYTES
    ensures b[0..8] == r.Head() <==>
      b[..5] == MAGIC && b[5] == PhaseTag(r.phase) && b[6] == OperationTag(r.operation) && b[7] == 0
  {
    SplitIs(b, 0, 8, MAGIC, [PhaseTag(r.phase), OperationTag(r.operation), 0]);
    assert b[5..8] == [b[5], b[6], b[7]];
  }

  lemma FieldsAre(b: seq<Byte>, r: Record)
    requires |b| == RECORD_BYTES
    ensures b == r.Bytes() <==>
      && b[0..8] == r.Head() && b[8..40] == r.transaction && b[40..72] == r.sourceBuild
      && b[72..104] == DigestBytes(r.targetBuild) && b[104..136] == DigestBytes(r.targetOwner)
      && b[136..168] == r.ownerHandoff
  {
    assert b[0..168] == b;
    SplitIs(b, 0, 168, r.Head(), r.transaction + (r.sourceBuild + (r.Targets() + r.ownerHandoff)));
    SplitIs(b, 8, 168, r.transaction, r.sourceBuild + (r.Targets() + r.ownerHandoff));
    SplitIs(b, 40, 168, r.sourceBuild, r.Targets() + r.ownerHandoff);
    SplitIs(b, 72, 168, r.Targets(), r.ownerHandoff);
    SplitIs(b, 72, 136, DigestBytes(r.targetBuild), DigestBytes(r.targetOwner));
  }

  /** A target reads back as itself exactly when it is not present and zero. */
  lemma TargetReadsBack(d: Option<Digest>)
    ensures DigestOf(DigestBytes(d)) == d <==> d.Some? ==> !AllZero(d.value)
  {
  }

  lemma TargetRewritesTo(b: Digest)
    ensures DigestBytes(DigestOf(b)) == b
  {
    ZerosAre(b);
  }

  /** A blob decodes to a record exactly when the record is valid, its present targets are not zero, and it encodes to the blob. */
  lemma DecodesExactlyEncodings(b: seq<Byte>, r: Record)
    ensures Decode(b) == Success(Some(r)) <==> r.Valid() && r.PresentTargetsNonzero() && b == r.Bytes()
  {
    if |b| == RECORD_BYTES {
      HeadIs(b, r);
      FieldsAre(b, r);
      TargetReadsBack(r.targetBuild);
      TargetReadsBack(r.targetOwner);
      TargetRewritesTo(b[72..104]);
      TargetRewritesTo(b[104..136]);
      assert b[..5] == MAGIC ==> b[0] == 0x54;
    }
  }

  /** Every accepted record is valid and re-encodes to the same bytes. */
  lemma AcceptedReencodes(b: seq<Byte>)
    requires Decode(b).Success? && Decode(b).value.Some?
    ensures Decode(b).value.value.Valid() && Decode(b).value.value.Bytes() == b
  {
    DecodesExactlyEncodings(b, Decode(b).value.value);
  }

  /** "None" is read from the blank record and from no other. */
  lemma NoneIsBlank(b: seq<Byte>)
    ensures Decode(b) == Success(None) <==> b == Zeros(RECORD_BYTES)
  {
    ZerosAre(b);
  }

  /** A valid record survives the wire exactly when its present targets are not zero; otherwise it is refused. */
  lemma RoundTripsExactlyWhen(r: Record)
    requires r.Valid()
    ensures Decode(r.Bytes()) == if r.PresentTargetsNonzero() then Success(Some(r)) else Failure(Invalid)
  {
    var b := r.Bytes();
    DecodesExactlyEncodings(b, r);
    HeadIs(b, r);
    FieldsAre(b, r);
    if !r.PresentTargetsNonzero() {
      assert b[0] == 0x54;
      ZerosAre(b[72..104]);
      ZerosAre(b[104..136]);
    }
  }

  /** A valid update whose target digests are present and zero is written but not read back. */
  lemma ZeroTargetIsRefused()
    ensures var one := seq(32, _ => 1); var zero := Zeros(32);
      var r := Record(InProgress, Update, one, one, Some(zero), Some(zero), one);
      r.Valid() && Decode(r.Bytes()) == Failure(Invalid)
  {
    var one: seq<Byte>, zero := seq(32, _ => 1), Zeros(32);
    assert one[0] == 1;
    RoundTripsExactlyWhen(Record(InProgress, Update, one, one, Some(zero), Some(zero), one));
  }
}
