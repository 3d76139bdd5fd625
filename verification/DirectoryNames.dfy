/** Reading a directory listing out of the linked records the kernel fills a buffer with. */
module DirectoryNames {
  import opened Bytes
  import opened Wrappers

  type Name = seq<U16>

  datatype ListingError = IdentityMismatch | Io

  const HEADER: nat := 12
  const DOT: U16 := 46

  predicate Special(name: Name) { name == [DOT] || name == [DOT, DOT] }

  function Keep(name: Name): seq<Name> { if Special(name) then [] else [name] }

  function ReadU32(buffer: seq<Byte>, offset: nat): (r: U32)
    requires offset + 4 <= |buffer|
  {
    buffer[offset] as int + 256 * (buffer[offset + 1] as int + 256 * Unit(buffer[offset + 2], buffer[offset + 3]))
  }

  function U32Bytes(n: U32): (r: seq<Byte>)
    ensures |r| == 4
  {
    [n % 256, n / 256 % 256, n / 256 / 256 % 256, n / 256 / 256 / 256]
  }

  function Unit(low: Byte, high: Byte): (r: U16) { low as int + 256 * high as int }

  function ReadName(buffer: seq<Byte>, offset: nat, units: nat): (r: Name)
    requires offset + 2 * units <= |buffer|
    ensures |r| == units
  {
    seq(units, i requires 0 <= i < units => Unit(buffer[offset + 2 * i], buffer[offset + 2 * i + 1]))
  }

  /** The link and the name of the record at `offset`, unless it runs past the used part. */
  function RecordAt(buffer: seq<Byte>, used: nat, offset: nat): (r: Option<(U32, Name)>)
    requires used <= |buffer|
    ensures r.Some? ==> offset + HEADER <= used
  {
    if offset + HEADER > used then None
    else
      var bytes := ReadU32(buffer, offset + 8);
      if bytes % 2 != 0 || offset + HEADER + bytes > used then None
      else Some((ReadU32(buffer, offset), ReadName(buffer, offset + HEADER, bytes / 2)))
  }

  type Reader = nat -> Option<(U32, Name)>

  function RecordsOf(buffer: seq<Byte>, used: nat): Reader
    requires used <= |buffer|
  {
    (offset: nat) => RecordAt(buffer, used, offset)
  }

  /** `found`, and after it the names of the records from `offset` on, in order, without "." and "..". */
  function Follow(read: Reader, used: nat, offset: nat, found: seq<Name>): (r: Result<seq<Name>, ListingError>)
    decreases used - offset
  {
    match read(offset)
    case None => Failure(IdentityMismatch)
    case Some((next, name)) =>
      if next == 0 then Success(found + Keep(name))
      else if next < HEADER || offset + next >= used then Failure(IdentityMismatch)
      else Follow(read, used, offset + next, found + Keep(name))
  }

  /** What the walk over a buffer finds in its used part. */
  function NamesIn(buffer: seq<Byte>, used: nat, found: seq<Name>): (r: Result<seq<Name>, ListingError>)
    requires used <= |buffer|
  {
    Follow(RecordsOf(buffer, used), used, 0, found)
  }

  lemma SameBytesSameName(a: seq<Byte>, b: seq<Byte>, offset: nat, units: nat)
    requires offset + 2 * units <= |a| && offset + 2 * units <= |b|
    requires forall k | offset <= k < offset + 2 * units :: a[k] == b[k]
    ensures ReadName(a, offset, units) == ReadName(b, offset, units)
  {
    forall i | 0 <= i < units
      ensures ReadName(a, offset, units)[i] == ReadName(b, offset, units)[i]
    {
    }
  }

  lemma RecordReadsOnlyTheUsedPart(a: seq<Byte>, b: seq<Byte>, used: nat, offset: nat)
    requires used <= |a| && used <= |b| && forall k | 0 <= k < used :: a[k] == b[k]
    ensures RecordAt(a, used, offset) == RecordAt(b, used, offset)
  {
    if offset + HEADER <= used {
      var bytes := ReadU32(a, offset + 8);
      assert bytes == ReadU32(b, offset + 8) && ReadU32(a, offset) == ReadU32(b, offset);
      if bytes % 2 == 0 && offset + HEADER + bytes <= used {
        SameBytesSameName(a, b, offset + HEADER, bytes / 2);
      }
    }
  }

  lemma {:induction false} SameRecordsSameNames(f: Reader, g: Reader, used: nat, offset: nat, found: seq<Name>)
    requires forall o: nat :: f(o) == g(o)
    ensures Follow(f, used, offset, found) == Follow(g, used, offset, found)
    decreases used - offset
  {
    match f(offset)
    case None =>
    case Some((next, name)) =>
      if next >= HEADER && offset + next < used {
        SameRecordsSameNames(f, g, used, offset + next, found + Keep(name));
      }
  }

  /** Bytes past the used part have no influence. */
  lemma ReadsOnlyTheUsedPart(a: seq<Byte>, b: seq<Byte>, used: nat, found: seq<Name>)
    requires used <= |a| && used <= |b| && a[..used] == b[..used]
    ensures NamesIn(a, used, found) == NamesIn(b, used, found)
  {
    assert forall k | 0 <= k < used :: a[k] == a[..used][k] == b[k];
    forall o: nat
      ensures RecordsOf(a, used)(o) == RecordsOf(b, used)(o)
    {
      RecordReadsOnlyTheUsedPart(a, b, used, o);
    }
    SameRecordsSameNames(RecordsOf(a, used), RecordsOf(b, used), used, 0, found);
  }

  // -------------------------------------------------------------------------
  // Which buffers are accepted

  /** The offsets of the records from `offset` on: each whole, each linked behind its own header, the last one to none. */
  ghost predicate Trail(read: Reader, used: nat, offset: nat, trail: seq<nat>) {
    && trail != [] && trail[0] == offset
    && (forall i | 0 <= i < |trail| :: read(trail[i]).Some?)
    && (forall i | 0 <= i < |trail| - 1 ::
          read(trail[i]).value.0 >= 12 && trail[i + 1] == trail[i] + read(trail[i]).value.0 < used)
    && read(trail[|trail| - 1]).value.0 == 0
  }

  lemma {:induction false} TrailIsFollowed(read: Reader, used: nat, offset: nat, found: seq<Name>, trail: seq<nat>)
    requires Trail(read, used, offset, trail)
    ensures Follow(read, used, offset, found).Success?
    decreases |trail|
  {
    if |trail| > 1 {
      var (next, name) := read(offset).value;
      var rest := trail[1..];
      assert forall i | 0 <= i < |rest| :: rest[i] == trail[i + 1];
      TrailIsFollowed(read, used, offset + next, found + Keep(name), rest);
    }
  }

  lemma {:induction false} FollowedIsTrail(read: Reader, used: nat, offset: nat, found: seq<Name>) returns (trail: seq<nat>)
    requires Follow(read, used, offset, found).Success?
    ensures Trail(read, used, offset, trail)
    decreases used - offset
  {
    var (next, name) := read(offset).value;
    trail := [offset];
    if next != 0 {
      var rest := FollowedIsTrail(read, used, offset + next, found + Keep(name));
      trail := [offset] + rest;
      assert forall i | 0 < i < |trail| :: trail[i] == rest[i - 1];
    }
  }

  /** A buffer is accepted exactly when its used part is such a trail of records. */
  lemma AcceptsExactlyTrails(buffer: seq<Byte>, used: nat, found: seq<Name>)
    requires used <= |buffer|
    ensures NamesIn(buffer, used, found).Success? <==> exists trail :: Trail(RecordsOf(buffer, used), used, 0, trail)
  {
    var read := RecordsOf(buffer, used);
    if NamesIn(buffer, used, found).Success? {
      var trail := FollowedIsTrail(read, used, 0, found);
    }
    if trail :| Trail(read, used, 0, trail) {
      TrailIsFollowed(read, used, 0, found, trail);
    }
  }

  /** What every directory lists for itself and for its parent, "." and "..", in UTF-16. */
  ghost predicate NamesItselfOrParent(name: Name) { name == [46] || name == [46, 46] }

  ghost predicate Undotted(names: seq<Name>) {
    forall name | name in names :: !NamesItselfOrParent(name)
  }

  lemma {:induction false} FollowFindsNoDots(read: Reader, used: nat, offset: nat, found: seq<Name>)
    requires Undotted(found)
    ensures Follow(read, used, offset, found).Success? ==> Undotted(Follow(read, used, offset, found).value)
    decreases used - offset
  {
    match read(offset)
    case None =>
    case Some((next, name)) =>
      assert Undotted(found + Keep(name));
      if next >= HEADER && offset + next < used {
        FollowFindsNoDots(read, used, offset + next, found + Keep(name));
      }
  }

  // -------------------------------------------------------------------------
  // Well-formed chains

  /** A record before its link is filled in; padding aligns the record after it. */
  datatype Record = Record(name: Name, index: seq<Byte>, padding: seq<Byte>) {
    function Size(): nat { HEADER + 2 * |name| + |padding| }

    predicate Valid() { |index| == 4 && Size() <= U32_MAX }
  }

  function NameBytes(name: Name): (r: seq<Byte>)
    ensures |r| == 2 * |name|
  {
    seq(2 * |name|, k requires 0 <= k < 2 * |name| => if k % 2 == 0 then name[k / 2] % 256 else name[k / 2] / 256)
  }

  function Head(r: Record, next: U32): (bytes: seq<Byte>)
    requires r.Valid()
    ensures |bytes| == r.Size()
  {
    U32Bytes(next) + r.index + U32Bytes(2 * |r.name|) + NameBytes(r.name) + r.padding
  }

  /** A chain of records, each linked to the next by its own size; the last link is zero. */
  function Chain(records: seq<Record>): (bytes: seq<Byte>)
    requires records != [] && forall i | 0 <= i < |records| :: records[i].Valid()
    ensures |bytes| >= HEADER
  {
    if |records| == 1 then Head(records[0], 0)
    else
      assert records[0].Valid();
      Head(records[0], records[0].Size()) + Chain(records[1..])
  }

  function KeptNames(records: seq<Record>): seq<Name> {
    if records == [] then [] else Keep(records[0].name) + KeptNames(records[1..])
  }

  lemma {:induction false} KeptNamesInParts(a: seq<Record>, b: seq<Record>)
    ensures KeptNames(a + b) == KeptNames(a) + KeptNames(b)
  {
    if a == [] {
      assert a + b == b;
    } else {
      assert (a + b)[0] == a[0] && (a + b)[1..] == a[1..] + b;
      KeptNamesInParts(a[1..], b);
      Associative(Keep(a[0].name), KeptNames(a[1..]), KeptNames(b));
    }
  }

  /** Exactly these two names are dropped; every other one is kept where it stands, once. */
  lemma KeepsAllButTheDots(before: seq<Record>, r: Record, after: seq<Record>)
    ensures KeptNames(before + [r] + after)
      == KeptNames(before) + (if NamesItselfOrParent(r.name) then [] else [r.name]) + KeptNames(after)
  {
    KeptNamesInParts(before + [r], after);
    KeptNamesInParts(before, [r]);
    assert [r][1..] == [] && Keep(r.name) + [] == Keep(r.name);
  }

  lemma {:induction false} NoDotsAreKept(records: seq<Record>)
    ensures Undotted(KeptNames(records))
  {
    if records != [] {
      NoDotsAreKept(records[1..]);
    }
  }

  /** `piece` lies in the buffer at `offset`. */
  ghost predicate At(buffer: seq<Byte>, offset: nat, piece: seq<Byte>) {
    offset + |piece| <= |buffer| && buffer[offset..offset + |piece|] == piece
  }

  lemma AtInParts(buffer: seq<Byte>, offset: nat, a: seq<Byte>, b: seq<Byte>)
    requires At(buffer, offset, a + b)
    ensures At(buffer, offset, a) && At(buffer, offset + |a|, b)
  {
    var whole := buffer[offset..offset + |a| + |b|];
    assert whole[..|a|] == a && whole[|a|..] == b;
  }

  lemma NumberReadsBack(buffer: seq<Byte>, offset: nat, n: U32)
    requires At(buffer, offset, U32Bytes(n))
    ensures ReadU32(buffer, offset) == n
  {
    var bytes := buffer[offset..offset + 4];
    assert forall k | 0 <= k < 4 :: bytes[k] == buffer[offset + k];
    var a, b := n / 256, n / 256 / 256;
    assert n == 256 * a + n % 256 && a == 256 * b + a % 256 && b == Unit(b % 256, b / 256);
  }

  /** Where the parts of a record lie. */
  lemma HeadInParts(buffer: seq<Byte>, offset: nat, r: Record, next: U32)
    requires r.Valid() && At(buffer, offset, Head(r, next))
    ensures At(buffer, offset, U32Bytes(next))
    ensures At(buffer, offset + 8, U32Bytes(2 * |r.name|))
    ensures At(buffer, offset + HEADER, NameBytes(r.name))
  {
    var link, length, name := U32Bytes(next), U32Bytes(2 * |r.name|), NameBytes(r.name);
    AtInParts(buffer, offset, link + r.index + length + name, r.padding);
    AtInParts(buffer, offset, link + r.index + length, name);
    AtInParts(buffer, offset, link + r.index, length);
    AtInParts(buffer, offset, link, r.index);
  }

  /** What a record is read back as, wherever it lies. */
  lemma HeadReadsBack(buffer: seq<Byte>, offset: nat, r: Record, next: U32, used: nat)
    requires r.Valid() && At(buffer, offset, Head(r, next)) && offset + r.Size() <= used <= |buffer|
    ensures RecordAt(buffer, used, offset) == Some((next, r.name))
  {
    HeadInParts(buffer, offset, r, next);
    NumberReadsBack(buffer, offset, next);
    NumberReadsBack(buffer, offset + 8, 2 * |r.name|);
    NameReadsBack(buffer, offset + HEADER, r.name);
    assert 2 * |r.name| / 2 == |r.name| && 2 * |r.name| % 2 == 0;
  }

  lemma NameReadsBack(buffer: seq<Byte>, offset: nat, name: Name)
    requires At(buffer, offset, NameBytes(name))
    ensures ReadName(buffer, offset, |name|) == name
  {
    var bytes := NameBytes(name);
    assert forall k | 0 <= k < |bytes| :: buffer[offset + k] == bytes[k];
    forall i | 0 <= i < |name|
      ensures ReadName(buffer, offset, |name|)[i] == name[i]
    {
      assert buffer[offset + 2 * i] == bytes[2 * i] == name[i] % 256;
      assert buffer[offset + (2 * i + 1)] == bytes[2 * i + 1] == name[i] / 256;
    }
  }

  lemma NumberIsThere(buffer: seq<Byte>, offset: nat)
    requires offset + 4 <= |buffer|
    ensures At(buffer, offset, U32Bytes(ReadU32(buffer, offset)))
  {
    var n: int := ReadU32(buffer, offset);
    var c: int := Unit(buffer[offset + 2], buffer[offset + 3]);
    var b: int := buffer[offset + 1] as int + 256 * c;
    assert n == buffer[offset] as int + 256 * b;
    assert n / 256 == b && n / 256 / 256 == c && n / 256 / 256 / 256 == buffer[offset + 3];
    assert n % 256 == buffer[offset] && b % 256 == buffer[offset + 1] && c % 256 == buffer[offset + 2];
    var bytes := buffer[offset..offset + 4];
    assert bytes == [bytes[0], bytes[1], bytes[2], bytes[3]];
  }

  lemma NameIsThere(buffer: seq<Byte>, offset: nat, units: nat)
    requires offset + 2 * units <= |buffer|
    ensures At(buffer, offset, NameBytes(ReadName(buffer, offset, units)))
  {
    var name := ReadName(buffer, offset, units);
    var there := buffer[offset..offset + 2 * units];
    forall k | 0 <= k < 2 * units
      ensures there[k] == NameBytes(name)[k]
    {
      assert name[k / 2] == Unit(buffer[offset + 2 * (k / 2)], buffer[offset + 2 * (k / 2) + 1]);
      assert k == 2 * (k / 2) + k % 2;
    }
  }

  /** Exactly when a record is read: its bytes, from its link to the last of its name, stand in the used part. */
  lemma RecordIsReadExactlyWhen(buffer: seq<Byte>, used: nat, offset: nat, next: U32, name: Name)
    requires used <= |buffer|
    ensures RecordAt(buffer, used, offset) == Some((next, name)) <==>
      exists index: seq<Byte> :: StandsAt(buffer, used, offset, next, index, name)
  {
    if RecordAt(buffer, used, offset) == Some((next, name)) {
      var index := buffer[offset + 4..offset + 8];
      NumberIsThere(buffer, offset);
      NumberIsThere(buffer, offset + 8);
      NameIsThere(buffer, offset + HEADER, |name|);
      assert 2 * |name| == ReadU32(buffer, offset + 8);
      assert StandsAt(buffer, used, offset, next, index, name);
    }
    if index: seq<Byte> :| StandsAt(buffer, used, offset, next, index, name) {
      NumberReadsBack(buffer, offset, next);
      NumberReadsBack(buffer, offset + 8, 2 * |name|);
      NameReadsBack(buffer, offset + 12, name);
      assert 2 * |name| / 2 == |name| && 2 * |name| % 2 == 0;
    }
  }

  /** Link, index, length of the name and the name, at the places the kernel gives them. */
  ghost predicate StandsAt(buffer: seq<Byte>, used: nat, offset: nat, next: U32, index: seq<Byte>, name: Name) {
    && |index| == 4 && offset + 12 + 2 * |name| <= used && 2 * |name| <= U32_MAX
    && At(buffer, offset, U32Bytes(next)) && At(buffer, offset + 4, index)
    && At(buffer, offset + 8, U32Bytes(2 * |name|)) && At(buffer, offset + 12, NameBytes(name))
  }

  /** The records are read one after the other from `offset` on. */
  ghost predicate Linked(read: Reader, used: nat, offset: nat, records: seq<Record>)
    requires records != []
    decreases |records|
  {
    && read(offset) == Some((if |records| == 1 then 0 else records[0].Size(), records[0].name))
    && (|records| > 1 ==>
          offset + records[0].Size() < used && Linked(read, used, offset + records[0].Size(), records[1..]))
  }

  lemma {:induction false} LinkedIsFollowed(read: Reader, used: nat, offset: nat, records: seq<Record>, found: seq<Name>)
    requires records != [] && Linked(read, used, offset, records)
    ensures Follow(read, used, offset, found) == Success(found + KeptNames(records))
    decreases |records|
  {
    var name := records[0].name;
    if |records| == 1 {
      assert records[1..] == [] && Keep(name) + [] == Keep(name);
    } else {
      LinkedIsFollowed(read, used, offset + records[0].Size(), records[1..], found + Keep(name));
      Associative(found, Keep(name), KeptNames(records[1..]));
    }
  }

  lemma Associative(a: seq<Name>, b: seq<Name>, c: seq<Name>)
    ensures a + b + c == a + (b + c)
  {
  }

  /** Where every record of a chain lies. */
  ghost predicate Lies(buffer: seq<Byte>, offset: nat, records: seq<Record>)
    requires records != [] && forall i | 0 <= i < |records| :: records[i].Valid()
    decreases |records|
  {
    var r := records[0];
    && r.Valid()
    && At(buffer, offset, Head(r, if |records| == 1 then 0 else r.Size()))
    && (|records| > 1 ==> Lies(buffer, offset + r.Size(), records[1..]))
  }

  lemma {:induction false} ChainLies(buffer: seq<Byte>, offset: nat, records: seq<Record>)
    requires records != [] && forall i | 0 <= i < |records| :: records[i].Valid()
    requires At(buffer, offset, Chain(records))
    ensures Lies(buffer, offset, records)
    decreases |records|
  {
    var r := records[0];
    assert r.Valid();
    if |records| > 1 {
      AtInParts(buffer, offset, Head(r, r.Size()), Chain(records[1..]));
      ChainLies(buffer, offset + r.Size(), records[1..]);
    }
  }

  lemma ReadAt(buffer: seq<Byte>, offset: nat, r: Record, next: U32, used: nat)
    requires r.Valid() && At(buffer, offset, Head(r, next)) && offset + r.Size() <= used <= |buffer|
    ensures RecordsOf(buffer, used)(offset) == Some((next, r.name))
  {
    HeadReadsBack(buffer, offset, r, next, used);
  }

  lemma LinkedOneMore(read: Reader, used: nat, offset: nat, records: seq<Record>)
    requires |records| > 1 && read(offset) == Some((records[0].Size(), records[0].name))
    requires offset + records[0].Size() < used && Linked(read, used, offset + records[0].Size(), records[1..])
    ensures Linked(read, used, offset, records)
  {
  }

  lemma {:induction false} LiesIsLinked(buffer: seq<Byte>, used: nat, offset: nat, records: seq<Record>, read: Reader)
    requires records != [] && forall i | 0 <= i < |records| :: records[i].Valid()
    requires Lies(buffer, offset, records) && offset + |Chain(records)| <= used <= |buffer|
    requires forall o: nat, r: Record, next: U32 |
      r.Valid() && At(buffer, o, Head(r, next)) && o + r.Size() <= used :: read(o) == Some((next, r.name))
    ensures Linked(read, used, offset, records)
    decreases |records|
  {
    if |records| > 1 {
      LiesIsLinked(buffer, used, offset + records[0].Size(), records[1..], read);
      LinkedOneMore(read, used, offset, records);
    }
  }

  /** A well-formed chain is read back name by name, whatever the rest of the buffer holds. */
  lemma ChainReadsBack(records: seq<Record>, after: seq<Byte>, found: seq<Name>)
    requires records != [] && forall i | 0 <= i < |records| :: records[i].Valid()
    ensures NamesIn(Chain(records) + after, |Chain(records)|, found) == Success(found + KeptNames(records))
    ensures Undotted(KeptNames(records))
  {
    NoDotsAreKept(records);
    var buffer, used := Chain(records) + after, |Chain(records)|;
    ChainLies(buffer, 0, records);
    forall o: nat, r: Record, next: U32 | r.Valid() && At(buffer, o, Head(r, next)) && o + r.Size() <= used
      ensures RecordsOf(buffer, used)(o) == Some((next, r.name))
    {
      ReadAt(buffer, o, r, next, used);
    }
    LiesIsLinked(buffer, used, 0, records, RecordsOf(buffer, used));
    LinkedIsFollowed(RecordsOf(buffer, used), used, 0, records, found);
  }

  // -------------------------------------------------------------------------
  // The walk and the queries

  /** One query of a directory handle: a filled buffer, the end of the listing, or a failure. */
  datatype Answer = Filled(information: nat, buffer: seq<Byte>) | NoMoreFiles | Failed

  function Used(a: Answer): (r: nat)
    requires a.Filled?
    ensures r <= |a.buffer|
  {
    if a.information < |a.buffer| then a.information else |a.buffer|
  }

  /** `found`, and after it the names in a run of answers up to the end of the listing. */
  function ListingFrom(answers: seq<Answer>, found: seq<Name>): Result<seq<Name>, ListingError> {
    if answers == [] || answers[0] == NoMoreFiles then Success(found)
    else if answers[0] == Failed then Failure(Io)
    else match NamesIn(answers[0].buffer, Used(answers[0]), found)
      case Failure(error) => Failure(error)
      case Success(all) => ListingFrom(answers[1..], all)
  }

  /** Whatever the kernel hands out, no listing holds "." or "..". */
  lemma {:induction false} ListingHasNoDots(answers: seq<Answer>, found: seq<Name>)
    requires Undotted(found)
    ensures ListingFrom(answers, found).Success? ==> Undotted(ListingFrom(answers, found).value)
  {
    if answers != [] && answers[0].Filled? {
      var used := Used(answers[0]);
      FollowFindsNoDots(RecordsOf(answers[0].buffer, used), used, 0, found);
      var names := NamesIn(answers[0].buffer, used, found);
      if names.Success? {
        ListingHasNoDots(answers[1..], names.value);
      }
    }
  }

  /** A listing the kernel hands out as one well-formed chain after another. */
  ghost predicate Lists(answers: seq<Answer>, chains: seq<seq<Record>>) {
    && |answers| == |chains|
    && forall i | 0 <= i < |chains| ::
         && chains[i] != [] && (forall k | 0 <= k < |chains[i]| :: chains[i][k].Valid())
         && answers[i].Filled? && answers[i].information == |Chain(chains[i])| <= |answers[i].buffer|
         && answers[i].buffer[..answers[i].information] == Chain(chains[i])
  }

  function AllKept(chains: seq<seq<Record>>): seq<Name> {
    if chains == [] then [] else KeptNames(chains[0]) + AllKept(chains[1..])
  }

  lemma BufferReadsBack(a: Answer, records: seq<Record>, found: seq<Name>)
    requires records != [] && forall k | 0 <= k < |records| :: records[k].Valid()
    requires a.Filled? && a.information == |Chain(records)| <= |a.buffer| && a.buffer[..a.information] == Chain(records)
    ensures NamesIn(a.buffer, Used(a), found) == Success(found + KeptNames(records))
  {
    assert a.buffer == Chain(records) + a.buffer[a.information..];
    ChainReadsBack(records, a.buffer[a.information..], found);
  }

  /** Such a listing is read back in full, in order. */
  lemma {:induction false} ListingReadsBack(answers: seq<Answer>, chains: seq<seq<Record>>, found: seq<Name>)
    requires Lists(answers, chains)
    ensures ListingFrom(answers + [NoMoreFiles], found) == Success(found + AllKept(chains))
  {
    var all := answers + [NoMoreFiles];
    if chains == [] {
      assert all[0] == NoMoreFiles && found + [] == found;
    } else {
      assert all[0] == answers[0] && all[1..] == answers[1..] + [NoMoreFiles];
      BufferReadsBack(answers[0], chains[0], found);
      ListingReadsBack(answers[1..], chains[1..], found + KeptNames(chains[0]));
      Associative(found, KeptNames(chains[0]), AllKept(chains[1..]));
    }
  }

  method CopyName(buffer: seq<Byte>, offset: nat, bytes: nat) returns (name: Name)
    requires bytes % 2 == 0 && offset + bytes <= |buffer|
    ensures name == ReadName(buffer, offset, bytes / 2)
  {
    name := [];
    var index := offset;
    while index < offset + bytes
      invariant offset <= index <= offset + bytes && index == offset + 2 * |name|
      invariant forall i | 0 <= i < |name| :: name[i] == Unit(buffer[offset + 2 * i], buffer[offset + 2 * i + 1])
    {
      name := name + [Unit(buffer[index], buffer[index + 1])];
      index := index + 2;
    }
  }

  /** Reads the record at `offset`. */
  method ReadRecord(buffer: seq<Byte>, used: nat, offset: nat) returns (r: Option<(U32, Name)>)
    requires used <= |buffer|
    ensures r == RecordsOf(buffer, used)(offset)
    ensures r.Some? ==> offset + HEADER <= used
  {
    if offset + HEADER > used {
      return None;
    }
    var bytes := ReadU32(buffer, offset + 8);
    if bytes % 2 != 0 || offset + HEADER + bytes > used {
      return None;
    }
    var name := CopyName(buffer, offset + HEADER, bytes);
    return Some((ReadU32(buffer, offset), name));
  }

  method PushName(names: seq<Name>, name: Name) returns (all: seq<Name>)
    ensures all == names + Keep(name)
  {
    all := names;
    if !Special(name) {
      all := all + [name];
    }
  }

  /** Appends the names of one filled buffer. */
  method ReadRecords(buffer: seq<Byte>, used: nat, names: seq<Name>) returns (r: Result<seq<Name>, ListingError>)
    requires used <= |buffer|
    ensures r == NamesIn(buffer, used, names)
  {
    var all, offset := names, 0;
    while true
      invariant 0 <= offset <= used
      invariant Follow(RecordsOf(buffer, used), used, offset, all) == NamesIn(buffer, used, names)
      decreases used - offset
    {
      var record := ReadRecord(buffer, used, offset);
      if record.None? {
        return Failure(IdentityMismatch);
      }
      var next, name := record.value.0, record.value.1;
      all := PushName(all, name);
      if next == 0 {
        return Success(all);
      }
      if next < HEADER || offset + next >= used {
        return Failure(IdentityMismatch);
      }
      offset := offset + next;
    }
  }

  /** A directory handle: what is left to list, and the position of the next query. */
  class Directory {
    const answers: seq<Answer>
    var position: nat

    ghost predicate Valid()
      reads this
    {
      position <= |answers|
    }

    constructor (answers: seq<Answer>, position: nat)
      requires position <= |answers|
      ensures Valid() && this.answers == answers
    {
      this.answers := answers;
      this.position := position;
    }

    method Query(restart: bool) returns (a: Answer)
      requires Valid()
      modifies this`position
      ensures Valid()
      ensures var at := if restart then 0 else old(position);
        && a == (if at < |answers| then answers[at] else NoMoreFiles)
        && position == if at < |answers| then at + 1 else at
    {
      if restart {
        position := 0;
      }
      a := NoMoreFiles;
      if position < |answers| {
        a := answers[position];
        position := position + 1;
      }
    }

    /** Lists the whole directory from its start, whatever was listed before. */
    method DirectoryNames() returns (r: Result<seq<Name>, ListingError>)
      requires Valid()
      modifies this`position
      ensures Valid() && r == ListingFrom(answers, [])
      ensures r.Success? ==> Undotted(r.value)
    {
      ListingHasNoDots(answers, []);
      var names: seq<Name>, restart := [], true;
      ghost var at := 0;
      assert answers[0..] == answers;
      while true
        invariant Valid() && at <= |answers| && (!restart ==> position == at) && (restart ==> at == 0)
        invariant ListingFrom(answers[at..], names) == ListingFrom(answers, [])
        decreases |answers| - at
      {
        var a := Query(restart);
        restart := false;
        if a == NoMoreFiles {
          return Success(names);
        }
        assert answers[at..][1..] == answers[at + 1..];
        if a == Failed {
          return Failure(Io);
        }
        var found := ReadRecords(a.buffer, Used(a), names);
        if found.Failure? {
          return Failure(found.error);
        }
        names := found.value;
        at := at + 1;
      }
    }
  }
}
