/**
 Publication and recovery of the cleanup record, operation by operation, on a
 directory whose last operations are lost with the power.
 */
module RecordFolder {
  import opened Bytes
  import opened CleanupRecord
  import opened Wrappers

  /** `Interrupted` is an I/O error or the death of the process before the next operation. */
  datatype Outcome = Done | Refused(error: RecordError) | Interrupted

  datatype Step =
    | Publication(n: Nonce, bytes: Contents, expected: Option<Digest>)
    | BackupRecovery
    | PendingRecovery(n: Nonce, digest: Digest)
    | PowerFailure(i: nat)

  /**
   The directory of one record. `versions` holds every state it went through since the last flush: the
   first is on disk, the last is what processes see, and a power loss leaves any one of them.
   A process that dies leaves `versions` as it is. `log` lists the records that reached the disk.
   */
  class RecordFolder {
    const env: Env
    const id: string
    const reliable: bool
    var versions: seq<Dir>
    ghost const origin: Option<Contents>
    ghost var log: seq<Contents>
    /** Every call and power failure, in order. */
    ghost var calls: seq<Step>

    ghost predicate Admissible(d: Dir)
      reads this`log
    {
      && Sound(env, id, d)
      && (Head(d) == Tip(origin, log) || (Head(d).Some? && Follows(env, id, Tip(origin, log), Head(d).value)))
    }

    ghost predicate Valid()
      reads this`versions, this`log
    {
      && |versions| > 0
      && Chain(env, id, origin, log)
      && (forall v | v in versions :: Admissible(v))
      && Head(versions[0]) == Tip(origin, log)
    }

    function Now(): Dir
      reads this`versions
      requires |versions| > 0
    {
      versions[|versions| - 1]
    }

    constructor (env: Env, id: string, record: Option<Contents>, reliable: bool)
      ensures Valid() && this.env == env && this.id == id && this.reliable == reliable
      ensures versions == [Clean(record)] && origin == record && log == [] && calls == []
    {
      this.env, this.id, this.reliable := env, id, reliable;
      versions, origin, log, calls := [Clean(record)], record, [], [];
    }

    // -----------------------------------------------------------------------
    // Primitive operations

    /** Performs one name or data operation, or fails and leaves everything as it is. */
    method Perform(after: Dir) returns (up: bool)
      requires Valid() && Admissible(after)
      modifies this`versions
      ensures Valid() && (reliable ==> up)
      ensures versions == if up then old(versions) + [after] else old(versions)
    {
      up := true;
      if !reliable { up := *; }
      if up { versions := versions + [after]; }
    }

    ghost method Advance(d: Dir)
      requires Valid() && d in versions
      modifies this`log
      ensures Chain(env, id, origin, log) && Head(d) == Tip(origin, log) && old(log) <= log
      ensures Head(d) == old(Tip(origin, log)) ==> log == old(log)
      ensures |log| <= |old(log)| + 1
    {
      if Head(d) != Tip(origin, log) {
        var next := log + [Head(d).value];
        assert forall i | 0 <= i < |log| :: next[..i] == log[..i];
        assert next[..|log|] == log;
        log := next;
      }
    }

    /** Flushes the directory: what processes see is on disk. */
    method Flush() returns (up: bool)
      requires Valid()
      modifies this`versions, this`log
      ensures Valid() && (reliable ==> up) && old(log) <= log && |log| <= |old(log)| + 1
      ensures up ==> versions == [old(Now())] && Head(Now()) == Tip(origin, log)
      ensures !up ==> versions == old(versions) && log == old(log)
    {
      up := true;
      if !reliable { up := *; }
      if up {
        Advance(Now());
        versions := [Now()];
      }
    }

    /** The power fails and the operations after version `i` are lost. */
    method PowerLoss(i: nat)
      requires Valid() && i < |versions|
      modifies this`versions, this`log, this`calls
      ensures Valid() && old(log) <= log
      ensures versions == [old(versions)[i]] && calls == old(calls) + [PowerFailure(i)]
    {
      calls := calls + [PowerFailure(i)];
      Advance(versions[i]);
      versions := [versions[i]];
    }

    method PerformFlushed(after: Dir) returns (up: bool)
      requires Valid() && Admissible(after)
      modifies this`versions, this`log
      ensures Valid() && (reliable ==> up) && old(log) <= log
      ensures forall v | v in versions :: v in old(versions) || v == after
      ensures up ==> versions == [after] && Head(after) == Tip(origin, log)
    {
      up := Perform(after);
      if up { up := Flush(); }
    }

    /** Marks a file for deletion, or fails or dies before it. */
    method MarkDeleted() returns (up: bool)
      ensures reliable ==> up
    {
      up := true;
      if !reliable { up := *; }
    }

    /** Removes a file marked for deletion; the name goes when its handle closes, whatever else failed. */
    method CloseDeleted(after: Dir)
      requires Valid() && Admissible(after)
      modifies this`versions
      ensures Valid() && versions == old(versions) + [after]
    {
      versions := versions + [after];
    }

    /** Deletes a file by its handle: the mark, a flush, and the name going with the handle; nothing without the mark. */
    method DeleteFile(after: Dir) returns (up: bool, ghost marked: bool)
      requires Valid() && Sound(env, id, after) && Head(after) == Head(Now())
      modifies this`versions, this`log
      ensures Valid() && (reliable ==> up) && old(log) <= log
      ensures forall v | v in versions :: v in old(versions) || v == after
      ensures up ==> versions == [old(Now()), after] && Head(after) == Tip(origin, log)
      ensures if marked then Now() == after else !up && versions == old(versions)
    {
      assert Admissible(Now());
      up := MarkDeleted();
      marked := up;
      if !up { return; }
      up := Flush();
      CloseDeleted(after);
    }

    // -----------------------------------------------------------------------
    // Publication

    /** A publication of `bytes` may begin in `d`, which is on disk. */
    ghost predicate Startable(d: Dir, n: Nonce, bytes: Contents)
      reads this
    {
      && Sound(env, id, d) && AllTorn(env, d) && n !in d.pending && Head(d) == Tip(origin, log)
      && Follows(env, id, d.current, bytes) && PrefixSafe(env, bytes)
    }

    /** Extends the temporary to its first `k` bytes. */
    method WriteChunk(ghost d: Dir, n: Nonce, bytes: Contents, k: nat) returns (up: bool)
      requires Valid() && k <= |bytes| && Startable(d, n, bytes)
      requires Now().current == d.current && Now().previous == d.previous
      requires Now().pending[n := bytes[..k]] == d.pending[n := bytes[..k]]
      modifies this`versions
      ensures Valid() && (reliable ==> up) && PublishStage(d, n, bytes, Written(d, n, bytes, k))
      ensures versions == if up then old(versions) + [Written(d, n, bytes, k)] else old(versions)
    {
      var after := Now().(pending := Now().pending[n := bytes[..k]]);
      assert after == Written(d, n, bytes, k);
      PublishStagesAreSound(env, id, d, n, bytes, after);
      up := Perform(after);
    }

    /** Writes the temporary in chunks of any size; every chunk boundary is a place to stop. */
    method Write(ghost d: Dir, n: Nonce, bytes: Contents) returns (up: bool)
      requires Valid() && Startable(d, n, bytes) && Now() == Written(d, n, bytes, 0)
      modifies this`versions
      ensures Valid() && (reliable ==> up)
      ensures forall v | v in versions :: v in old(versions) || PublishStage(d, n, bytes, v)
      ensures up ==> Now() == Written(d, n, bytes, |bytes|)
    {
      var offset := 0;
      up := true;
      while offset < |bytes|
        invariant offset <= |bytes| && Valid() && Now() == Written(d, n, bytes, offset)
        invariant forall v | v in versions :: v in old(versions) || PublishStage(d, n, bytes, v)
        invariant reliable ==> up
      {
        var written: int := *;
        if written < 1 || offset + written > |bytes| { written := |bytes| - offset; }
        up := WriteChunk(d, n, bytes, offset + written);
        if !up { return; }
        offset := offset + written;
      }
    }

    /** Creates the temporary, flushes its name, writes it and flushes what was written. */
    method WritePending(n: Nonce, bytes: Contents) returns (up: bool)
      requires Valid() && AllTorn(env, Now()) && n !in Now().pending
      requires Follows(env, id, Now().current, bytes) && PrefixSafe(env, bytes)
      modifies this`versions, this`log
      ensures Valid() && (reliable ==> up) && old(log) <= log
      ensures forall v | v in versions :: v in old(versions) || PublishStage(old(Now()), n, bytes, v)
      ensures up ==> versions == [Written(old(Now()), n, bytes, |bytes|)] && Head(Now()) == Tip(origin, log)
    {
      ghost var d := Now();
      assert Admissible(d);
      PublishStagesAreSound(env, id, d, n, bytes, Written(d, n, bytes, 0));
      assert bytes[..0] == [];
      up := Perform(Now().(pending := Now().pending[n := []]));
      if !up { return; }
      up := Flush();
      if !up { return; }
      up := Write(d, n, bytes);
      if !up { return; }
      up := Flush();
    }

    /** Moves the record aside, the temporary into its place, and retires the record that was set aside. */
    method Replace(n: Nonce) returns (up: bool)
      requires Valid() && Complete(env, Now(), n) && Now().current.Some? && Now().previous.None?
      modifies this`versions, this`log
      ensures Valid() && (reliable ==> up) && old(log) <= log
      ensures forall v | v in versions :: v in old(versions) || ReplaceStage(old(Now()), n, v)
      ensures up ==> versions == [SwappedIn(old(Now()), n), Replaced(old(Now()), n)]
      ensures up ==> Tip(origin, log) == Some(old(Now()).pending[n])
    {
      ghost var d := Now();
      assert Admissible(d);
      SwapKeepsFate(env, id, d, n);
      assert ReplaceStage(d, n, SwappedOut(d)) && ReplaceStage(d, n, SwappedIn(d, n));
      assert ReplaceStage(d, n, Replaced(d, n));
      up := PerformFlushed(Dir(Now().pending, None, Now().current));
      if !up { return; }
      assert Now() == SwappedOut(d);
      up := SwapIn(d, n);
    }

    /** The rest of a replacement, once the old record was moved aside. */
    method SwapIn(ghost d: Dir, n: Nonce) returns (up: bool)
      requires Valid() && Now() == SwappedOut(d) && n in d.pending
      requires Admissible(SwappedIn(d, n)) && Admissible(Replaced(d, n))
      modifies this`versions, this`log
      ensures Valid() && (reliable ==> up) && old(log) <= log
      ensures forall v | v in versions :: v in old(versions) || ReplaceStage(d, n, v)
      ensures up ==> versions == [SwappedIn(d, n), Replaced(d, n)]
      ensures up ==> Tip(origin, log) == Some(d.pending[n])
    {
      up := PerformFlushed(Dir(Now().pending - {n}, Some(Now().pending[n]), Now().previous));
      if !up { return; }
      assert Now() == SwappedIn(d, n);
      ghost var marked;
      up, marked := DeleteFile(Now().(previous := None));
    }

    /** Moves the temporary into the free place of the record. */
    method Install(n: Nonce) returns (up: bool)
      requires Valid() && Complete(env, Now(), n) && Now().current.None?
      requires Follows(env, id, None, Now().pending[n])
      modifies this`versions, this`log
      ensures Valid() && (reliable ==> up) && old(log) <= log
      ensures forall v | v in versions :: v in old(versions) || v == Installed(old(Now()), n)
      ensures up ==> versions == [Installed(old(Now()), n)]
      ensures up ==> Tip(origin, log) == Some(old(Now()).pending[n])
    {
      assert Admissible(Now());
      FateOfComplete(env, id, Now(), n);
      FateIsInstalled(env, id, Now(), n, Installed(Now(), n));
      up := PerformFlushed(Installed(Now(), n));
    }

    /** The digest that a publication over `current` must be given. */
    ghost function DigestOf(current: Option<Contents>): Option<Digest> {
      if current.None? then None else Some(env.sha(current.value))
    }

    function Installed(d: Dir, n: Nonce): Dir
      requires n in d.pending
    {
      Dir(d.pending - {n}, Some(d.pending[n]), d.previous)
    }

    /**
     Publishes `bytes` over the record whose digest is `expected`, through a temporary with a fresh name; a name
     that is taken fails the creation. No publication starts while a complete temporary is left (see
     LeftoverSettlesExactlyWhenTorn).
     */
    method Publish(n: Nonce, bytes: Contents, expected: Option<Digest>) returns (r: Outcome)
      requires Valid() && AllTorn(env, Now()) && PrefixSafe(env, bytes)
      modifies this`versions, this`log, this`calls
      ensures Valid() && old(log) <= log
      ensures forall v | v in versions :: v in old(versions) || PublishStage(old(Now()), n, bytes, v)
      ensures r.Done? ==> Now() == Dir(old(Now()).pending, Some(bytes), None) && Tip(origin, log) == Some(bytes)
      ensures r.Done? ==> forall v | v in versions :: Fate(env, v) == Clean(Some(bytes))
      ensures r.Refused? && r.error != PreviousExists ==> versions == old(versions)
      ensures r == Refused(PreviousExists) ==> Now() == Written(old(Now()), n, bytes, |bytes|)
      ensures n in old(Now()).pending ==> !r.Done? && versions == old(versions)
      ensures var checked := ValidateTransition(env, id, old(Now()).current, bytes, expected);
        && (checked.Failure? ==> r == Refused(checked.error))
        && (reliable && checked.Success? && n !in old(Now()).pending ==>
              r == if old(Now()).previous.None? then Done else Refused(PreviousExists))
      ensures versions != old(versions) || r.Done? ==>
        Follows(env, id, old(Now()).current, bytes) && expected == DigestOf(old(Now()).current)
      ensures expected != DigestOf(old(Now()).current) ==>
        r == Refused(if old(Now()).current.None? then ExpectedRecordAbsent else DigestChanged) && versions == old(versions)
      ensures calls == old(calls) + [Publication(n, bytes, expected)]
    {
      calls := calls + [Publication(n, bytes, expected)];
      TransitionAcceptsExactly(env, id, Now().current, bytes, expected);
      var checked := ValidateTransition(env, id, Now().current, bytes, expected);
      if checked.Failure? { return Refused(checked.error); }
      ghost var d := Now();
      assert Admissible(d);
      if n in Now().pending { return Interrupted; }
      var up := WritePending(n, bytes);
      if !up { return Interrupted; }
      r := Settle(d, n, bytes, expected);
    }

    /** The second half of a publication: the complete temporary becomes the record. */
    method Settle(ghost d: Dir, n: Nonce, bytes: Contents, expected: Option<Digest>) returns (r: Outcome)
      requires Valid() && Sound(env, id, d) && AllTorn(env, d) && n !in d.pending
      requires ValidateTransition(env, id, d.current, bytes, expected).Success?
      requires Now() == Written(d, n, bytes, |bytes|)
      modifies this`versions, this`log
      ensures Valid() && old(log) <= log
      ensures forall v | v in versions :: v in old(versions) || PublishStage(d, n, bytes, v)
      ensures r.Done? ==> Now() == Dir(d.pending, Some(bytes), None) && Tip(origin, log) == Some(bytes)
      ensures r.Done? ==> forall v | v in versions :: Fate(env, v) == Clean(Some(bytes))
      ensures r.Refused? ==> r.error == PreviousExists && Now() == old(Now())
      ensures reliable ==> r == if d.previous.None? then Done else Refused(PreviousExists)
    {
      assert bytes[..|bytes|] == bytes;
      assert Admissible(Now()) && Complete(env, Now(), n);
      ValidationAcceptsExactlySuccessors(env, id, d.current, bytes);
      FateOfTorn(env, id, d);
      ghost var whole := Now();
      FateOfComplete(env, id, whole, n);
      assert Replaced(whole, n).pending == d.pending;
      var up;
      if expected.Some? {
        if Now().previous.Some? { return Refused(PreviousExists); }
        assert env.sha(Now().current.value) == expected.value;
        assert ValidateBytes(env, id, Now().current, bytes).Success?;
        SwapKeepsFate(env, id, whole, n);
        assert ReplaceStage(whole, n, SwappedIn(whole, n)) && ReplaceStage(whole, n, Replaced(whole, n));
        up := Replace(n);
      } else {
        assert ValidateTransition(env, id, Now().current, bytes, None).Success?;
        FateIsInstalled(env, id, whole, n, Installed(whole, n));
        up := Install(n);
      }
      return if up then Done else Interrupted;
    }

    // -----------------------------------------------------------------------
    // Recovery

    method RecoverBackup() returns (r: Outcome)
      requires Valid()
      modifies this`versions, this`log, this`calls
      ensures Valid() && old(log) <= log && (reliable ==> !r.Interrupted?)
      ensures forall v | v in versions :: v in old(versions) || v in BackupStages(env, id, old(Now()))
      ensures r.Done? ==> BackupResult(env, id, old(Now())) == Success(Now())
      ensures r.Done? ==> forall v | v in versions :: SameFate(env, id, old(Now()), v)
      ensures r.Refused? ==> BackupResult(env, id, old(Now())) == Failure(r.error) && versions == old(versions)
      ensures calls == old(calls) + [BackupRecovery]
    {
      calls := calls + [BackupRecovery];
      assert Admissible(Now());
      BackupKeepsFate(env, id, Now());
      if !ValidNamespaceId(id) { return Refused(InvalidNamespaceId); }
      if Now().previous.None? { return Refused(NotFound); }
      if Now().current.Some? {
        match ValidateBytes(env, id, Now().previous, Now().current.value) {
          case Failure(error) => return Refused(error);
          case Success(_) =>
        }
        var up, _ := DeleteFile(Now().(previous := None));
        return if up then Done else Interrupted;
      }
      var up := PerformFlushed(Dir(Now().pending, Now().previous, None));
      return if up then Done else Interrupted;
    }

    /** `published` is the source's boolean: the temporary became the record rather than being discarded. */
    method RecoverPending(n: Nonce, digest: Digest) returns (r: Outcome, published: bool)
      requires Valid()
      modifies this`versions, this`log, this`calls
      ensures Valid() && old(log) <= log && (reliable ==> !r.Interrupted?)
      ensures forall v | v in versions :: v in old(versions) || v in PendingStages(env, id, old(Now()), n, digest)
      ensures r.Done? ==> PendingResult(env, id, old(Now()), n, digest) == Success(Now())
      ensures r.Done? ==> forall v | v in versions :: SameFate(env, id, old(Now()), v)
      ensures r.Done? ==> env.sha(old(Now()).pending[n]) == digest
      ensures r.Done? ==> (published <==> env.parse(old(Now()).pending[n]).Some?)
      ensures r.Refused? ==> PendingResult(env, id, old(Now()), n, digest) == Failure(r.error) && versions == old(versions)
      ensures calls == old(calls) + [PendingRecovery(n, digest)]
    {
      calls := calls + [PendingRecovery(n, digest)];
      published := false;
      ghost var d := Now();
      assert Admissible(d);
      PendingKeepsFate(env, id, d, n, digest);
      if !ValidNamespaceId(id) { r := Refused(InvalidNamespaceId); return; }
      if n !in Now().pending { r := Refused(NotFound); return; }
      var bytes := Now().pending[n];
      if env.sha(bytes) != digest { r := Refused(DigestChanged); return; }
      var current := Now().current;
      var expected := if current.None? then None else Some(env.sha(current.value));
      var up;
      if ValidateTransition(env, id, current, bytes, expected).Failure? {
        if env.parse(bytes).Some? { r := Refused(CompleteTemporaryRejected); return; }
        ghost var marked;
        up, marked := DeleteFile(Now().(pending := Now().pending - {n}));
      } else {
        ValidationAcceptsExactlySuccessors(env, id, current, bytes);
        assert Complete(env, d, n);
        if current.Some? {
          if Now().previous.Some? { r := Refused(PreviousExists); return; }
          up := Replace(n);
        } else {
          up := Install(n);
        }
        published := true;
      }
      r := if up then Done else Interrupted;
    }

    // -----------------------------------------------------------------------
    // Runs

    /** Whether a step can be taken: no publication starts while a complete temporary is left. */
    ghost predicate Starts(step: Step)
      reads this`versions
      requires |versions| > 0
    {
      match step
      case Publication(_, bytes, _) => AllTorn(env, Now()) && PrefixSafe(env, bytes)
      case PowerFailure(i) => i < |versions|
      case _ => true
    }

    static lemma OneMore(was: seq<Step>, steps: seq<Step>, k: nat)
      requires k < |steps|
      ensures was + steps[..k] + [steps[k]] == was + steps[..k + 1]
      ensures was + steps[..|steps|] == was + steps
    {
    }

    /** Passes over a step that cannot be taken. */
    ghost method Skip(step: Step)
      requires Valid() && !Starts(step)
      modifies this`calls
      ensures calls == old(calls) + [step]
    {
      calls := calls + [step];
    }

    /** One recovery call, or the power failing: nothing ends where it would not have ended before. */
    method Recover(step: Step)
      requires Valid() && !step.Publication?
      modifies this`versions, this`log, this`calls
      ensures Valid() && old(log) <= log
      ensures forall v | v in versions :: exists u | u in old(versions) :: Fate(env, v) == Fate(env, u)
      ensures calls == old(calls) + [step]
    {
      ghost var d := Now();
      assert Admissible(d) && d in versions;
      BackupKeepsFate(env, id, d);
      match step
      case BackupRecovery =>
        var _ := RecoverBackup();
      case PendingRecovery(n, digest) =>
        PendingKeepsFate(env, id, d, n, digest);
        var _, _ := RecoverPending(n, digest);
      case PowerFailure(i) =>
        if i < |versions| {
          PowerLoss(i);
        } else {
          Skip(step);
        }
    }

    /** One call, or the power failing; a publication starts only when every temporary is torn. */
    method Take(step: Step)
      requires Valid()
      modifies this`versions, this`log, this`calls
      ensures Valid() && old(log) <= log && calls == old(calls) + [step]
    {
      match step
      case Publication(n, bytes, expected) =>
        if AllTorn(env, Now()) && PrefixSafe(env, bytes) {
          var _ := Publish(n, bytes, expected);
        } else {
          Skip(step);
        }
      case _ => Recover(step);
    }

    /** Where `v` ends is where one of `starts` ends, or at a validated successor of `base`. */
    ghost predicate EndsIn(v: Dir, starts: seq<Dir>, base: Option<Contents>, bytes: Contents)
      reads this
    {
      (exists s | s in starts :: Fate(env, v) == Fate(env, s)) || Advanced(env, id, base, bytes, Fate(env, v))
    }

    /**
     A publication and then any recovery calls, each stopped anywhere, with the power failing at any moment and
     taking any unflushed renames and deletions along: recovery left alone ends where it would have ended before
     the publication, or at a validated successor of the record.
     */
    method PublishThenRecover(n: Nonce, bytes: Contents, expected: Option<Digest>, steps: seq<Step>)
      requires Valid() && AllTorn(env, Now()) && PrefixSafe(env, bytes)
      requires forall k | 0 <= k < |steps| :: !steps[k].Publication?
      modifies this`versions, this`log, this`calls
      ensures Valid() && old(log) <= log && calls == old(calls) + [Publication(n, bytes, expected)] + steps
      ensures EndsIn(Now(), old(versions), old(Now()).current, bytes)
      ensures RecoversTo(env, id, Now(), Fate(env, Now()))
      ensures old(versions) == [old(Now())] ==>
        Fate(env, Now()) == Clean(old(Now()).current) || Advanced(env, id, old(Now()).current, bytes, Fate(env, Now()))
    {
      ghost var d := Now();
      assert Admissible(d) && d in versions;
      FateOfTorn(env, id, d);
      var _ := Publish(n, bytes, expected);
      StagesEnd(d, n, bytes, old(versions));
      RecoverOften(steps, old(versions), d.current, bytes);
      RecoversToFate(env, id, Now());
    }

    /** Recovery calls and power failures add no new end. */
    method RecoverOften(steps: seq<Step>, ghost starts: seq<Dir>, ghost base: Option<Contents>, ghost bytes: Contents)
      requires Valid() && forall k | 0 <= k < |steps| :: !steps[k].Publication?
      requires forall v | v in versions :: EndsIn(v, starts, base, bytes)
      modifies this`versions, this`log, this`calls
      ensures Valid() && old(log) <= log && Admissible(Now()) && calls == old(calls) + steps
      ensures EndsIn(Now(), starts, base, bytes)
    {
      for k := 0 to |steps|
        invariant Valid() && old(log) <= log && calls == old(calls) + steps[..k]
        invariant forall v | v in versions :: EndsIn(v, starts, base, bytes)
      {
        OneMore(old(calls), steps, k);
        Recover(steps[k]);
      }
    }

    /** Every version a publication leaves ends where it may. */
    lemma StagesEnd(d: Dir, n: Nonce, bytes: Contents, starts: seq<Dir>)
      requires Sound(env, id, d) && AllTorn(env, d) && PrefixSafe(env, bytes) && d in starts
      requires forall v | v in versions :: v in starts || PublishStage(d, n, bytes, v)
      requires versions != starts ==> n !in d.pending && Follows(env, id, d.current, bytes)
      ensures forall v | v in versions :: EndsIn(v, starts, d.current, bytes)
    {
      FateOfTorn(env, id, d);
      forall v | v in versions
        ensures EndsIn(v, starts, d.current, bytes)
      {
        if v !in starts {
          PublishStagesAreSound(env, id, d, n, bytes, v);
        }
      }
    }

    /** What the records that reached the disk have in common, and how they are numbered. */
    ghost predicate Numbered()
      reads this
    {
      forall i | 0 <= i < |log| ::
        && env.parse(log[i]).Some? && env.parse(log[i]).value.recordId == Some(id)
        && FirstRevision(env, origin) + i <= U64_MAX
        && env.parse(log[i]).value.revision == Number(FirstRevision(env, origin) + i)
    }

    /** Once a record that reached the disk has a control nonce, every later one has the same. */
    ghost predicate NonceIsKept()
      reads this
    {
      forall i, j | 0 <= i <= j < |log| ::
        && env.parse(log[i]).Some? && env.parse(log[j]).Some?
        && (env.parse(log[i]).value.controlNonce.Some? ==>
              env.parse(log[j]).value.controlNonce == env.parse(log[i]).value.controlNonce)
    }

    /**
     Any run of publications, recoveries and power failures: the records that reached the disk have one identity,
     the revisions that follow the first without a gap, and a nonce that never changes; and recovery left alone
     leaves no temporary and the newest whole record or a validated successor of it.
     */
    method Run(steps: seq<Step>)
      requires Valid()
      modifies this`versions, this`log, this`calls
      ensures Valid() && old(log) <= log && calls == old(calls) + steps && Numbered() && NonceIsKept()
      ensures var end := Fate(env, Now());
        && RecoversTo(env, id, Now(), end) && end == Clean(end.current)
        && (end.current == Head(Now()) || (end.current.Some? && Follows(env, id, Head(Now()), end.current.value)))
    {
      for k := 0 to |steps|
        invariant Valid() && old(log) <= log && calls == old(calls) + steps[..k]
      {
        OneMore(old(calls), steps, k);
        Take(steps[k]);
      }
      assert steps[..|steps|] == steps;
      LogIsNumbered();
      assert Admissible(Now());
      RecoversToFate(env, id, Now());
      FateIsHeadOrItsSuccessor(env, id, Now());
    }

    lemma LogIsNumbered()
      requires Valid()
      ensures Numbered() && NonceIsKept()
    {
      forall j | 0 <= j < |log|
        ensures env.parse(log[j]).Some? && env.parse(log[j]).value.recordId == Some(id)
        ensures FirstRevision(env, origin) + j <= U64_MAX
        ensures env.parse(log[j]).value.revision == Number(FirstRevision(env, origin) + j)
        ensures forall i | 0 <= i <= j :: env.parse(log[i]).Some? && (env.parse(log[i]).value.controlNonce.Some? ==>
          env.parse(log[j]).value.controlNonce == env.parse(log[i]).value.controlNonce)
      {
        ChainHistory(env, id, origin, log, j);
      }
    }
  }
}
