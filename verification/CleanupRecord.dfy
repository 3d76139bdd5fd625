/**
 The cleanup record of one namespace: which candidate may follow which record,
 what the record directory can look like, and what the two recovery procedures
 make of it. Everything here is a value; RecordFolder runs the same procedures
 step by step on a directory that can lose its unflushed operations.
 */
module CleanupRecord {
  import opened Bytes
  import opened Wrappers

  /** The members of a record's JSON value that the transition rule reads. */
  datatype Value = Value(recordId: Option<string>, revision: Revision, controlNonce: Option<string>)
  datatype Revision = Absent | Number(value: U64) | Malformed

  type Contents = seq<Byte>
  type Digest = string
  type Nonce = string

  /** The JSON parser and the digest, of which nothing is assumed beyond the preconditions that name them. */
  datatype Env = Env(parse: Contents -> Option<Value>, sha: Contents -> Digest)

  datatype RecordError =
    | InvalidJson | InvalidNamespaceId | IdentityChanged | RevisionInvalid | RevisionAbsent
    | CurrentIdentityChanged | RevisionExhausted | NotContiguous | ControlNonceChanged
    | InitialRevisionNotZero | DigestChanged | ExpectedRecordAbsent | PreviousExists
    | CompleteTemporaryRejected | NotFound

  predicate ValidNamespaceId(id: string) {
    |id| == 32 && forall c | c in id :: '0' <= c <= '9' || 'a' <= c <= 'f' || 'A' <= c <= 'F'
  }

  // -------------------------------------------------------------------------
  // The transition rule

  function ValidateBytes(env: Env, id: string, current: Option<Contents>, candidate: Contents)
    : (r: Result<Value, RecordError>)
  {
    if env.parse(candidate).None? then Failure(InvalidJson) else
    var value := env.parse(candidate).value;
    if !ValidNamespaceId(id) then Failure(InvalidNamespaceId)
    else if value.recordId != Some(id) then Failure(IdentityChanged)
    else if value.revision.Malformed? then Failure(RevisionInvalid)
    else if value.revision.Absent? then Failure(RevisionAbsent)
    else if current.None? then
      if value.revision.value != 0 then Failure(InitialRevisionNotZero) else Success(value)
    else if env.parse(current.value).None? then Failure(InvalidJson)
    else
      var was := env.parse(current.value).value;
      if was.recordId != Some(id) then Failure(CurrentIdentityChanged)
      else if was.revision.Malformed? then Failure(RevisionInvalid)
      else if was.revision.Number? && was.revision.value == U64_MAX then Failure(RevisionExhausted)
      else
        var expected := if was.revision.Absent? then 0 else was.revision.value + 1;
        if value.revision.value != expected then Failure(NotContiguous)
        else if was.controlNonce.Some? && value.controlNonce != was.controlNonce then Failure(ControlNonceChanged)
        else Success(value)
  }

  function ValidateTransition(env: Env, id: string, current: Option<Contents>, candidate: Contents,
                              expected: Option<Digest>)
    : (r: Result<Value, RecordError>)
  {
    match current
    case Some(bytes) =>
      if expected != Some(env.sha(bytes)) then Failure(DigestChanged) else ValidateBytes(env, id, current, candidate)
    case None =>
      if expected.Some? then Failure(ExpectedRecordAbsent) else ValidateBytes(env, id, None, candidate)
  }

  /** `next` may replace `base`, as the record format promises it: same identity, the next revision, the same nonce. */
  ghost predicate Successor(id: string, base: Option<Value>, next: Value) {
    && next.recordId == Some(id)
    && next.revision.Number?
    && (base.None? ==> next.revision.value == 0)
    && (base.Some? ==>
        && base.value.recordId == Some(id)
        && (base.value.revision.Absent? ==> next.revision.value == 0)
        && (base.value.revision.Number? ==> next.revision.value == base.value.revision.value + 1)
        && !base.value.revision.Malformed?
        && (base.value.controlNonce.Some? ==> next.controlNonce == base.value.controlNonce))
  }

  ghost predicate Follows(env: Env, id: string, base: Option<Contents>, next: Contents) {
    && ValidNamespaceId(id)
    && env.parse(next).Some?
    && (base.Some? ==> env.parse(base.value).Some?)
    && Successor(id, if base.None? then None else env.parse(base.value), env.parse(next).value)
  }

  lemma ValidationAcceptsExactlySuccessors(env: Env, id: string, current: Option<Contents>, candidate: Contents)
    ensures ValidateBytes(env, id, current, candidate).Success? <==> Follows(env, id, current, candidate)
    ensures Follows(env, id, current, candidate) ==>
      ValidateBytes(env, id, current, candidate) == Success(env.parse(candidate).value)
  {
  }

  /** The candidate names the right record and carries a revision. */
  ghost predicate Proposes(env: Env, id: string, candidate: Contents) {
    && env.parse(candidate).Some? && ValidNamespaceId(id)
    && env.parse(candidate).value.recordId == Some(id) && env.parse(candidate).value.revision.Number?
  }

  /** What is wrong with a candidate taken by itself. */
  lemma CandidateErrorsAre(env: Env, id: string, current: Option<Contents>, candidate: Contents)
    ensures var r, parsed := ValidateBytes(env, id, current, candidate), env.parse(candidate);
      && (parsed.None? ==> r == Failure(InvalidJson))
      && (r == Failure(InvalidNamespaceId) <==> parsed.Some? && !ValidNamespaceId(id))
      && (r == Failure(IdentityChanged) <==> parsed.Some? && ValidNamespaceId(id) && parsed.value.recordId != Some(id))
      && (r == Failure(RevisionAbsent) <==>
            parsed.Some? && ValidNamespaceId(id) && parsed.value.recordId == Some(id) && parsed.value.revision == Absent)
      && (parsed.Some? && ValidNamespaceId(id) && parsed.value.recordId == Some(id) && parsed.value.revision == Malformed ==>
            r == Failure(RevisionInvalid))
      && (r == Failure(InitialRevisionNotZero) <==>
            Proposes(env, id, candidate) && current.None? && parsed.value.revision != Number(0))
  {
  }

  /** What is wrong with a candidate that proposes itself well, against the record it would replace. */
  lemma ReplacementErrorsAre(env: Env, id: string, current: Contents, candidate: Contents)
    requires Proposes(env, id, candidate)
    ensures ValidateBytes(env, id, Some(current), candidate) == Failure(InvalidJson) <==> env.parse(current).None?
    ensures env.parse(current).Some? ==>
      var r, was, next := ValidateBytes(env, id, Some(current), candidate), env.parse(current).value, env.parse(candidate).value;
      && (r == Failure(CurrentIdentityChanged) <==> was.recordId != Some(id))
      && (r == Failure(RevisionInvalid) <==> was.recordId == Some(id) && was.revision == Malformed)
      && (r == Failure(RevisionExhausted) <==> was.recordId == Some(id) && was.revision == Number(0xFFFF_FFFF_FFFF_FFFF))
      && (r == Failure(ControlNonceChanged) ==>
            was.controlNonce.Some? && next.controlNonce != was.controlNonce
            && next.revision == Number(if was.revision.Number? then was.revision.value + 1 else 0))
      && (r == Failure(NotContiguous) ==>
            (was.revision == Absent && next.revision != Number(0))
            || (was.revision.Number? && next.revision.value != was.revision.value + 1))
      && (r.Failure? ==> r.error in {CurrentIdentityChanged, RevisionInvalid, RevisionExhausted, NotContiguous, ControlNonceChanged})
  {
  }

  /** A namespace id is 32 hexadecimal digits of either case. */
  lemma NamespaceIdsAreHexadecimal(id: string)
    ensures ValidNamespaceId(id) <==> |id| == 32 && forall c | c in id :: c in "0123456789abcdefABCDEF"
  {
    var digits := "0123456789abcdefABCDEF";
    assert forall i | 0 <= i < |digits| :: '0' <= digits[i] <= '9' || 'a' <= digits[i] <= 'f' || 'A' <= digits[i] <= 'F';
    forall c: char | '0' <= c <= '9' || 'a' <= c <= 'f' || 'A' <= c <= 'F'
      ensures c in digits
    {
      var i := if c <= '9' then c as int - '0' as int else if c >= 'a' then c as int - 'a' as int + 10 else c as int - 'A' as int + 16;
      assert digits[i] == c;
    }
  }

  /** Exactly when a transition is accepted: the candidate is a successor and the caller named the digest of what it replaces. */
  lemma TransitionAcceptsExactly(env: Env, id: string, current: Option<Contents>, candidate: Contents, expected: Option<Digest>)
    ensures ValidateTransition(env, id, current, candidate, expected).Success? <==>
      Follows(env, id, current, candidate) && expected == if current.None? then None else Some(env.sha(current.value))
    ensures current.Some? && expected != Some(env.sha(current.value)) ==>
      ValidateTransition(env, id, current, candidate, expected) == Failure(DigestChanged)
    ensures current.None? && expected.Some? ==>
      ValidateTransition(env, id, current, candidate, expected) == Failure(ExpectedRecordAbsent)
  {
    ValidationAcceptsExactlySuccessors(env, id, current, candidate);
  }

  /** No record follows one whose revision is already the largest 64-bit number. */
  lemma ExhaustedRevisionHasNoSuccessor(env: Env, id: string, current: Contents, candidate: Contents)
    requires env.parse(current).Some? && env.parse(current).value.revision == Number(0xFFFF_FFFF_FFFF_FFFF)
    ensures ValidateBytes(env, id, Some(current), candidate).Failure?
  {
  }

  // -------------------------------------------------------------------------
  // The directory

  /** The files of one record: temporaries by nonce, the record itself, and the set-aside previous record. */
  datatype Dir = Dir(pending: map<Nonce, Contents>, current: Option<Contents>, previous: Option<Contents>)

  function Clean(record: Option<Contents>): Dir {
    Dir(map[], record, None)
  }

  /** The newest record held whole under one of its two names. */
  function Head(d: Dir): Option<Contents> {
    if d.current.Some? then d.current else d.previous
  }

  /**
   What a crash of the publication protocol can leave behind: any torn temporaries, at most one complete one, and
   none under a name that is no namespace id.
   */
  ghost predicate Sound(env: Env, id: string, d: Dir) {
    && (d.pending != map[] ==> ValidNamespaceId(id))
    && (forall n, m | Complete(env, d, n) && Complete(env, d, m) :: n == m)
    && (forall n | Complete(env, d, n) :: Follows(env, id, Head(d), d.pending[n]))
    && (d.current.Some? && d.previous.Some? ==> Follows(env, id, d.previous, d.current.value))
    && (d.current.None? && d.previous.Some? ==> exists n :: Complete(env, d, n))
  }

  ghost predicate Complete(env: Env, d: Dir, n: Nonce) {
    n in d.pending && env.parse(d.pending[n]).Some?
  }

  /** Whether every temporary is torn. */
  predicate AllTorn(env: Env, d: Dir) {
    forall n | n in d.pending :: env.parse(d.pending[n]).None?
  }

  /** Where recovery must end: the complete temporary if there is one, the newest record otherwise. */
  ghost function Fate(env: Env, d: Dir): Dir {
    if n: Nonce :| Complete(env, d, n) then Clean(Some(d.pending[n])) else Clean(Head(d))
  }

  lemma FateOfComplete(env: Env, id: string, d: Dir, n: Nonce)
    requires Sound(env, id, d) && Complete(env, d, n)
    ensures Fate(env, d) == Clean(Some(d.pending[n]))
  {
  }

  lemma FateIsHeadOrItsSuccessor(env: Env, id: string, d: Dir)
    requires Sound(env, id, d)
    ensures var record := Fate(env, d).current;
      record == Head(d) || (record.Some? && Follows(env, id, Head(d), record.value))
  {
  }

  // -------------------------------------------------------------------------
  // Recovery, when nothing interrupts it

  function BackupResult(env: Env, id: string, d: Dir): (r: Result<Dir, RecordError>) {
    if !ValidNamespaceId(id) then Failure(InvalidNamespaceId)
    else if d.previous.None? then Failure(NotFound)
    else if d.current.Some? then
      match ValidateBytes(env, id, d.previous, d.current.value)
      case Failure(error) => Failure(error)
      case Success(_) => Success(d.(previous := None))
    else Success(Dir(d.pending, d.previous, None))
  }

  function PendingResult(env: Env, id: string, d: Dir, n: Nonce, digest: Digest): (r: Result<Dir, RecordError>) {
    if !ValidNamespaceId(id) then Failure(InvalidNamespaceId)
    else if n !in d.pending then Failure(NotFound)
    else if env.sha(d.pending[n]) != digest then Failure(DigestChanged)
    else
      var bytes := d.pending[n];
      var expected := if d.current.None? then None else Some(env.sha(d.current.value));
      if ValidateTransition(env, id, d.current, bytes, expected).Failure? then
        if env.parse(bytes).Some? then Failure(CompleteTemporaryRejected)
        else Success(d.(pending := d.pending - {n}))
      else if d.current.None? then Success(Dir(d.pending - {n}, Some(bytes), d.previous))
      else if d.previous.Some? then Failure(PreviousExists)
      else Success(Dir(d.pending - {n}, Some(bytes), None))
  }

  /** Exactly when the set-aside record is recovered: it is there, and a current record follows it. */
  lemma BackupSucceedsExactlyWhen(env: Env, id: string, d: Dir)
    ensures BackupResult(env, id, d).Success? <==>
      ValidNamespaceId(id) && d.previous.Some? && (d.current.Some? ==> Follows(env, id, d.previous, d.current.value))
    ensures BackupResult(env, id, d).Success? ==> BackupResult(env, id, d).value == Dir(d.pending, if d.current.Some? then d.current else d.previous, None)
  {
    if d.current.Some? {
      ValidationAcceptsExactlySuccessors(env, id, d.previous, d.current.value);
    }
  }

  /**
   Exactly when a temporary is recovered: it is the one the caller was shown, and it is torn, in which case it is
   discarded, or may follow the record, for which there must be room beside a set-aside one.
   */
  lemma PendingSucceedsExactlyWhen(env: Env, id: string, d: Dir, n: Nonce, digest: Digest)
    ensures var result := PendingResult(env, id, d, n, digest);
      && (result.Success? <==>
            && ValidNamespaceId(id) && n in d.pending && env.sha(d.pending[n]) == digest
            && (env.parse(d.pending[n]).None?
                || (Follows(env, id, d.current, d.pending[n]) && (d.current.Some? ==> d.previous.None?))))
      && (result.Success? ==>
            result.value == Dir(d.pending - {n}, if env.parse(d.pending[n]).None? then d.current else Some(d.pending[n]), d.previous))
  {
    if n in d.pending {
      ValidationAcceptsExactlySuccessors(env, id, d.current, d.pending[n]);
    }
  }

  /** Every directory that recovering the backup passes through. */
  function BackupStages(env: Env, id: string, d: Dir): (r: seq<Dir>) {
    match BackupResult(env, id, d)
    case Success(after) => [d, after]
    case Failure(_) => [d]
  }

  /** The directory while both the record and its replacement are away from the record's name. */
  function SwappedOut(d: Dir): Dir {
    Dir(d.pending, None, d.current)
  }

  function SwappedIn(d: Dir, n: Nonce): Dir
    requires n in d.pending
  {
    Dir(d.pending - {n}, Some(d.pending[n]), d.current)
  }

  function Replaced(d: Dir, n: Nonce): Dir
    requires n in d.pending
  {
    Dir(d.pending - {n}, Some(d.pending[n]), None)
  }

  /** The directories in which a record is being replaced by its complete temporary. */
  ghost predicate ReplaceStage(d: Dir, n: Nonce, stage: Dir)
    requires n in d.pending
  {
    stage == SwappedOut(d) || stage == SwappedIn(d, n) || stage == Replaced(d, n)
  }

  /** Every directory that recovering temporary `n` passes through. */
  function PendingStages(env: Env, id: string, d: Dir, n: Nonce, digest: Digest): (r: seq<Dir>) {
    match PendingResult(env, id, d, n, digest)
    case Failure(_) => [d]
    case Success(after) =>
      if d.current.Some? && after.current != d.current then [d, SwappedOut(d), SwappedIn(d, n), after] else [d, after]
  }

  // -------------------------------------------------------------------------
  // Recovery may crash anywhere and still ends where it would have ended

  ghost predicate SameFate(env: Env, id: string, d: Dir, after: Dir) {
    Sound(env, id, after) && Fate(env, after) == Fate(env, d)
  }

  /** Two directories with the same complete temporary, or none and the same newest record, have the same fate. */
  lemma FateIsShared(env: Env, id: string, d: Dir, after: Dir)
    requires Sound(env, id, d) && Sound(env, id, after)
    requires forall n | Complete(env, d, n) :: Complete(env, after, n) && after.pending[n] == d.pending[n]
    requires forall n | Complete(env, after, n) :: Complete(env, d, n)
    requires (forall n :: !Complete(env, d, n)) ==> Head(after) == Head(d)
    ensures Fate(env, after) == Fate(env, d)
  {
    if n :| Complete(env, d, n) {
      FateOfComplete(env, id, d, n);
      FateOfComplete(env, id, after, n);
    }
  }

  /** Installing the complete temporary settles the fate. */
  lemma FateIsInstalled(env: Env, id: string, d: Dir, n: Nonce, after: Dir)
    requires Sound(env, id, d) && Complete(env, d, n)
    requires after.pending == d.pending - {n} && after.current == Some(d.pending[n])
    requires after.previous.Some? ==> Follows(env, id, after.previous, d.pending[n])
    ensures SameFate(env, id, d, after)
  {
    FateOfComplete(env, id, d, n);
    assert forall m :: Complete(env, after, m) ==> Complete(env, d, m) && m != n;
  }

  lemma SwapKeepsFate(env: Env, id: string, d: Dir, n: Nonce)
    requires Sound(env, id, d) && Complete(env, d, n)
    requires d.current.Some? && d.previous.None?
    ensures forall stage | ReplaceStage(d, n, stage) :: SameFate(env, id, d, stage)
  {
    assert forall m :: Complete(env, SwappedOut(d), m) <==> Complete(env, d, m);
    FateIsShared(env, id, d, SwappedOut(d));
    FateIsInstalled(env, id, d, n, SwappedIn(d, n));
    FateIsInstalled(env, id, d, n, Replaced(d, n));
  }

  lemma BackupKeepsFate(env: Env, id: string, d: Dir)
    requires Sound(env, id, d)
    ensures forall s | s in BackupStages(env, id, d) :: SameFate(env, id, d, s)
    ensures d.previous.Some? ==>
      BackupResult(env, id, d).Success? && BackupResult(env, id, d).value.previous.None?
      && BackupResult(env, id, d).value.pending == d.pending
      && SameFate(env, id, d, BackupResult(env, id, d).value) && Head(BackupResult(env, id, d).value) == Head(d)
  {
    if d.previous.Some? {
      var after := BackupResult(env, id, d).value;
      assert Head(after) == Head(d);
      assert forall n :: Complete(env, after, n) <==> Complete(env, d, n);
      FateIsShared(env, id, d, after);
    }
  }

  /** A torn temporary makes no difference. */
  lemma TornMakesNoDifference(env: Env, id: string, d: Dir, n: Nonce)
    requires Sound(env, id, d) && n in d.pending && env.parse(d.pending[n]).None?
    ensures SameFate(env, id, d, d.(pending := d.pending - {n}))
  {
    var after := d.(pending := d.pending - {n});
    assert forall m :: Complete(env, after, m) <==> Complete(env, d, m);
    FateIsShared(env, id, d, after);
  }

  lemma PendingKeepsFate(env: Env, id: string, d: Dir, n: Nonce, digest: Digest)
    requires Sound(env, id, d)
    ensures forall s | s in PendingStages(env, id, d, n, digest) :: SameFate(env, id, d, s)
    ensures SameFate(env, id, d, d)
    ensures var result := PendingResult(env, id, d, n, digest); result.Success? ==> SameFate(env, id, d, result.value)
  {
    var result := PendingResult(env, id, d, n, digest);
    if result.Success? {
      var after := result.value;
      if env.parse(d.pending[n]).None? {
        TornMakesNoDifference(env, id, d, n);
      } else {
        assert Complete(env, d, n);
        FateIsInstalled(env, id, d, n, after);
        if d.current.Some? { SwapKeepsFate(env, id, d, n); }
      }
    }
  }

  /** A temporary is settled at once when no previous record is set aside. */
  lemma PendingSettles(env: Env, id: string, d: Dir, n: Nonce)
    requires Sound(env, id, d) && d.previous.None? && n in d.pending
    ensures var result := PendingResult(env, id, d, n, env.sha(d.pending[n]));
      && result.Success? && SameFate(env, id, d, result.value)
      && result.value.previous.None? && result.value.pending == d.pending - {n}
  {
    PendingKeepsFate(env, id, d, n, env.sha(d.pending[n]));
    if env.parse(d.pending[n]).Some? {
      assert Complete(env, d, n);
    }
  }

  /** Recovering the temporary first is refused unless the record it would follow carries no revision. */
  lemma PendingBeforeBackup(env: Env, id: string, d: Dir, n: Nonce)
    requires Sound(env, id, d) && d.previous.Some? && Complete(env, d, n)
    ensures PendingResult(env, id, d, n, env.sha(d.pending[n])).Success? <==>
      d.current.None? && env.parse(d.previous.value).value.revision.Absent?
  {
  }

  /** An order in which to recover temporaries: each of them once. */
  ghost predicate Enumerates(order: seq<Nonce>, pending: map<Nonce, Contents>) {
    && (forall n | n in order :: n in pending)
    && (forall n | n in pending :: n in order)
    && (forall i, j | 0 <= i < j < |order| :: order[i] != order[j])
  }

  lemma EnumeratesTheRest(order: seq<Nonce>, pending: map<Nonce, Contents>)
    requires order != [] && Enumerates(order, pending)
    ensures Enumerates(order[1..], pending - {order[0]})
  {
    var rest := order[1..];
    assert forall i | 0 <= i < |rest| :: rest[i] == order[i + 1];
    assert forall n | n in order && n != order[0] :: n in rest;
  }

  lemma {:induction false} AnOrderExists(pending: map<Nonce, Contents>)
    ensures exists order :: Enumerates(order, pending)
    decreases |pending.Keys|
  {
    if n :| n in pending {
      var rest := pending - {n};
      assert rest.Keys == pending.Keys - {n};
      AnOrderExists(rest);
      var order :| Enumerates(order, rest);
      assert Enumerates([n] + order, pending);
    } else {
      assert Enumerates([], pending);
    }
  }

  /** Recovering one temporary after the other. */
  ghost function SettleAll(env: Env, id: string, d: Dir, order: seq<Nonce>): Dir
    requires Sound(env, id, d) && d.previous.None? && Enumerates(order, d.pending)
    decreases |order|
  {
    if order == [] then d
    else
      EnumeratesTheRest(order, d.pending);
      PendingSettles(env, id, d, order[0]);
      SettleAll(env, id, PendingResult(env, id, d, order[0], env.sha(d.pending[order[0]])).value, order[1..])
  }

  lemma {:induction false} SettlingReachesFate(env: Env, id: string, d: Dir, order: seq<Nonce>)
    requires Sound(env, id, d) && d.previous.None? && Enumerates(order, d.pending)
    ensures SettleAll(env, id, d, order) == Fate(env, d)
    decreases |order|
  {
    if order == [] {
      assert d.pending == map[];
      assert forall n :: !Complete(env, d, n);
    } else {
      EnumeratesTheRest(order, d.pending);
      PendingSettles(env, id, d, order[0]);
      SettlingReachesFate(env, id, PendingResult(env, id, d, order[0], env.sha(d.pending[order[0]])).value, order[1..]);
    }
  }

  /** Both recoveries, first of the set-aside record and then of the temporaries, each only if its file is there. */
  ghost function RecoverAll(env: Env, id: string, d: Dir, order: seq<Nonce>): Dir
    requires Sound(env, id, d) && Enumerates(order, d.pending)
  {
    BackupKeepsFate(env, id, d);
    var after := if d.previous.Some? then BackupResult(env, id, d).value else d;
    assert after in BackupStages(env, id, d);
    SettleAll(env, id, after, order)
  }

  lemma RecoveryReachesFate(env: Env, id: string, d: Dir, order: seq<Nonce>)
    requires Sound(env, id, d) && Enumerates(order, d.pending)
    ensures RecoverAll(env, id, d, order) == Fate(env, d)
  {
    BackupKeepsFate(env, id, d);
    var after := if d.previous.Some? then BackupResult(env, id, d).value else d;
    assert after in BackupStages(env, id, d);
    SettlingReachesFate(env, id, after, order);
  }

  /** In whatever order the temporaries are taken, recovery left alone ends in `end`. */
  ghost predicate RecoversTo(env: Env, id: string, d: Dir, end: Dir) {
    Sound(env, id, d) && forall order | Enumerates(order, d.pending) :: RecoverAll(env, id, d, order) == end
  }

  lemma RecoversToFate(env: Env, id: string, d: Dir)
    requires Sound(env, id, d)
    ensures RecoversTo(env, id, d, Fate(env, d))
  {
    forall order | Enumerates(order, d.pending)
      ensures RecoverAll(env, id, d, order) == Fate(env, d)
    {
      RecoveryReachesFate(env, id, d, order);
    }
  }

  /** One recovery call that crashed (or finished) at some stage. */
  ghost predicate RecoveryStep(env: Env, id: string, d: Dir, after: Dir) {
    || after in BackupStages(env, id, d)
    || exists n, digest :: after in PendingStages(env, id, d, n, digest)
  }

  ghost predicate RecoveryRun(env: Env, id: string, run: seq<Dir>) {
    |run| > 0 && forall i | 0 < i < |run| :: RecoveryStep(env, id, run[i - 1], run[i])
  }

  /**
   However many recovery calls run, in whatever order and wherever each one crashes, a recovery that is
   finally left alone ends in the same clean directory.
   */
  lemma {:induction false} CrashedRecoveriesAgree(env: Env, id: string, run: seq<Dir>)
    requires RecoveryRun(env, id, run) && Sound(env, id, run[0])
    ensures forall i | 0 <= i < |run| :: SameFate(env, id, run[0], run[i])
    ensures RecoversTo(env, id, run[|run| - 1], Fate(env, run[0]))
  {
    var last := |run| - 1;
    if last > 0 {
      CrashedRecoveriesAgree(env, id, run[..last]);
      assert SameFate(env, id, run[0], run[..last][last - 1]);
      var d := run[last - 1];
      assert RecoveryStep(env, id, d, run[last]);
      if run[last] in BackupStages(env, id, d) {
        BackupKeepsFate(env, id, d);
      } else {
        var n, digest :| run[last] in PendingStages(env, id, d, n, digest);
        PendingKeepsFate(env, id, d, n, digest);
      }
      assert forall i | 0 <= i < last :: run[i] == run[..last][i];
    }
    RecoversToFate(env, id, run[last]);
  }

  // -------------------------------------------------------------------------
  // Publication

  /** A JSON object cut short does not parse, or parses to the same value when only white space is missing. */
  predicate PrefixSafe(env: Env, bytes: Contents) {
    forall k | 0 <= k <= |bytes| :: env.parse(bytes[..k]).None? || env.parse(bytes[..k]) == env.parse(bytes)
  }

  function Written(d: Dir, n: Nonce, bytes: Contents, k: nat): Dir
    requires k <= |bytes|
  {
    d.(pending := d.pending[n := bytes[..k]])
  }

  /** Every directory that publishing `bytes` through temporary `n` can pass through. */
  ghost predicate PublishStage(d: Dir, n: Nonce, bytes: Contents, stage: Dir) {
    var whole := Written(d, n, bytes, |bytes|);
    || stage == d
    || (exists k: nat | k <= |bytes| :: stage == Written(d, n, bytes, k))
    || (d.previous.None? && (
          || (d.current.Some? && (stage == SwappedOut(whole) || stage == SwappedIn(whole, n)))
          || stage == Replaced(whole, n)))
  }

  /** Where recovery may lead once a publication over `base` has begun: nowhere new, or to a validated successor. */
  ghost predicate Advanced(env: Env, id: string, base: Option<Contents>, bytes: Contents, fate: Dir) {
    exists k: nat | k <= |bytes| :: Follows(env, id, base, bytes[..k]) && fate == Clean(Some(bytes[..k]))
  }

  lemma FateOfTorn(env: Env, id: string, d: Dir)
    requires Sound(env, id, d) && AllTorn(env, d)
    ensures Head(d) == d.current && Fate(env, d) == Clean(d.current)
  {
    assert forall n :: !Complete(env, d, n);
  }

  lemma WrittenIsSound(env: Env, id: string, d: Dir, n: Nonce, bytes: Contents, k: nat)
    requires Sound(env, id, d) && AllTorn(env, d) && n !in d.pending && k <= |bytes|
    requires Follows(env, id, d.current, bytes) && PrefixSafe(env, bytes)
    ensures var stage := Written(d, n, bytes, k);
      Sound(env, id, stage) && Fate(env, stage)
        == if env.parse(bytes[..k]).Some? then Clean(Some(bytes[..k])) else Clean(d.current)
    ensures env.parse(bytes[..k]).Some? ==> Follows(env, id, d.current, bytes[..k])
  {
    var stage := Written(d, n, bytes, k);
    FateOfTorn(env, id, d);
    assert forall m :: Complete(env, stage, m) ==> m == n;
    if env.parse(bytes[..k]).Some? {
      assert Complete(env, stage, n);
      FateOfComplete(env, id, stage, n);
    }
  }

  /** Recovery of a crashed publication ends with the old record or with a validated successor of it. */
  lemma PublishStagesAreSound(env: Env, id: string, d: Dir, n: Nonce, bytes: Contents, stage: Dir)
    requires Sound(env, id, d) && AllTorn(env, d) && n !in d.pending
    requires Follows(env, id, d.current, bytes) && PrefixSafe(env, bytes)
    requires PublishStage(d, n, bytes, stage)
    ensures Sound(env, id, stage)
    ensures Head(stage) == d.current || Head(stage) == Some(bytes)
    ensures Fate(env, stage) == Clean(d.current) || Advanced(env, id, d.current, bytes, Fate(env, stage))
    ensures stage.current == Some(bytes) || stage.pending == d.pending[n := bytes] ==> Fate(env, stage) == Clean(Some(bytes))
  {
    assert bytes[..|bytes|] == bytes;
    FateOfTorn(env, id, d);
    var whole := Written(d, n, bytes, |bytes|);
    WrittenIsSound(env, id, d, n, bytes, |bytes|);
    assert Complete(env, whole, n);
    if k: nat :| k <= |bytes| && stage == Written(d, n, bytes, k) {
      WrittenIsSound(env, id, d, n, bytes, k);
    } else if stage != d {
      FateIsInstalled(env, id, whole, n, Replaced(whole, n));
      if d.current.Some? {
        SwapKeepsFate(env, id, whole, n);
        assert ReplaceStage(whole, n, stage);
      }
    }
  }

  /**
   A publication that crashes anywhere, followed by any number of recovery calls that crash anywhere, in any
   order: a recovery finally left alone leaves no temporary and no set-aside file, and the record is the old
   one or a validated successor of it.
   */
  lemma PublicationSurvivesCrashes(env: Env, id: string, d: Dir, n: Nonce, bytes: Contents, run: seq<Dir>)
    requires Sound(env, id, d) && AllTorn(env, d) && n !in d.pending
    requires Follows(env, id, d.current, bytes) && PrefixSafe(env, bytes)
    requires RecoveryRun(env, id, run) && PublishStage(d, n, bytes, run[0])
    ensures RecoversTo(env, id, run[|run| - 1], Clean(d.current))
      || exists k: nat | k <= |bytes| ::
           && RecoversTo(env, id, run[|run| - 1], Clean(Some(bytes[..k])))
           && Follows(env, id, d.current, bytes[..k]) && env.parse(bytes[..k]) == env.parse(bytes)
  {
    PublishStagesAreSound(env, id, d, n, bytes, run[0]);
    CrashedRecoveriesAgree(env, id, run);
  }

  // -------------------------------------------------------------------------
  // Histories

  function Tip(origin: Option<Contents>, log: seq<Contents>): Option<Contents> {
    if log == [] then origin else Some(log[|log| - 1])
  }

  ghost predicate Chain(env: Env, id: string, origin: Option<Contents>, log: seq<Contents>) {
    forall i | 0 <= i < |log| :: Follows(env, id, Tip(origin, log[..i]), log[i])
  }

  function FirstRevision(env: Env, origin: Option<Contents>): nat {
    if origin.None? || env.parse(origin.value).None? then 0
    else match env.parse(origin.value).value.revision
      case Number(m) => m + 1
      case _ => 0
  }

  /** Along a chain the identity is constant, revisions count up by one, and a nonce once present stays. */
  lemma {:induction false} ChainHistory(env: Env, id: string, origin: Option<Contents>, log: seq<Contents>, i: nat)
    requires Chain(env, id, origin, log) && i < |log|
    ensures env.parse(log[i]).Some?
    ensures env.parse(log[i]).value.recordId == Some(id)
    ensures FirstRevision(env, origin) + i <= U64_MAX
    ensures env.parse(log[i]).value.revision == Number(FirstRevision(env, origin) + i)
    ensures forall j | 0 <= j <= i ::
      env.parse(log[j]).Some? && (env.parse(log[j]).value.controlNonce.Some? ==>
        env.parse(log[i]).value.controlNonce == env.parse(log[j]).value.controlNonce)
    ensures origin.Some? ==> env.parse(origin.value).Some? && (env.parse(origin.value).value.controlNonce.Some? ==>
        env.parse(log[i]).value.controlNonce == env.parse(origin.value).value.controlNonce)
  {
    assert Follows(env, id, Tip(origin, log[..i]), log[i]);
    if i > 0 {
      ChainHistory(env, id, origin, log, i - 1);
      assert Tip(origin, log[..i]) == Some(log[i - 1]);
    } else {
      assert Tip(origin, log[..0]) == origin;
    }
  }

  /**
   What a temporary left behind by an earlier attempt becomes once another candidate was published: it is
   discarded exactly if it is torn. A complete one is refused for as long as the other candidate is the record.
   */
  lemma LeftoverSettlesExactlyWhenTorn(env: Env, id: string, record: Option<Contents>, published: Contents,
                                       leftover: Contents, n: Nonce)
    requires Follows(env, id, record, published)
    requires env.parse(leftover).None? || Follows(env, id, record, leftover)
    ensures var result := PendingResult(env, id, Dir(map[n := leftover], Some(published), None), n, env.sha(leftover));
      && (result == Success(Clean(Some(published))) <==> env.parse(leftover).None?)
      && (env.parse(leftover).Some? ==> result == Failure(CompleteTemporaryRejected))
  {
    assert map[n := leftover] - {n} == map[];
  }
}
