/**
 What an owner runtime is told and does, as a trace: what each event means for it, what may follow what, and how
 one round of pumping is answered.
 */
module OwnerTrace {
  import opened Wrappers

  datatype Signal = ShutdownSignal | SessionEnded | AuthorityLost | RuntimeRollback | RemovalPoisonFailed
  datatype TransitionKind = Busy | Draining | Degraded | Stopping | OtherTransition
  datatype ServerError = StateError(kind: TransitionKind) | ConnectionCapacity | UnknownConnection | OtherServerError
  datatype ServerPump = PumpEmpty | PumpBackpressured | PumpProcessed | PumpPeerClosed | PumpFatalClosed
  datatype AdapterPump = AdapterEmpty | ClosePending | AdapterProcessed
  datatype OrphanOutcome = Quiescent | TerminalIncomplete | OrphanFailed
  datatype RuntimeStep = Idle | Progress | Backpressured | DrainingStep | FatalRecovery | Exit
  datatype RuntimeError =
    | Randomness | SingletonBusy | SingletonFailed | NativeStartup | ConnectionSource | Server | ConnectionIdsExhausted

  type PumpAnswer = Result<ServerPump, ServerError>

  // -------------------------------------------------------------------------
  // What one runtime was told and did, as a trace

  datatype Event =
    // Setting up.
    | EndpointBound
    | AdapterStarted
    | RollbackSeen
    | ThreadLeft
    | SourceDropped
    // What the runtime was told.
    | ExitAsked(requested: bool)
    | Told(signal: Option<Signal>)
    | RollbackLatched(latched: bool)
    | RoomAsked(planned: bool, capacity: bool)
    | PeerPolled(peer: Result<bool, ()>)
    | Attached(id: nat, attached: Result<(), ServerError>)
    | GraceAsked(over: bool)
    | PumpedRound(round: seq<nat>, answers: seq<PumpAnswer>)
    | RouteAsked(complete: bool)
    | RouteDetached(detached: bool)
    | SourceAsked(exhausted: bool, had: bool, retires: bool)
    | AdapterPumped(pumped: AdapterPump)
    | IdleAsked(idle: Result<(), ServerError>)
    | PolicyAsked(bounded: bool)
    | OrphanAsked(outcome: OrphanOutcome)
    | Detached(answer: Result<(), ServerError>)
    | Contained(confirmed: bool)
    // What became of the endpoint and the singleton.
    | EndpointShut(quiesced: bool)
    | Released
    | Preserved

  /** The server failed in a way that leaves only containment. */
  predicate Faults(e: Event) {
    match e
    case RollbackLatched(latched) => !latched
    case PeerPolled(peer) => peer.Failure?
    case Attached(_, attached) => attached.Failure? && attached.error != ConnectionCapacity
    case PumpedRound(_, answers) =>
      answers != [] && answers[|answers| - 1].Failure? && answers[|answers| - 1].error != UnknownConnection
    case IdleAsked(idle) =>
      idle.Failure? && idle.error !in {StateError(Busy), StateError(Draining), StateError(Degraded), StateError(Stopping)}
    case OrphanAsked(outcome) => outcome == OrphanFailed
    case Detached(answer) => answer.Failure? && !answer.error.StateError?
    case _ => false
  }

  /** The process that authorized this one, or the last peer that could return, is gone. */
  predicate Loses(e: Event) {
    match e
    case Told(signal) => signal == Some(AuthorityLost)
    case SourceAsked(exhausted, had, retires) => exhausted || (had && retires)
    case _ => false
  }

  predicate Poisons(e: Event) { e == Told(Some(RemovalPoisonFailed)) }

  /** Why a runtime begins to shut down. */
  predicate Shuts(e: Event) {
    || Faults(e) || Loses(e)
    || e in {Told(Some(ShutdownSignal)), Told(Some(SessionEnded)), Told(Some(RemovalPoisonFailed))}
    || e == GraceAsked(true) || e == RouteDetached(true)
  }

  predicate Disposition(e: Event) { e == Released || e == Preserved }

  // -------------------------------------------------------------------------
  // What a trace amounts to

  /** What a step counts as progress, and what as being held up. */
  predicate Moves(e: Event) {
    match e
    case Attached(_, _) => true
    case GraceAsked(over) => over
    case PumpedRound(_, answers) =>
      exists k | 0 <= k < |answers| ::
        answers[k] == Failure(UnknownConnection) || (answers[k].Success? && answers[k].value !in {PumpEmpty, PumpBackpressured})
    case AdapterPumped(pumped) => pumped == AdapterProcessed
    case IdleAsked(idle) => idle.Success?
    case _ => false
  }

  predicate Blocks(e: Event) {
    match e
    case RoomAsked(_, capacity) => !capacity
    case PumpedRound(_, answers) => Success(PumpBackpressured) in answers
    case AdapterPumped(pumped) => pumped == ClosePending
    case _ => false
  }

  /** Whether each of these ever happened. */
  datatype Flags = Flags(shut: bool, faulted: bool, lost: bool, poisoned: bool, incomplete: bool, disposed: bool)

  /** That, how often something moved or was held up, and the connection ids still free. */
  datatype Sight = Sight(flags: Flags, moved: nat, blocked: nat, free: nat)

  const UNTOLD: Flags := Flags(false, false, false, false, false, false)
  const BLANK: Sight := Sight(UNTOLD, 0, 0, 1)

  function FlagsAfter(f: Flags, e: Event): Flags {
    Flags(f.shut || Shuts(e), f.faulted || Faults(e), f.lost || Loses(e), f.poisoned || Poisons(e),
          f.incomplete || e == OrphanAsked(TerminalIncomplete), f.disposed || Disposition(e))
  }

  function Next(s: Sight, e: Event): Sight {
    Sight(FlagsAfter(s.flags, e), s.moved + (if Moves(e) then 1 else 0), s.blocked + (if Blocks(e) then 1 else 0),
          if e.Attached? && s.free <= e.id then e.id + 1 else s.free)
  }

  /** What the first `n` events amount to. */
  ghost function Seen(trace: seq<Event>, n: nat): Sight
    requires n <= |trace|
  {
    if n == 0 then BLANK else Next(Seen(trace, n - 1), trace[n - 1])
  }

  lemma {:induction false} SeenIsShared(a: seq<Event>, b: seq<Event>, n: nat)
    requires n <= |a| && n <= |b| && forall i | 0 <= i < n :: a[i] == b[i]
    ensures Seen(a, n) == Seen(b, n)
  {
    if n > 0 { SeenIsShared(a, b, n - 1); }
  }

  ghost predicate Happened(trace: seq<Event>, n: nat, what: Event -> bool)
    requires n <= |trace|
  {
    exists i | 0 <= i < n :: what(trace[i])
  }

  /** What is seen is what happened, of every kind. */
  lemma {:induction false} SeenIsWhatHappened(trace: seq<Event>, n: nat)
    requires n <= |trace|
    ensures Seen(trace, n).flags.shut <==> Happened(trace, n, Shuts)
    ensures Seen(trace, n).flags.faulted <==> Happened(trace, n, Faults)
    ensures Seen(trace, n).flags.lost <==> Happened(trace, n, Loses)
    ensures Seen(trace, n).flags.poisoned <==> Happened(trace, n, Poisons)
    ensures Seen(trace, n).flags.disposed <==> Happened(trace, n, Disposition)
    ensures forall i | 0 <= i < n && trace[i].Attached? :: trace[i].id < Seen(trace, n).free
  {
    if n > 0 {
      SeenIsWhatHappened(trace, n - 1);
      HappenedOneMore(trace, n, Shuts);
      HappenedOneMore(trace, n, Faults);
      HappenedOneMore(trace, n, Loses);
      HappenedOneMore(trace, n, Poisons);
      HappenedOneMore(trace, n, Disposition);
    }
  }

  /** Without attachments and orphan shutdowns every id is free and no shutdown was incomplete. */
  lemma {:induction false} SeenOfNone(trace: seq<Event>, n: nat)
    requires n <= |trace| && forall i | 0 <= i < n :: !trace[i].Attached? && !trace[i].OrphanAsked?
    ensures Seen(trace, n).free == 1 && !Seen(trace, n).flags.incomplete
  {
    if n > 0 { SeenOfNone(trace, n - 1); }
  }

  lemma HappenedOneMore(trace: seq<Event>, n: nat, what: Event -> bool)
    requires 0 < n <= |trace|
    ensures Happened(trace, n, what) <==> Happened(trace, n - 1, what) || what(trace[n - 1])
  {
  }

  /** Something of the kind happened after the first `n` events. */
  ghost predicate Since(trace: seq<Event>, n: nat, what: Event -> bool) {
    exists i | n <= i < |trace| :: what(trace[i])
  }

  lemma SinceBefore(shorter: seq<Event>, longer: seq<Event>, n: nat, m: nat, what: Event -> bool)
    requires shorter <= longer && n <= m && Since(shorter, m, what)
    ensures Since(longer, n, what)
  {
    var i :| m <= i < |shorter| && what(shorter[i]);
    assert longer[i] == shorter[i];
  }

  // What a step has to ask.
  predicate AsksRoom(e: Event) { e.RoomAsked? }
  predicate StillWaits(e: Event) { e == GraceAsked(false) }
  predicate PumpsPeers(e: Event) { e.PumpedRound? }
  predicate AsksRoute(e: Event) { e.RouteAsked? }
  predicate AsksSource(e: Event) { e.SourceAsked? }
  predicate PumpsAdapter(e: Event) { e.AdapterPumped? }
  predicate AsksIdle(e: Event) { e.IdleAsked? }
  predicate AsksPolicy(e: Event) { e.PolicyAsked? }
  predicate AllowsExit(e: Event) { e == ExitAsked(true) }
  predicate AllowsEnd(e: Event) { e in {ExitAsked(true), OrphanAsked(Quiescent), OrphanAsked(TerminalIncomplete)} }

  /**
   A round asked the server for room unless it shuts down, every connection, and the route; a runtime that still
   waits for its first peer asked whether it waited too long.
   */
  ghost predicate Rounded(trace: seq<Event>, n: nat, shut: bool, waits: bool) {
    && Since(trace, n, PumpsPeers) && Since(trace, n, AsksRoute)
    && (!shut ==> Since(trace, n, AsksRoom)) && (waits ==> Since(trace, n, StillWaits))
  }

  lemma RoundedBefore(shorter: seq<Event>, longer: seq<Event>, n: nat, m: nat, shut: bool, waits: bool)
    requires shorter <= longer && n <= m && Rounded(shorter, m, shut, waits)
    ensures Rounded(longer, n, shut, waits)
  {
    SinceBefore(shorter, longer, n, m, PumpsPeers);
    SinceBefore(shorter, longer, n, m, AsksRoute);
    if !shut { SinceBefore(shorter, longer, n, m, AsksRoom); }
    if waits { SinceBefore(shorter, longer, n, m, StillWaits); }
  }

  /** A step that goes on went through a round, pumped the adapter, and last heard that no exit is asked for. */
  ghost predicate GoesOn(trace: seq<Event>, n: nat, r: Result<RuntimeStep, RuntimeError>, shut: bool, waits: bool) {
    r.Success? && r.value != Exit ==>
      && Rounded(trace, n, shut, waits) && Since(trace, n, PumpsAdapter)
      && trace != [] && trace[|trace| - 1] == ExitAsked(false)
  }

  /** Why a step ends the runtime: the exit was asked for, the adapter was shut down, or what was done last failed. */
  ghost predicate Ends(trace: seq<Event>, n: nat, r: Result<RuntimeStep, RuntimeError>, next: nat) {
    var last := |trace| - 1;
    match r
    case Success(Exit) => Since(trace, n, AllowsEnd)
    case Success(_) => true
    case Failure(ConnectionIdsExhausted) => next == 0xFFFF_FFFF_FFFF_FFFF && last >= 0 && trace[last] == PeerPolled(Success(true))
    case Failure(Server) => last >= 0 && trace[last] == RouteDetached(false)
    case Failure(ConnectionSource) => last >= 1 && trace[last - 1] == EndpointShut(false) && trace[last] == Preserved
    case Failure(_) => false
  }

  /** What a later part of a step did, the whole step did. */
  lemma StepBefore(trace: seq<Event>, n: nat, m: nat, r: Result<RuntimeStep, RuntimeError>, next: nat, shut: bool, waits: bool)
    requires n <= m && GoesOn(trace, m, r, shut, waits) && Ends(trace, m, r, next)
    ensures GoesOn(trace, n, r, shut, waits) && Ends(trace, n, r, next)
  {
  }

  /** A step is its round and the rest, which begins with the pumping of the adapter. */
  lemma StepInParts(trace: seq<Event>, round: seq<Event>, n: nat, r: Result<RuntimeStep, RuntimeError>, next: nat,
                    shut: bool, waits: bool)
    requires n <= |round| < |trace| && round <= trace && PumpsAdapter(trace[|round|])
    requires Rounded(round, n, shut, waits) && Ends(trace, |round|, r, next)
    requires r.Success? && r.value != Exit ==> trace[|trace| - 1] == ExitAsked(false)
    ensures GoesOn(trace, n, r, shut, waits) && Ends(trace, n, r, next)
  {
    RoundedBefore(round, trace, n, n, shut, waits);
  }

  /** The last thing done was to shut the endpoint, and it went quiet; its source may have been dropped since. */
  ghost predicate Quiet(trace: seq<Event>, n: nat)
    requires n <= |trace|
  {
    || (n >= 1 && trace[n - 1] == EndpointShut(true))
    || (n >= 2 && trace[n - 1] == SourceDropped && trace[n - 2] == EndpointShut(true))
  }

  /** Whether `e` may follow the first `n` events, which amount to `seen`. */
  ghost predicate Allowed(trace: seq<Event>, n: nat, seen: Sight, e: Event)
    requires n <= |trace|
  {
    match e
    case Attached(id, _) => !seen.flags.shut && seen.free <= id
    case EndpointBound => forall i | 0 <= i < n :: trace[i] != AdapterStarted
    case AdapterStarted => exists i :: 0 <= i < n && trace[i] == EndpointBound
    case Released =>
      && Quiet(trace, n) && !seen.flags.poisoned && !seen.flags.disposed
      && (seen.flags.lost ==> n >= 2 && trace[n - 2] == ExitAsked(true))
    case Preserved => !seen.flags.disposed
    case _ => true
  }

  ghost predicate Orderly(trace: seq<Event>) {
    forall i {:trigger Allowed(trace, i, Seen(trace, i), trace[i])} | 0 <= i < |trace| :: Allowed(trace, i, Seen(trace, i), trace[i])
  }

  lemma AllowedIsShared(a: seq<Event>, b: seq<Event>, n: nat, seen: Sight, e: Event)
    requires n <= |a| && n <= |b| && forall i | 0 <= i < n :: a[i] == b[i]
    ensures Allowed(a, n, seen, e) ==> Allowed(b, n, seen, e)
  {
    if e.AdapterStarted? && Allowed(a, n, seen, e) {
      var i :| 0 <= i < n && a[i] == EndpointBound;
      assert b[i] == EndpointBound;
    }
  }

  /** An orderly trace with what each of its beginnings amounts to, the whole to `seen`. */
  ghost predicate Traced(trace: seq<Event>, sights: seq<Sight>, seen: Sight) {
    && |sights| == |trace| + 1 && sights[0] == BLANK && sights[|trace|] == seen
    && (forall i {:trigger Next(sights[i], trace[i])} | 0 <= i < |trace| :: sights[i + 1] == Next(sights[i], trace[i]))
    && (forall i {:trigger Allowed(trace, i, sights[i], trace[i])} | 0 <= i < |trace| :: Allowed(trace, i, sights[i], trace[i]))
  }

  lemma TracedAppend(trace: seq<Event>, sights: seq<Sight>, seen: Sight, e: Event)
    requires Traced(trace, sights, seen) && Allowed(trace, |trace|, seen, e)
    ensures Traced(trace + [e], sights + [Next(seen, e)], Next(seen, e))
  {
    var longer, after := trace + [e], sights + [Next(seen, e)];
    forall i | 0 <= i < |longer|
      ensures after[i + 1] == Next(after[i], longer[i]) && Allowed(longer, i, after[i], longer[i])
    {
      if i < |trace| {
        assert sights[i + 1] == Next(sights[i], trace[i]) && Allowed(trace, i, sights[i], trace[i]);
        AllowedIsShared(trace, longer, i, sights[i], trace[i]);
      } else {
        AllowedIsShared(trace, longer, i, seen, e);
      }
    }
  }

  lemma {:induction false} SightsAreSeen(trace: seq<Event>, sights: seq<Sight>, seen: Sight, n: nat)
    requires Traced(trace, sights, seen) && n <= |trace|
    ensures sights[n] == Seen(trace, n)
  {
    if n > 0 {
      SightsAreSeen(trace, sights, seen, n - 1);
      assert sights[n - 1 + 1] == Next(sights[n - 1], trace[n - 1]);
    }
  }

  lemma TracedIsOrderly(trace: seq<Event>, sights: seq<Sight>, seen: Sight)
    requires Traced(trace, sights, seen)
    ensures Orderly(trace) && seen == Seen(trace, |trace|)
  {
    forall i | 0 <= i < |trace|
      ensures Allowed(trace, i, Seen(trace, i), trace[i])
    {
      SightsAreSeen(trace, sights, seen, i);
      assert Allowed(trace, i, sights[i], trace[i]);
    }
    SightsAreSeen(trace, sights, seen, |trace|);
  }

  /** Every orderly trace can be followed so. */
  lemma OrderlyIsTraced(trace: seq<Event>) returns (sights: seq<Sight>)
    requires Orderly(trace)
    ensures Traced(trace, sights, Seen(trace, |trace|))
  {
    sights := SightsOf(trace, |trace|);
    forall i | 0 <= i < |trace|
      ensures Allowed(trace, i, sights[i], trace[i])
    {
      assert Allowed(trace, i, Seen(trace, i), trace[i]);
    }
  }

  lemma OrderlyAppend(trace: seq<Event>, e: Event)
    requires Orderly(trace) && Allowed(trace, |trace|, Seen(trace, |trace|), e)
    ensures Orderly(trace + [e])
  {
    var seen := Seen(trace, |trace|);
    var sights := OrderlyIsTraced(trace);
    TracedAppend(trace, sights, seen, e);
    TracedIsOrderly(trace + [e], sights + [Next(seen, e)], Next(seen, e));
  }

  lemma {:induction false} SightsOf(trace: seq<Event>, n: nat) returns (sights: seq<Sight>)
    requires n <= |trace|
    ensures |sights| == n + 1 && sights[0] == BLANK
    ensures forall i | 0 <= i <= n :: sights[i] == Seen(trace, i)
    ensures forall i {:trigger Next(sights[i], trace[i])} | 0 <= i < n :: sights[i + 1] == Next(sights[i], trace[i])
  {
    if n == 0 {
      sights := [BLANK];
    } else {
      var before := SightsOf(trace, n - 1);
      assert Seen(trace, n) == Next(before[n - 1], trace[n - 1]);
      sights := before + [Next(before[n - 1], trace[n - 1])];
    }
  }

  /**
   In an orderly trace the singleton is disposed of at most once; it is never released after a poison failure, and
   after the authority was lost only when the server had just confirmed that the exit was asked for.
   */
  lemma OrderlyDisposition(trace: seq<Event>, i: nat, j: nat)
    requires Orderly(trace) && i < j < |trace|
    ensures !(Disposition(trace[i]) && Disposition(trace[j]))
    ensures trace[i] == Told(Some(RemovalPoisonFailed)) ==> trace[j] != Released
    ensures Loses(trace[i]) && trace[j] == Released ==> j >= 2 && trace[j - 2] == ExitAsked(true)
    ensures trace[j] == Released ==> Quiet(trace, j)
    ensures trace[j] == EndpointBound ==> trace[i] != AdapterStarted
  {
    assert Allowed(trace, j, Seen(trace, j), trace[j]);
    SeenIsWhatHappened(trace, j);
  }

  ghost predicate Disposes(trace: seq<Event>, i: int) {
    0 <= i < |trace| && (trace[i] == Released || trace[i] == Preserved)
  }

  lemma OneDisposition(trace: seq<Event>, i: int, j: int)
    requires Orderly(trace) && Disposes(trace, i) && Disposes(trace, j)
    ensures i == j
  {
    if i < j {
      OrderlyDisposition(trace, i, j);
    } else if j < i {
      OrderlyDisposition(trace, j, i);
    }
  }

  /** The singleton was disposed of exactly once, and released only where nothing spoke against it. */
  ghost predicate EndsWell(trace: seq<Event>) {
    && (exists i :: Disposes(trace, i) && forall j :: Disposes(trace, j) ==> j == i)
    && (forall j | 0 <= j < |trace| && trace[j] == Released :: ReleasedRightly(trace, j))
  }

  lemma DisposedEndsWell(trace: seq<Event>)
    requires Orderly(trace) && Happened(trace, |trace|, Disposition)
    ensures EndsWell(trace)
  {
    var i: int :| 0 <= i < |trace| && Disposition(trace[i]);
    assert Disposes(trace, i);
    forall j | Disposes(trace, j)
      ensures j == i
    {
      OneDisposition(trace, i, j);
    }
    forall j | 0 <= j < |trace| && trace[j] == Released
      ensures ReleasedRightly(trace, j)
    {
      ReleaseIsRight(trace, j);
    }
  }

  /** Nothing before it spoke against this release. */
  ghost predicate ReleasedRightly(trace: seq<Event>, j: nat)
    requires j < |trace|
  {
    && Quiet(trace, j)
    && forall i | 0 <= i < j ::
         && trace[i] != Told(Some(RemovalPoisonFailed))
         && (Loses(trace[i]) ==> j >= 2 && trace[j - 2] == ExitAsked(true))
  }

  lemma ReleaseIsRight(trace: seq<Event>, j: nat)
    requires Orderly(trace) && j < |trace| && trace[j] == Released
    ensures ReleasedRightly(trace, j)
  {
    assert Allowed(trace, j, Seen(trace, j), trace[j]);
    forall i | 0 <= i < j
      ensures trace[i] != Told(Some(RemovalPoisonFailed)) && (Loses(trace[i]) ==> j >= 2 && trace[j - 2] == ExitAsked(true))
    {
      OrderlyDisposition(trace, i, j);
    }
  }

  /** In an orderly trace no peer is attached once there was a reason to shut down, and no connection id is used twice. */
  lemma OrderlyPeers(trace: seq<Event>, i: nat, j: nat)
    requires Orderly(trace) && i < j < |trace| && trace[j].Attached?
    ensures !Shuts(trace[i])
    ensures trace[i].Attached? ==> trace[i].id < trace[j].id
  {
    assert Allowed(trace, j, Seen(trace, j), trace[j]);
    SeenIsWhatHappened(trace, j);
  }

  lemma TwoEvents(trace: seq<Event>, a: Event, b: Event)
    ensures trace + [a] + [b] == trace + [a, b]
  {
  }

  ghost predicate Increasing(ids: seq<nat>) {
    forall i, j | 0 <= i < j < |ids| :: ids[i] < ids[j]
  }

  lemma IncreasingAppend(ids: seq<nat>, id: nat)
    requires Increasing(ids) && forall c | c in ids :: c < id
    ensures Increasing(ids + [id])
  {
    forall i, j | 0 <= i < j < |ids| + 1 ensures (ids + [id])[i] < (ids + [id])[j] {
      if j == |ids| { assert ids[i] in ids; }
    }
  }

  // -------------------------------------------------------------------------
  // One round of pumping

  predicate Closed(a: PumpAnswer) {
    a == Success(PumpPeerClosed) || a == Success(PumpFatalClosed) || a == Failure(UnknownConnection)
  }

  predicate Unexpected(a: PumpAnswer) { a.Failure? && !Closed(a) }

  /** The server was asked about the connections in order, until it failed unexpectedly. */
  ghost predicate IsRound(round: seq<nat>, answers: seq<PumpAnswer>) {
    && |answers| <= |round|
    && (forall k | 0 <= k < |answers| - 1 :: !Unexpected(answers[k]))
    && (|answers| < |round| ==> answers != [] && Unexpected(answers[|answers| - 1]))
  }

  ghost predicate Advanced(answers: seq<PumpAnswer>) {
    exists k | 0 <= k < |answers| :: Closed(answers[k]) || answers[k] == Success(PumpProcessed)
  }

  /** A round advances exactly if its event moves. */
  lemma AdvancedMoves(round: seq<nat>, answers: seq<PumpAnswer>)
    ensures Advanced(answers) <==> Moves(PumpedRound(round, answers))
  {
    forall k | 0 <= k < |answers|
      ensures Closed(answers[k]) || answers[k] == Success(PumpProcessed) <==>
        answers[k] == Failure(UnknownConnection) || (answers[k].Success? && answers[k].value !in {PumpEmpty, PumpBackpressured})
    {
      KeptAnswersAre(answers[k]);
    }
  }

  lemma AdvancedOneMore(answers: seq<PumpAnswer>, a: PumpAnswer)
    ensures Advanced(answers + [a]) <==> Advanced(answers) || Closed(a) || a == Success(PumpProcessed)
  {
    var longer := answers + [a];
    assert longer[|answers|] == a && forall k | 0 <= k < |answers| :: longer[k] == answers[k];
  }

  /** Exactly the answers after which a connection is kept. */
  lemma KeptAnswersAre(a: PumpAnswer)
    ensures a.Success? ==> (!Closed(a) <==> a.value in {PumpEmpty, PumpBackpressured, PumpProcessed})
    ensures a.Failure? ==> (!Closed(a) <==> a.error.StateError? || a.error in {ConnectionCapacity, OtherServerError})
    ensures Unexpected(a) <==> a.Failure? && a.error != UnknownConnection
  {
    match a
    case Success(PumpEmpty) =>
    case Success(PumpBackpressured) =>
    case Success(PumpProcessed) =>
    case Success(PumpPeerClosed) =>
    case Success(PumpFatalClosed) =>
    case Failure(_) =>
  }

  /** The connections that were asked about and are not closed. */
  function Kept(round: seq<nat>, answers: seq<PumpAnswer>): (kept: seq<nat>)
    requires |answers| <= |round|
    ensures forall c | c in kept :: c in round
  {
    if answers == [] then [] else
    var n := |answers| - 1;
    Kept(round, answers[..n]) + if Closed(answers[n]) then [] else [round[n]]
  }
}
