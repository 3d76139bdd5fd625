/**
 Setting up a production runtime, one step after the other: every step may fail, a failure may leave a native
 thread, and a setup that failed shuts the endpoint before it disposes of the singleton.
 */
module ProductionSetup {
  import opened OwnerRuntime
  import opened OwnerTrace
  import opened Wrappers

  /** Where a setup stands, the singleton acquired; `cause` is why it failed. */
  datatype Stage =
    | Acquired | Seeded | Bound | Started | Serving | Latching | Unlatched | Ready
    | Failing(cause: RuntimeError)
    | EndpointDown(cause: RuntimeError, quiet: bool)
    | SourceGone(cause: RuntimeError, quiet: bool)
    | Disposed(cause: RuntimeError, quiet: bool)

  datatype Setup = Setup(stage: Stage, trace: seq<Event>)

  predicate Keeps(cause: RuntimeError, quiet: bool) { cause == NativeStartup || !quiet }

  /** One step from `s` to `t`, and the event it adds, if any. Whoever is asked may answer either way. */
  predicate SetupStep(s: Stage, added: Option<Event>, t: Stage) {
    match s
    case Acquired => added == None && (t == Seeded || t == Failing(Randomness))
    case Seeded => (added == Some(EndpointBound) && t == Bound) || (added == None && t == Failing(ConnectionSource))
    case Bound =>
      // A startup that fails may leave its thread.
      (added == Some(AdapterStarted) && t == Started) || (MayLeaveThread(added) && t == Failing(NativeStartup))
    case Started =>
      // A server that does not start drops the adapter, which may leave its thread.
      (added == None && t == Serving) || (MayLeaveThread(added) && t == Failing(Server))
    case Serving =>
      // A rollback may be under way.
      (added == None && t == Ready) || (added == Some(RollbackSeen) && t == Latching)
    case Latching =>
      (added == Some(RollbackLatched(true)) && t == Ready) || (added == Some(RollbackLatched(false)) && t == Unlatched)
    case Unlatched =>
      // The server cannot latch it: server and adapter are dropped.
      MayLeaveThread(added) && t == Failing(Server)
    case Ready => false
    case Failing(cause) =>
      && added.Some? && added.value.EndpointShut?
      && t == EndpointDown(cause, added.value.quiesced)
    case EndpointDown(cause, quiet) => added == Some(SourceDropped) && t == SourceGone(cause, quiet)
    case SourceGone(cause, quiet) =>
      added == Some(if Keeps(cause, quiet) then Preserved else Released) && t == Disposed(cause, quiet)
    case Disposed(_, _) => false
  }

  predicate MayLeaveThread(added: Option<Event>) { added == None || added == Some(ThreadLeft) }

  function Added(trace: seq<Event>, added: Option<Event>): seq<Event> {
    if added.Some? then trace + [added.value] else trace
  }

  ghost predicate SetupNext(a: Setup, b: Setup) {
    exists added :: SetupStep(a.stage, added, b.stage) && b.trace == Added(a.trace, added)
  }

  ghost predicate SetupRun(run: seq<Setup>) {
    |run| > 0 && run[0] == Setup(Acquired, []) && forall i | 0 < i < |run| :: SetupNext(run[i - 1], run[i])
  }

  // -------------------------------------------------------------------------
  // What the trace tells about the stage

  predicate HasFailed(s: Stage) { s.Failing? || s.EndpointDown? || s.SourceGone? || s.Disposed? }

  predicate HasShut(s: Stage) { s.EndpointDown? || s.SourceGone? || s.Disposed? }

  predicate HasServed(s: Stage) { s in {Serving, Latching, Unlatched, Ready} }

  predicate HasStarted(s: Stage) { s == Started || HasServed(s) || (HasFailed(s) && s.cause == Server) }

  predicate HasBound(s: Stage) { s == Bound || HasStarted(s) || (HasFailed(s) && s.cause == NativeStartup) }

  /** What only a runtime is told. */
  predicate OfRuntime(e: Event) {
    !(e.EndpointBound? || e.AdapterStarted? || e.RollbackSeen? || e.RollbackLatched? || e.ThreadLeft? || e.SourceDropped?
      || e.EndpointShut? || e.Released? || e.Preserved?)
  }

  /** How far the setup came, by its trace. */
  ghost predicate Progressed(s: Setup) {
    && (HasFailed(s.stage) ==> s.stage.cause in {Randomness, ConnectionSource, NativeStartup, Server})
    && (EndpointBound in s.trace <==> HasBound(s.stage))
    && (AdapterStarted in s.trace <==> HasStarted(s.stage))
    && (ThreadLeft in s.trace ==> HasBound(s.stage) && HasFailed(s.stage))
    && (RollbackLatched(false) in s.trace ==> s.stage == Unlatched || HasFailed(s.stage))
    && (RollbackSeen in s.trace ==> s.stage in {Latching, Unlatched, Ready} || HasFailed(s.stage))
    && (RollbackSeen in s.trace && s.stage == Ready ==> RollbackLatched(true) in s.trace)
    && (forall e | e in s.trace :: !OfRuntime(e))
  }

  /** What a failed setup did since, by its trace. */
  ghost predicate Ended(s: Setup) {
    && (EndpointShut(true) in s.trace <==> HasShut(s.stage) && s.stage.quiet)
    && (Released in s.trace <==> s.stage.Disposed? && !Keeps(s.stage.cause, s.stage.quiet))
    && (Preserved in s.trace <==> s.stage.Disposed? && Keeps(s.stage.cause, s.stage.quiet))
    && var n := |s.trace|;
    && (s.stage.EndpointDown? ==> n >= 1 && s.trace[n - 1] == EndpointShut(s.stage.quiet))
    && (s.stage.SourceGone? ==> n >= 2 && s.trace[n - 1] == SourceDropped && s.trace[n - 2] == EndpointShut(s.stage.quiet))
  }

  ghost predicate Reachable(s: Setup) { Progressed(s) && Ended(s) }

  lemma InAdded(trace: seq<Event>, added: Option<Event>)
    ensures forall e :: e in Added(trace, added) <==> e in trace || added == Some(e)
  {
  }

  lemma SetupProgresses(a: Setup, added: Option<Event>, b: Setup)
    requires Progressed(a) && SetupStep(a.stage, added, b.stage) && b.trace == Added(a.trace, added)
    ensures Progressed(b)
  {
    InAdded(a.trace, added);
  }

  lemma SetupEnds(a: Setup, added: Option<Event>, b: Setup)
    requires Ended(a) && SetupStep(a.stage, added, b.stage) && b.trace == Added(a.trace, added)
    ensures Ended(b)
  {
    InAdded(a.trace, added);
  }

  /** A setup tells a runtime's flags nothing, unless its rollback could not be latched. */
  lemma SetupTellsNothing(trace: seq<Event>)
    requires forall e | e in trace :: !OfRuntime(e)
    ensures var seen := Seen(trace, |trace|);
      && !seen.flags.lost && !seen.flags.poisoned && !seen.flags.incomplete && seen.free == 1
      && (seen.flags.shut || seen.flags.faulted ==> RollbackLatched(false) in trace)
      && (seen.flags.disposed ==> Released in trace || Preserved in trace)
  {
    SeenIsWhatHappened(trace, |trace|);
    forall i | 0 <= i < |trace|
      ensures !Loses(trace[i]) && !Poisons(trace[i]) && !trace[i].Attached? && !trace[i].OrphanAsked?
      ensures Shuts(trace[i]) || Faults(trace[i]) ==> trace[i] == RollbackLatched(false)
    {
      SetupEventTellsNothing(trace[i]);
    }
    SeenOfNone(trace, |trace|);
  }

  lemma SetupEventTellsNothing(e: Event)
    requires !OfRuntime(e)
    ensures !Loses(e) && !Poisons(e) && !e.Attached? && !e.OrphanAsked?
    ensures Shuts(e) || Faults(e) ==> e == RollbackLatched(false)
  {
  }

  lemma DisposalIsAllowed(a: Setup, e: Event, t: Stage)
    requires Reachable(a) && a.stage.SourceGone? && SetupStep(a.stage, Some(e), t)
    ensures Allowed(a.trace, |a.trace|, Seen(a.trace, |a.trace|), e)
  {
    SetupTellsNothing(a.trace);
  }

  lemma StartIsAllowed(a: Setup, e: Event, t: Stage)
    requires Progressed(a) && !a.stage.SourceGone? && SetupStep(a.stage, Some(e), t)
    ensures Allowed(a.trace, |a.trace|, Seen(a.trace, |a.trace|), e)
  {
    if e == AdapterStarted {
      var i :| 0 <= i < |a.trace| && a.trace[i] == EndpointBound;
    } else if e == EndpointBound {
      assert AdapterStarted !in a.trace;
    }
  }

  lemma SetupStepKeepsOrder(a: Setup, added: Option<Event>, b: Setup)
    requires Orderly(a.trace) && Reachable(a) && SetupStep(a.stage, added, b.stage) && b.trace == Added(a.trace, added)
    ensures Orderly(b.trace)
  {
    if added.Some? {
      if a.stage.SourceGone? {
        DisposalIsAllowed(a, added.value, b.stage);
      } else {
        StartIsAllowed(a, added.value, b.stage);
      }
      OrderlyAppend(a.trace, added.value);
    }
  }

  lemma {:induction false} SetupIsReachable(run: seq<Setup>, i: nat)
    requires SetupRun(run) && i < |run|
    ensures Reachable(run[i])
  {
    if i > 0 {
      SetupIsReachable(run, i - 1);
      assert SetupNext(run[i - 1], run[i]);
      var added :| SetupStep(run[i - 1].stage, added, run[i].stage) && run[i].trace == Added(run[i - 1].trace, added);
      SetupProgresses(run[i - 1], added, run[i]);
      SetupEnds(run[i - 1], added, run[i]);
    }
  }

  /** Every setup, wherever it stands, is orderly: bound before started, and released only once quiet. */
  lemma {:induction false} SetupIsOrderly(run: seq<Setup>, i: nat)
    requires SetupRun(run) && i < |run|
    ensures Orderly(run[i].trace)
  {
    if i > 0 {
      SetupIsOrderly(run, i - 1);
      SetupIsReachable(run, i - 1);
      assert SetupNext(run[i - 1], run[i]);
      var added :| SetupStep(run[i - 1].stage, added, run[i].stage) && run[i].trace == Added(run[i - 1].trace, added);
      SetupStepKeepsOrder(run[i - 1], added, run[i]);
    }
  }

  /** Exactly when a failed setup releases the singleton: the endpoint went quiet and the native startup did not fail. */
  lemma SetupReleasesExactlyWhen(run: seq<Setup>)
    requires SetupRun(run) && run[|run| - 1].stage.Disposed?
    ensures var trace := run[|run| - 1].trace;
      && (Released in trace <==> EndpointShut(true) in trace && (EndpointBound in trace ==> AdapterStarted in trace))
      && (Preserved in trace <==> Released !in trace)
  {
    SetupIsReachable(run, |run| - 1);
  }

  /** A setup that left a native thread releases the singleton exactly if the adapter had started and the endpoint went quiet. */
  lemma SetupReleasesBesideThreadExactlyWhen(run: seq<Setup>)
    requires SetupRun(run) && run[|run| - 1].stage.Disposed? && ThreadLeft in run[|run| - 1].trace
    ensures var trace := run[|run| - 1].trace;
      Released in trace <==> AdapterStarted in trace && EndpointShut(true) in trace
  {
    SetupIsReachable(run, |run| - 1);
  }

  ghost predicate ReleasesBesideThread(run: seq<Setup>) {
    SetupRun(run) && Released in run[|run| - 1].trace && ThreadLeft in run[|run| - 1].trace
  }

  lemma SetupRunExtends(run: seq<Setup>, added: Option<Event>, t: Stage)
    requires SetupRun(run) && SetupStep(run[|run| - 1].stage, added, t)
    ensures SetupRun(run + [Setup(t, Added(run[|run| - 1].trace, added))])
  {
    var last := run[|run| - 1];
    assert SetupNext(last, Setup(t, Added(last.trace, added)));
  }

  /** It happens: a server that fails after the adapter started, and an adapter that leaves its thread when dropped. */
  lemma SetupCanReleaseBesideThread() returns (run: seq<Setup>)
    ensures ReleasesBesideThread(run) && run[|run| - 1].stage == Disposed(Server, true)
  {
    run := [Setup(Acquired, [])];
    run := ExtendRun(run, None, Seeded);
    run := ExtendRun(run, Some(EndpointBound), Bound);
    run := ExtendRun(run, Some(AdapterStarted), Started);
    run := ExtendRun(run, Some(ThreadLeft), Failing(Server));
    run := ExtendRun(run, Some(EndpointShut(true)), EndpointDown(Server, true));
    run := ExtendRun(run, Some(SourceDropped), SourceGone(Server, true));
    run := ExtendRun(run, Some(Released), Disposed(Server, true));
  }

  lemma ExtendRun(run: seq<Setup>, added: Option<Event>, t: Stage) returns (longer: seq<Setup>)
    requires SetupRun(run) && SetupStep(run[|run| - 1].stage, added, t)
    ensures SetupRun(longer) && longer[|longer| - 1] == Setup(t, Added(run[|run| - 1].trace, added))
    ensures forall e :: e in longer[|longer| - 1].trace <==> e in run[|run| - 1].trace || added == Some(e)
  {
    SetupRunExtends(run, added, t);
    longer := run + [Setup(t, Added(run[|run| - 1].trace, added))];
  }

  // -------------------------------------------------------------------------
  // The setup itself

  /** Asks one after the other; what it does is a run of the steps above. */
  class ProductionSetup {
    ghost var run: seq<Setup>

    ghost predicate At(stage: Stage)
      reads this
    {
      SetupRun(run) && run[|run| - 1].stage == stage
    }

    constructor ()
      ensures At(Acquired)
    {
      run := [Setup(Acquired, [])];
    }

    ghost method Advance(s: Stage, added: Option<Event>, t: Stage)
      requires At(s) && SetupStep(s, added, t)
      modifies this
      ensures At(t) && run[|run| - 1].trace == Added(old(run[|run| - 1].trace), added)
    {
      SetupRunExtends(run, added, t);
      run := run + [Setup(t, Added(run[|run| - 1].trace, added))];
    }

    /** A step failed, and left a native thread or not. */
    ghost method Fail(s: Stage, cause: RuntimeError, threadLeft: bool)
      requires At(s) && !HasFailed(s) && SetupStep(s, if threadLeft then Some(ThreadLeft) else None, Failing(cause))
      modifies this
      ensures At(Failing(cause)) && (ThreadLeft in run[|run| - 1].trace <==> threadLeft)
    {
      SetupIsReachable(run, |run| - 1);
      Advance(s, if threadLeft then Some(ThreadLeft) else None, Failing(cause));
    }

    /** Draws the instance id, binds the endpoint, starts adapter and server, and latches a rollback under way. */
    method Attempt(answers: SetupAnswers) returns (error: Option<RuntimeError>)
      requires At(Acquired)
      modifies this
      ensures At(if error.None? then Ready else Failing(error.value))
      ensures error.None? <==>
        answers.seeded && answers.bound && answers.started && answers.serving && (answers.rollback ==> answers.latched)
      ensures error == Some(Randomness) <==> !answers.seeded
      ensures error == Some(ConnectionSource) <==> answers.seeded && !answers.bound
      ensures error == Some(NativeStartup) <==> answers.seeded && answers.bound && !answers.started
      ensures error.Some? ==> error.value in {Randomness, ConnectionSource, NativeStartup, Server}
      ensures error in {Some(NativeStartup), Some(Server)} ==> (ThreadLeft in run[|run| - 1].trace <==> answers.threadLeft)
      ensures error.None? && answers.rollback ==> RollbackLatched(true) in run[|run| - 1].trace
    {
      if !answers.seeded {
        Advance(Acquired, None, Failing(Randomness));
        return Some(Randomness);
      }
      Advance(Acquired, None, Seeded);
      if !answers.bound {
        Advance(Seeded, None, Failing(ConnectionSource));
        return Some(ConnectionSource);
      }
      Advance(Seeded, Some(EndpointBound), Bound);
      if !answers.started {
        Fail(Bound, NativeStartup, answers.threadLeft);
        return Some(NativeStartup);
      }
      Advance(Bound, Some(AdapterStarted), Started);
      error := StartServer(answers);
    }

    /** The second half, with the adapter running. */
    method StartServer(answers: SetupAnswers) returns (error: Option<RuntimeError>)
      requires At(Started)
      modifies this
      ensures At(if error.None? then Ready else Failing(Server)) && (error.None? || error == Some(Server))
      ensures error.None? <==> answers.serving && (answers.rollback ==> answers.latched)
      ensures error.Some? ==> (ThreadLeft in run[|run| - 1].trace <==> answers.threadLeft)
      ensures error.None? && answers.rollback ==> RollbackLatched(true) in run[|run| - 1].trace
    {
      if !answers.serving {
        Fail(Started, Server, answers.threadLeft);
        return Some(Server);
      }
      Advance(Started, None, Serving);
      if !answers.rollback {
        Advance(Serving, None, Ready);
        return None;
      }
      Advance(Serving, Some(RollbackSeen), Latching);
      if !answers.latched {
        Advance(Latching, Some(RollbackLatched(false)), Unlatched);
        Fail(Unlatched, Server, answers.threadLeft);
        return Some(Server);
      }
      Advance(Latching, Some(RollbackLatched(true)), Ready);
      return None;
    }

    /** Shuts the endpoint, drops its source and only then disposes of the singleton. */
    method Abandon(cause: RuntimeError, quiesced: bool) returns (error: RuntimeError)
      requires At(Failing(cause))
      modifies this
      ensures At(Disposed(cause, quiesced)) && error == if quiesced then cause else ConnectionSource
    {
      Advance(Failing(cause), Some(EndpointShut(quiesced)), EndpointDown(cause, quiesced));
      Advance(EndpointDown(cause, quiesced), Some(SourceDropped), SourceGone(cause, quiesced));
      if cause == NativeStartup || !quiesced {
        Advance(SourceGone(cause, quiesced), Some(Preserved), Disposed(cause, quiesced));
        error := if !quiesced then ConnectionSource else cause;
      } else {
        Advance(SourceGone(cause, quiesced), Some(Released), Disposed(cause, quiesced));
        error := cause;
      }
    }
  }

  /** What everyone who is asked during a setup answers; `threadLeft` tells whether a failed or dropped adapter leaves its thread. */
  datatype SetupAnswers = SetupAnswers(
    seeded: bool, bound: bool, started: bool, serving: bool, rollback: bool, latched: bool, threadLeft: bool, quiesced: bool)
  {
    predicate Succeed() { seeded && bound && started && serving && (rollback ==> latched) }
  }

  /** A runtime may go on with the trace of a setup that is ready. */
  lemma ReadyIsFresh(run: seq<Setup>)
    requires SetupRun(run) && run[|run| - 1].stage == Ready
    ensures var trace := run[|run| - 1].trace; Orderly(trace) && OwnerRuntime.Fresh(Seen(trace, |trace|))
  {
    SetupIsOrderly(run, |run| - 1);
    SetupIsReachable(run, |run| - 1);
    SetupTellsNothing(run[|run| - 1].trace);
  }

  /** A setup that disposed of the singleton ended well. */
  lemma DisposedSetupEndsWell(run: seq<Setup>)
    requires SetupRun(run) && run[|run| - 1].stage.Disposed?
    ensures var trace := run[|run| - 1].trace; Orderly(trace) && EndsWell(trace)
  {
    var trace := run[|run| - 1].trace;
    SetupIsOrderly(run, |run| - 1);
    SetupReleasesExactlyWhen(run);
    var i: int :| 0 <= i < |trace| && (trace[i] == Released || trace[i] == Preserved);
    assert Disposition(trace[i]);
    DisposedEndsWell(trace);
  }

  /** A production runtime, its trace continuing that of its setup; or a setup that disposed of the singleton. */
  method Production(acquired: Result<bool, ()>, grace: bool, answers: SetupAnswers)
    returns (r: Result<OwnerRuntime, RuntimeError>, ghost run: seq<Setup>)
    ensures acquired == Success(true) ==> SetupRun(run)
    ensures acquired != Success(true) ==> run == [] && r == Failure(if acquired.Failure? then SingletonFailed else SingletonBusy)
    ensures r.Success? <==> acquired == Success(true) && answers.Succeed()
    ensures r.Success? ==>
      && run[|run| - 1].stage == Ready && fresh(r.value)
      && r.value.Valid() && r.value.singletonHeld && r.value.trace == run[|run| - 1].trace
      && r.value.initialAuthenticationDeadline == grace
    ensures r.Failure? && acquired == Success(true) ==>
      var last := run[|run| - 1].stage;
      last.Disposed? && last.quiet == answers.quiesced && r.error == (if answers.quiesced then last.cause else ConnectionSource)
  {
    if acquired.Failure? { return Failure(SingletonFailed), []; }
    if !acquired.value { return Failure(SingletonBusy), []; }
    var setup := new ProductionSetup();
    var cause := setup.Attempt(answers);
    match cause
    case None =>
      ReadyIsFresh(setup.run);
      var runtime := new OwnerRuntime(grace, setup.run[|setup.run| - 1].trace);
      return Success(runtime), setup.run;
    case Some(error) =>
      var reported := setup.Abandon(error, answers.quiesced);
      return Failure(reported), setup.run;
  }

  /**
   From the acquisition to the end of the process: setup and life leave one orderly trace, in which the singleton
   is disposed of exactly once. The error of a failed setup tells how, unless the connection source failed.
   */
  method ProduceAndLive(grace: bool, answers: SetupAnswers, steps: nat) returns (failed: Option<RuntimeError>, ghost trace: seq<Event>)
    ensures Orderly(trace) && EndsWell(trace)
    ensures failed.None? <==> answers.Succeed()
    ensures failed.None? ==> EndpointBound in trace && AdapterStarted in trace
    ensures failed == Some(NativeStartup) ==> Preserved in trace
    ensures failed == Some(Randomness) || failed == Some(Server) ==> Released in trace
  {
    ghost var run;
    var produced;
    produced, run := Production(Success(true), grace, answers);
    SetupIsReachable(run, |run| - 1);
    match produced
    case Success(runtime) =>
      failed := None;
      ghost var setup := runtime.trace;
      Live(runtime, steps);
      trace := runtime.trace;
      assert forall e | e in setup :: e in trace;
    case Failure(error) =>
      failed := Some(error);
      trace := run[|run| - 1].trace;
      DisposedSetupEndsWell(run);
  }
}
