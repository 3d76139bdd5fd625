/**
 The serialized owner loop and its singleton. The protocol server, the connection source and the signal
 source are arbitrary: every answer they give is chosen afresh at each call and kept in the trace.
 */
module OwnerRuntime {
  import opened Bytes
  import opened OwnerTrace
  import opened Wrappers

  ghost predicate Numbered(connections: seq<nat>, next: nat) {
    next > 0 && Increasing(connections) && forall c | c in connections :: 0 < c < next
  }

  /** Says nothing that a runtime keeps. */
  predicate Passes(e: Event) {
    && !Shuts(e) && !Disposition(e)
    && e != OrphanAsked(TerminalIncomplete) && !e.Attached? && e != EndpointBound && e != AdapterStarted
  }

  class OwnerRuntime {
    var connections: seq<nat>
    var nextConnectionId: U64
    var shutdownRequested: bool
    var orphanedAuthority: bool
    var terminalIncompleteShutdown: bool
    var fatalRecovery: bool
    var singletonHeld: bool
    var retainSingletonUntilExit: bool
    var initialAuthenticationDeadline: bool
    ghost var trace: seq<Event>
    ghost var sights: seq<Sight>
    ghost var seen: Sight

    /** The flags are what the trace says, except that shutdown and recovery may still have to follow it. */
    ghost predicate Behind()
      reads this
    {
      && Traced(trace, sights, seen) && Numbered(connections, nextConnectionId) && seen.free <= nextConnectionId
      && orphanedAuthority == seen.flags.lost && retainSingletonUntilExit == seen.flags.poisoned
      && terminalIncompleteShutdown == seen.flags.incomplete && singletonHeld == !seen.flags.disposed
      && (seen.flags.faulted || seen.flags.lost || seen.flags.poisoned ==> seen.flags.shut)
      && (connections != [] ==> !initialAuthenticationDeadline)
      && (shutdownRequested ==> seen.flags.shut) && (fatalRecovery ==> seen.flags.faulted && shutdownRequested)
    }

    /** Every flag is exactly what the runtime was told. */
    ghost predicate Valid()
      reads this
    {
      Behind() && shutdownRequested == seen.flags.shut && fatalRecovery == seen.flags.faulted
    }

    /** What no call undoes; and a call that disposes of the singleton does nothing after that. */
    twostate predicate Latched()
      reads this
    {
      && old(trace) <= trace
      && (old(shutdownRequested) ==> shutdownRequested)
      && (old(fatalRecovery) ==> fatalRecovery)
      && (!old(singletonHeld) ==> !singletonHeld)
      && (old(singletonHeld) && !singletonHeld ==> trace != [] && Disposition(trace[|trace| - 1]))
      && old(nextConnectionId) <= nextConnectionId
      && old(seen.moved) <= seen.moved && old(seen.blocked) <= seen.blocked
    }

    /** Since the call began something moved, or was held up, exactly if so reported. */
    twostate predicate Counts(progress: bool, backpressured: bool)
      reads this`seen
    {
      && old(seen.moved) <= seen.moved && (progress <==> old(seen.moved) < seen.moved)
      && old(seen.blocked) <= seen.blocked && (backpressured <==> old(seen.blocked) < seen.blocked)
    }

    /** Nothing moved and nothing was held up. */
    twostate predicate Still()
      reads this`seen
    {
      seen.moved == old(seen.moved) && seen.blocked == old(seen.blocked)
    }

    /** A runtime right after its setup. */
    constructor (grace: bool, ghost setup: seq<Event>)
      requires Orderly(setup) && Fresh(Seen(setup, |setup|))
      ensures Valid() && singletonHeld && trace == setup && connections == [] && nextConnectionId == 1
      ensures !shutdownRequested && !fatalRecovery && !orphanedAuthority && initialAuthenticationDeadline == grace
    {
      connections, nextConnectionId := [], 1;
      shutdownRequested, orphanedAuthority, terminalIncompleteShutdown := false, false, false;
      fatalRecovery, singletonHeld, retainSingletonUntilExit := false, true, false;
      initialAuthenticationDeadline := grace;
      var followed := OrderlyIsTraced(setup);
      trace, sights, seen := setup, followed, Seen(setup, |setup|);
    }

    static ghost predicate Fresh(s: Sight) { s.flags == UNTOLD && s.free == 1 }

    /** Adds to the trace what the runtime was told or did. */
    ghost method Record(e: Event)
      requires Traced(trace, sights, seen) && Allowed(trace, |trace|, seen, e)
      modifies this`trace, this`sights, this`seen
      ensures Traced(trace, sights, seen) && trace == old(trace) + [e] && seen == Next(old(seen), e)
    {
      TracedAppend(trace, sights, seen, e);
      trace, sights, seen := trace + [e], sights + [Next(seen, e)], Next(seen, e);
    }

    /** Adds what changes no flag, moves nothing and holds nothing up. */
    ghost method Note(e: Event)
      requires Traced(trace, sights, seen) && Passes(e) && !Moves(e) && !Blocks(e)
      modifies this`trace, this`sights, this`seen
      ensures Traced(trace, sights, seen) && trace == old(trace) + [e] && seen == old(seen)
    {
      Record(e);
    }

    /** Adds what leaves nothing but containment, if it does. */
    ghost method Hear(e: Event, fault: bool)
      requires Traced(trace, sights, seen) && fault == Faults(e) && (fault || Passes(e)) && !e.Attached? && !Moves(e) && !Blocks(e)
      requires e != OrphanAsked(TerminalIncomplete)
      modifies this`trace, this`sights, this`seen
      ensures Traced(trace, sights, seen) && trace == old(trace) + [e]
      ensures seen == if fault then old(seen).(flags := old(seen.flags).(shut := true, faulted := true)) else old(seen)
    {
      Record(e);
    }

    /** Whether the server has asked for the exit, as it says now. */
    method AskExit() returns (requested: bool)
      requires Valid()
      modifies this`trace, this`sights, this`seen
      ensures Valid() && Still() && trace == old(trace) + [ExitAsked(requested)]
    {
      requested := *;
      Note(ExitAsked(requested));
    }

    method RequestShutdown()
      requires Behind() && seen.flags.shut && fatalRecovery == seen.flags.faulted
      modifies this`shutdownRequested, this`connections, this`fatalRecovery, this`trace, this`sights, this`seen
      ensures Valid() && Latched() && Still() && shutdownRequested
      ensures |trace| > |old(trace)| && trace[|old(trace)|].Detached?
      ensures var answer := trace[|old(trace)|].answer;
        if answer.Success? || answer.error.StateError? then |trace| == |old(trace)| + 1 && connections == []
        else if old(fatalRecovery) then |trace| == |old(trace)| + 1 && connections == old(connections)
        else fatalRecovery && Contains(|old(trace)| + 1, old(connections))
    {
      shutdownRequested := true;
      var detached := DetachAll();
      // The server may report a phase it has already latched; nothing remains attached.
      if detached.Success? || detached.error.StateError? {
        connections := [];
      } else {
        EnterFatalRecovery();
      }
    }

    /** Has the server detach every connection; it may report a phase it has already latched. */
    method DetachAll() returns (detached: Result<(), ServerError>)
      requires Traced(trace, sights, seen)
      modifies this`trace, this`sights, this`seen
      ensures Traced(trace, sights, seen) && trace == old(trace) + [Detached(detached)]
      ensures detached.Success? || detached.error.StateError? ==> seen == old(seen)
      ensures detached.Failure? && !detached.error.StateError? ==>
        seen == old(seen).(flags := old(seen.flags).(shut := true, faulted := true))
    {
      detached := *;
      Hear(Detached(detached), detached.Failure? && !detached.error.StateError?);
    }

    /** The last event is the containment; the connections are gone exactly if the server confirmed it. */
    ghost predicate Contains(n: nat, was: seq<nat>)
      reads this`trace, this`connections
    {
      && |trace| == n + 1 && trace[n].Contained?
      && connections == if trace[n].confirmed then [] else was
    }

    method EnterFatalRecovery()
      requires Behind() && seen.flags.faulted
      modifies this`shutdownRequested, this`connections, this`fatalRecovery, this`trace, this`sights, this`seen
      ensures Valid() && Latched() && Still() && fatalRecovery && shutdownRequested
      ensures old(fatalRecovery) ==> trace == old(trace) && connections == old(connections)
      ensures !old(fatalRecovery) ==> Contains(|old(trace)|, old(connections))
    {
      if !fatalRecovery {
        fatalRecovery, shutdownRequested := true, true;
        var detached: bool := *;
        Note(Contained(detached));
        if detached { connections := []; }
      }
    }

    method AllocateConnectionId() returns (r: Result<nat, RuntimeError>)
      requires Valid()
      modifies this`nextConnectionId
      ensures Valid() && Latched()
      ensures r.Success? ==> r.value == old(nextConnectionId) && nextConnectionId == old(nextConnectionId) + 1
      ensures r.Failure? <==> old(nextConnectionId) == 0xFFFF_FFFF_FFFF_FFFF
      ensures r.Failure? ==> r.error == ConnectionIdsExhausted && nextConnectionId == old(nextConnectionId)
    {
      if nextConnectionId == U64_MAX { return Failure(ConnectionIdsExhausted); }
      r := Success(nextConnectionId);
      nextConnectionId := nextConnectionId + 1;
    }

    /**
     Disposes of the singleton once. It is preserved after a poison failure, and after a lost authority unless the
     server confirms the exit; otherwise it is released once the endpoint is quiet, and preserved if it cannot be.
     */
    method ReleaseSingleton() returns (r: Result<(), RuntimeError>)
      requires Valid()
      modifies this`singletonHeld, this`trace, this`sights, this`seen
      ensures Valid() && Latched() && Still() && !singletonHeld
      ensures r.Failure? ==> r.error == ConnectionSource && old(singletonHeld)
      ensures !old(singletonHeld) ==> trace == old(trace)
      ensures old(singletonHeld) && retainSingletonUntilExit ==> trace == old(trace) + [Preserved] && r.Success?
      ensures old(singletonHeld) && !retainSingletonUntilExit && !orphanedAuthority ==> trace == old(trace) + Ending(r)
      ensures old(singletonHeld) && !retainSingletonUntilExit && orphanedAuthority ==>
        || trace == old(trace) + [ExitAsked(true)] + Ending(r)
        || (trace == old(trace) + [ExitAsked(false)] + [Preserved] && r.Success?)
    {
      if !singletonHeld { return Success(()); }
      if retainSingletonUntilExit {
        PreserveSingleton();
        return Success(());
      }
      if orphanedAuthority {
        var requested := AskExit();
        if !requested {
          PreserveSingleton();
          return Success(());
        }
      }
      r := QuiesceSingleton();
    }

    /** What a disposition that was free to release comes to. */
    static ghost function Ending(r: Result<(), RuntimeError>): seq<Event> {
      if r.Success? then [EndpointShut(true), Released] else [EndpointShut(false), Preserved]
    }

    method QuiesceSingleton() returns (r: Result<(), RuntimeError>)
      requires Valid() && singletonHeld && !retainSingletonUntilExit
      requires orphanedAuthority ==> trace != [] && trace[|trace| - 1] == ExitAsked(true)
      modifies this`singletonHeld, this`trace, this`sights, this`seen
      ensures Valid() && Still() && !singletonHeld && trace == old(trace) + Ending(r)
      ensures r.Failure? ==> r.error == ConnectionSource
    {
      var quiesced := ShutEndpoint();
      if quiesced {
        FreeSingleton();
        TwoEvents(old(trace), EndpointShut(true), Released);
        return Success(());
      }
      PreserveSingleton();
      TwoEvents(old(trace), EndpointShut(false), Preserved);
      return Failure(ConnectionSource);
    }

    /** Closes the discoverable endpoint and joins its workers, or fails to. */
    method ShutEndpoint() returns (quiesced: bool)
      requires Valid()
      modifies this`trace, this`sights, this`seen
      ensures Valid() && Still() && trace == old(trace) + [EndpointShut(quiesced)]
    {
      quiesced := *;
      Note(EndpointShut(quiesced));
    }

    method FreeSingleton()
      requires Valid() && singletonHeld && Allowed(trace, |trace|, seen, Released)
      modifies this`singletonHeld, this`trace, this`sights, this`seen
      ensures Valid() && Still() && !singletonHeld && trace == old(trace) + [Released]
    {
      Record(Released);
      singletonHeld := false;
    }

    method PreserveSingleton()
      requires Valid() && singletonHeld
      modifies this`singletonHeld, this`trace, this`sights, this`seen
      ensures Valid() && Still() && !singletonHeld && trace == old(trace) + [Preserved]
    {
      Record(Preserved);
      singletonHeld := false;
    }

    /** Polls for a signal and takes it, if there is one. */
    method PollSignal() returns (signal: Option<Signal>)
      requires Valid()
      modifies this`orphanedAuthority, this`retainSingletonUntilExit
      modifies this`shutdownRequested, this`connections, this`fatalRecovery, this`trace, this`sights, this`seen
      ensures Valid() && Latched() && Still()
      ensures |trace| > |old(trace)| && trace[|old(trace)|] == Told(signal)
      ensures signal.None? ==> |trace| == |old(trace)| + 1 && connections == old(connections)
    {
      signal := *;
      if signal.Some? {
        TakeSignal(signal.value);
      } else {
        Note(Told(signal));
      }
    }

    /** A rollback is latched, every other signal shuts down. */
    method TakeSignal(signal: Signal)
      requires Valid()
      modifies this`orphanedAuthority, this`retainSingletonUntilExit
      modifies this`shutdownRequested, this`connections, this`fatalRecovery, this`trace, this`sights, this`seen
      ensures Valid() && Latched() && Still()
      ensures |trace| > |old(trace)| && trace[|old(trace)|] == Told(Some(signal))
      ensures signal == RuntimeRollback ==> |trace| > |old(trace)| + 1 && trace[|old(trace)| + 1].RollbackLatched?
      ensures signal != RuntimeRollback ==> shutdownRequested
      ensures signal == RemovalPoisonFailed ==> retainSingletonUntilExit
      ensures signal == AuthorityLost ==> orphanedAuthority
    {
      match signal
      case RuntimeRollback =>
        Note(Told(Some(RuntimeRollback)));
        LatchRollback();
      case RemovalPoisonFailed =>
        RetainSingleton();
      case AuthorityLost =>
        LoseAuthority(Told(Some(AuthorityLost)));
      case ShutdownSignal =>
        ShutDownFor(Told(Some(ShutdownSignal)));
      case SessionEnded =>
        ShutDownFor(Told(Some(SessionEnded)));
    }

    /** Shuts down for a reason that says nothing else. */
    method ShutDownFor(ghost reason: Event)
      requires Valid() && reason in {Told(Some(ShutdownSignal)), Told(Some(SessionEnded))}
      modifies this`shutdownRequested, this`connections, this`fatalRecovery, this`trace, this`sights, this`seen
      ensures Valid() && Latched() && Still() && shutdownRequested
      ensures |trace| > |old(trace)| && trace[|old(trace)|] == reason
      ensures old(connections) == [] ==> connections == []
    {
      Record(reason);
      RequestShutdown();
    }

    /** The process that gave this one its authority, or the last peer that could return, is gone. */
    method LoseAuthority(ghost reason: Event)
      requires Valid() && Loses(reason)
      modifies this`orphanedAuthority, this`shutdownRequested, this`connections, this`fatalRecovery
      modifies this`trace, this`sights, this`seen
      ensures Valid() && Latched() && Still() && orphanedAuthority && shutdownRequested
      ensures |trace| > |old(trace)| && trace[|old(trace)|] == reason
    {
      Record(reason);
      orphanedAuthority := true;
      RequestShutdown();
    }

    /** The removal poison could not be cleared: the singleton is to be kept for the whole process. */
    method RetainSingleton()
      requires Valid()
      modifies this`retainSingletonUntilExit, this`shutdownRequested, this`connections, this`fatalRecovery
      modifies this`trace, this`sights, this`seen
      ensures Valid() && Latched() && Still() && retainSingletonUntilExit && shutdownRequested
      ensures |trace| > |old(trace)| && trace[|old(trace)|] == Told(Some(RemovalPoisonFailed))
    {
      Record(Told(Some(RemovalPoisonFailed)));
      retainSingletonUntilExit := true;
      RequestShutdown();
    }

    /** Has the server latch a rollback; a server that cannot leaves only containment. */
    method LatchRollback()
      requires Valid()
      modifies this`shutdownRequested, this`connections, this`fatalRecovery, this`trace, this`sights, this`seen
      ensures Valid() && Latched() && Still()
      ensures |trace| > |old(trace)| && trace[|old(trace)|].RollbackLatched?
    {
      var latched: bool := *;
      Hear(RollbackLatched(latched), !latched);
      if !latched { EnterFatalRecovery(); }
    }

    /** Gives an authenticated peer the next connection id and attaches it, unless the server refuses it. */
    method AttachPeer() returns (r: Result<(), RuntimeError>)
      requires Valid() && !shutdownRequested
      modifies this`nextConnectionId, this`connections, this`initialAuthenticationDeadline
      modifies this`shutdownRequested, this`fatalRecovery, this`trace, this`sights, this`seen
      ensures Valid() && Latched() && seen.blocked == old(seen.blocked)
      ensures r.Failure? <==> old(nextConnectionId) == 0xFFFF_FFFF_FFFF_FFFF
      ensures r.Failure? ==> r.error == ConnectionIdsExhausted && trace == old(trace) && connections == old(connections)
      ensures r.Failure? ==> nextConnectionId == old(nextConnectionId)
      ensures r.Success? ==> seen.moved == old(seen.moved) + 1 && AttachedAs(|old(trace)|, old(nextConnectionId), old(connections))
    {
      var id := AllocateConnectionId();
      if id.Failure? { return Failure(id.error); }
      var attached := Attach(id.value);
      match attached {
        case Success(_) =>
          IncreasingAppend(connections, id.value);
          connections := connections + [id.value];
          initialAuthenticationDeadline := false;
        case Failure(ConnectionCapacity) =>
          // Only this peer is refused; the others stay.
        case Failure(_) =>
          EnterFatalRecovery();
      }
      r := Success(());
    }

    /** The server's answer to the peer it was given under `id`, and what became of the connections. */
    ghost predicate AttachedAs(n: nat, id: nat, was: seq<nat>)
      reads this`trace, this`connections, this`fatalRecovery, this`initialAuthenticationDeadline
    {
      && n < |trace| && trace[n].Attached? && trace[n].id == id
      && match trace[n].attached
         case Success(_) => |trace| == n + 1 && connections == was + [id] && !initialAuthenticationDeadline
         case Failure(ConnectionCapacity) => |trace| == n + 1 && connections == was
         case Failure(_) => fatalRecovery && Contains(n + 1, was)
    }

    /** Has the server attach a peer under an id never used before. */
    method Attach(id: nat) returns (attached: Result<(), ServerError>)
      requires Traced(trace, sights, seen) && !seen.flags.shut && seen.free <= id
      modifies this`trace, this`sights, this`seen
      ensures Traced(trace, sights, seen) && trace == old(trace) + [Attached(id, attached)]
      ensures var fault := attached.Failure? && attached.error != ConnectionCapacity;
        seen == Sight(old(seen.flags).(shut := fault, faulted := old(seen.flags.faulted) || fault),
                      old(seen.moved) + 1, old(seen.blocked), id + 1)
    {
      attached := *;
      Record(Attached(id, attached));
    }

    /** Polls for one authenticated peer while the server has room, and for none once shutdown or recovery began. */
    method AcceptPeer() returns (progress: bool, backpressured: bool, r: Result<(), RuntimeError>)
      requires Valid()
      modifies this`nextConnectionId, this`connections, this`initialAuthenticationDeadline
      modifies this`shutdownRequested, this`fatalRecovery, this`trace, this`sights, this`seen
      ensures Valid() && Latched()
      ensures r.Failure? ==> Ends(trace, |old(trace)|, Failure(r.error), nextConnectionId) && r.error == ConnectionIdsExhausted
      ensures r.Success? ==> Counts(progress, backpressured)
      ensures old(shutdownRequested) ==> trace == old(trace) && connections == old(connections)
      ensures !old(shutdownRequested) ==> |old(trace)| < |trace| && trace[|old(trace)|].RoomAsked?
      ensures !old(shutdownRequested) && !(!trace[|old(trace)|].planned && trace[|old(trace)|].capacity) ==>
        |trace| == |old(trace)| + 1 && connections == old(connections)
      ensures !old(shutdownRequested) && !trace[|old(trace)|].planned && trace[|old(trace)|].capacity ==>
        |trace| > |old(trace)| + 1 && trace[|old(trace)| + 1].PeerPolled?
        && (trace[|old(trace)| + 1].peer == Success(true) && r.Success? ==>
              AttachedAs(|old(trace)| + 2, old(nextConnectionId), old(connections)))
        && (trace[|old(trace)| + 1].peer == Success(false) ==> connections == old(connections))
    {
      progress, backpressured, r := false, false, Success(());
      if !shutdownRequested && !fatalRecovery {
        var planned, capacity: bool := *, *;
        Record(RoomAsked(planned, capacity));
        if !planned && capacity {
          progress, r := PollPeer();
        } else if !capacity {
          backpressured := true;
        }
      }
    }

    /** Polls the source, and attaches the peer it authenticated. */
    method PollPeer() returns (progress: bool, r: Result<(), RuntimeError>)
      requires Valid() && !shutdownRequested
      modifies this`nextConnectionId, this`connections, this`initialAuthenticationDeadline
      modifies this`shutdownRequested, this`fatalRecovery, this`trace, this`sights, this`seen
      ensures Valid() && Latched()
      ensures r.Failure? ==> Ends(trace, |old(trace)|, Failure(r.error), nextConnectionId) && r.error == ConnectionIdsExhausted
      ensures r.Success? ==> Counts(progress, false)
      ensures |trace| > |old(trace)| && trace[|old(trace)|].PeerPolled?
      ensures trace[|old(trace)|].peer == Success(true) && r.Success? ==>
        AttachedAs(|old(trace)| + 1, old(nextConnectionId), old(connections))
      ensures trace[|old(trace)|].peer == Success(false) ==> connections == old(connections)
    {
      progress, r := false, Success(());
      var polled: Result<bool, ()> := *;
      Hear(PeerPolled(polled), polled.Failure?);
      match polled
      case Success(true) =>
        r := AttachPeer();
        progress := r.Success?;
      case Success(false) =>
      case Failure(_) =>
        EnterFatalRecovery();
    }

    /** Ends the wait for a first peer when its grace period is over. */
    method CheckGrace() returns (progress: bool)
      requires Valid()
      modifies this`initialAuthenticationDeadline, this`shutdownRequested, this`connections, this`fatalRecovery
      modifies this`trace, this`sights, this`seen
      ensures Valid() && Latched() && Counts(progress, false)
      ensures var waits := !old(shutdownRequested) && old(connections) == [] && old(initialAuthenticationDeadline);
        if waits then |trace| > |old(trace)| && trace[|old(trace)|] == GraceAsked(progress)
        else !progress && trace == old(trace) && connections == old(connections)
      ensures progress ==> shutdownRequested && !initialAuthenticationDeadline
      ensures !progress ==> connections == old(connections) && initialAuthenticationDeadline == old(initialAuthenticationDeadline)
    {
      progress := false;
      if !shutdownRequested && connections == [] && initialAuthenticationDeadline {
        progress := AskGrace();
        if progress {
          initialAuthenticationDeadline := false;
          RequestShutdown();
        }
      }
    }

    /** Whether the wait for a first peer is over. */
    method AskGrace() returns (over: bool)
      requires Traced(trace, sights, seen)
      modifies this`trace, this`sights, this`seen
      ensures Traced(trace, sights, seen) && trace == old(trace) + [GraceAsked(over)]
      ensures seen.flags == (if over then old(seen.flags).(shut := true) else old(seen.flags)) && seen.free == old(seen.free)
      ensures seen.moved == old(seen.moved) + (if over then 1 else 0) && seen.blocked == old(seen.blocked)
    {
      over := *;
      Record(GraceAsked(over));
    }

    /**
     Pumps the connections in order. `answers` are the server's: those it called closed are dropped, and at an
     unexpected error the round stops, in fatal recovery, with that connection as the last one kept.
     */
    method PumpConnections() returns (progress: bool, backpressured: bool, ghost answers: seq<PumpAnswer>)
      requires Valid()
      modifies this`connections, this`shutdownRequested, this`fatalRecovery, this`trace, this`sights, this`seen
      ensures Valid() && Latched() && Counts(progress, backpressured)
      ensures |trace| > |old(trace)| && trace[|old(trace)|] == PumpedRound(old(connections), answers)
      ensures IsRound(old(connections), answers) && connections == Kept(old(connections), answers)
      ensures answers != [] && Unexpected(answers[|answers| - 1]) ==> fatalRecovery
    {
      var round := connections;
      var retained, failed;
      retained, progress, backpressured, failed, answers := PumpRound(round);
      assert Numbered(retained, nextConnectionId);
      RecordRound(round, answers, progress, backpressured, failed);
      if failed { EnterFatalRecovery(); }
      connections := retained;
    }

    ghost method RecordRound(round: seq<nat>, answers: seq<PumpAnswer>, progress: bool, backpressured: bool, failed: bool)
      requires Traced(trace, sights, seen)
      requires failed <==> answers != [] && Unexpected(answers[|answers| - 1])
      requires backpressured <==> Success(PumpBackpressured) in answers
      requires progress <==> Advanced(answers)
      modifies this`trace, this`sights, this`seen
      ensures Traced(trace, sights, seen) && trace == old(trace) + [PumpedRound(round, answers)]
      ensures seen == Sight(
        if failed then old(seen.flags).(shut := true, faulted := true) else old(seen.flags),
        old(seen.moved) + (if progress then 1 else 0), old(seen.blocked) + (if backpressured then 1 else 0), old(seen.free))
    {
      AdvancedMoves(round, answers);
      Record(PumpedRound(round, answers));
    }

    /** One pass over the connections; `failed` tells that it stopped at an unexpected error. */
    method PumpRound(round: seq<nat>)
      returns (retained: seq<nat>, progress: bool, backpressured: bool, failed: bool, ghost answers: seq<PumpAnswer>)
      requires Increasing(round)
      ensures IsRound(round, answers) && retained == Kept(round, answers)
      ensures failed <==> answers != [] && Unexpected(answers[|answers| - 1])
      ensures Increasing(retained) && forall c | c in retained :: c in round
      ensures backpressured <==> Success(PumpBackpressured) in answers
      ensures progress <==> Advanced(answers)
    {
      retained, progress, backpressured, failed, answers := [], false, false, false, [];
      for i := 0 to |round|
        invariant |answers| == i && !failed && retained == Kept(round, answers)
        invariant forall k | 0 <= k < i :: !Unexpected(answers[k])
        invariant Increasing(retained) && (forall c | c in retained :: c in round)
        invariant forall c, k | c in retained && i <= k < |round| :: c < round[k]
        invariant backpressured <==> Success(PumpBackpressured) in answers
        invariant progress <==> Advanced(answers)
      {
        var pumped: PumpAnswer := *;
        ghost var before := answers;
        answers := answers + [pumped];
        assert answers[..i] == before && answers[i] == pumped;
        AdvancedOneMore(before, pumped);
        if !Closed(pumped) {
          IncreasingAppend(retained, round[i]);
          retained := retained + [round[i]];
        }
        if pumped == Success(PumpBackpressured) { backpressured := true; }
        if Closed(pumped) || pumped == Success(PumpProcessed) { progress := true; }
        if Unexpected(pumped) {
          failed := true;
          break;
        }
      }
    }

    /** Pumps the connections and starts draining when the planned route is complete or no peer can return. */
    method PumpRoutes() returns (progress: bool, backpressured: bool, r: Result<(), RuntimeError>)
      requires Valid()
      modifies this`orphanedAuthority, this`shutdownRequested, this`connections, this`fatalRecovery
      modifies this`trace, this`sights, this`seen
      ensures Valid() && Latched() && Counts(progress, backpressured) && (r.Failure? ==> r.error == Server)
      ensures |trace| > |old(trace)| && trace[|old(trace)|].PumpedRound? && trace[|old(trace)|].round == old(connections)
      ensures Since(trace, |old(trace)|, AsksRoute) && (r.Failure? ==> trace[|trace| - 1] == RouteDetached(false))
      ensures r.Success? && connections == [] ==> SourceWasAsked(|old(trace)|, old(connections) != [])
    {
      var hadConnections := connections != [];
      ghost var answers;
      progress, backpressured, answers := PumpConnections();
      ghost var pumped := |trace|;
      r := CompletePlannedRoute();
      assert AsksRoute(trace[pumped]);
      if r.Failure? { return; }
      CheckSource(hadConnections);
    }

    /** With no connection left the source was asked, and told whether there had been one. */
    ghost predicate SourceWasAsked(n: nat, had: bool)
      reads this`trace
    {
      exists i | n <= i < |trace| :: trace[i].SourceAsked? && trace[i].had == had
    }

    /** With no connection left, a source that cannot authenticate another controller counts as authority lost. */
    method CheckSource(had: bool)
      requires Valid()
      modifies this`orphanedAuthority, this`shutdownRequested, this`connections, this`fatalRecovery
      modifies this`trace, this`sights, this`seen
      ensures Valid() && Latched() && Still()
      ensures old(connections) != [] ==> trace == old(trace) && connections == old(connections)
      ensures old(connections) == [] ==>
        && |trace| > |old(trace)| && trace[|old(trace)|].SourceAsked? && trace[|old(trace)|].had == had
        && (trace[|old(trace)|].exhausted || (had && trace[|old(trace)|].retires) ==> orphanedAuthority && shutdownRequested)
        && (!trace[|old(trace)|].exhausted && !(had && trace[|old(trace)|].retires) ==> |trace| == |old(trace)| + 1)
    {
      if connections == [] {
        var exhausted, retires: bool := *, *;
        if exhausted || (had && retires) {
          LoseAuthority(SourceAsked(exhausted, had, retires));
        } else {
          Note(SourceAsked(exhausted, had, retires));
        }
      }
    }

    /** A planned exit whose route is complete detaches everything and starts draining. */
    method CompletePlannedRoute() returns (r: Result<(), RuntimeError>)
      requires Valid()
      modifies this`shutdownRequested, this`connections, this`fatalRecovery, this`trace, this`sights, this`seen
      ensures Valid() && Latched() && Still()
      ensures |trace| > |old(trace)| && trace[|old(trace)|].RouteAsked?
      ensures !trace[|old(trace)|].complete ==> |trace| == |old(trace)| + 1 && r.Success? && connections == old(connections)
      ensures trace[|old(trace)|].complete ==>
        && |trace| > |old(trace)| + 1 && trace[|old(trace)| + 1] == RouteDetached(r.Success?)
        && (if r.Success? then shutdownRequested && connections == []
            else r.error == Server && |trace| == |old(trace)| + 2 && connections == old(connections))
    {
      var complete: bool := *;
      Note(RouteAsked(complete));
      if !complete { return Success(()); }
      r := DetachRoute();
    }

    /** Detaches the completed route; the error of a server that cannot ends the step. */
    method DetachRoute() returns (r: Result<(), RuntimeError>)
      requires Valid()
      modifies this`shutdownRequested, this`connections, this`fatalRecovery, this`trace, this`sights, this`seen
      ensures Valid() && Latched() && Still()
      ensures |trace| > |old(trace)| && trace[|old(trace)|] == RouteDetached(r.Success?)
      ensures if r.Success? then shutdownRequested && connections == []
              else r.error == Server && |trace| == |old(trace)| + 1 && connections == old(connections)
    {
      var detached := AskDetach();
      if !detached { return Failure(Server); }
      connections := [];
      RequestShutdown();
      return Success(());
    }

    /** Has the server detach everything on the completed route. */
    method AskDetach() returns (detached: bool)
      requires Traced(trace, sights, seen)
      modifies this`trace, this`sights, this`seen
      ensures Traced(trace, sights, seen) && trace == old(trace) + [RouteDetached(detached)]
      ensures seen == if detached then old(seen).(flags := old(seen.flags).(shut := true)) else old(seen)
    {
      detached := *;
      Record(RouteDetached(detached));
    }

    /** One step of the loop: the exit if the server asks for it, else a signal and a round of service. */
    method Step() returns (r: Result<RuntimeStep, RuntimeError>)
      requires Valid()
      modifies this
      ensures Valid() && Latched() && Reports(r)
      ensures |trace| > |old(trace)| && trace[|old(trace)|].ExitAsked?
      ensures trace[|old(trace)|].requested ==> r in {Success(Exit), Failure(ConnectionSource)} && connections == old(connections)
      ensures !trace[|old(trace)|].requested ==> |trace| > |old(trace)| + 1 && trace[|old(trace)| + 1].Told?
      ensures Tells(r) && Stepped(|old(trace)|, r)
      ensures r.Success? && r.value != Exit ==> singletonHeld == old(singletonHeld)
    {
      var requested := AskExit();
      assert requested ==> AllowsEnd(trace[|old(trace)|]);
      if requested {
        r := Leave();
        return;
      }
      ghost var asked := |trace|;
      r := Turn();
      StepBefore(trace, |old(trace)|, asked, r, nextConnectionId, shutdownRequested, !shutdownRequested && initialAuthenticationDeadline);
    }

    /** A signal, if there is one, and then the service. */
    method Turn() returns (r: Result<RuntimeStep, RuntimeError>)
      requires Valid()
      modifies this
      ensures Valid() && Latched() && Reports(r) && Tells(r) && Stepped(|old(trace)|, r)
      ensures |trace| > |old(trace)| && trace[|old(trace)|].Told?
      ensures r.Success? && r.value != Exit ==> singletonHeld == old(singletonHeld)
    {
      var _ := PollSignal();
      ghost var told := |trace|;
      r := Serve();
      StepBefore(trace, |old(trace)|, told, r, nextConnectionId, shutdownRequested, !shutdownRequested && initialAuthenticationDeadline);
    }

    /** A working step is held up if anything held it up, else made progress if anything moved, else was idle. */
    twostate predicate Tells(new r: Result<RuntimeStep, RuntimeError>)
      reads this`seen
    {
      r.Success? && r.value in {Idle, Progress, Backpressured} ==>
        && (r.value == Backpressured <==> seen.blocked > old(seen.blocked))
        && (r.value == Progress <==> seen.blocked == old(seen.blocked) && seen.moved > old(seen.moved))
    }

    /** What a step is bound to have asked, and why it ends the runtime if it does; it began after `n` events. */
    ghost predicate Stepped(n: nat, r: Result<RuntimeStep, RuntimeError>)
      reads this`trace, this`shutdownRequested, this`initialAuthenticationDeadline, this`nextConnectionId
    {
      && GoesOn(trace, n, r, shutdownRequested, !shutdownRequested && initialAuthenticationDeadline)
      && Ends(trace, n, r, nextConnectionId)
    }

    /** The same for the rest of a step that made progress or was held up already. */
    twostate predicate TellsAfter(progress: bool, backpressured: bool, new r: Result<RuntimeStep, RuntimeError>)
      reads this`seen
    {
      r.Success? && r.value in {Idle, Progress, Backpressured} ==>
        && (r.value == Backpressured <==> backpressured || seen.blocked > old(seen.blocked))
        && (r.value == Progress <==> r.value != Backpressured && (progress || seen.moved > old(seen.moved)))
    }

    /** A step after its signal: the connections, the adapter, and the report. */
    method Serve() returns (r: Result<RuntimeStep, RuntimeError>)
      requires Valid()
      modifies this
      ensures Valid() && Latched() && Reports(r) && Stepped(|old(trace)|, r)
      ensures Tells(r)
      ensures r.Success? && r.value != Exit ==> singletonHeld == old(singletonHeld)
    {
      var progress, backpressured, served := ServeRound();
      if served.Failure? { return Failure(served.error); }
      ghost var round := trace;
      r := Conclude(progress, backpressured);
      StepInParts(trace, round, |old(trace)|, r, nextConnectionId, shutdownRequested, !shutdownRequested && initialAuthenticationDeadline);
    }

    /** The rest of a step: the adapter and the end. */
    method Conclude(progress: bool, backpressured: bool) returns (r: Result<RuntimeStep, RuntimeError>)
      requires Valid()
      modifies this`terminalIncompleteShutdown, this`shutdownRequested, this`connections, this`fatalRecovery, this`singletonHeld
      modifies this`trace, this`sights, this`seen
      ensures Valid() && Latched() && Reports(r) && Ends(trace, |old(trace)|, r, nextConnectionId)
      ensures |trace| > |old(trace)| && trace[|old(trace)|].AdapterPumped?
      ensures r.Success? && r.value != Exit ==> trace[|trace| - 1] == ExitAsked(false) && singletonHeld == old(singletonHeld)
      ensures TellsAfter(progress, backpressured, r)
    {
      var adapter := PumpAdapter();
      r := FinishStep(progress || adapter == AdapterProcessed, backpressured || adapter == ClosePending);
    }

    method PumpAdapter() returns (pumped: AdapterPump)
      requires Valid()
      modifies this`trace, this`sights, this`seen
      ensures Valid() && Counts(pumped == AdapterProcessed, pumped == ClosePending) && trace == old(trace) + [AdapterPumped(pumped)]
    {
      pumped := *;
      Record(AdapterPumped(pumped));
    }

    /** Accepts, expires and pumps; the first error ends the round. */
    method ServeRound() returns (progress: bool, backpressured: bool, r: Result<(), RuntimeError>)
      requires Valid()
      modifies this`nextConnectionId, this`connections, this`initialAuthenticationDeadline, this`orphanedAuthority
      modifies this`shutdownRequested, this`fatalRecovery, this`trace, this`sights, this`seen
      ensures Valid() && Latched() && (r.Success? ==> Counts(progress, backpressured)) && RoundServed(r)
    {
      progress, backpressured, r := Welcome();
      if r.Failure? { return; }
      ghost var welcomed := trace;
      var pumped, blocked, routing := PumpRoutes();
      assert PumpsPeers(trace[|welcomed|]);
      progress, backpressured, r := progress || pumped, backpressured || blocked, routing;
    }

    /** Accepts a peer, or ends the wait for the first one. */
    method Welcome() returns (progress: bool, backpressured: bool, r: Result<(), RuntimeError>)
      requires Valid()
      modifies this`nextConnectionId, this`connections, this`initialAuthenticationDeadline
      modifies this`shutdownRequested, this`fatalRecovery, this`trace, this`sights, this`seen
      ensures Valid() && Latched() && (r.Success? ==> Counts(progress, backpressured))
      ensures r.Failure? ==> Ends(trace, |old(trace)|, Failure(r.error), nextConnectionId) && r.error == ConnectionIdsExhausted
      ensures !old(shutdownRequested) ==> Since(trace, |old(trace)|, AsksRoom)
      ensures r.Success? && !shutdownRequested && initialAuthenticationDeadline ==> Since(trace, |old(trace)|, StillWaits)
    {
      progress, backpressured, r := AcceptPeer();
      ghost var accepted := trace;
      assert !old(shutdownRequested) ==> AsksRoom(accepted[|old(trace)|]);
      if r.Failure? { return; }
      var expired := CheckGrace();
      assert |trace| > |accepted| ==> trace[|accepted|] == GraceAsked(expired);
      assert !old(shutdownRequested) ==> trace[|old(trace)|] == accepted[|old(trace)|];
      progress := progress || expired;
    }

    /** Whom a round asked, the source too once no connection is left, and why it fails. */
    twostate predicate RoundServed(new r: Result<(), RuntimeError>)
      reads this`trace, this`shutdownRequested, this`connections, this`initialAuthenticationDeadline, this`nextConnectionId
    {
      var n := |old(trace)|;
      && old(trace) <= trace && (r.Failure? ==> r.error in {ConnectionIdsExhausted, Server})
      && (r.Failure? ==> Ends(trace, n, Failure(r.error), nextConnectionId))
      && (r.Success? ==> Rounded(trace, n, old(shutdownRequested), !shutdownRequested && initialAuthenticationDeadline))
      && (r.Success? && connections == [] ==> Since(trace, n, AsksSource))
    }

    /** What a step may say about the state it leaves. */
    ghost predicate Reports(r: Result<RuntimeStep, RuntimeError>)
      reads this
    {
      match r
      case Success(Exit) => !singletonHeld
      case Success(FatalRecovery) => fatalRecovery
      case Success(DrainingStep) => shutdownRequested && !fatalRecovery
      case Success(_) => !shutdownRequested && !fatalRecovery
      case Failure(_) => true
    }

    /** Asks a server that is draining to exit; a refusal it cannot explain by its phase is a fault. */
    method RequestIdleExit() returns (progress: bool)
      requires Valid()
      modifies this`shutdownRequested, this`connections, this`fatalRecovery, this`trace, this`sights, this`seen
      ensures Valid() && Latched() && Counts(progress, false)
      ensures |trace| > |old(trace)| && trace[|old(trace)|].IdleAsked? && (progress <==> trace[|old(trace)|].idle.Success?)
    {
      var idle: Result<(), ServerError> := *;
      Record(IdleAsked(idle));
      progress := idle.Success?;
      if idle.Failure? && !(idle.error.StateError? && idle.error.kind != OtherTransition) {
        EnterFatalRecovery();
      }
    }

    /** While draining, asks for the exit unless it was asked for. */
    method DrainIdle() returns (progress: bool)
      requires Valid()
      modifies this`shutdownRequested, this`connections, this`fatalRecovery, this`trace, this`sights, this`seen
      ensures Valid() && Latched() && Counts(progress, false)
      ensures !old(shutdownRequested) ==> trace == old(trace)
      ensures old(shutdownRequested) ==> |trace| > |old(trace)| && trace[|old(trace)|].ExitAsked?
      ensures old(shutdownRequested) && trace[|old(trace)|].requested ==> |trace| == |old(trace)| + 1 && !progress
      ensures old(shutdownRequested) && !trace[|old(trace)|].requested ==>
        |trace| > |old(trace)| + 1 && trace[|old(trace)| + 1].IdleAsked?
      ensures old(shutdownRequested) ==> Since(trace, |old(trace)|, AsksIdle) || Since(trace, |old(trace)|, AllowsExit)
    {
      progress := false;
      if shutdownRequested {
        var requested := AskExit();
        assert trace[|old(trace)|] == ExitAsked(requested);
        if !requested {
          progress := RequestIdleExit();
          assert AsksIdle(trace[|old(trace)| + 1]);
        } else {
          assert AllowsExit(trace[|old(trace)|]);
        }
      }
    }

    /** The part of a step after the adapter was pumped: idle exit, orphan shutdown and the report. */
    method FinishStep(advanced: bool, backpressured: bool) returns (r: Result<RuntimeStep, RuntimeError>)
      requires Valid()
      modifies this`terminalIncompleteShutdown, this`shutdownRequested, this`connections, this`fatalRecovery, this`singletonHeld
      modifies this`trace, this`sights, this`seen
      ensures Valid() && Latched() && Reports(r) && Finished(r)
      ensures seen.blocked == old(seen.blocked)
      ensures TellsAfter(advanced, backpressured, r)
    {
      var idle := DrainIdle();
      r := LeaveOrReport(advanced || idle, backpressured);
    }

    /** An orphaned runtime leaves if it can; any other reports where it is. */
    method LeaveOrReport(progress: bool, backpressured: bool) returns (r: Result<RuntimeStep, RuntimeError>)
      requires Valid()
      modifies this`terminalIncompleteShutdown, this`shutdownRequested, this`connections, this`fatalRecovery, this`singletonHeld
      modifies this`trace, this`sights, this`seen
      ensures Valid() && Latched() && Still() && Reports(r) && Ends(trace, |old(trace)|, r, nextConnectionId)
      ensures orphanedAuthority ==> Since(trace, |old(trace)|, AsksPolicy) || Since(trace, |old(trace)|, AllowsExit)
      ensures r.Failure? ==> r.error == ConnectionSource
      ensures r.Success? && r.value != Exit ==>
        |trace| > |old(trace)| && trace[|trace| - 1] == ExitAsked(false) && singletonHeld == old(singletonHeld)
      ensures r.Success? && r.value in {Idle, Progress, Backpressured} ==>
        r.value == if backpressured then Backpressured else if progress then Progress else Idle
    {
      var left := LeaveOrphaned();
      if left.Some? { return left.value; }
      r := ReportStep(progress, backpressured);
    }

    /**
     What the end of a step asked: a server that drains, for the exit; an orphaned one, for the exit or the policy;
     and it goes on only if the exit was denied last, and ends only by the exit or the adapter's bounded shutdown.
     */
    twostate predicate Finished(new r: Result<RuntimeStep, RuntimeError>)
      reads this`trace, this`orphanedAuthority, this`nextConnectionId, this`singletonHeld
    {
      var n := |old(trace)|;
      && old(trace) <= trace
      && (old(shutdownRequested) ==> Since(trace, n, AsksIdle) || Since(trace, n, AllowsExit))
      && (orphanedAuthority ==> Since(trace, n, AsksPolicy) || Since(trace, n, AllowsExit))
      && (r.Failure? ==> r.error == ConnectionSource)
      && (r.Success? && r.value != Exit ==> n < |trace| && trace[|trace| - 1] == ExitAsked(false) && singletonHeld == old(singletonHeld))
      && Ends(trace, n, r, nextConnectionId)
    }

    /** Without the authority this process served, a bounded shutdown of the adapter ends the runtime. */
    method LeaveOrphaned() returns (left: Option<Result<RuntimeStep, RuntimeError>>)
      requires Valid()
      modifies this`terminalIncompleteShutdown, this`shutdownRequested, this`connections, this`fatalRecovery, this`singletonHeld
      modifies this`trace, this`sights, this`seen
      ensures Valid() && Latched() && Still()
      ensures !old(orphanedAuthority) ==> left.None? && trace == old(trace)
      ensures old(orphanedAuthority) ==> |trace| > |old(trace)| && trace[|old(trace)|].ExitAsked?
      ensures left.Some? ==> left.value in {Success(Exit), Failure(ConnectionSource)} && !singletonHeld
      ensures old(orphanedAuthority) && trace[|old(trace)|].requested ==> left.None? && |trace| == |old(trace)| + 1
      ensures old(orphanedAuthority) && !trace[|old(trace)|].requested ==> EndsBounded(|old(trace)| + 1, left.Some?)
      ensures old(orphanedAuthority) ==> Since(trace, |old(trace)|, AsksPolicy) || Since(trace, |old(trace)|, AllowsExit)
      ensures left.Some? ==> Ends(trace, |old(trace)|, left.value, nextConnectionId)
      ensures left.None? ==> singletonHeld == old(singletonHeld)
    {
      if !orphanedAuthority { return None; }
      var requested := AskExit();
      assert trace[|old(trace)|] == ExitAsked(requested) && AllowsExit(ExitAsked(true));
      if requested { return None; }
      left := LeaveBounded();
    }

    /** The same once no exit is asked for. */
    method LeaveBounded() returns (left: Option<Result<RuntimeStep, RuntimeError>>)
      requires Valid()
      modifies this`terminalIncompleteShutdown, this`shutdownRequested, this`connections, this`fatalRecovery, this`singletonHeld
      modifies this`trace, this`sights, this`seen
      ensures Valid() && Latched() && Still() && EndsBounded(|old(trace)|, left.Some?)
      ensures Since(trace, |old(trace)|, AsksPolicy)
      ensures left.Some? ==> left.value in {Success(Exit), Failure(ConnectionSource)} && !singletonHeld
      ensures left.Some? ==> Ends(trace, |old(trace)|, left.value, nextConnectionId)
      ensures left.None? ==> singletonHeld == old(singletonHeld)
    {
      var ended := EndBounded();
      assert AsksPolicy(trace[|old(trace)|]) && (ended ==> AllowsEnd(trace[|old(trace)| + 1]));
      if !ended { return None; }
      var r := Leave();
      return Some(r);
    }

    /** The adapter's policy was asked for, and the bounded shutdown, if that is it, ended or failed. */
    ghost predicate EndsBounded(n: nat, ended: bool)
      reads this`trace
    {
      && n < |trace| && trace[n].PolicyAsked?
      && (!trace[n].bounded ==> |trace| == n + 1 && !ended)
      && (trace[n].bounded ==>
            n + 1 < |trace| && trace[n + 1].OrphanAsked? && (ended <==> trace[n + 1].outcome in {Quiescent, TerminalIncomplete}))
    }

    /** Ends the adapter by its bounded shutdown, where that is its policy. */
    method EndBounded() returns (ended: bool)
      requires Valid()
      modifies this`terminalIncompleteShutdown, this`shutdownRequested, this`connections, this`fatalRecovery
      modifies this`trace, this`sights, this`seen
      ensures Valid() && Latched() && Still() && EndsBounded(|old(trace)|, ended)
    {
      var bounded: bool := *;
      Note(PolicyAsked(bounded));
      if !bounded { return false; }
      ended := ShutDownOrphan();
    }

    /** The bounded shutdown of the adapter; one that failed leaves only containment. */
    method ShutDownOrphan() returns (ended: bool)
      requires Valid()
      modifies this`terminalIncompleteShutdown, this`shutdownRequested, this`connections, this`fatalRecovery
      modifies this`trace, this`sights, this`seen
      ensures Valid() && Latched() && Still()
      ensures |trace| > |old(trace)| && trace[|old(trace)|].OrphanAsked?
      ensures ended <==> trace[|old(trace)|].outcome in {Quiescent, TerminalIncomplete}
      ensures trace[|old(trace)|].outcome == TerminalIncomplete ==> terminalIncompleteShutdown
    {
      var outcome := AskOrphan();
      match outcome
      case OrphanFailed =>
        EnterFatalRecovery();
        return false;
      case TerminalIncomplete =>
        terminalIncompleteShutdown := true;
        return true;
      case Quiescent =>
        return true;
    }

    /** How the bounded shutdown of the adapter went. */
    method AskOrphan() returns (outcome: OrphanOutcome)
      requires Traced(trace, sights, seen)
      modifies this`trace, this`sights, this`seen
      ensures Traced(trace, sights, seen) && trace == old(trace) + [OrphanAsked(outcome)]
      ensures seen == match outcome
        case OrphanFailed => old(seen).(flags := old(seen.flags).(shut := true, faulted := true))
        case TerminalIncomplete => old(seen).(flags := old(seen.flags).(incomplete := true))
        case Quiescent => old(seen)
    {
      outcome := *;
      Record(OrphanAsked(outcome));
    }

    method ReportStep(progress: bool, backpressured: bool) returns (r: Result<RuntimeStep, RuntimeError>)
      requires Valid()
      modifies this`singletonHeld, this`trace, this`sights, this`seen
      ensures Valid() && Latched() && Still() && Reports(r)
      ensures |trace| > |old(trace)| && trace[|old(trace)|].ExitAsked?
      ensures if trace[|old(trace)|].requested then r in {Success(Exit), Failure(ConnectionSource)}
        else |trace| == |old(trace)| + 1 && r == Success(
          if fatalRecovery then FatalRecovery else if shutdownRequested then DrainingStep
          else if backpressured then Backpressured else if progress then Progress else Idle)
      ensures r.Success? && r.value != Exit ==> trace[|trace| - 1] == ExitAsked(false)
      ensures Ends(trace, |old(trace)|, r, nextConnectionId)
      ensures r.Success? && r.value != Exit ==> singletonHeld == old(singletonHeld)
    {
      var requested := AskExit();
      assert trace[|old(trace)|] == ExitAsked(requested) && AllowsEnd(ExitAsked(true));
      if requested {
        r := Leave();
      } else {
        r := Success(
          if fatalRecovery then FatalRecovery else if shutdownRequested then DrainingStep
          else if backpressured then Backpressured else if progress then Progress else Idle);
      }
    }

    /** Disposes of the singleton and reports the exit. */
    method Leave() returns (r: Result<RuntimeStep, RuntimeError>)
      requires Valid()
      modifies this`singletonHeld, this`trace, this`sights, this`seen
      ensures Valid() && Latched() && Still() && !singletonHeld
      ensures r == Success(Exit) || r == Failure(ConnectionSource)
      ensures r.Failure? ==> Ends(trace, |old(trace)|, r, nextConnectionId)
      ensures r.Failure? <==> |trace| >= |old(trace)| + 2 && trace[|trace| - 2] == EndpointShut(false)
    {
      var released := ReleaseSingleton();
      r := if released.Success? then Success(Exit) else Failure(released.error);
    }

    /** By the time the runtime is gone its singleton has had exactly one disposition, and every flag has its reason. */
    method Drop()
      requires Valid()
      modifies this`singletonHeld, this`trace, this`sights, this`seen
      ensures Valid() && Latched() && !singletonHeld && Orderly(trace) && EndsWell(trace) && Explained()
      ensures !old(singletonHeld) ==> trace == old(trace)
      ensures old(singletonHeld) || old(EndsDisposed()) ==> EndsDisposed()
    {
      var _ := ReleaseSingleton();
      TracedIsOrderly(trace, sights, seen);
      SeenIsWhatHappened(trace, |trace|);
      DisposedEndsWell(trace);
    }

    /** The last thing that happened was the disposition of the singleton. */
    ghost predicate EndsDisposed()
      reads this`trace
    {
      trace != [] && Disposition(trace[|trace| - 1])
    }

    /** Each flag is up exactly if something happened that raises it. */
    ghost predicate Explained()
      reads this`trace, this`shutdownRequested, this`fatalRecovery, this`orphanedAuthority, this`retainSingletonUntilExit
    {
      && (shutdownRequested <==> Happened(trace, |trace|, Shuts))
      && (fatalRecovery <==> Happened(trace, |trace|, Faults))
      && (orphanedAuthority <==> Happened(trace, |trace|, Loses))
      && (retainSingletonUntilExit <==> Happened(trace, |trace|, Poisons))
    }
  }

  /**
   A whole life: any number of steps, ended by an exit, an error or nothing at all, and then the drop. The trace
   is orderly and disposes of the singleton exactly once, as its last event; a poison failure is never followed by a release, and a
   lost authority only by one right after the server confirmed the exit. Every flag is what the runtime was told.
   */
  method Live(runtime: OwnerRuntime, steps: nat)
    requires runtime.Valid() && runtime.singletonHeld
    modifies runtime
    ensures runtime.EndsDisposed()
    ensures Orderly(runtime.trace) && old(runtime.trace) <= runtime.trace && !runtime.singletonHeld
    ensures EndsWell(runtime.trace) && runtime.Explained()
  {
    var _ := Work(runtime, steps);
    runtime.Drop();
  }

  /** Steps until the exit, an error or the end of patience. */
  method Work(runtime: OwnerRuntime, steps: nat) returns (exited: bool)
    requires runtime.Valid() && runtime.singletonHeld
    modifies runtime
    ensures runtime.Valid() && old(runtime.trace) <= runtime.trace
    ensures !runtime.singletonHeld ==> runtime.EndsDisposed()
    ensures exited ==> Since(runtime.trace, |old(runtime.trace)|, AllowsEnd)
  {
    exited := false;
    for i := 0 to steps
      invariant runtime.Valid() && old(runtime.trace) <= runtime.trace && runtime.singletonHeld
    {
      var step := runtime.Step();
      if step.Failure? || step.value == Exit {
        exited := step.Success?;
        break;
      }
    }
  }
}
