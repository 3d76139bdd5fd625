/** The executor on top of the adapter: it gates effects, checks completions and re-checks the event sequence. */
module NativeAdapterExecutor {
  import opened Bytes
  import opened BrokerEvents
  import opened PlatformAdapter
  import opened Wrappers

  datatype Action = Perform(effect: Effect) | ExitOwner
  datatype Command = State(action: Action) | PasteCommand(action: Action, request: Authorization)
  datatype ExecutorResult = Reply(result: EffectResult) | ContractViolation

  function GatedReadiness(readiness: Readiness, gateOpen: bool): Readiness {
    readiness.(keyboardBuildEligible := readiness.keyboardBuildEligible && gateOpen)
  }

  function Gated(e: AdapterEvent, gateOpen: bool): AdapterEvent {
    if e.event.ReadinessChanged? then e.(event := ReadinessChanged(GatedReadiness(e.event.readiness, gateOpen))) else e
  }

  /** Only what readiness says about the build depends on the gate: a closed gate makes it ineligible. */
  lemma GatingIs(e: AdapterEvent, gateOpen: bool)
    ensures Gated(e, gateOpen).id == e.id && Origin(Gated(e, gateOpen).event) == Origin(e.event)
    ensures gateOpen || !e.event.ReadinessChanged? ==> Gated(e, gateOpen) == e
    ensures e.event.ReadinessChanged? ==>
      var r := e.event.readiness;
      Gated(e, gateOpen).event == ReadinessChanged(
        Readiness(r.keyboardBuildEligible && gateOpen, r.pasteReady, r.permissionsEligible, r.hookHealthy))
  {
  }

  /** A paste goes only with the request it authorizes, and only through its own command. */
  ghost predicate Violates(command: Command) {
    match command
    case PasteCommand(action, request) => action != Perform(AdmitPaste(request))
    case State(action) => action.Perform? && action.effect.AdmitPaste?
  }

  /** Commands that would start capturing input. */
  ghost predicate StartsCapture(command: Command) {
    command in {
      State(Perform(OpenFreshAdmission)), State(Perform(ApplySessionMode(Recording))), State(Perform(ApplySessionMode(CancelOnly)))}
  }

  function MapCommand(command: Command, gateOpen: bool): (r: Result<Option<Effect>, ExecutorResult>) {
    match command
    case PasteCommand(Perform(AdmitPaste(authorization)), request) =>
      if request == authorization then Success(Some(AdmitPaste(request))) else Failure(ContractViolation)
    case PasteCommand(_, _) => Failure(ContractViolation)
    case State(ExitOwner) => Success(None)
    case State(Perform(effect)) =>
      if effect.AdmitPaste? then Failure(ContractViolation)
      else if effect.OpenFreshAdmission? && !gateOpen then Failure(Reply(Failed(FailedNotApplied)))
      else if effect.ApplySessionMode? && effect.mode != Off && !gateOpen then Failure(Reply(Failed(FailedNotApplied)))
      else Success(Some(effect))
  }

  /** Which commands reach the adapter: all but violations, the owner's exit, and what would capture behind a closed gate. */
  lemma MapsExactly(command: Command, gateOpen: bool)
    ensures MapCommand(command, gateOpen) == Failure(ContractViolation) <==> Violates(command)
    ensures MapCommand(command, gateOpen) == Failure(Reply(Failed(FailedNotApplied))) <==> StartsCapture(command) && !gateOpen
    ensures MapCommand(command, gateOpen) == Success(None) <==> command == State(ExitOwner)
    ensures MapCommand(command, gateOpen).Success? && command != State(ExitOwner) ==>
      command.action.Perform? && MapCommand(command, gateOpen) == Success(Some(command.action.effect))
    ensures MapCommand(command, gateOpen).Failure? ==> Violates(command) || (StartsCapture(command) && !gateOpen)
  {
  }

  function MapResult(effect: Effect, result: EffectResult): (r: ExecutorResult) {
    match result
    case AdmissionClosed(_) =>
      if effect.CloseFreshAdmission? || effect.EmergencyCloseFreshAdmission? then Reply(result) else ContractViolation
    case PasteWaiting => if effect.AdmitPaste? then Reply(result) else ContractViolation
    case PasteRefused(_) => if effect.AdmitPaste? then Reply(result) else ContractViolation
    case CandidateCancelled(_, _) => if effect.CancelCandidate? then Reply(result) else ContractViolation
    case Failed(_) => Reply(result)
    case Applied =>
      if effect.AdmitPaste? || effect.CancelCandidate? || effect.CloseFreshAdmission? || effect.EmergencyCloseFreshAdmission?
      then ContractViolation else Reply(result)
  }

  /** The completions an effect can have. */
  ghost predicate Completes(effect: Effect, result: EffectResult) {
    result.Failed? ||
    match effect
    case CloseFreshAdmission => result.AdmissionClosed?
    case EmergencyCloseFreshAdmission => result.AdmissionClosed?
    case AdmitPaste(_) => result == PasteWaiting || result.PasteRefused?
    case CancelCandidate => result.CandidateCancelled?
    case _ => result == Applied
  }

  /** A result is passed on exactly if its effect can have it. */
  lemma ResultsAre(effect: Effect, result: EffectResult)
    ensures MapResult(effect, result) == if Completes(effect, result) then Reply(result) else ContractViolation
  {
  }

  /** What was received is what was handed out, gated, and `last` is the latest id. */
  ghost predicate InStep(received: seq<AdapterEvent>, handedOut: seq<AdapterEvent>, last: nat, gateOpen: bool) {
    && last == |received| == |handedOut|
    && forall i | 0 <= i < |received| :: received[i] == Gated(handedOut[i], gateOpen)
  }

  lemma InStepOfNext(received: seq<AdapterEvent>, handedOut: seq<AdapterEvent>, last: nat, gateOpen: bool, e: AdapterEvent)
    requires InStep(received, handedOut, last, gateOpen)
    ensures InStep(received + [Gated(e, gateOpen)], handedOut + [e], last + 1, gateOpen)
  {
  }

  /** What can happen to the composed bridge, in any order. */
  datatype BridgeStep =
    | Arrival(event: NativeEvent)
    | Order(command: Command, answers: Answers)
    | Poll(workPending: bool)
    | Acknowledgement(id: U64)
    | OrphanShutdown(quiescent: bool, incomplete: bool)
    | Terminal

  class NativeAdapterExecutor {
    const adapter: PlatformAdapter
    const gateOpen: bool
    var lastAdapterEventId: U64
    var adapterEventSequenceFault: bool
    /** Every event the owner received, in the order it received them. */
    ghost var received: seq<AdapterEvent>
    /** Every native event the channel took. */
    ghost var arrived: seq<NativeEvent>

    /** The owner has received exactly what the adapter handed out: ids 1, 2, 3, ... with none skipped or repeated. */
    ghost predicate Sequenced()
      reads this, adapter
    {
      InStep(received, adapter.past, lastAdapterEventId, gateOpen) && !adapterEventSequenceFault
    }

    /** Behind a closed gate nothing is captured. */
    ghost predicate Guarded()
      reads adapter`admissionOpen, adapter`sessionMode
    {
      !gateOpen ==> !adapter.admissionOpen && adapter.sessionMode == Off
    }

    ghost predicate Valid()
      reads this, adapter
    {
      adapter.Valid() && adapter.Agrees() && Sequenced() && Guarded()
    }

    /** Nothing that arrived is lost, invented or moved, unless an event was dropped. */
    ghost predicate Conserved()
      reads adapter`emitted, adapter`nativeEvents, adapter`overflowed, this`arrived
    {
      !adapter.overflowed ==> Flow(adapter.emitted, adapter.nativeEvents) == arrived
    }

    /** Unless an event was dropped, what was carried and what still waits are together what they were. */
    twostate predicate Carried()
      reads adapter`emitted, adapter`nativeEvents, adapter`overflowed
    {
      !adapter.overflowed ==>
        Flow(adapter.emitted, adapter.nativeEvents) == Flow(old(adapter.emitted), old(adapter.nativeEvents))
    }

    constructor (adapter: PlatformAdapter, gateOpen: bool)
      requires adapter.Valid() && adapter.Agrees() && adapter.emitted == [] && adapter.nativeEvents == []
      requires !adapter.admissionOpen && adapter.sessionMode == Off
      ensures Valid() && Conserved() && this.adapter == adapter && this.gateOpen == gateOpen && received == [] && arrived == []
    {
      this.adapter, this.gateOpen := adapter, gateOpen;
      lastAdapterEventId, adapterEventSequenceFault, received, arrived := 0, false, [], [];
    }

    /** Whatever adapter is below, an id out of sequence is a fault, and after a fault every id is. */
    method CheckSequence(id: nat) returns (valid: bool)
      modifies this`lastAdapterEventId, this`adapterEventSequenceFault
      ensures valid <==> !old(adapterEventSequenceFault) && old(lastAdapterEventId) < U64_MAX && id == old(lastAdapterEventId) + 1
      ensures lastAdapterEventId == if valid then id else old(lastAdapterEventId)
      ensures adapterEventSequenceFault <==> !valid
    {
      valid := !adapterEventSequenceFault && lastAdapterEventId < U64_MAX && lastAdapterEventId + 1 == id;
      if valid {
        lastAdapterEventId := id;
      } else {
        adapterEventSequenceFault := true;
      }
    }

    /** How much there is to hand out at most: what is queued, and three events for every arrival that waits. */
    ghost function Left(): nat
      reads adapter`queued, adapter`nativeEvents
    {
      |adapter.queued| + 3 * |adapter.nativeEvents|
    }

    /** The id space holds three more events for every arrival that waits. */
    ghost predicate IdsLast()
      reads adapter`nextEventId, adapter`nativeEvents
    {
      adapter.nextEventId + 3 * |adapter.nativeEvents| <= U64_MAX
    }

    /** What a poll of the adapter does to its stream. */
    twostate lemma PollCarries(workPending: bool, new r: Option<AdapterEvent>)
      requires old(adapter.Valid()) && adapter.Polled(workPending, r)
      ensures Carried()
    {
      var before, channel := old(adapter.emitted), old(adapter.nativeEvents);
      if !adapter.overflowed && !adapter.Undisturbed() {
        WentOnMeans(before, channel, |channel| - |adapter.nativeEvents|,
          workPending != old(adapter.lastNativeWorkPending), adapter.pasteOwnership, workPending,
          old(adapter.terminalPending) && !old(adapter.terminalEventEmitted), adapter.emitted);
        CarriesKeepsFlow(before, channel, adapter.emitted, adapter.nativeEvents);
      }
    }

    /** A poll that is served makes progress, and drops nothing while ids last. */
    twostate lemma PollProgresses(workPending: bool, new r: Option<AdapterEvent>)
      requires old(adapter.Valid()) && adapter.Valid() && old(adapter.Serving()) && adapter.Polled(workPending, r)
      ensures old(Left()) > 0 ==> Left() < old(Left())
      ensures old(Left()) > 0 && old(IdsLast()) && !old(adapter.overflowed) ==> IdsLast() && !adapter.overflowed
    {
    }

    /** Polls the adapter: the oldest event queued, or the first arrival, is handed out. */
    method PollAdapter(workPending: bool) returns (envelope: Option<AdapterEvent>)
      requires adapter.Valid()
      modifies adapter`nativeEvents, adapter`queued, adapter`emitted, adapter`nextEventId, adapter`lastQueuedEventId
      modifies adapter`lastNativeWorkPending, adapter`terminalTriggered, adapter`terminalPending, adapter`terminalEventEmitted
      modifies adapter`overflowed, adapter`work, adapter`faultId, adapter`inFlight, adapter`past
      ensures adapter.Valid() && adapter.Advances() && Carried()
      ensures envelope.None? ==> adapter.past == old(adapter.past) && adapter.inFlight == old(adapter.inFlight)
      ensures envelope.Some? ==>
        && adapter.past == old(adapter.past) + [envelope.value] && adapter.inFlight == envelope && old(adapter.Serving())
        && envelope.value.id == |adapter.past| <= U64_MAX
      ensures old(adapter.Serving()) && old(adapter.queued) != [] ==> envelope == Some(old(adapter.queued)[0])
      ensures old(adapter.Serving()) && old(adapter.queued) == [] && old(adapter.nativeEvents) != [] && old(adapter.Room()) > 0 ==>
        envelope.Some? && envelope.value.event == Translate(old(adapter.nativeEvents)[0])
      ensures old(adapter.Serving()) && old(Left()) > 0 ==> Left() < old(Left())
      ensures old(adapter.Serving()) && old(Left()) > 0 && old(IdsLast()) && !old(adapter.overflowed) ==> IdsLast() && !adapter.overflowed
    {
      envelope := adapter.NextEnvelope(workPending);
      PollCarries(workPending, envelope);
      if old(adapter.Serving()) { PollProgresses(workPending, envelope); }
    }

    /** The sequence check never fails, and each event carries the next id. */
    method TryNextEvent(workPending: bool) returns (r: Option<(AdapterEvent, bool)>)
      requires Valid()
      modifies this`lastAdapterEventId, this`adapterEventSequenceFault, this`received
      modifies adapter`nativeEvents, adapter`queued, adapter`emitted, adapter`nextEventId, adapter`lastQueuedEventId
      modifies adapter`lastNativeWorkPending, adapter`terminalTriggered, adapter`terminalPending, adapter`terminalEventEmitted
      modifies adapter`overflowed, adapter`work, adapter`faultId, adapter`inFlight, adapter`past
      ensures Valid() && adapter.Advances() && Carried()
      ensures r.None? ==> received == old(received) && adapter.inFlight == old(adapter.inFlight)
      ensures r.Some? ==>
        && r.value.1 && r.value.0.id == |old(received)| + 1 <= U64_MAX
        && received == old(received) + [r.value.0]
        && adapter.inFlight.Some? && adapter.inFlight.value.id == r.value.0.id && old(adapter.Serving())
      ensures old(adapter.Serving()) && old(adapter.queued) != [] ==>
        r == Some((Gated(old(adapter.queued)[0], gateOpen), true))
      ensures old(adapter.Serving()) && old(adapter.queued) == [] && old(adapter.nativeEvents) != [] && old(adapter.Room()) > 0 ==>
        r.Some? && r.value.0.event == Translate(old(adapter.nativeEvents)[0])
      ensures old(adapter.Serving()) && old(Left()) > 0 ==> Left() < old(Left())
      ensures old(adapter.Serving()) && old(Left()) > 0 && old(IdsLast()) && !old(adapter.overflowed) ==> IdsLast() && !adapter.overflowed
    {
      ghost var handedOut := adapter.past;
      var envelope := PollAdapter(workPending);
      if envelope.None? { return None; }
      var event := Receive(envelope.value, handedOut);
      r := Some(event);
    }

    /** Checks the id of an event just handed out and passes the event on, gated. */
    method Receive(envelope: AdapterEvent, ghost handedOut: seq<AdapterEvent>) returns (r: (AdapterEvent, bool))
      requires adapter.Valid() && adapter.Agrees() && Guarded() && !adapterEventSequenceFault
      requires InStep(received, handedOut, lastAdapterEventId, gateOpen)
      requires adapter.past == handedOut + [envelope] && envelope.id == |adapter.past| <= U64_MAX
      modifies this`lastAdapterEventId, this`adapterEventSequenceFault, this`received
      ensures Valid() && r == (Gated(envelope, gateOpen), true) && received == old(received) + [r.0]
    {
      InStepOfNext(received, handedOut, lastAdapterEventId, gateOpen, envelope);
      var sequenceValid := CheckSequence(envelope.id);
      var event := Gated(envelope, gateOpen);
      received := received + [event];
      r := (event, sequenceValid);
    }

    /** The right id ends the flight, so that the next poll is served; any other raises the terminal signal. */
    method AcknowledgeEvent(id: U64)
      requires Valid()
      modifies adapter`inFlight, adapter`claimedPaste, adapter`pasteOwnership, adapter`terminalTriggered, adapter`terminalPending
      ensures Valid() && adapter.Advances()
      ensures var right := old(adapter.inFlight).Some? && old(adapter.inFlight).value.id == id;
        if right then adapter.inFlight.None? && adapter.terminalTriggered == old(adapter.terminalTriggered)
        else adapter.inFlight == old(adapter.inFlight) && adapter.terminalTriggered
    {
      adapter.AcknowledgeEvent(id);
    }

    /** One poll, whatever the platform says about work, and the acknowledgement of the event it hands out. */
    method PollAndAcknowledge()
      requires Valid() && Conserved() && adapter.Serving() && Left() > 0
      modifies this`lastAdapterEventId, this`adapterEventSequenceFault, this`received, adapter
      ensures Valid() && Conserved() && adapter.Serving() && old(received) <= received && Left() < old(Left())
      ensures |received| <= |old(received)| + 1
      ensures old(IdsLast()) && !old(adapter.overflowed) ==> IdsLast() && !adapter.overflowed
    {
      var work: bool := *;
      var event := TryNextEvent(work);
      if event.Some? {
        AcknowledgeEvent(event.value.0.id);
      }
    }

    /** Enough polls, each event acknowledged, hand out all there is: every arrival once, in order, unless one was dropped. */
    method DeliverAll() returns (polls: nat)
      requires Valid() && Conserved() && !adapter.stopped
      modifies this`lastAdapterEventId, this`adapterEventSequenceFault, this`received, adapter
      ensures Valid() && Conserved() && polls <= old(Left()) && old(received) <= received
      ensures |received| <= |old(received)| + polls
      ensures adapter.queued == [] && adapter.nativeEvents == [] && adapter.inFlight.None?
      ensures !adapter.overflowed ==> Natives(received, |received|) == arrived
      ensures old(IdsLast()) && !old(adapter.overflowed) ==> !adapter.overflowed
    {
      polls := 0;
      if adapter.inFlight.Some? {
        assert adapter.inFlight.value == adapter.emitted[|adapter.past| - 1];
        AcknowledgeEvent(adapter.inFlight.value.id);
      }
      while adapter.queued != [] || adapter.nativeEvents != []
        invariant Valid() && Conserved() && adapter.Serving() && old(received) <= received
        invariant polls + Left() <= old(Left()) && |received| <= |old(received)| + polls
        invariant old(IdsLast()) && !old(adapter.overflowed) ==> IdsLast() && !adapter.overflowed
        decreases Left()
      {
        PollAndAcknowledge();
        polls := polls + 1;
      }
      assert adapter.past + [] == adapter.past == adapter.emitted;
      ReceivedCarryWhatWasHandedOut();
    }

    /** The owner receives the native events of what was handed out. */
    lemma ReceivedCarryWhatWasHandedOut()
      requires Valid()
      ensures |received| <= |adapter.emitted|
      ensures Natives(received, |received|) == Natives(adapter.emitted, |received|)
    {
      forall i | 0 <= i < |received|
        ensures Origin(received[i].event) == Origin(adapter.emitted[i].event)
      {
        GatingIs(adapter.past[i], gateOpen);
      }
      NativesAreShared(received, adapter.emitted, |received|);
    }

    /** A paste only adds events of the owner's own. */
    twostate lemma PasteCarries(new authorization: Authorization, new answers: Answers, new r: EffectResult)
      requires old(adapter.Valid()) && adapter.Pasted(authorization, answers, r) && adapter.nativeEvents == old(adapter.nativeEvents)
      ensures Carried()
    {
      var before, channel := old(adapter.emitted), old(adapter.nativeEvents);
      if !adapter.overflowed && adapter.emitted != before {
        CarriesOwn(before, channel, PlatformAdapter.ClaimEvents(old(adapter.nextEventId), authorization, adapter.pasteOwnership));
        CarriesKeepsFlow(before, channel, adapter.emitted, adapter.nativeEvents);
      }
    }

    /** A stop only adds the reports that are due. */
    twostate lemma StopCarries(new answers: Answers, new r: EffectResult)
      requires old(adapter.Valid()) && adapter.Stops(answers, r) && adapter.nativeEvents == old(adapter.nativeEvents)
      ensures Carried()
    {
      var before, channel := old(adapter.emitted), old(adapter.nativeEvents);
      if !adapter.overflowed && adapter.emitted != before {
        CarriesOwn(before, channel, Controls(|before| + 1, answers.workPending != old(adapter.lastNativeWorkPending),
          adapter.pasteOwnership, answers.workPending, old(adapter.terminalPending) && !old(adapter.terminalEventEmitted)));
        CarriesKeepsFlow(before, channel, adapter.emitted, adapter.nativeEvents);
      }
    }

    /** What an effect does to the stream. */
    twostate lemma EffectCarries(new effect: Effect, new answers: Answers, new r: EffectResult)
      requires old(adapter.Valid()) && Answered(effect, answers, r)
      ensures Carried()
    {
      if !adapter.overflowed && !adapter.Undisturbed() {
        if effect.AdmitPaste? {
          PasteCarries(effect.authorization, answers, r);
        } else if effect.StopNativeAdapter? {
          StopCarries(answers, r);
        } else {
          if !effect.CloseFreshAdmission? { adapter.DrainedMeans(answers.workPending); }
          CarriesKeepsFlow(old(adapter.emitted), old(adapter.nativeEvents), adapter.emitted, adapter.nativeEvents);
        }
      }
    }

    /** What the adapter's contract says of an effect. */
    twostate predicate Answered(new effect: Effect, new answers: Answers, new r: EffectResult)
      reads adapter
    {
      if old(adapter.stopped) then r == Failed(FailedNotApplied) && adapter.Undisturbed()
      else if Configures(effect) then adapter.Configured(effect, answers, r) && adapter.Undisturbed()
      else adapter.Performed(effect, answers, r)
    }

    /** The adapter never answers with a completion its effect cannot have. */
    twostate lemma AnswersFit(new effect: Effect, new answers: Answers, new r: EffectResult)
      requires Answered(effect, answers, r)
      ensures MapResult(effect, r) == Reply(r)
    {
    }

    /** Asks the adapter for an effect that may not start capture behind a closed gate. */
    method Dispatch(effect: Effect, answers: Answers) returns (r: ExecutorResult)
      requires Valid() && (StartsCapture(State(Perform(effect))) ==> gateOpen)
      modifies adapter
      ensures Valid() && adapter.Advances() && Carried() && adapter.past == old(adapter.past)
      ensures r.Reply? && Answered(effect, answers, r.result)
    {
      var result := adapter.Execute(effect, answers);
      EffectCarries(effect, answers, result);
      AnswersFit(effect, answers, result);
      r := MapResult(effect, result);
    }

    /**
     A violation and a capture behind a closed gate never reach the adapter; every other effect's own answer is
     passed on.
     */
    method Execute(command: Command, answers: Answers) returns (r: ExecutorResult)
      requires Valid()
      modifies adapter
      ensures Valid() && adapter.Advances() && Carried()
      ensures r == ContractViolation <==> Violates(command)
      ensures !Reaches(command) ==> unchanged(adapter)
      ensures StartsCapture(command) && !gateOpen ==> r == Reply(Failed(FailedNotApplied))
      ensures command == State(ExitOwner) ==> r == Reply(Applied)
      ensures Reaches(command) ==> r.Reply? && Answered(command.action.effect, answers, r.result)
    {
      MapsExactly(command, gateOpen);
      var mapped := MapCommand(command, gateOpen);
      match mapped
      case Failure(result) =>
        r := result;
      case Success(None) =>
        r := Reply(Applied);
      case Success(Some(effect)) =>
        r := Dispatch(effect, answers);
    }

    /** The commands whose effect the adapter is asked for. */
    ghost predicate Reaches(command: Command) {
      !Violates(command) && command.action.Perform? && (StartsCapture(command) ==> gateOpen)
    }

    /** A stop reported as applied leaves no claim and no event the owner has not received. */
    twostate lemma StopLeavesNothing(new answers: Answers)
      requires Valid() && Answered(StopNativeAdapter, answers, Applied)
      ensures adapter.stopped && adapter.claimedPaste.None? && |received| == |adapter.emitted|
    {
    }

    method TakeStep(step: BridgeStep)
      requires Valid() && Conserved()
      modifies this, adapter
      ensures Valid() && Conserved() && old(received) <= received && old(arrived) <= arrived && adapter.Advances()
    {
      match step
      case Arrival(event) => TakeArrival(event);
      case Order(command, answers) =>
        var _ := Execute(command, answers);
      case Poll(workPending) =>
        var _ := TryNextEvent(workPending);
      case Acknowledgement(id) => AcknowledgeEvent(id);
      case OrphanShutdown(quiescent, incomplete) => var _ := adapter.BoundedOrphanShutdown(quiescent, incomplete);
      case Terminal => adapter.Trigger();
    }

    method TakeArrival(event: NativeEvent)
      requires Valid() && Conserved()
      modifies this`arrived, adapter`nativeEvents, adapter`terminalTriggered, adapter`terminalPending
      ensures Valid() && Conserved() && adapter.Advances()
      ensures arrived == if |old(adapter.nativeEvents)| < 256 then old(arrived) + [event] else old(arrived)
    {
      FlowOfArrival(adapter.emitted, adapter.nativeEvents, event);
      if |adapter.nativeEvents| < NATIVE_EVENT_CAPACITY { arrived := arrived + [event]; }
      adapter.Arrive(event);
    }

    /**
     Any interleaving of arrivals, commands, polls and right or wrong acknowledgements: the owner receives the
     events numbered 1, 2, 3, ... of the adapter's one queue, each once, and the sequence check never fails. Unless
     an event was dropped, the native ones among them are the first that arrived, in order. Behind a closed gate
     nothing is ever captured.
     */
    method Run(steps: seq<BridgeStep>)
      requires Valid() && Conserved()
      modifies this, adapter
      ensures Valid() && Conserved() && old(received) <= received && !adapterEventSequenceFault
      ensures forall i | 0 <= i < |received| ::
        received[i].id == i + 1 && received[i] == Gated(adapter.emitted[i], gateOpen)
      ensures old(adapter.emitted) <= adapter.emitted && old(arrived) <= arrived
      ensures !adapter.overflowed ==> Natives(received, |received|) <= arrived
      ensures !gateOpen ==> !adapter.admissionOpen && adapter.sessionMode == Off && adapter.platformAdmits != Some(true)
    {
      for k := 0 to |steps|
        invariant Valid() && Conserved() && old(received) <= received
        invariant old(adapter.emitted) <= adapter.emitted && old(arrived) <= arrived
      {
        TakeStep(steps[k]);
      }
      assert forall i | 0 <= i < |received| :: adapter.past[i] == adapter.emitted[i];
      ReceivedCarryWhatWasHandedOut();
      NativesGrow(adapter.emitted, |received|, |adapter.emitted|);
    }
  }
}
