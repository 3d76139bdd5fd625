/**
 The bridge between the native platform and the owner: it numbers, queues, hands out and acknowledges events,
 computes close watermarks and tracks paste authority. What the platform answers is a parameter of each call.
 */
module PlatformAdapter {
  import opened Bytes
  import opened BrokerEvents
  import opened Wrappers

  const NATIVE_EVENT_CAPACITY: nat := 256
  const GENERATED_EVENT_CAPACITY: nat := 16

  datatype PlatformError = HookUnavailable | PermissionDenied | NativeFailure | ThreadStopped
  datatype ActionFailure = FailedNotApplied | IndeterminateFailure
  datatype PasteFailure = PasteDenied | ConflictingModifiers | SecureInput | OsRejected | Unavailable | PasteIndeterminate
  datatype PasteResult = PasteResult(submitted: bool, reason: Option<PasteFailure>)
  datatype PasteRefusal = RefusedPermission | RefusedModifiers | RefusedSecureInput | NativeUnavailable | NativeRejected
  datatype Shutdown = Shutdown(terminal: bool, quiescent: bool)
  datatype SessionMode = Off | Recording | CancelOnly
  datatype OrphanShutdown = QuietShutdown | IncompleteShutdown | FailedShutdown

  /** The calls the platform answers during one effect, in the order they can occur. */
  datatype Answers = Answers(
    activation: Option<PlatformError>, session: Option<PlatformError>, persisted: bool, paste: PasteResult,
    workPending: bool, workPendingAgain: bool, shutdown: Shutdown)

  datatype Effect =
    | CloseFreshAdmission | EmergencyCloseFreshAdmission | OpenFreshAdmission
    | ApplySessionMode(mode: SessionMode) | ApplyConfiguration
    | AdmitPaste(authorization: Authorization) | CancelCandidate | CancelWaitingPaste(authorization: Authorization)
    | PersistMaintenanceRecord | ContinueNativeDrain | StopNativeAdapter

  datatype EffectResult =
    | Applied
    | AdmissionClosed(throughEvent: Option<nat>)
    | PasteWaiting
    | PasteRefused(refusal: PasteRefusal)
    | CandidateCancelled(paste: PasteOwnership, work: bool)
    | Failed(failure: ActionFailure)

  function FailureOf(error: PlatformError): EffectResult {
    Failed(if error.HookUnavailable? || error.PermissionDenied? then FailedNotApplied else IndeterminateFailure)
  }

  function RefusalOf(reason: Option<PasteFailure>): PasteRefusal {
    match reason
    case Some(PasteDenied) => RefusedPermission
    case Some(ConflictingModifiers) => RefusedModifiers
    case Some(SecureInput) => RefusedSecureInput
    case Some(OsRejected) => NativeRejected
    case _ => NativeUnavailable
  }

  /** Only a platform that says why it did nothing leaves the effect certainly not applied. */
  lemma FailuresAre(error: PlatformError)
    ensures FailureOf(error) == Failed(FailedNotApplied) <==> error in {HookUnavailable, PermissionDenied}
    ensures FailureOf(error) == Failed(IndeterminateFailure) <==> error in {NativeFailure, ThreadStopped}
  {
  }

  /** Each reason has its refusal; no reason, and one that cannot be told, count as an unavailable platform. */
  lemma RefusalsAre(reason: Option<PasteFailure>)
    ensures RefusalOf(reason) == RefusedPermission <==> reason == Some(PasteDenied)
    ensures RefusalOf(reason) == RefusedModifiers <==> reason == Some(ConflictingModifiers)
    ensures RefusalOf(reason) == RefusedSecureInput <==> reason == Some(SecureInput)
    ensures RefusalOf(reason) == NativeRejected <==> reason == Some(OsRejected)
    ensures RefusalOf(reason) == NativeUnavailable <==> reason in {None, Some(Unavailable), Some(PasteIndeterminate)}
  {
  }

  function EndOf(authorization: Authorization, ownership: PasteOwnership): BrokerEvent {
    PasteFinished(authorization, if ownership == Claimed then Committed else Unresolved)
  }

  function Min(a: int, b: int): int { if a < b then a else b }

  /** The stream of everything numbered: what was handed out, then what is queued. */
  ghost predicate Queue(past: seq<AdapterEvent>, queued: seq<AdapterEvent>, emitted: seq<AdapterEvent>, next: nat, last: Option<nat>) {
    && emitted == past + queued && Numbered(emitted)
    && next == |emitted| + 1 && last == (if next == 1 then None else Some(next - 1))
    && |queued| <= NATIVE_EVENT_CAPACITY + GENERATED_EVENT_CAPACITY
  }

  lemma QueueOfPush(past: seq<AdapterEvent>, queued: seq<AdapterEvent>, emitted: seq<AdapterEvent>, next: nat, last: Option<nat>, e: AdapterEvent)
    requires Queue(past, queued, emitted, next, last) && e.id == next
    requires |queued| < NATIVE_EVENT_CAPACITY + GENERATED_EVENT_CAPACITY
    ensures Queue(past, queued + [e], emitted + [e], next + 1, Some(next))
  {
    assert past + (queued + [e]) == past + queued + [e];
  }

  lemma QueueOfHandOut(past: seq<AdapterEvent>, queued: seq<AdapterEvent>, emitted: seq<AdapterEvent>, next: nat, last: Option<nat>)
    requires Queue(past, queued, emitted, next, last) && queued != []
    ensures Queue(past + [queued[0]], queued[1..], emitted, next, last)
    ensures queued[0] == emitted[|past|]
  {
    assert past + queued == past + [queued[0]] + queued[1..];
  }

  /** What the stream reports: at most one fault, and until an event was dropped every change of work. */
  ghost predicate Summary(emitted: seq<AdapterEvent>, work: seq<bool>, reported: bool, overflowed: bool, faultId: Option<nat>) {
    FaultOnlyAt(emitted, faultId) && (!overflowed ==> Reports(emitted, work, reported))
  }

  lemma SummaryOfPush(emitted: seq<AdapterEvent>, work: seq<bool>, before: bool, overflowed: bool, faultId: Option<nat>,
                      e: AdapterEvent, after: bool)
    requires Summary(emitted, work, before, overflowed, faultId) && Reported(e.event, before, after)
    requires e.event.RecoverableNativeFault? ==> faultId == Some(e.id)
    ensures Summary(emitted + [e], work + [after], after, overflowed, faultId)
  {
    FaultOnlyAtOfAppend(emitted, faultId, e);
    if !overflowed { ReportsOfAppend(emitted, work, before, e, after); }
  }

  /** Every paste end not yet acknowledged belongs to the claim. */
  ghost predicate Claims(queued: seq<AdapterEvent>, inFlight: Option<AdapterEvent>, endId: Option<nat>,
                         claim: Option<Authorization>, ownership: PasteOwnership) {
    && (claim.None? <==> ownership == Unclaimed)
    && (inFlight.Some? ==> EndBelongs(inFlight.value, endId, claim, ownership))
    && EndsBelong(queued, endId, claim, ownership)
  }

  lemma ClaimsOfPush(queued: seq<AdapterEvent>, inFlight: Option<AdapterEvent>, endId: Option<nat>,
                     claim: Option<Authorization>, ownership: PasteOwnership, e: AdapterEvent)
    requires Claims(queued, inFlight, endId, claim, ownership) && EndBelongs(e, endId, claim, ownership)
    ensures Claims(queued + [e], inFlight, endId, claim, ownership)
  {
  }

  /** No paste end awaits its acknowledgement. */
  ghost predicate Unended(queued: seq<AdapterEvent>, inFlight: Option<AdapterEvent>) {
    && (inFlight.Some? ==> !inFlight.value.event.PasteFinished?)
    && forall i | 0 <= i < |queued| :: !queued[i].event.PasteFinished?
  }

  lemma ClaimsOfNewClaim(queued: seq<AdapterEvent>, inFlight: Option<AdapterEvent>, endId: Option<nat>,
                         authorization: Authorization, ownership: PasteOwnership)
    requires Claims(queued, inFlight, endId, None, Unclaimed) && ownership != Unclaimed
    ensures Unended(queued, inFlight) && Claims(queued, inFlight, endId, Some(authorization), ownership)
  {
    assert forall i | 0 <= i < |queued| :: EndBelongs(queued[i], endId, None, Unclaimed);
  }

  /** While no end awaits its acknowledgement, the next one may get any id. */
  lemma ClaimsBefore(queued: seq<AdapterEvent>, inFlight: Option<AdapterEvent>, was: Option<nat>, endId: Option<nat>,
                     claim: Option<Authorization>, ownership: PasteOwnership)
    requires Claims(queued, inFlight, was, claim, ownership) && Unended(queued, inFlight)
    ensures Claims(queued, inFlight, endId, claim, ownership)
  {
  }

  class PlatformAdapter {
    var nativeEvents: seq<NativeEvent>
    var terminalTriggered: bool
    var terminalPending: bool
    var queued: seq<AdapterEvent>
    var claimedPaste: Option<Authorization>
    var pasteOwnership: PasteOwnership
    var admissionOpen: bool
    var sessionMode: SessionMode
    var lastNativeWorkPending: bool
    var terminalEventEmitted: bool
    var nextEventId: U64
    var lastQueuedEventId: Option<nat>
    var inFlight: Option<AdapterEvent>
    var stopped: bool

    /**
     What was handed out, in order; everything ever numbered, which is that and then what is queued; whether an
     event was ever dropped for lack of room; and, for the stream of everything numbered, the running work report,
     the fault event and the latest paste end.
     */
    ghost var past: seq<AdapterEvent>
    ghost var emitted: seq<AdapterEvent>
    ghost var overflowed: bool
    /** What the platform last confirmed about fresh admission and recording; None after a call that failed. */
    ghost var platformAdmits: Option<bool>
    ghost var platformMode: Option<SessionMode>
    /** Since the last ordered opening or closing, the platform was told to close without the adapter's flag. */
    ghost var bypassed: bool
    ghost var work: seq<bool>
    ghost var faultId: Option<nat>
    ghost var endId: Option<nat>

    ghost predicate Sequenced()
      reads this`past, this`emitted, this`queued, this`nextEventId, this`lastQueuedEventId, this`inFlight, this`nativeEvents
      reads this`overflowed, this`terminalPending, this`terminalEventEmitted, this`terminalTriggered
    {
      && Queue(past, queued, emitted, nextEventId, lastQueuedEventId)
      && (inFlight.Some? ==> past != [] && inFlight.value == past[|past| - 1])
      && |nativeEvents| <= NATIVE_EVENT_CAPACITY
      && (overflowed || terminalPending || terminalEventEmitted ==> terminalTriggered)
    }

    ghost predicate Summarized(reported: bool)
      reads this`emitted, this`queued, this`faultId, this`terminalEventEmitted, this`overflowed, this`work
      reads this`claimedPaste, this`pasteOwnership, this`inFlight, this`endId
    {
      && Summary(emitted, work, reported, overflowed, faultId) && (!terminalEventEmitted ==> faultId.None?)
      && Claims(queued, inFlight, endId, claimedPaste, pasteOwnership)
    }

    ghost predicate Valid()
      reads this`past, this`emitted, this`queued, this`nextEventId, this`lastQueuedEventId, this`inFlight, this`nativeEvents
      reads this`overflowed, this`terminalPending, this`terminalEventEmitted, this`terminalTriggered
      reads this`faultId, this`work, this`claimedPaste, this`pasteOwnership, this`endId, this`lastNativeWorkPending
    {
      Sequenced() && Summarized(lastNativeWorkPending)
    }

    /**
     The adapter's two flags against the platform's last word. The platform is confirmed open exactly if the flag is
     up and nothing bypassed it; a confirmed recording mode is the one the adapter holds.
     */
    ghost predicate Agrees()
      reads this`admissionOpen, this`sessionMode, this`platformAdmits, this`platformMode, this`bypassed
    {
      && (platformAdmits == Some(true) <==> admissionOpen && !bypassed)
      && (platformMode.Some? ==> platformMode.value == sessionMode)
    }

    /** What no call undoes. */
    twostate predicate Advances()
      reads this`emitted, this`past, this`terminalTriggered, this`overflowed, this`stopped, this`queued
      reads this`pasteOwnership, this`claimedPaste
    {
      && old(emitted) <= emitted && old(past) <= past
      && (old(terminalTriggered) ==> terminalTriggered) && (old(overflowed) ==> overflowed)
      && (old(stopped) ==> stopped && past == old(past) && queued == old(queued))
      && (old(pasteOwnership) == Indeterminate ==>
            pasteOwnership == Indeterminate && claimedPaste == old(claimedPaste))
    }

    constructor ()
      ensures Valid() && past == [] && queued == [] && nativeEvents == [] && !stopped && !overflowed
      ensures claimedPaste.None? && inFlight.None? && Agrees()
      ensures !admissionOpen && sessionMode == Off && !terminalTriggered && !lastNativeWorkPending && emitted == []
    {
      nativeEvents, queued, past, emitted := [], [], [], [];
      terminalTriggered, terminalPending, overflowed := false, false, false;
      claimedPaste, pasteOwnership := None, Unclaimed;
      admissionOpen, sessionMode, lastNativeWorkPending, terminalEventEmitted := false, Off, false, false;
      nextEventId, lastQueuedEventId, inFlight, stopped := 1, None, None, false;
      work, faultId, endId := [false], None, None;
      platformAdmits, platformMode, bypassed := None, None, false;
    }

    /** How many more events the queue and the id space take. */
    ghost function Room(): int
      reads this`queued, this`nextEventId
    {
      Min(NATIVE_EVENT_CAPACITY + GENERATED_EVENT_CAPACITY - |queued|, U64_MAX - nextEventId)
    }

    /** The terminal signal; the platform raises it too. */
    method Trigger()
      modifies this`terminalTriggered, this`terminalPending
      ensures terminalTriggered && terminalPending == (old(terminalPending) || !old(terminalTriggered))
      ensures (old(Sequenced()) ==> Sequenced()) && (old(Valid()) ==> Valid())
    {
      if !terminalTriggered {
        terminalTriggered := true;
        terminalPending := true;
      }
    }

    /** The platform delivers an event into the bounded channel, or gives up for good when it is full. */
    method Arrive(event: NativeEvent)
      requires Valid()
      modifies this`nativeEvents, this`terminalTriggered, this`terminalPending
      ensures Valid() && Advances() && emitted == old(emitted)
      ensures |old(nativeEvents)| < 256 ==> nativeEvents == old(nativeEvents) + [event]
      ensures |old(nativeEvents)| >= 256 ==> terminalTriggered && nativeEvents == old(nativeEvents)
    {
      if |nativeEvents| < NATIVE_EVENT_CAPACITY {
        nativeEvents := nativeEvents + [event];
      } else {
        Trigger();
      }
    }

    method PushEvent(event: BrokerEvent)
      requires Sequenced()
      modifies this`queued, this`emitted, this`nextEventId, this`lastQueuedEventId, this`terminalTriggered, this`terminalPending
      modifies this`overflowed
      ensures Sequenced()
      ensures old(Room()) > 0 <==> |old(queued)| < 272 && old(nextEventId) < U64_MAX
      ensures old(Room()) > 0 ==>
        && queued == old(queued) + [AdapterEvent(old(nextEventId), event)]
        && emitted == old(emitted) + [AdapterEvent(old(nextEventId), event)]
        && terminalTriggered == old(terminalTriggered) && terminalPending == old(terminalPending)
        && overflowed == old(overflowed) && Room() == old(Room()) - 1
      ensures old(Room()) <= 0 ==>
        && queued == old(queued) && emitted == old(emitted) && terminalTriggered && overflowed && Room() == old(Room())
        && (old(terminalTriggered) ==> terminalPending == old(terminalPending))
    {
      if |queued| >= NATIVE_EVENT_CAPACITY + GENERATED_EVENT_CAPACITY {
        Trigger();
        overflowed := true;
        return;
      }
      if nextEventId == U64_MAX {
        Trigger();
        overflowed := true;
        return;
      }
      var id := nextEventId;
      QueueOfPush(past, queued, emitted, nextEventId, lastQueuedEventId, AdapterEvent(id, event));
      nextEventId := nextEventId + 1;
      lastQueuedEventId := Some(id);
      queued := queued + [AdapterEvent(id, event)];
      emitted := emitted + [AdapterEvent(id, event)];
    }

    /** Numbers an event that fits the stream so far, in which work was last reported as `before`. */
    method PushReported(event: BrokerEvent, ghost before: bool)
      requires Sequenced() && Summarized(before)
      requires Reported(event, before, lastNativeWorkPending)
      requires event.RecoverableNativeFault? ==> faultId == Some(nextEventId)
      requires EndBelongs(AdapterEvent(nextEventId, event), endId, claimedPaste, pasteOwnership)
      modifies this`queued, this`emitted, this`nextEventId, this`lastQueuedEventId, this`terminalTriggered, this`terminalPending
      modifies this`overflowed, this`work
      ensures Valid()
      ensures old(Room()) > 0 ==>
        && queued == old(queued) + [AdapterEvent(old(nextEventId), event)]
        && emitted == old(emitted) + [AdapterEvent(old(nextEventId), event)]
        && terminalTriggered == old(terminalTriggered) && terminalPending == old(terminalPending)
        && overflowed == old(overflowed) && Room() == old(Room()) - 1
      ensures old(Room()) <= 0 ==>
        && queued == old(queued) && terminalTriggered && overflowed && Room() == old(Room())
        && (old(terminalTriggered) ==> terminalPending == old(terminalPending))
    {
      ghost var e := AdapterEvent(nextEventId, event);
      SummaryOfPush(emitted, work, before, overflowed, faultId, e, lastNativeWorkPending);
      ClaimsOfPush(queued, inFlight, endId, claimedPaste, pasteOwnership, e);
      work := work + [lastNativeWorkPending];
      PushEvent(event);
      assert Summary(emitted, work, lastNativeWorkPending, overflowed, faultId);
      assert Claims(queued, inFlight, endId, claimedPaste, pasteOwnership);
    }

    method IngestNativeEvent(event: NativeEvent)
      requires Valid()
      modifies this`queued, this`emitted, this`nextEventId, this`lastQueuedEventId, this`terminalTriggered, this`terminalPending
      modifies this`overflowed, this`work
      ensures Valid() && old(emitted) <= emitted
      ensures old(Room()) > 0 ==>
        && emitted == old(emitted) + [AdapterEvent(old(nextEventId), Translate(event))]
        && overflowed == old(overflowed) && terminalPending == old(terminalPending) && Room() == old(Room()) - 1
      ensures old(Room()) <= 0 ==> queued == old(queued) && overflowed && Room() == old(Room())
      ensures old(terminalTriggered) ==> terminalTriggered
    {
      PushReported(Translate(event), lastNativeWorkPending);
    }

    method IngestFirst()
      requires Valid() && nativeEvents != []
      modifies this`nativeEvents, this`queued, this`emitted, this`nextEventId, this`lastQueuedEventId
      modifies this`terminalTriggered, this`terminalPending, this`overflowed, this`work
      ensures Valid() && nativeEvents == old(nativeEvents)[1..]
      ensures old(emitted) <= emitted
      ensures old(Room()) > 0 ==>
        && emitted == old(emitted) + [AdapterEvent(old(nextEventId), Translate(old(nativeEvents)[0]))]
        && overflowed == old(overflowed) && terminalPending == old(terminalPending) && Room() == old(Room()) - 1
      ensures old(Room()) <= 0 ==> queued == old(queued) && overflowed && Room() == old(Room())
      ensures old(terminalTriggered) ==> terminalTriggered
    {
      var event := nativeEvents[0];
      nativeEvents := nativeEvents[1..];
      IngestNativeEvent(event);
    }

    /** Drains the channel; what does not fit is dropped and the terminal signal raised. */
    method IngestAllNativeEvents()
      requires Valid()
      modifies this`nativeEvents, this`queued, this`emitted, this`nextEventId, this`lastQueuedEventId
      modifies this`terminalTriggered, this`terminalPending, this`overflowed, this`work
      ensures Valid() && nativeEvents == []
      ensures old(terminalTriggered) ==> terminalTriggered
      ensures var taken := Min(old(Room()), |old(nativeEvents)|);
        && taken >= 0
        && emitted == NumberOn(old(emitted), old(nativeEvents), taken)
        && (overflowed <==> old(overflowed) || taken < |old(nativeEvents)|)
      ensures !overflowed ==> terminalPending == old(terminalPending)
    {
      ghost var arrivals, before, room := nativeEvents, emitted, Room();
      ghost var k, taken := 0, 0;
      while |nativeEvents| > 0
        invariant Valid() && (old(terminalTriggered) ==> terminalTriggered)
        invariant 0 <= k <= |arrivals| && nativeEvents == arrivals[k..]
        invariant 0 <= taken <= k && Room() == room - taken && (taken < k ==> taken == room)
        invariant emitted == NumberOn(before, arrivals, taken)
        invariant overflowed <==> old(overflowed) || taken < k
        invariant !overflowed ==> terminalPending == old(terminalPending)
        decreases |nativeEvents|
      {
        if k < room {
          assert AdapterEvent(nextEventId, Translate(nativeEvents[0])) == AdapterEvent(|before| + k + 1, Translate(arrivals[k]));
          taken := taken + 1;
        }
        IngestFirst();
        k := k + 1;
      }
    }

    /** Reports a change of native work with its new value, and a terminal signal once. */
    method RefreshNativeControlEvents(pending: bool)
      requires Valid()
      modifies this`queued, this`emitted, this`nextEventId, this`lastQueuedEventId, this`terminalTriggered, this`terminalPending
      modifies this`overflowed, this`work, this`faultId, this`lastNativeWorkPending, this`terminalEventEmitted
      ensures Valid() && lastNativeWorkPending == pending && !(terminalPending && !terminalEventEmitted)
      ensures old(queued) <= queued && old(emitted) <= emitted && |queued| <= |old(queued)| + 2
      ensures old(terminalTriggered) ==> terminalTriggered
      ensures old(overflowed) || old(Room()) >= 2 ==> overflowed == old(overflowed)
      ensures !overflowed ==>
        WentOn(old(emitted), [], 0, pending != old(lastNativeWorkPending), pasteOwnership, pending, old(terminalPending) && !old(terminalEventEmitted), emitted)
    {
      ghost var before, changed, due := emitted, pending != lastNativeWorkPending, terminalPending && !terminalEventEmitted;
      ReportWork(pending);
      ghost var middle := emitted;
      ReportTerminal();
      if !overflowed { WentOnByParts(before, middle, emitted, changed, pasteOwnership, pending, due); }
    }

    /** The same after the first `k` arrivals of the channel were numbered. */
    method RefreshAfter(pending: bool, ghost before: seq<AdapterEvent>, ghost channel: seq<NativeEvent>, ghost k: int)
      requires Valid() && (!overflowed ==> 0 <= k <= |channel| && emitted == NumberOn(before, channel, k))
      modifies this`queued, this`emitted, this`nextEventId, this`lastQueuedEventId, this`terminalTriggered, this`terminalPending
      modifies this`overflowed, this`work, this`faultId, this`lastNativeWorkPending, this`terminalEventEmitted
      ensures Valid() && lastNativeWorkPending == pending && !(terminalPending && !terminalEventEmitted)
      ensures old(queued) <= queued && old(emitted) <= emitted && |queued| <= |old(queued)| + 2
      ensures old(terminalTriggered) ==> terminalTriggered
      ensures old(overflowed) || old(Room()) >= 2 ==> overflowed == old(overflowed)
      ensures !overflowed ==>
        WentOn(before, channel, k, pending != old(lastNativeWorkPending), pasteOwnership, pending,
               old(terminalPending) && !old(terminalEventEmitted), emitted)
    {
      ghost var middle, changed, due := emitted, pending != lastNativeWorkPending, terminalPending && !terminalEventEmitted;
      RefreshNativeControlEvents(pending);
      if !overflowed { WentOnAfterArrivals(before, channel, k, middle, emitted, changed, pasteOwnership, pending, due); }
    }

    method ReportWork(pending: bool)
      requires Valid()
      modifies this`queued, this`emitted, this`nextEventId, this`lastQueuedEventId, this`terminalTriggered, this`terminalPending
      modifies this`overflowed, this`work, this`lastNativeWorkPending
      ensures Valid() && lastNativeWorkPending == pending
      ensures old(queued) <= queued && old(emitted) <= emitted && |queued| <= |old(queued)| + 1
      ensures old(terminalTriggered) ==> terminalTriggered
      ensures old(overflowed) || old(Room()) >= 1 ==> overflowed == old(overflowed)
      ensures !overflowed ==> terminalPending == old(terminalPending) && Room() >= old(Room()) - 1
      ensures !overflowed ==>
        WentOn(old(emitted), [], 0, pending != old(lastNativeWorkPending), pasteOwnership, pending, false, emitted)
    {
      if pending != lastNativeWorkPending {
        lastNativeWorkPending := pending;
        PushReported(OwnershipChanged(Observation(0, 0, 0, pasteOwnership, pending, 0)), !pending);
      }
    }

    method ReportTerminal()
      requires Valid()
      modifies this`queued, this`emitted, this`nextEventId, this`lastQueuedEventId, this`terminalTriggered, this`terminalPending
      modifies this`overflowed, this`work, this`faultId, this`terminalEventEmitted
      ensures Valid() && !(terminalPending && !terminalEventEmitted)
      ensures old(terminalPending) && !old(terminalEventEmitted) ==> !terminalPending && terminalEventEmitted
      ensures old(queued) <= queued && old(emitted) <= emitted && |queued| <= |old(queued)| + 1
      ensures old(terminalTriggered) ==> terminalTriggered
      ensures old(overflowed) || old(Room()) >= 1 ==> overflowed == old(overflowed)
      ensures !overflowed ==>
        WentOn(old(emitted), [], 0, false, pasteOwnership, false, old(terminalPending) && !old(terminalEventEmitted), emitted)
    {
      if !terminalEventEmitted && terminalPending {
        terminalPending := false;
        terminalEventEmitted := true;
        faultId := Some(nextEventId);
        PushReported(RecoverableNativeFault, lastNativeWorkPending);
      }
    }

    // -----------------------------------------------------------------------
    // Delivery

    /** Takes one arrival, if one waits, when nothing is queued. */
    method TakeFirst()
      requires Valid() && queued == []
      modifies this`nativeEvents, this`queued, this`emitted, this`nextEventId, this`lastQueuedEventId
      modifies this`terminalTriggered, this`terminalPending, this`overflowed, this`work
      ensures Valid() && old(emitted) <= emitted && |queued| <= |old(nativeEvents)| - |nativeEvents|
      ensures nativeEvents == if old(nativeEvents) == [] then [] else old(nativeEvents)[1..]
      ensures old(nativeEvents) != [] && old(Room()) > 0 ==>
        |old(emitted)| < |emitted| && emitted[|old(emitted)|].event == Translate(old(nativeEvents)[0])
      ensures old(terminalTriggered) ==> terminalTriggered
      ensures old(overflowed) || old(Room()) >= 1 ==> overflowed == old(overflowed) && Room() >= old(Room()) - 1
      ensures !overflowed ==> terminalPending == old(terminalPending)
      ensures !overflowed ==> emitted == NumberOn(old(emitted), old(nativeEvents), |old(nativeEvents)| - |nativeEvents|)
    {
      if nativeEvents != [] {
        FirstArrivalIsNumbered(emitted, nativeEvents);
        IngestFirst();
      }
    }

    /** Takes one arrival and the control events when nothing is queued. */
    method Refill(workPending: bool)
      requires Valid() && queued == []
      modifies this`nativeEvents, this`queued, this`emitted, this`nextEventId, this`lastQueuedEventId, this`lastNativeWorkPending
      modifies this`terminalTriggered, this`terminalPending, this`terminalEventEmitted
      modifies this`overflowed, this`work, this`faultId
      ensures Valid() && old(emitted) <= emitted && (old(terminalTriggered) ==> terminalTriggered)
      ensures nativeEvents == if old(nativeEvents) == [] then [] else old(nativeEvents)[1..]
      ensures old(nativeEvents) != [] && old(Room()) > 0 ==>
        |old(emitted)| < |emitted| && emitted[|old(emitted)|].event == Translate(old(nativeEvents)[0])
      ensures |queued| <= |old(nativeEvents)| - |nativeEvents| + 2
      ensures old(overflowed) || old(Room()) >= 3 ==> overflowed == old(overflowed)
      ensures Refilled(workPending)
    {
      ghost var before, channel := emitted, nativeEvents;
      TakeFirst();
      RefreshAfter(workPending, before, channel, |channel| - |nativeEvents|);
    }

    /** Unless an event was dropped, the stream went on with the first arrival and then what had to be reported. */
    twostate predicate Refilled(workPending: bool)
      reads this`emitted, this`overflowed, this`pasteOwnership, this`nativeEvents
    {
      !overflowed ==> WentOn(old(emitted), old(nativeEvents), |old(nativeEvents)| - |nativeEvents|,
        workPending != old(lastNativeWorkPending), pasteOwnership, workPending,
        old(terminalPending) && !old(terminalEventEmitted), emitted)
    }

    /** A poll is served from the queue, or from the platform when nothing is queued; one event at a time is out. */
    predicate Serving()
      reads this`inFlight, this`stopped
    {
      inFlight.None? && !stopped
    }

    /** Hands out the oldest queued event, one at a time, and takes an arrival from the channel when none is queued. */
    method NextEnvelope(workPending: bool) returns (r: Option<AdapterEvent>)
      requires Valid()
      modifies this`nativeEvents, this`queued, this`emitted, this`nextEventId, this`lastQueuedEventId, this`lastNativeWorkPending
      modifies this`terminalTriggered, this`terminalPending, this`terminalEventEmitted
      modifies this`overflowed, this`work, this`faultId, this`inFlight, this`past
      ensures Valid() && Advances()
      ensures r.Some? ==> |old(past)| < |emitted| && r.value == emitted[|old(past)|]
      ensures r.Some? ==> past == old(past) + [r.value] && inFlight == r && old(Serving())
      ensures r.None? ==> past == old(past) && inFlight == old(inFlight)
      ensures Polled(workPending, r)
    {
      if inFlight.Some? || stopped { return None; }
      if queued == [] { Refill(workPending); }
      if queued == [] { return None; }
      assert queued[0] == emitted[|past|] by {
        QueueOfHandOut(past, queued, emitted, nextEventId, lastQueuedEventId);
      }
      r := HandOut();
    }

    /** How a poll is served: from the queue, else from the platform's first arrival and what has to be reported. */
    twostate predicate Polled(workPending: bool, new r: Option<AdapterEvent>)
      reads this`inFlight, this`stopped, this`queued, this`nativeEvents, this`emitted, this`overflowed, this`pasteOwnership
    {
      && (r.None? && Serving() ==> queued == [])
      && (!old(Serving()) ==> r.None?)
      && (!old(Serving()) || old(queued) != [] ==> Undisturbed())
      && (old(Serving()) && old(queued) != [] ==> r == Some(old(queued)[0]) && queued == old(queued)[1..])
      && (old(Serving()) && old(queued) == [] ==>
            && |queued| <= (if r.Some? then |old(nativeEvents)| - |nativeEvents| + 1 else 0)
            && Refilled(workPending) && nativeEvents == (if old(nativeEvents) == [] then [] else old(nativeEvents)[1..])
            && (old(overflowed) || old(Room()) >= 3 ==> overflowed == old(overflowed)))
      && (old(Serving()) && old(queued) == [] && old(nativeEvents) != [] && old(Room()) > 0 ==>
            r.Some? && r.value.event == Translate(old(nativeEvents)[0]))
    }

    method HandOut() returns (r: Option<AdapterEvent>)
      requires Valid() && queued != [] && inFlight.None?
      modifies this`queued, this`inFlight, this`past
      ensures Valid() && queued == old(queued)[1..]
      ensures r == Some(old(queued)[0]) && inFlight == r && past == old(past) + [r.value]
    {
      QueueOfHandOut(past, queued, emitted, nextEventId, lastQueuedEventId);
      inFlight := Some(queued[0]);
      past := past + [queued[0]];
      queued := queued[1..];
      return inFlight;
    }

    method AcknowledgeEvent(id: U64)
      requires Valid()
      modifies this`inFlight, this`claimedPaste, this`pasteOwnership, this`terminalTriggered, this`terminalPending
      ensures Valid() && Advances()
      ensures var matches := old(inFlight).Some? && old(inFlight).value.id == id;
        if matches then
          && inFlight.None? && terminalTriggered == old(terminalTriggered)
          && var event := old(inFlight).value.event;
            if event.PasteFinished? && event.outcome == Committed then
              old(claimedPaste) == Some(event.authorization) && old(pasteOwnership) == Claimed
              && claimedPaste.None? && pasteOwnership == Unclaimed
            else claimedPaste == old(claimedPaste) && pasteOwnership == old(pasteOwnership)
        else
          && inFlight == old(inFlight) && terminalTriggered
          && claimedPaste == old(claimedPaste) && pasteOwnership == old(pasteOwnership)
    {
      if inFlight.Some? && inFlight.value.id == id {
        var event := inFlight.value.event;
        assert inFlight.value == emitted[|past| - 1];
        assert forall i | 0 <= i < |queued| :: queued[i] == emitted[|past| + i];
        if event.PasteFinished? && event.outcome == Committed {
          claimedPaste := None;
          pasteOwnership := Unclaimed;
        }
        inFlight := None;
      } else {
        Trigger();
      }
    }

    // -----------------------------------------------------------------------
    // Effects

    /** Every arrival still in the channel was numbered, in arrival order, and then what had to be reported, unless one was dropped. */
    twostate predicate Drained(workPending: bool)
      reads this`nativeEvents, this`emitted, this`overflowed, this`pasteOwnership, this`lastNativeWorkPending, this`terminalTriggered
    {
      && nativeEvents == [] && lastNativeWorkPending == workPending
      && (overflowed ==> terminalTriggered)
      && (!overflowed ==> WentOn(old(emitted), old(nativeEvents), |old(nativeEvents)|,
            workPending != old(lastNativeWorkPending), pasteOwnership, workPending,
            old(terminalPending) && !old(terminalEventEmitted), emitted))
    }

    /** What a drain means: the events pending before are all numbered, in order, and none is made up. */
    twostate lemma DrainedMeans(workPending: bool)
      requires old(Valid()) && Drained(workPending) && !overflowed
      ensures Covers(emitted, old(emitted), old(nativeEvents))
      ensures Carries(old(emitted), old(nativeEvents), emitted, nativeEvents)
    {
      WentOnMeans(old(emitted), old(nativeEvents), |old(nativeEvents)|, workPending != old(lastNativeWorkPending),
        pasteOwnership, workPending, old(terminalPending) && !old(terminalEventEmitted), emitted);
    }

    method Drain(workPending: bool)
      requires Valid() && !stopped
      modifies this`nativeEvents, this`queued, this`emitted, this`nextEventId, this`lastQueuedEventId, this`lastNativeWorkPending
      modifies this`terminalTriggered, this`terminalPending, this`terminalEventEmitted
      modifies this`overflowed, this`work, this`faultId
      ensures Valid() && Advances() && Drained(workPending)
      ensures !overflowed ==> Covers(emitted, old(emitted), old(nativeEvents))
      ensures !overflowed ==> Carries(old(emitted), old(nativeEvents), emitted, nativeEvents)
    {
      ghost var before, channel := emitted, nativeEvents;
      IngestAllNativeEvents();
      RefreshAfter(workPending, before, channel, |channel|);
      if !overflowed { DrainedMeans(workPending); }
    }

    /** The flag goes down whether or not the platform confirms the closing. */
    method LowerFlag(confirmed: bool)
      modifies this`admissionOpen, this`platformAdmits, this`bypassed
      ensures !admissionOpen && !bypassed && platformAdmits == (if confirmed then Some(false) else None)
      ensures old(Agrees()) ==> Agrees()
    {
      admissionOpen, bypassed := false, false;
      platformAdmits := if confirmed then Some(false) else None;
    }

    /** The watermark covers every arrival still in the channel, unless one was dropped. */
    method CloseFreshAdmission(answers: Answers) returns (r: EffectResult)
      requires Valid() && !stopped
      modifies this`nativeEvents, this`queued, this`emitted, this`nextEventId, this`lastQueuedEventId, this`lastNativeWorkPending
      modifies this`terminalTriggered, this`terminalPending, this`terminalEventEmitted
      modifies this`overflowed, this`work, this`faultId, this`admissionOpen, this`platformAdmits, this`bypassed
      ensures Valid() && Advances()
      ensures platformAdmits == (if answers.activation.Some? then None else Some(false)) && (old(Agrees()) ==> Agrees())
      ensures !admissionOpen
      ensures answers.activation.Some? ==> r == FailureOf(answers.activation.value) && Undisturbed()
      ensures answers.activation.None? ==> Drained(answers.workPending) && Closed(r)
    {
      LowerFlag(answers.activation.None?);
      if answers.activation.Some? {
        return FailureOf(answers.activation.value);
      }
      Drain(answers.workPending);
      return AdmissionClosed(lastQueuedEventId);
    }

    method EmergencyClose(answers: Answers) returns (r: EffectResult)
      modifies this`sessionMode, this`platformAdmits, this`platformMode, this`bypassed
      ensures sessionMode == Off && (old(Agrees()) ==> Agrees())
      ensures bypassed && platformAdmits == if answers.activation.Some? then None else Some(false)
      ensures platformMode == if answers.session.Some? then None else Some(Off)
      ensures r.AdmissionClosed? ==> platformAdmits == Some(false) && platformMode == Some(Off)
      ensures r == if answers.activation.Some? then FailureOf(answers.activation.value)
                   else if answers.session.Some? then FailureOf(answers.session.value)
                   else AdmissionClosed(lastQueuedEventId)
    {
      var activation :=
        if answers.activation.None? then AdmissionClosed(lastQueuedEventId) else FailureOf(answers.activation.value);
      sessionMode := Off;
      platformAdmits, bypassed := if answers.activation.Some? then None else Some(false), true;
      platformMode := if answers.session.Some? then None else Some(Off);
      if activation.Failed? { return activation; }
      return if answers.session.None? then activation else FailureOf(answers.session.value);
    }

    /** The flag goes up only with the platform's confirmation. */
    method OpenFreshAdmission(answers: Answers) returns (r: EffectResult)
      modifies this`admissionOpen, this`platformAdmits, this`bypassed
      ensures (old(Agrees()) ==> Agrees())
      ensures (admissionOpen <==> answers.activation.None?) && (r == Applied <==> platformAdmits == Some(true))
      ensures Agrees() ==> (r == Applied <==> admissionOpen)
      ensures r == if answers.activation.None? then Applied else FailureOf(answers.activation.value)
    {
      platformAdmits, bypassed := if answers.activation.Some? then None else Some(true), false;
      admissionOpen := answers.activation.None?;
      r := if answers.activation.None? then Applied else FailureOf(answers.activation.value);
    }

    method ApplySessionMode(mode: SessionMode, answers: Answers) returns (r: EffectResult)
      modifies this`sessionMode, this`platformMode
      ensures (old(Agrees()) ==> Agrees())
      ensures r == Applied <==> platformMode == Some(mode)
      ensures sessionMode == if answers.session.None? then mode else old(sessionMode)
      ensures r == if answers.session.None? then Applied else FailureOf(answers.session.value)
    {
      platformMode := if answers.session.Some? then None else Some(mode);
      if answers.session.None? { sessionMode := mode; }
      r := if answers.session.None? then Applied else FailureOf(answers.session.value);
    }

    /** A new configuration is always installed closed. */
    method ApplyConfiguration(answers: Answers) returns (r: EffectResult)
      modifies this`admissionOpen, this`platformAdmits, this`bypassed
      ensures (old(Agrees()) ==> Agrees())
      ensures platformAdmits == if r == Applied then Some(false) else None
      ensures admissionOpen == (old(admissionOpen) && answers.activation.Some?)
      ensures r == if answers.activation.None? then Applied else FailureOf(answers.activation.value)
    {
      platformAdmits := if answers.activation.Some? then None else Some(false);
      bypassed := answers.activation.Some?;
      if answers.activation.None? { admissionOpen := false; }
      r := if answers.activation.None? then Applied else FailureOf(answers.activation.value);
    }

    /** The two events of a claim, numbered from `id`. */
    static function ClaimEvents(id: nat, authorization: Authorization, ownership: PasteOwnership): seq<AdapterEvent> {
      [AdapterEvent(id, PasteClaimed(authorization)), AdapterEvent(id + 1, EndOf(authorization, ownership))]
    }

    /** Queues the announcement of the claim just made and its end. */
    method PushClaim(authorization: Authorization)
      requires Valid() && claimedPaste == Some(authorization) && Unended(queued, inFlight)
      modifies this`queued, this`emitted, this`nextEventId, this`lastQueuedEventId, this`terminalTriggered, this`terminalPending
      modifies this`overflowed, this`work, this`endId
      ensures Valid() && (old(overflowed) ==> overflowed) && (old(terminalTriggered) ==> terminalTriggered)
      ensures old(emitted) <= emitted
      ensures !overflowed ==> emitted == old(emitted) + ClaimEvents(old(nextEventId), authorization, pasteOwnership)
    {
      PushReported(PasteClaimed(authorization), lastNativeWorkPending);
      ClaimsBefore(queued, inFlight, endId, Some(nextEventId), claimedPaste, pasteOwnership);
      endId := Some(nextEventId);
      PushReported(EndOf(authorization, pasteOwnership), lastNativeWorkPending);
    }

    /** The platform took the paste, or may have: the claim is made and announced together with its end. */
    method ClaimPaste(authorization: Authorization, submitted: bool)
      requires Valid() && !stopped && claimedPaste.None?
      modifies this`claimedPaste, this`pasteOwnership
      modifies this`queued, this`emitted, this`nextEventId, this`lastQueuedEventId, this`terminalTriggered, this`terminalPending
      modifies this`overflowed, this`work, this`endId
      ensures Valid() && Advances()
      ensures claimedPaste == Some(authorization) && pasteOwnership == if submitted then Claimed else Indeterminate
      ensures !overflowed ==> emitted == old(emitted) + ClaimEvents(old(nextEventId), authorization, pasteOwnership)
    {
      ClaimsOfNewClaim(queued, inFlight, endId, authorization, if submitted then Claimed else Indeterminate);
      claimedPaste := Some(authorization);
      pasteOwnership := if submitted then Claimed else Indeterminate;
      PushClaim(authorization);
    }

    /** One claim at a time; a claim queues its announcement and its end together. */
    method AdmitPaste(authorization: Authorization, answers: Answers) returns (r: EffectResult)
      requires Valid() && !stopped
      modifies this`claimedPaste, this`pasteOwnership
      modifies this`queued, this`emitted, this`nextEventId, this`lastQueuedEventId, this`terminalTriggered, this`terminalPending
      modifies this`overflowed, this`work, this`endId
      ensures Valid() && Advances() && Pasted(authorization, answers, r)
    {
      if claimedPaste.Some? { return PasteRefused(NativeUnavailable); }
      if !authorization.LegalGeneration() { return PasteRefused(NativeRejected); }
      var result := answers.paste;
      if result.submitted || result.reason == Some(PasteIndeterminate) {
        ClaimPaste(authorization, result.submitted);
        return PasteWaiting;
      }
      return PasteRefused(RefusalOf(result.reason));
    }

    /** When a paste waits, why it is refused, and what becomes of the claim and the stream. */
    twostate predicate Pasted(new authorization: Authorization, new answers: Answers, new r: EffectResult)
      reads this`claimedPaste, this`pasteOwnership, this`emitted, this`overflowed
    {
      && (r == PasteWaiting <==>
            && old(claimedPaste).None? && 1 <= authorization.generation <= 0x1F_FFFF_FFFF_FFFF
            && (answers.paste.submitted || answers.paste.reason == Some(PasteIndeterminate)))
      && (r != PasteWaiting ==>
            && SameClaim() && emitted == old(emitted) && overflowed == old(overflowed)
            && r == PasteRefused(
                 if old(claimedPaste).Some? then NativeUnavailable
                 else if !(1 <= authorization.generation <= 0x1F_FFFF_FFFF_FFFF) then NativeRejected
                 else RefusalOf(answers.paste.reason)))
      && (r == PasteWaiting ==>
            && claimedPaste == Some(authorization)
            && pasteOwnership == (if answers.paste.submitted then Claimed else Indeterminate)
            && (!overflowed ==> emitted == old(emitted) + ClaimEvents(old(nextEventId), authorization, pasteOwnership)))
    }

    /** Stops only when nothing is owned, queued or in flight, bar a final neutral ownership fact in flight. */
    method StopAdapter(answers: Answers) returns (r: EffectResult)
      requires Valid() && !stopped
      modifies this`queued, this`emitted, this`nextEventId, this`lastQueuedEventId, this`terminalTriggered, this`terminalPending
      modifies this`overflowed, this`work, this`faultId, this`lastNativeWorkPending, this`terminalEventEmitted, this`stopped
      ensures Valid() && Advances() && Stops(answers, r)
    {
      RefreshNativeControlEvents(answers.workPending);
      var inFlightOrdersStop := inFlight.None? || Neutral(inFlight.value.event);
      if answers.workPendingAgain || pasteOwnership != Unclaimed || !inFlightOrdersStop || queued != [] {
        return Failed(FailedNotApplied);
      }
      stopped := true;
      return if !answers.shutdown.terminal && answers.shutdown.quiescent then Applied else Failed(IndeterminateFailure);
    }

    /** When the adapter stops, and what it then says about the platform's shutdown. */
    twostate predicate Stops(new answers: Answers, new r: EffectResult)
      reads this`queued, this`inFlight, this`claimedPaste, this`pasteOwnership, this`stopped, this`emitted, this`overflowed
      reads this`lastNativeWorkPending
    {
      && (stopped <==>
            && !answers.workPendingAgain && claimedPaste.None? && queued == []
            && (inFlight.None? || inFlight.value.event == OwnershipChanged(Observation(0, 0, 0, Unclaimed, false, 0))))
      && (!stopped ==> r == Failed(FailedNotApplied))
      && (stopped ==> (r == Applied <==> !answers.shutdown.terminal && answers.shutdown.quiescent))
      && (stopped ==> r == Applied || r == Failed(IndeterminateFailure))
      && lastNativeWorkPending == answers.workPending
      && (!overflowed ==>
            WentOn(old(emitted), [], 0, answers.workPending != old(lastNativeWorkPending), pasteOwnership,
                   answers.workPending, old(terminalPending) && !old(terminalEventEmitted), emitted))
    }

    /** The answer to a closing: its watermark is the last id given, and it covers all that was pending. */
    twostate predicate Closed(new r: EffectResult)
      reads this`nativeEvents, this`emitted, this`overflowed, this`terminalTriggered
    {
      && nativeEvents == [] && r == AdmissionClosed(if |emitted| == 0 then None else Some(|emitted|))
      && (overflowed ==> terminalTriggered)
      && (!overflowed ==> Covers(emitted, old(emitted), old(nativeEvents)))
      && (!overflowed ==> Carries(old(emitted), old(nativeEvents), emitted, nativeEvents))
    }

    /** The effects that only tell the platform what to capture; nothing that is numbered or owned depends on them. */
    method Configure(effect: Effect, answers: Answers) returns (r: EffectResult)
      requires Configures(effect)
      modifies this`admissionOpen, this`sessionMode, this`platformAdmits, this`platformMode, this`bypassed
      ensures (old(Agrees()) ==> Agrees()) && Configured(effect, answers, r)
    {
      match effect
      case EmergencyCloseFreshAdmission =>
        r := EmergencyClose(answers);
      case OpenFreshAdmission =>
        r := OpenFreshAdmission(answers);
      case ApplySessionMode(mode) =>
        r := ApplySessionMode(mode, answers);
      case ApplyConfiguration =>
        r := ApplyConfiguration(answers);
    }

    /** The flags such an effect leaves and what it answers, by what the platform said to it. */
    twostate predicate Configured(new effect: Effect, new answers: Answers, new r: EffectResult)
      reads this`admissionOpen, this`sessionMode, this`platformAdmits, this`platformMode, this`lastQueuedEventId
    {
      match effect
      case EmergencyCloseFreshAdmission =>
        && sessionMode == Off && admissionOpen == old(admissionOpen)
        && (r.AdmissionClosed? ==> platformAdmits == Some(false) && platformMode == Some(Off))
        && r == (if answers.activation.Some? then FailureOf(answers.activation.value)
                 else if answers.session.Some? then FailureOf(answers.session.value)
                 else AdmissionClosed(lastQueuedEventId))
      case OpenFreshAdmission =>
        && (admissionOpen <==> answers.activation.None?) && sessionMode == old(sessionMode)
        && r == (if answers.activation.Some? then FailureOf(answers.activation.value) else Applied)
      case ApplySessionMode(mode) =>
        && sessionMode == (if answers.session.None? then mode else old(sessionMode)) && admissionOpen == old(admissionOpen)
        && r == (if answers.session.Some? then FailureOf(answers.session.value) else Applied)
      case ApplyConfiguration =>
        && (admissionOpen <==> old(admissionOpen) && answers.activation.Some?) && sessionMode == old(sessionMode)
        && r == (if answers.activation.Some? then FailureOf(answers.activation.value) else Applied)
      case _ => true
    }

    /** Nothing was numbered and the channel is as it was. */
    twostate predicate Undisturbed()
      reads this`nativeEvents, this`emitted, this`overflowed
    {
      emitted == old(emitted) && nativeEvents == old(nativeEvents) && overflowed == old(overflowed)
    }

    twostate predicate SameClaim()
      reads this`claimedPaste, this`pasteOwnership
    {
      claimedPaste == old(claimedPaste) && pasteOwnership == old(pasteOwnership)
    }

    /** The effects on pastes, candidates and the adapter's life. */
    method Act(effect: Effect, answers: Answers) returns (r: EffectResult)
      requires Valid() && !stopped && !effect.CloseFreshAdmission? && !Configures(effect)
      modifies this`nativeEvents, this`queued, this`emitted, this`nextEventId, this`lastQueuedEventId, this`lastNativeWorkPending
      modifies this`terminalTriggered, this`terminalPending, this`terminalEventEmitted, this`overflowed, this`work, this`faultId
      modifies this`claimedPaste, this`pasteOwnership, this`endId, this`stopped
      ensures Valid() && Advances() && Acted(effect, answers, r)
    {
      match effect
      case AdmitPaste(authorization) =>
        r := AdmitPaste(authorization, answers);
      case CancelCandidate =>
        r := CancelCandidate(answers);
      case CancelWaitingPaste(authorization) =>
        // The synchronous boundary already crossed the claim, so a racing rollback never reports success.
        r := Failed(if claimedPaste == Some(authorization) then IndeterminateFailure else FailedNotApplied);
      case PersistMaintenanceRecord =>
        r := if answers.persisted then Applied else Failed(FailedNotApplied);
      case ContinueNativeDrain =>
        Drain(answers.workPending);
        r := Applied;
      case StopNativeAdapter =>
        r := StopAdapter(answers);
    }

    /** A candidate that was cancelled is reported with who owns a paste and whether work is left, everything pending numbered. */
    method CancelCandidate(answers: Answers) returns (r: EffectResult)
      requires Valid() && !stopped
      modifies this`nativeEvents, this`queued, this`emitted, this`nextEventId, this`lastQueuedEventId, this`lastNativeWorkPending
      modifies this`terminalTriggered, this`terminalPending, this`terminalEventEmitted
      modifies this`overflowed, this`work, this`faultId
      ensures Valid() && Advances()
      ensures answers.activation.None? ==> Drained(answers.workPending) && r == CandidateCancelled(pasteOwnership, answers.workPending)
      ensures answers.activation.Some? ==> r == FailureOf(answers.activation.value) && Undisturbed()
    {
      if answers.activation.Some? {
        return FailureOf(answers.activation.value);
      }
      Drain(answers.workPending);
      return CandidateCancelled(pasteOwnership, lastNativeWorkPending);
    }

    /** What such an effect leaves and answers, by what the platform said to it. */
    twostate predicate Acted(new effect: Effect, new answers: Answers, new r: EffectResult)
      reads this`nativeEvents, this`emitted, this`overflowed, this`terminalTriggered, this`claimedPaste, this`pasteOwnership
      reads this`queued, this`inFlight, this`stopped, this`lastNativeWorkPending
    {
      match effect
      case AdmitPaste(authorization) =>
        Pasted(authorization, answers, r) && nativeEvents == old(nativeEvents) && stopped == old(stopped)
      case CancelCandidate =>
        && (answers.activation.None? ==> Drained(answers.workPending) && r == CandidateCancelled(pasteOwnership, answers.workPending))
        && (answers.activation.Some? ==> r == FailureOf(answers.activation.value) && Undisturbed())
        && SameClaim() && stopped == old(stopped)
      case CancelWaitingPaste(authorization) =>
        && r == Failed(if claimedPaste == Some(authorization) then IndeterminateFailure else FailedNotApplied)
        && Undisturbed() && SameClaim() && stopped == old(stopped)
      case PersistMaintenanceRecord =>
        && r == (if answers.persisted then Applied else Failed(FailedNotApplied))
        && Undisturbed() && SameClaim() && stopped == old(stopped)
      case ContinueNativeDrain =>
        Drained(answers.workPending) && r == Applied && SameClaim() && stopped == old(stopped)
      case StopNativeAdapter =>
        Stops(answers, r) && nativeEvents == old(nativeEvents) && SameClaim()
      case _ => true
    }

    /** The effects for which the stream may go on; a working adapter only. */
    method Perform(effect: Effect, answers: Answers) returns (r: EffectResult)
      requires Valid() && !stopped && !Configures(effect)
      modifies this`nativeEvents, this`queued, this`emitted, this`nextEventId, this`lastQueuedEventId, this`lastNativeWorkPending
      modifies this`terminalTriggered, this`terminalPending, this`terminalEventEmitted, this`overflowed, this`work, this`faultId
      modifies this`admissionOpen, this`platformAdmits, this`bypassed
      modifies this`claimedPaste, this`pasteOwnership, this`endId, this`stopped
      ensures Valid() && Advances() && (old(Agrees()) ==> Agrees()) && Performed(effect, answers, r)
    {
      if effect.CloseFreshAdmission? {
        r := CloseFreshAdmission(answers);
      } else {
        r := Act(effect, answers);
      }
    }

    twostate predicate Performed(new effect: Effect, new answers: Answers, new r: EffectResult)
      reads this`nativeEvents, this`emitted, this`overflowed, this`terminalTriggered, this`claimedPaste, this`pasteOwnership
      reads this`queued, this`inFlight, this`stopped, this`lastNativeWorkPending, this`admissionOpen, this`platformAdmits
    {
      if effect.CloseFreshAdmission? then
        && !admissionOpen && SameClaim() && stopped == old(stopped)
        && (answers.activation.None? ==> Closed(r) && platformAdmits == Some(false))
        && (answers.activation.Some? ==> r == FailureOf(answers.activation.value) && Undisturbed())
      else
        Acted(effect, answers, r) && admissionOpen == old(admissionOpen)
    }

    /** Every effect: a stopped adapter refuses them all and changes nothing. */
    method Execute(effect: Effect, answers: Answers) returns (r: EffectResult)
      requires Valid()
      modifies this`nativeEvents, this`queued, this`emitted, this`nextEventId, this`lastQueuedEventId, this`lastNativeWorkPending
      modifies this`terminalTriggered, this`terminalPending, this`terminalEventEmitted, this`overflowed, this`work, this`faultId
      modifies this`admissionOpen, this`sessionMode, this`platformAdmits, this`platformMode, this`bypassed
      modifies this`claimedPaste, this`pasteOwnership, this`endId, this`stopped
      ensures Valid() && Advances() && (old(Agrees()) ==> Agrees())
      ensures old(stopped) ==>
        && r == Failed(FailedNotApplied) && Undisturbed() && stopped
        && SameClaim() && admissionOpen == old(admissionOpen) && sessionMode == old(sessionMode)
      ensures !old(stopped) && Configures(effect) ==>
        Configured(effect, answers, r) && Undisturbed() && SameClaim() && stopped == old(stopped)
      ensures !old(stopped) && !Configures(effect) ==> Performed(effect, answers, r) && sessionMode == old(sessionMode)
    {
      if stopped {
        r := Failed(FailedNotApplied);
      } else if Configures(effect) {
        r := Configure(effect, answers);
      } else {
        r := Perform(effect, answers);
      }
    }

    /** The shutdown without a controller: final, whatever the platform's shutdown then says. */
    method BoundedOrphanShutdown(quiescent: bool, incomplete: bool) returns (outcome: OrphanShutdown)
      requires Valid()
      modifies this`stopped
      ensures Valid() && Advances() && stopped
      ensures outcome == QuietShutdown <==> quiescent && !incomplete
      ensures outcome == FailedShutdown <==> !quiescent
    {
      stopped := true;
      return if !quiescent then FailedShutdown else if incomplete then IncompleteShutdown else QuietShutdown;
    }
  }

  predicate Configures(effect: Effect) {
    effect.EmergencyCloseFreshAdmission? || effect.OpenFreshAdmission? || effect.ApplySessionMode? || effect.ApplyConfiguration?
  }
}
