/** The vocabulary between the native platform, the adapter and the executor, and facts about event streams. */
module BrokerEvents {
  import opened Bytes
  import opened Wrappers

  const MAX_GENERATION: nat := 9_007_199_254_740_991

  datatype Authorization = Authorization(token: int, generation: U64) {
    predicate LegalGeneration() { 1 <= generation <= MAX_GENERATION }
  }

  datatype KeyboardEvent = KeyboardEvent(code: int)

  datatype NativeEvent =
    | NativeKeyboard(event: KeyboardEvent)
    | NativeRegisteredObservation(generation: U64)
    | NativeAudioInputDevicesChanged

  datatype PasteOwnership = Unclaimed | Claimed | Indeterminate
  datatype PasteCommitOutcome = Committed | Unresolved

  datatype Observation = Observation(
    activationDrainKeys: nat, sessionDrainKeys: nat, replayCleanupEdges: nat,
    paste: PasteOwnership, conservativeNativeWork: bool, admittedEffects: nat)

  datatype Readiness = Readiness(
    keyboardBuildEligible: bool, pasteReady: bool, permissionsEligible: bool, hookHealthy: bool)

  datatype BrokerEvent =
    | Keyboard(event: KeyboardEvent)
    | RegisteredObservation(generation: U64)
    | AudioInputDevicesChanged
    | OwnershipChanged(observation: Observation)
    | ReadinessChanged(readiness: Readiness)
    | PasteClaimed(authorization: Authorization)
    | PasteFinished(authorization: Authorization, outcome: PasteCommitOutcome)
    | RecoverableNativeFault

  datatype AdapterEvent = AdapterEvent(id: nat, event: BrokerEvent)

  function Translate(event: NativeEvent): BrokerEvent {
    match event
    case NativeKeyboard(e) => Keyboard(e)
    case NativeRegisteredObservation(g) => RegisteredObservation(g)
    case NativeAudioInputDevicesChanged => AudioInputDevicesChanged
  }

  /** The native event a broker event carries, if it carries one. */
  function Origin(event: BrokerEvent): Option<NativeEvent> {
    match event
    case Keyboard(e) => Some(NativeKeyboard(e))
    case RegisteredObservation(g) => Some(NativeRegisteredObservation(g))
    case AudioInputDevicesChanged => Some(NativeAudioInputDevicesChanged)
    case _ => None
  }

  /** Translation loses nothing, and no event of the owner's own making looks native. */
  lemma TranslationIsUndone(native: NativeEvent, event: BrokerEvent)
    ensures Origin(event) == Some(native) <==> event == Translate(native)
  {
  }

  /** The native events that the first `n` events carry, oldest first. */
  ghost function Natives(events: seq<AdapterEvent>, n: nat): (r: seq<NativeEvent>)
    requires n <= |events|
  {
    if n == 0 then [] else
    var rest := Natives(events, n - 1);
    if Origin(events[n - 1].event).Some? then rest + [Origin(events[n - 1].event).value] else rest
  }

  lemma {:induction false} NativesAreShared(a: seq<AdapterEvent>, b: seq<AdapterEvent>, n: nat)
    requires n <= |a| && n <= |b| && forall i | 0 <= i < n :: Origin(a[i].event) == Origin(b[i].event)
    ensures Natives(a, n) == Natives(b, n)
  {
    if n > 0 { NativesAreShared(a, b, n - 1); }
  }

  /** Events of the owner's own add nothing. */
  lemma {:induction false} OwnCarryNothing(events: seq<AdapterEvent>, n: nat, m: nat)
    requires n <= m <= |events| && forall i | n <= i < m :: Origin(events[i].event).None?
    ensures Natives(events, m) == Natives(events, n)
    decreases m
  {
    if n < m { OwnCarryNothing(events, n, m - 1); }
  }

  /** Numbered arrivals add themselves. */
  lemma {:induction false} ArrivalsCarryThemselves(events: seq<AdapterEvent>, n: nat, channel: seq<NativeEvent>, k: nat)
    requires k <= |channel| && n + k <= |events|
    requires forall i | 0 <= i < k :: events[n + i].event == Translate(channel[i])
    ensures Natives(events, n + k) == Natives(events, n) + channel[..k]
  {
    if k > 0 {
      ArrivalsCarryThemselves(events, n, channel, k - 1);
      TranslationIsUndone(channel[k - 1], events[n + k - 1].event);
      assert channel[..k] == channel[..k - 1] + [channel[k - 1]];
    } else {
      assert Natives(events, n) + channel[..0] == Natives(events, n);
    }
  }

  lemma {:induction false} NativesGrow(events: seq<AdapterEvent>, n: nat, m: nat)
    requires n <= m <= |events|
    ensures Natives(events, n) <= Natives(events, m)
    decreases m
  {
    if n < m { NativesGrow(events, n, m - 1); }
  }

  /** The native events a stream carries and then those that still wait in the channel. */
  ghost function Flow(events: seq<AdapterEvent>, channel: seq<NativeEvent>): seq<NativeEvent> {
    Natives(events, |events|) + channel
  }

  lemma FlowOfArrival(events: seq<AdapterEvent>, channel: seq<NativeEvent>, native: NativeEvent)
    ensures Flow(events, channel + [native]) == Flow(events, channel) + [native]
  {
  }

  /** Ids count up from one without a gap. */
  ghost predicate Numbered(events: seq<AdapterEvent>) {
    forall i | 0 <= i < |events| :: events[i].id == i + 1
  }

  /** `after` is `before` followed by the arrivals, numbered on without a gap. */
  ghost predicate AppendsArrivals(before: seq<AdapterEvent>, arrivals: seq<NativeEvent>, after: seq<AdapterEvent>) {
    && before <= after
    && |after| == |before| + |arrivals|
    && Numbered(after)
    && forall i | 0 <= i < |arrivals| :: after[|before| + i].event == Translate(arrivals[i])
  }

  /** What was pending has been numbered, in order, behind what was numbered before. */
  ghost predicate Covers(after: seq<AdapterEvent>, before: seq<AdapterEvent>, arrivals: seq<NativeEvent>) {
    var n := |before| + |arrivals|;
    n <= |after| && AppendsArrivals(before, arrivals, after[..n])
  }

  /** The stream after the first `k` arrivals were numbered one by one. */
  function NumberOn(before: seq<AdapterEvent>, arrivals: seq<NativeEvent>, k: nat): (r: seq<AdapterEvent>)
    requires k <= |arrivals|
    ensures |r| == |before| + k && before <= r
  {
    if k == 0 then before
    else NumberOn(before, arrivals, k - 1) + [AdapterEvent(|before| + k, Translate(arrivals[k - 1]))]
  }

  lemma {:induction false} NumberOnAppendsArrivals(before: seq<AdapterEvent>, arrivals: seq<NativeEvent>, k: nat)
    requires Numbered(before) && k <= |arrivals|
    ensures AppendsArrivals(before, arrivals[..k], NumberOn(before, arrivals, k))
  {
    if k > 0 {
      NumberOnAppendsArrivals(before, arrivals, k - 1);
    }
  }

  /** Numbering the arrivals one by one covers them, whatever is numbered later. */
  lemma NumberedArrivalsAreCovered(before: seq<AdapterEvent>, arrivals: seq<NativeEvent>, after: seq<AdapterEvent>)
    requires Numbered(before) && NumberOn(before, arrivals, |arrivals|) <= after
    ensures Covers(after, before, arrivals)
  {
    NumberOnAppendsArrivals(before, arrivals, |arrivals|);
    assert arrivals[..|arrivals|] == arrivals;
  }

  /** Going on with the channel's first arrivals and own events loses, invents and moves nothing. */
  lemma CarriesKeepsFlow(before: seq<AdapterEvent>, channel: seq<NativeEvent>, after: seq<AdapterEvent>, rest: seq<NativeEvent>)
    requires Numbered(before) && Carries(before, channel, after, rest)
    ensures Flow(after, rest) == Flow(before, channel)
  {
    var n, k := |before|, |channel| - |rest|;
    var numbered := NumberOn(before, channel, k);
    NumberOnAppendsArrivals(before, channel, k);
    assert forall i | 0 <= i < n + k :: after[i] == after[..n + k][i] == numbered[i];
    assert forall i | 0 <= i < k :: after[n + i].event == Translate(channel[..k][i]);
    NativesAreShared(after, before, n);
    ArrivalsCarryThemselves(after, n, channel, k);
    assert forall i | n + k <= i < |after| :: after[i] == after[n + k..][i - (n + k)];
    OwnCarryNothing(after, n + k, |after|);
    FlowMoves(Natives(before, n), channel, k);
  }

  lemma FlowMoves(carried: seq<NativeEvent>, channel: seq<NativeEvent>, k: nat)
    requires k <= |channel|
    ensures carried + channel[..k] + channel[k..] == carried + channel
  {
  }

  /** Own events alone go on with a stream. */
  lemma CarriesOwn(before: seq<AdapterEvent>, channel: seq<NativeEvent>, own: seq<AdapterEvent>)
    requires Own(own)
    ensures Carries(before, channel, before + own, channel)
  {
    CarriesOf(before, channel, 0, own);
    assert channel[0..] == channel;
  }

  /** At most the event numbered `faultId` is a native fault. */
  ghost predicate FaultOnlyAt(events: seq<AdapterEvent>, faultId: Option<nat>) {
    forall i | 0 <= i < |events| && events[i].event.RecoverableNativeFault? :: faultId == Some(events[i].id)
  }

  /** So there is at most one native fault. */
  lemma AtMostOneFault(events: seq<AdapterEvent>, faultId: Option<nat>, i: nat, j: nat)
    requires Numbered(events) && FaultOnlyAt(events, faultId) && i < |events| && j < |events|
    requires events[i].event.RecoverableNativeFault? && events[j].event.RecoverableNativeFault?
    ensures i == j
  {
    assert events[i].id == i + 1 && events[j].id == j + 1;
  }

  /** The number of events at one moment separates the ids given before it from all that are given later. */
  lemma WatermarkSeparates(before: seq<AdapterEvent>, after: seq<AdapterEvent>, i: nat)
    requires before <= after && Numbered(after) && i < |after|
    ensures i < |before| <==> after[i].id <= |before|
    ensures i < |before| ==> after[i] == before[i]
  {
  }

  /** `work[i]` is what was last reported before event `i`; every ownership event reports the opposite of it. */
  ghost predicate Reports(events: seq<AdapterEvent>, work: seq<bool>, last: bool) {
    && |work| == |events| + 1 && !work[0] && work[|events|] == last
    && forall i | 0 <= i < |events| :: Reported(events[i].event, work[i], work[i + 1])
  }

  predicate Reported(event: BrokerEvent, before: bool, after: bool) {
    if event.OwnershipChanged? then after == !before && event.observation.conservativeNativeWork == after
    else after == before
  }

  lemma ReportsOfAppend(events: seq<AdapterEvent>, work: seq<bool>, last: bool, e: AdapterEvent, after: bool)
    requires Reports(events, work, last) && Reported(e.event, last, after)
    ensures Reports(events + [e], work + [after], after)
  {
  }

  lemma FaultOnlyAtOfAppend(events: seq<AdapterEvent>, faultId: Option<nat>, e: AdapterEvent)
    requires FaultOnlyAt(events, faultId) && (e.event.RecoverableNativeFault? ==> faultId == Some(e.id))
    ensures FaultOnlyAt(events + [e], faultId)
  {
  }

  /** Events that carry no native one. */
  ghost predicate Own(events: seq<AdapterEvent>) {
    forall i | 0 <= i < |events| :: Origin(events[i].event).None?
  }

  /** The stream went on with the first arrivals of the channel, in order, and then with events of the owner's own. */
  ghost predicate Carries(before: seq<AdapterEvent>, channel: seq<NativeEvent>, after: seq<AdapterEvent>, rest: seq<NativeEvent>) {
    var k := |channel| - |rest|;
    && 0 <= k && rest == channel[k..] && |before| + k <= |after|
    && after[..|before| + k] == NumberOn(before, channel, k) && Own(after[|before| + k..])
  }

  lemma CarriesOf(before: seq<AdapterEvent>, channel: seq<NativeEvent>, k: nat, own: seq<AdapterEvent>)
    requires k <= |channel| && Own(own)
    ensures Carries(before, channel, NumberOn(before, channel, k) + own, channel[k..])
  {
    var after := NumberOn(before, channel, k) + own;
    assert after[..|before| + k] == NumberOn(before, channel, k) && after[|before| + k..] == own;
  }

  /** The owner's own events after a poll of the platform: work that changed, then a terminal signal not yet told. */
  function Controls(id: nat, changed: bool, ownership: PasteOwnership, pending: bool, terminal: bool): seq<AdapterEvent> {
    var report := [AdapterEvent(id, OwnershipChanged(Observation(0, 0, 0, ownership, pending, 0)))];
    if changed && terminal then report + [AdapterEvent(id + 1, RecoverableNativeFault)]
    else if changed then report
    else if terminal then [AdapterEvent(id, RecoverableNativeFault)]
    else []
  }

  /** The stream went on with the first `k` arrivals of the channel, and then with what had to be reported. */
  ghost predicate WentOn(before: seq<AdapterEvent>, channel: seq<NativeEvent>, k: int, changed: bool, ownership: PasteOwnership,
                         pending: bool, terminal: bool, after: seq<AdapterEvent>) {
    && 0 <= k <= |channel|
    && after == NumberOn(before, channel, k) + Controls(|before| + k + 1, changed, ownership, pending, terminal)
  }

  lemma WentOnByParts(before: seq<AdapterEvent>, middle: seq<AdapterEvent>, after: seq<AdapterEvent>,
                      changed: bool, ownership: PasteOwnership, pending: bool, terminal: bool)
    requires WentOn(before, [], 0, changed, ownership, pending, false, middle)
    requires WentOn(middle, [], 0, false, ownership, false, terminal, after)
    ensures WentOn(before, [], 0, changed, ownership, pending, terminal, after)
  {
  }

  lemma WentOnAfterArrivals(before: seq<AdapterEvent>, channel: seq<NativeEvent>, k: int, middle: seq<AdapterEvent>,
                            after: seq<AdapterEvent>, changed: bool, ownership: PasteOwnership, pending: bool, terminal: bool)
    requires 0 <= k <= |channel| && middle == NumberOn(before, channel, k)
    requires WentOn(middle, [], 0, changed, ownership, pending, terminal, after)
    ensures WentOn(before, channel, k, changed, ownership, pending, terminal, after)
  {
  }

  lemma FirstArrivalIsNumbered(before: seq<AdapterEvent>, channel: seq<NativeEvent>)
    requires channel != []
    ensures before + [AdapterEvent(|before| + 1, Translate(channel[0]))] == NumberOn(before, channel, 1)
  {
  }

  lemma WentOnMeans(before: seq<AdapterEvent>, channel: seq<NativeEvent>, k: int, changed: bool, ownership: PasteOwnership,
                    pending: bool, terminal: bool, after: seq<AdapterEvent>)
    requires Numbered(before) && WentOn(before, channel, k, changed, ownership, pending, terminal, after)
    ensures Carries(before, channel, after, channel[k..])
    ensures k == |channel| ==> Covers(after, before, channel)
  {
    CarriesOf(before, channel, k, Controls(|before| + k + 1, changed, ownership, pending, terminal));
    if k == |channel| { NumberedArrivalsAreCovered(before, channel, after); }
  }

  /** What the ownership events of a stream report, oldest first. */
  function WorkReports(events: seq<AdapterEvent>): (r: seq<bool>) {
    if events == [] then [] else
    var last := events[|events| - 1].event;
    WorkReports(events[..|events| - 1])
      + (if last.OwnershipChanged? then [last.observation.conservativeNativeWork] else [])
  }

  /** So the reports go pending, neutral, pending, neutral. */
  lemma {:induction false} ReportsAlternate(events: seq<AdapterEvent>, work: seq<bool>, last: bool)
    requires Reports(events, work, last)
    ensures forall i | 0 <= i < |WorkReports(events)| :: WorkReports(events)[i] == (i % 2 == 0)
    ensures last == (|WorkReports(events)| % 2 == 1)
  {
    if events != [] {
      var n := |events| - 1;
      assert Reported(events[n].event, work[n], work[n + 1]);
      ReportsAlternate(events[..n], work[..n + 1], work[n]);
    }
  }

  /** A paste end that is not yet acknowledged is the one numbered `endId`, and ends the claimed paste. */
  predicate EndBelongs(e: AdapterEvent, endId: Option<nat>, claim: Option<Authorization>, ownership: PasteOwnership) {
    e.event.PasteFinished? ==>
      && endId == Some(e.id)
      && claim == Some(e.event.authorization)
      && (e.event.outcome == Committed <==> ownership == Claimed)
  }

  ghost predicate EndsBelong(queued: seq<AdapterEvent>, endId: Option<nat>, claim: Option<Authorization>, ownership: PasteOwnership) {
    forall i | 0 <= i < |queued| :: EndBelongs(queued[i], endId, claim, ownership)
  }

  /** Exactly one fact is neutral: nobody owns a paste, no work is pending and nothing is left to drain. */
  lemma NeutralIs(event: BrokerEvent)
    ensures Neutral(event) <==> event == OwnershipChanged(Observation(0, 0, 0, Unclaimed, false, 0))
  {
  }

  /** An ownership fact that leaves nothing for the platform to finish. */
  predicate Neutral(event: BrokerEvent) {
    event.OwnershipChanged?
    && !event.observation.conservativeNativeWork
    && event.observation.activationDrainKeys == 0
    && event.observation.sessionDrainKeys == 0
    && event.observation.replayCleanupEdges == 0
    && event.observation.paste == Unclaimed
    && event.observation.admittedEffects == 0
  }
}
