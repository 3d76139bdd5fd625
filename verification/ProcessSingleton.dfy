/** The process-local singleton: one atomic flag and any number of coordinators that may hold it. */
module ProcessSingleton {
  /** The flag, and which coordinators believe they hold it. */
  datatype Process = Process(flag: bool, held: seq<bool>)

  datatype Call = TryAcquire(i: nat) | Release(i: nat) | Preserve(i: nat)

  predicate Addressed(p: Process, call: Call) {
    call.i < |p.held|
  }

  /** The state after a call, and what an acquisition answers. */
  function Step(p: Process, call: Call): (r: (Process, bool))
    requires Addressed(p, call)
    ensures |r.0.held| == |p.held|
  {
    match call
    case TryAcquire(i) =>
      if p.held[i] then (p, true)
      else if !p.flag then (Process(true, p.held[i := true]), true)
      else (p, false)
    case Release(i) =>
      if p.held[i] then (Process(false, p.held[i := false]), false) else (p, false)
    case Preserve(i) =>
      (Process(true, p.held[i := false]), false)
  }

  predicate AllAddressed(p: Process, calls: seq<Call>) {
    forall k | 0 <= k < |calls| :: calls[k].i < |p.held|
  }

  function Run(p: Process, calls: seq<Call>): (r: Process)
    requires AllAddressed(p, calls)
    ensures |r.held| == |p.held|
  {
    if calls == [] then p else
    var before := Run(p, calls[..|calls| - 1]);
    Step(before, calls[|calls| - 1]).0
  }

  /** Whoever holds the singleton is alone and the flag is up. */
  ghost predicate Exclusive(p: Process) {
    forall i | 0 <= i < |p.held| && p.held[i] :: p.flag && forall j | 0 <= j < |p.held| && p.held[j] :: i == j
  }

  /** The process-lifetime state: the flag is up and nobody can take it down. */
  ghost predicate Retired(p: Process) {
    p.flag && forall i | 0 <= i < |p.held| :: !p.held[i]
  }

  /** Exactly when an acquisition succeeds: the caller holds the singleton already, or the flag is down; it then holds it. */
  lemma AcquiresExactlyWhen(p: Process, i: nat)
    requires i < |p.held|
    ensures var (after, acquired) := Step(p, TryAcquire(i));
      && (acquired <==> p.held[i] || !p.flag)
      && (acquired <==> after.held[i])
      && (p.held[i] || !acquired ==> after == p)
      && (acquired && !p.held[i] ==> after == Process(true, p.held[i := true]))
  {
  }

  /** A holder's release lets whoever asks next in; anyone else's release changes nothing. */
  lemma ReleaseLetsTheNextIn(p: Process, i: nat, j: nat)
    requires i < |p.held| && j < |p.held| && Exclusive(p)
    ensures var after := Step(p, Release(i)).0;
      && (p.held[i] ==> Step(after, TryAcquire(j)).1)
      && (!p.held[i] ==> after == p)
  {
  }

  /** In every order of calls, at most one coordinator holds the singleton. */
  lemma {:induction false} AtMostOneHolder(p: Process, calls: seq<Call>)
    requires Exclusive(p) && AllAddressed(p, calls)
    ensures Exclusive(Run(p, calls))
  {
    if calls != [] {
      AtMostOneHolder(p, calls[..|calls| - 1]);
    }
  }

  lemma {:induction false} RunInParts(p: Process, first: seq<Call>, second: seq<Call>)
    requires AllAddressed(p, first) && AllAddressed(p, second)
    ensures AllAddressed(p, first + second)
    ensures Run(p, first + second) == Run(Run(p, first), second)
  {
    if second == [] {
      assert first + second == first;
    } else {
      var n := |second| - 1;
      RunInParts(p, first, second[..n]);
      var all := first + second;
      assert all[..|all| - 1] == first + second[..n] && all[|all| - 1] == second[n];
    }
  }

  /** Nothing leads out of the process-lifetime state, and no acquisition succeeds in it. */
  lemma {:induction false} RetiredStaysRetired(p: Process, calls: seq<Call>)
    requires Retired(p) && AllAddressed(p, calls)
    ensures Retired(Run(p, calls))
    ensures forall i | 0 <= i < |p.held| :: !Step(Run(p, calls), TryAcquire(i)).1
  {
    if calls != [] {
      RetiredStaysRetired(p, calls[..|calls| - 1]);
    }
  }

  ghost predicate HeldByAnother(p: Process, i: nat) {
    exists j | 0 <= j < |p.held| :: j != i && p.held[j]
  }

  /** A preserve lasts, whatever is called later and by whom, exactly if no other coordinator holds the singleton. */
  lemma PreserveLastsExactlyWhen(p: Process, i: nat)
    requires Exclusive(p) && i < |p.held|
    ensures var after := Step(p, Preserve(i)).0;
      (forall calls | AllAddressed(after, calls) :: Retired(Run(after, calls))) <==> !HeldByAnother(p, i)
  {
    var after := Step(p, Preserve(i)).0;
    if HeldByAnother(p, i) {
      var j :| 0 <= j < |p.held| && j != i && p.held[j];
      var calls := [Release(j)];
      assert calls[..0] == [] && AllAddressed(after, calls);
      assert Run(after, calls) == Step(Run(after, []), Release(j)).0;
      assert !Run(after, calls).flag;
    } else {
      forall calls | AllAddressed(after, calls)
        ensures Retired(Run(after, calls))
      {
        RetiredStaysRetired(after, calls);
      }
    }
  }

  /** After a call that preserved what nobody else held, no acquisition by anyone ever succeeds again. */
  lemma PreservedForever(p: Process, calls: seq<Call>, k: nat)
    requires Exclusive(p) && AllAddressed(p, calls)
    requires k < |calls| && calls[k].Preserve? && !HeldByAnother(Run(p, calls[..k]), calls[k].i)
    ensures Retired(Run(p, calls))
    ensures forall i | 0 <= i < |p.held| :: !Step(Run(p, calls), TryAcquire(i)).1
  {
    var before := calls[..k + 1];
    assert before[..k] == calls[..k] && before[k] == calls[k];
    assert calls == before + calls[k + 1..];
    RunInParts(p, before, calls[k + 1..]);
    RetiredStaysRetired(Run(p, before), calls[k + 1..]);
  }

  /** The coordinators of one process over their shared flag. */
  class Coordinators {
    var flag: bool
    var held: seq<bool>

    function State(): Process
      reads this
    {
      Process(flag, held)
    }

    constructor (count: nat)
      ensures !flag && |held| == count && Exclusive(State())
    {
      flag := false;
      held := seq(count, _ => false);
    }

    method TryAcquire(i: nat) returns (acquired: bool)
      requires i < |held| && Exclusive(State())
      modifies this
      ensures (State(), acquired) == Step(old(State()), Call.TryAcquire(i))
      ensures Exclusive(State()) && (acquired <==> held[i])
    {
      if held[i] { return true; }
      // Compare-and-exchange of the shared flag.
      if !flag {
        flag := true;
        held := held[i := true];
      }
      return held[i];
    }

    method Release(i: nat)
      requires i < |held| && Exclusive(State())
      modifies this
      ensures State() == Step(old(State()), Call.Release(i)).0 && Exclusive(State())
    {
      if held[i] {
        held := held[i := false];
        flag := false;
      }
    }

    method PreserveProcessLifetime(i: nat)
      requires i < |held| && Exclusive(State())
      modifies this
      ensures State() == Step(old(State()), Preserve(i)).0 && Exclusive(State())
      ensures Retired(State()) <==> !HeldByAnother(old(State()), i)
    {
      held := held[i := false];
      flag := true;
    }
  }
}
