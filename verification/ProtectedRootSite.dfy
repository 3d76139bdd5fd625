/** Creation and cleaning of a protected root, operation by operation, with the power failing anywhere. */
module ProtectedRootSite {
  import opened ProtectedRoot
  import opened Wrappers

  /** `Interrupted` is an I/O error or the death of the process before the next operation. */
  datatype Outcome = Done | Refused(error: SiteError) | Interrupted

  class ProtectedRootSite {
    const claim: Claim
    const reliable: bool
    /** States since the last flush: the first is on disk, the last is what processes see. */
    var versions: seq<Site>

    ghost predicate Valid()
      reads this
    {
      |versions| > 0 && forall v | v in versions :: claim.Recoverable(v)
    }

    function Now(): Site
      reads this
      requires |versions| > 0
    {
      versions[|versions| - 1]
    }

    constructor (claim: Claim, reliable: bool)
      ensures Valid() && versions == [NOTHING] && this.claim == claim && this.reliable == reliable
    {
      this.claim, this.reliable, versions := claim, reliable, [NOTHING];
    }

    method Perform(after: Site) returns (up: bool)
      requires |versions| > 0
      modifies this
      ensures |versions| > 0 && (reliable ==> up)
      ensures versions == if up then old(versions) + [after] else old(versions)
      ensures old(Valid()) && claim.Recoverable(after) ==> Valid()
    {
      up := true;
      if !reliable { up := *; }
      if up { versions := versions + [after]; }
    }

    method Flush() returns (up: bool)
      requires |versions| > 0
      modifies this
      ensures |versions| > 0 && (reliable ==> up) && (old(Valid()) ==> Valid())
      ensures versions == if up then [old(Now())] else old(versions)
    {
      up := true;
      if !reliable { up := *; }
      if up { versions := [Now()]; }
    }

    method PowerLoss(i: nat)
      requires Valid() && i < |versions|
      modifies this
      ensures Valid() && versions == [old(versions)[i]]
    {
      versions := [versions[i]];
    }

    /**
     Creates the intent, the root, the binding and the ownership stream, in that order. `identity` is what
     the file system names the new directory; `parentMatches` tells whether the parent is the expected one.
     */
    method Create(identity: string, parentMatches: bool) returns (r: Outcome)
      requires Valid() && claim.JsonSafe(identity)
      modifies this
      ensures Valid()
      ensures forall v | v in versions :: v in old(versions) || claim.CreationStage(identity, v)
      ensures r == Refused(InvalidArgument) <==> !claim.Valid()
      ensures r == Refused(AlreadyExists) <==> claim.Valid() && old(Now()).intent.Some?
      ensures r.Refused? ==> r.error in {InvalidArgument, AlreadyExists}
      ensures r.Refused? ==> versions == old(versions)
      ensures r.Done? ==> parentMatches && var stream := claim.env.ascii(claim.prefix + ":" + identity);
        versions == [Site(
          Some(claim.env.writeIntent(Intent(1, claim.nonce, claim.prefix))),
          Some(Root(identity, Some(stream), true)),
          Some(claim.env.writeBinding(Binding(1, claim.nonce, claim.prefix, identity, claim.env.sha(stream)))))]
      ensures reliable && parentMatches ==> !r.Interrupted?
    {
      assert claim.Recoverable(Now());
      if !claim.Valid() { return Refused(InvalidArgument); }
      if Now().intent.Some? { return Refused(AlreadyExists); }
      var up := WriteIntent(identity);
      if !up { return Interrupted; }
      if !parentMatches { return Interrupted; }
      claim.CreationIsRecoverable(identity, Now().(root := Some(Root(identity, None, true))));
      up := Perform(Now().(root := Some(Root(identity, None, true))));
      if !up { return Interrupted; }
      up := WriteBinding(identity);
      if !up { return Interrupted; }
      up := WriteStream(identity);
      if !up { return Interrupted; }
      up := Flush();
      if !up { return Interrupted; }
      return Done;
    }

    /** Where a new file of `n` bytes can stand: empty, after its first half, or whole. */
    static ghost predicate Halfway(k: nat, n: nat) { k <= n && (k == 0 || k == n || n <= 2 * k <= n + 1) }

    ghost predicate WritesIntent(bytes: Contents, v: Site) {
      exists k: nat | Halfway(k, |bytes|) :: v == Site(Some(bytes[..k]), None, None)
    }

    ghost predicate WritesBinding(site: Site, bytes: Contents, v: Site) {
      exists k: nat | Halfway(k, |bytes|) :: v == site.(binding := Some(bytes[..k]))
    }

    ghost predicate WritesStream(site: Site, identity: string, bytes: Contents, v: Site) {
      exists k: nat | Halfway(k, |bytes|) :: v == site.(root := Some(Root(identity, Some(bytes[..k]), true)))
    }

    /** A new file is written in two halves, flushed, and its name flushed with its directory. */
    method WriteIntent(identity: string) returns (up: bool)
      requires Valid() && claim.Valid() && claim.JsonSafe(identity) && Now() == NOTHING
      modifies this
      ensures Valid() && (reliable ==> up)
      ensures forall v | v in versions :: v in old(versions) || claim.CreationStage(identity, v)
      ensures forall v | v in versions :: v in old(versions) || WritesIntent(claim.env.writeIntent(claim.Expected()), v)
      ensures up ==> versions == [Site(Some(claim.env.writeIntent(claim.Expected())), None, None)]
    {
      assert claim.Recoverable(Now());
      var bytes := claim.env.writeIntent(claim.Expected());
      assert bytes[..|bytes|] == bytes;
      var lengths := [0, (|bytes| + 1) / 2, |bytes|];
      for i := 0 to |lengths|
        invariant Valid() && (i > 0 ==> Now() == Site(Some(bytes[..lengths[i - 1]]), None, None))
        invariant forall v | v in versions :: v in old(versions) || claim.CreationStage(identity, v)
        invariant forall v | v in versions :: v in old(versions) || WritesIntent(claim.env.writeIntent(claim.Expected()), v)
      {
        var after := Site(Some(bytes[..lengths[i]]), None, None);
        claim.CreationIsRecoverable(identity, after);
        assert Halfway(lengths[i], |bytes|);
        up := Perform(after);
        if !up { return; }
      }
      up := Flush();
    }

    method WriteBinding(identity: string) returns (up: bool)
      requires Valid() && claim.JsonSafe(identity)
      requires Now() == Site(Some(claim.env.writeIntent(claim.Expected())), Some(Root(identity, None, true)), None)
      modifies this
      ensures Valid() && (reliable ==> up)
      ensures forall v | v in versions :: v in old(versions) || claim.CreationStage(identity, v)
      ensures forall v | v in versions :: v in old(versions) || WritesBinding(old(Now()), claim.env.writeBinding(claim.Bound(identity)), v)
      ensures up ==> versions == [old(Now()).(binding := Some(claim.env.writeBinding(claim.Bound(identity))))]
    {
      assert claim.Recoverable(Now());
      ghost var site := Now();
      var bytes := claim.env.writeBinding(claim.Bound(identity));
      assert bytes[..|bytes|] == bytes;
      var lengths := [0, (|bytes| + 1) / 2, |bytes|];
      for i := 0 to |lengths|
        invariant Valid() && Now() == if i == 0 then site else site.(binding := Some(bytes[..lengths[i - 1]]))
        invariant forall v | v in versions :: v in old(versions) || claim.CreationStage(identity, v)
        invariant forall v | v in versions :: v in old(versions) || WritesBinding(old(Now()), claim.env.writeBinding(claim.Bound(identity)), v)
      {
        var after := Now().(binding := Some(bytes[..lengths[i]]));
        claim.CreationIsRecoverable(identity, after);
        assert Halfway(lengths[i], |bytes|);
        up := Perform(after);
        if !up { return; }
      }
      up := Flush();
    }

    method WriteStream(identity: string) returns (up: bool)
      requires Valid() && claim.JsonSafe(identity)
      requires Now() == Site(Some(claim.env.writeIntent(claim.Expected())), Some(Root(identity, None, true)),
                             Some(claim.env.writeBinding(claim.Bound(identity))))
      modifies this
      ensures Valid() && (reliable ==> up)
      ensures forall v | v in versions :: v in old(versions) || claim.CreationStage(identity, v)
      ensures forall v | v in versions :: v in old(versions) || WritesStream(old(Now()), identity, claim.Ads(identity), v)
      ensures up ==> versions == [old(Now()).(root := Some(Root(identity, Some(claim.Ads(identity)), true)))]
    {
      assert claim.Recoverable(Now());
      ghost var site := Now();
      var bytes := claim.Ads(identity);
      assert bytes[..|bytes|] == bytes;
      var lengths := [0, (|bytes| + 1) / 2, |bytes|];
      for i := 0 to |lengths|
        invariant Valid()
        invariant Now() == if i == 0 then site else site.(root := Some(Root(identity, Some(bytes[..lengths[i - 1]]), true)))
        invariant forall v | v in versions :: v in old(versions) || claim.CreationStage(identity, v)
        invariant forall v | v in versions :: v in old(versions) || WritesStream(old(Now()), identity, claim.Ads(identity), v)
      {
        var after := Now().(root := Some(Root(identity, Some(bytes[..lengths[i]]), true)));
        claim.CreationIsRecoverable(identity, after);
        assert Halfway(lengths[i], |bytes|);
        up := Perform(after);
        if !up { return; }
      }
      up := Flush();
    }

    /** Deletes an interrupted root, then its binding, then its intent, on any site. A recoverable one is never refused. */
    method RemoveInterrupted() returns (r: Outcome)
      requires |versions| > 0
      modifies this
      ensures |versions| > 0 && (reliable ==> !r.Interrupted?) && (old(Valid()) ==> Valid())
      ensures old(Valid()) && old(Now()).root.Some? ==>
        forall v | v in versions :: v in old(versions) || claim.CleaningStage(old(Now()), v)
      ensures r.Done? ==> claim.RemoveInterruptedResult(old(Now())) == Success(NOTHING) && versions == [NOTHING]
      ensures r.Refused? ==> claim.RemoveInterruptedResult(old(Now())) == Failure(r.error) && versions == old(versions)
    {
      assert Valid() ==> claim.Recoverable(Now());
      if !claim.Valid() { return Refused(InvalidArgument); }
      if Now().root.None? { return Refused(NotFound); }
      var root := Now().root.value;
      if !root.empty { return Refused(NotEmpty); }
      if Now().intent.None? { return Refused(NotFound); }
      var intent := claim.env.readIntent(Now().intent.value);
      if intent.None? { return Refused(InvalidJson); }
      if intent.value != claim.Expected() { return Refused(IntentChanged); }
      if !claim.Matches(Now().binding, root.identity) && claim.HasStream(root) { return Refused(AdsWithoutBinding); }
      var up := PerformFlushed(Now().(root := None));
      if !up { return Interrupted; }
      if Now().binding.Some? {
        up := PerformFlushed(Now().(binding := None));
        if !up { return Interrupted; }
      }
      up := PerformFlushed(Now().(intent := None));
      if !up { return Interrupted; }
      return Done;
    }

    method PerformFlushed(after: Site) returns (up: bool)
      requires |versions| > 0
      modifies this
      ensures |versions| > 0 && (reliable ==> up)
      ensures old(Valid()) && claim.Recoverable(after) ==> Valid()
      ensures forall v | v in versions :: v in old(versions) || v == after
      ensures up ==> versions == [after]
    {
      up := Perform(after);
      if up { up := Flush(); }
    }

    /**
     Deletes whatever binding is there and an intent that is ours or unreadable, on any site. A recoverable site
     stays recoverable if its root is gone (see ArtifactsFirstClearsExactlyWhen).
     */
    method DeleteArtifacts() returns (r: Outcome)
      requires |versions| > 0
      modifies this
      ensures |versions| > 0 && (reliable ==> !r.Interrupted?)
      ensures old(Valid()) && old(Now()).root.None? ==>
        Valid() && forall v | v in versions :: v in old(versions) || claim.CleaningStage(old(Now()), v)
      ensures old(Valid()) ==> !r.Refused?
      ensures r.Done? ==> claim.DeleteArtifactsResult(old(Now())) == Success(Now())
      ensures r.Refused? ==> claim.DeleteArtifactsResult(old(Now())) == Failure(r.error) && Now() == old(Now()).(binding := None)
    {
      assert Valid() ==> claim.Recoverable(Now());
      var up;
      if Now().binding.Some? {
        up := PerformFlushed(Now().(binding := None));
        if !up { return Interrupted; }
      }
      assert Now() == old(Now()).(binding := None);
      if Now().intent.Some? {
        var intent := claim.env.readIntent(Now().intent.value);
        if intent.Some? && intent.value != claim.Expected() { return Refused(IntentChanged); }
        up := PerformFlushed(Now().(intent := None));
        if !up { return Interrupted; }
      }
      return Done;
    }

    /** The binding and the intent of a root that was deleted with its contents, or of any other site. */
    method DeleteBinding(expected: Binding) returns (r: Outcome)
      requires |versions| > 0
      modifies this
      ensures |versions| > 0 && (reliable ==> !r.Interrupted?)
      ensures old(Valid()) && old(Now()).root.None? ==> Valid()
      ensures r.Done? ==> claim.DeleteBindingResult(expected, old(Now())) == Success(Now())
      ensures r.Refused? ==> claim.DeleteBindingResult(expected, old(Now())) == Failure(r.error)
      ensures r.Refused? ==> Now() == old(Now()) || Now() == old(Now()).(binding := None)
    {
      assert Valid() ==> claim.Recoverable(Now());
      var up;
      if Now().binding.Some? {
        var binding := claim.env.readBinding(Now().binding.value);
        if binding.None? { return Refused(InvalidJson); }
        if binding.value != expected { return Refused(BindingChanged); }
        up := PerformFlushed(Now().(binding := None));
        if !up { return Interrupted; }
      }
      assert Now() == old(Now()).(binding := None);
      if Now().intent.Some? {
        var intent := claim.env.readIntent(Now().intent.value);
        if intent.None? { return Refused(InvalidJson); }
        if intent.value != claim.Expected() { return Refused(IntentChanged); }
        up := PerformFlushed(Now().(intent := None));
        if !up { return Interrupted; }
      }
      return Done;
    }
  }
}
