/**
 Creation of a protected test root (intent file, root directory, external binding, ownership stream) and
 the procedures that clear away what an interrupted creation or removal leaves.
 */
module ProtectedRoot {
  import opened Bytes
  import opened Wrappers

  type Contents = seq<Byte>

  datatype Intent = Intent(version: nat, nonce: string, ownershipPrefix: string)
  datatype Binding = Binding(version: nat, nonce: string, ownershipPrefix: string, rootIdentity: string, adsSha256: string)

  /** The JSON and digest functions, of which only what the preconditions name is assumed. */
  datatype Env = Env(
    writeIntent: Intent -> Contents, readIntent: Contents -> Option<Intent>,
    writeBinding: Binding -> Contents, readBinding: Contents -> Option<Binding>,
    ascii: string -> Contents, isText: Contents -> bool, sha: Contents -> string)

  datatype Root = Root(identity: string, ads: Option<Contents>, empty: bool)
  datatype Site = Site(intent: Option<Contents>, root: Option<Root>, binding: Option<Contents>)

  datatype SiteError =
    | InvalidArgument | NotFound | AlreadyExists | NotEmpty | InvalidJson | IntentChanged | BindingChanged
    | AdsWithoutBinding | BindingWithoutIntent

  const NOTHING: Site := Site(None, None, None)

  predicate ValidPrefix(value: string) {
    0 < |value| <= 512 && forall c | c in value :: '!' <= c <= '~'
  }

  predicate ValidNonce(value: string) {
    |value| == 32 && forall c | c in value :: '0' <= c <= '9' || 'a' <= c <= 'f' || 'A' <= c <= 'F'
  }

  /** What a creation was started for. */
  datatype Claim = Claim(env: Env, prefix: string, nonce: string) {
    predicate Valid() { ValidPrefix(prefix) && ValidNonce(nonce) }

    function Expected(): Intent { Intent(1, nonce, prefix) }

    function Ads(identity: string): Contents { env.ascii(prefix + ":" + identity) }

    function Bound(identity: string): Binding {
      Binding(1, nonce, prefix, identity, env.sha(Ads(identity)))
    }

    /** A JSON object cut short does not parse, or parses to the same value. */
    ghost predicate JsonSafe(identity: string) {
      var intent := env.writeIntent(Expected());
      var binding := env.writeBinding(Bound(identity));
      && env.readIntent(intent) == Some(Expected())
      && (forall k | 0 <= k <= |intent| ::
            env.readIntent(intent[..k]).None? || env.readIntent(intent[..k]) == Some(Expected()))
      && env.readBinding(binding) == Some(Bound(identity))
    }

    /** The binding names this claim and this root, whatever its stream digest says. */
    predicate Matches(binding: Option<Contents>, identity: string) {
      binding.Some? && match env.readBinding(binding.value)
        case Some(b) => b.version == 1 && b.nonce == nonce && b.ownershipPrefix == prefix && b.rootIdentity == identity
        case None => false
    }

    /** A claim's prefix is 1 to 512 visible ASCII characters, its nonce 32 hexadecimal digits. */
    lemma ValidClaimsAre()
      ensures Valid() <==>
        && 1 <= |prefix| <= 512 && (forall c | c in prefix :: 0x21 <= c as int <= 0x7E)
        && |nonce| == 32 && (forall c | c in nonce :: c in "0123456789abcdefABCDEF")
    {
      var digits := "0123456789abcdefABCDEF";
      assert forall i | 0 <= i < |digits| :: '0' <= digits[i] <= '9' || 'a' <= digits[i] <= 'f' || 'A' <= digits[i] <= 'F';
      forall c: char | '0' <= c <= '9' || 'a' <= c <= 'f' || 'A' <= c <= 'F'
        ensures c in digits
      {
        var i := if c <= '9' then c as int - '0' as int else if c >= 'a' then c as int - 'a' as int + 10 else c as int - 'A' as int + 16;
        assert digits[i] == c;
      }
    }

    /** A binding matches exactly if it is version 1 of this claim for this root, with any stream digest. */
    lemma MatchesExactly(binding: Option<Contents>, identity: string)
      ensures Matches(binding, identity) <==>
        binding.Some? && exists digest :: env.readBinding(binding.value) == Some(Binding(1, nonce, prefix, identity, digest))
    {
      if binding.Some? && env.readBinding(binding.value).Some? {
        var b := env.readBinding(binding.value).value;
        assert b == Binding(b.version, b.nonce, b.ownershipPrefix, b.rootIdentity, b.adsSha256);
      }
    }

    /** What every interruption of creation and cleanup keeps. */
    ghost predicate Recoverable(site: Site) {
      && (site != NOTHING ==> Valid())
      && (site.intent.Some? ==>
            env.readIntent(site.intent.value).None? || env.readIntent(site.intent.value) == Some(Expected()))
      && (site.binding.Some? ==> site.intent.Some?)
      && (site.root.Some? ==>
            && site.intent.Some? && env.readIntent(site.intent.value) == Some(Expected())
            && site.root.value.empty
            && (site.root.value.ads.Some? ==> Matches(site.binding, site.root.value.identity)))
    }

    /** The root has an ownership stream that can be read as text; any other counts as none. */
    predicate HasStream(root: Root) { root.ads.Some? && env.isText(root.ads.value) }

    // -----------------------------------------------------------------------
    // The cleaners, when nothing interrupts them

    function RemoveInterruptedResult(site: Site): (r: Result<Site, SiteError>) {
      if !Valid() then Failure(InvalidArgument)
      else if site.root.None? then Failure(NotFound)
      else if !site.root.value.empty then Failure(NotEmpty)
      else if site.intent.None? then Failure(NotFound)
      else if env.readIntent(site.intent.value).None? then Failure(InvalidJson)
      else if env.readIntent(site.intent.value) != Some(Expected()) then Failure(IntentChanged)
      else if !Matches(site.binding, site.root.value.identity) && HasStream(site.root.value) then Failure(AdsWithoutBinding)
      else Success(NOTHING)
    }

    function DeleteArtifactsResult(site: Site): (r: Result<Site, SiteError>) {
      if site.intent.Some? && env.readIntent(site.intent.value).Some?
         && env.readIntent(site.intent.value) != Some(Expected()) then Failure(IntentChanged)
      else Success(Site(None, site.root, None))
    }

    function DeleteBindingResult(expected: Binding, site: Site): (r: Result<Site, SiteError>) {
      if site.binding.Some? && env.readBinding(site.binding.value).None? then Failure(InvalidJson)
      else if site.binding.Some? && env.readBinding(site.binding.value) != Some(expected) then Failure(BindingChanged)
      else if site.intent.Some? && env.readIntent(site.intent.value).None? then Failure(InvalidJson)
      else if site.intent.Some? && env.readIntent(site.intent.value) != Some(Expected()) then Failure(IntentChanged)
      else Success(Site(None, site.root, None))
    }

    function VerifyDeleted(expected: Binding, site: Site): (r: Result<(), SiteError>) {
      if site.binding.Some? && site.intent.None? then Failure(BindingWithoutIntent)
      else if site.binding.Some? && env.readBinding(site.binding.value).None? then Failure(InvalidJson)
      else if site.binding.Some? && env.readBinding(site.binding.value) != Some(expected) then Failure(BindingChanged)
      else if site.intent.Some? && env.readIntent(site.intent.value).None? then Failure(InvalidJson)
      else if site.intent.Some? && env.readIntent(site.intent.value) != Some(Expected()) then Failure(IntentChanged)
      else Success(())
    }

    /** The cleaner the wrapper script picks: by whether the root exists. */
    function CleanerResult(site: Site): (r: Result<Site, SiteError>) {
      if site.root.Some? then RemoveInterruptedResult(site) else DeleteArtifactsResult(site)
    }

    // -----------------------------------------------------------------------
    // Stages

    /** Every state a creation of a root called `identity` passes through. */
    ghost predicate CreationStage(identity: string, site: Site) {
      var intent := env.writeIntent(Expected());
      var binding := env.writeBinding(Bound(identity));
      var ads := Ads(identity);
      || site == NOTHING
      || (exists k: nat | k <= |intent| :: site == Site(Some(intent[..k]), None, None))
      || site == Site(Some(intent), Some(Root(identity, None, true)), None)
      || (exists k: nat | k <= |binding| :: site == Site(Some(intent), Some(Root(identity, None, true)), Some(binding[..k])))
      || (exists k: nat | k <= |ads| :: site == Site(Some(intent), Some(Root(identity, Some(ads[..k]), true)), Some(binding)))
    }

    /** Every state a cleaner passes through: first the root goes, then the binding, then the intent. */
    ghost predicate CleaningStage(site: Site, stage: Site) {
      || stage == site
      || (CleanerResult(site).Success? && (
            || stage == site.(root := None)
            || stage == Site(site.intent, None, None)
            || stage == NOTHING))
    }

    lemma CreationIsRecoverable(identity: string, site: Site)
      requires Valid() && JsonSafe(identity) && CreationStage(identity, site)
      ensures Recoverable(site)
    {
      var intent := env.writeIntent(Expected());
      assert intent[..|intent|] == intent;
    }

    lemma CleaningIsRecoverable(site: Site, stage: Site)
      requires Recoverable(site) && CleaningStage(site, stage)
      ensures Recoverable(stage)
    {
    }

    lemma CleanerLeavesNothing(site: Site)
      requires Recoverable(site)
      ensures CleanerResult(site) == Success(NOTHING)
    {
    }

    ghost predicate CleaningRun(run: seq<Site>) {
      |run| > 0 && forall i | 0 < i < |run| :: CleaningStage(run[i - 1], run[i])
    }

    /**
     A creation that stops anywhere, then any number of cleaner calls that stop anywhere: the matching
     cleaner succeeds and leaves no root, no binding and no intent.
     */
    lemma {:induction false} InterruptedCreationIsCleared(identity: string, run: seq<Site>)
      requires Valid() && JsonSafe(identity)
      requires CleaningRun(run) && CreationStage(identity, run[0])
      ensures forall i | 0 <= i < |run| :: Recoverable(run[i])
      ensures CleanerResult(run[|run| - 1]) == Success(NOTHING)
    {
      CreationIsRecoverable(identity, run[0]);
      var i := 0;
      while i + 1 < |run|
        invariant 0 <= i < |run|
        invariant forall j | 0 <= j <= i :: Recoverable(run[j])
      {
        assert CleaningStage(run[i], run[i + 1]);
        CleaningIsRecoverable(run[i], run[i + 1]);
        i := i + 1;
      }
      CleanerLeavesNothing(run[|run| - 1]);
    }

    /** The intent file is this claim's own. */
    ghost predicate OwnIntent(contents: Contents) { env.readIntent(contents) == Some(Intent(1, nonce, prefix)) }

    /** The binding file is version 1 of this claim's for the root called `identity`. */
    ghost predicate OwnBinding(contents: Contents, identity: string) {
      exists digest :: env.readBinding(contents) == Some(Binding(1, nonce, prefix, identity, digest))
    }

    /** Exactly when the matching cleaner clears everything. */
    lemma CleanerSucceedsExactlyWhen(site: Site)
      requires Valid()
      ensures CleanerResult(site) == Success(NOTHING) <==>
        if site.root.Some? then
          var root := site.root.value;
          && root.empty && site.intent.Some? && OwnIntent(site.intent.value)
          && (root.ads.Some? && env.isText(root.ads.value) ==> site.binding.Some? && OwnBinding(site.binding.value, root.identity))
        else
          site.intent.Some? ==> env.readIntent(site.intent.value).None? || OwnIntent(site.intent.value)
    {
      if site.root.Some? {
        MatchesExactly(site.binding, site.root.value.identity);
      }
    }

    /** Why a root is not cleared: the first thing that is wrong with it. */
    lemma InterruptedErrorsAre(site: Site)
      ensures RemoveInterruptedResult(site) == Failure(InvalidArgument) <==> !Valid()
      ensures Valid() && site.root.None? ==> RemoveInterruptedResult(site) == Failure(NotFound)
      ensures Valid() && site.root.Some? ==>
        var r, root := RemoveInterruptedResult(site), site.root.value;
        && (r == Failure(NotEmpty) <==> !root.empty)
        && (r == Failure(NotFound) <==> root.empty && site.intent.None?)
        && (root.empty && site.intent.Some? ==>
              && (r == Failure(InvalidJson) <==> env.readIntent(site.intent.value).None?)
              && (r == Failure(IntentChanged) <==> env.readIntent(site.intent.value).Some? && !OwnIntent(site.intent.value)))
        && (r == Failure(AdsWithoutBinding) ==> root.ads.Some? && !(site.binding.Some? && OwnBinding(site.binding.value, root.identity)))
        && (r.Failure? ==> r.error in {NotEmpty, NotFound, InvalidJson, IntentChanged, AdsWithoutBinding})
    {
      if site.root.Some? {
        MatchesExactly(site.binding, site.root.value.identity);
      }
    }

    /** Why the artifacts of a deleted root stay: the binding is looked at first. */
    lemma DeletedErrorsAre(expected: Binding, site: Site)
      ensures var r := VerifyDeleted(expected, site);
        && (r == Failure(BindingWithoutIntent) <==> site.binding.Some? && site.intent.None?)
        && (r == Failure(BindingChanged) <==>
              site.binding.Some? && site.intent.Some? && env.readBinding(site.binding.value) !in {None, Some(expected)})
        && (r == Failure(IntentChanged) <==>
              && site.intent.Some? && env.readIntent(site.intent.value).Some? && !OwnIntent(site.intent.value)
              && (site.binding.Some? ==> env.readBinding(site.binding.value) == Some(expected)))
        && (r.Failure? ==> r.error in {BindingWithoutIntent, BindingChanged, IntentChanged, InvalidJson})
      ensures var r := DeleteBindingResult(expected, site);
        && (VerifyDeleted(expected, site) != Failure(BindingWithoutIntent) && r.Failure? ==> VerifyDeleted(expected, site) == Failure(r.error))
        && (r == Failure(InvalidJson) ==>
              || (site.binding.Some? && env.readBinding(site.binding.value).None?)
              || (site.intent.Some? && env.readIntent(site.intent.value).None?))
    {
    }

    /** Exactly when a deleted root's binding and intent are removed: each that is there is the expected one. */
    lemma BindingIsDeletedExactlyWhen(expected: Binding, site: Site)
      ensures DeleteBindingResult(expected, site).Success? <==>
        && (site.binding.Some? ==> env.readBinding(site.binding.value) == Some(expected))
        && (site.intent.Some? ==> OwnIntent(site.intent.value))
      ensures VerifyDeleted(expected, site).Success? <==>
        DeleteBindingResult(expected, site).Success? && (site.binding.Some? ==> site.intent.Some?)
    {
    }

    /**
     Clearing the artifacts never refuses a recoverable site, but only if the root is gone does a cleaner still
     reach a clean site afterwards: a root that is left has lost its intent, and no cleaner accepts it.
     */
    lemma ArtifactsFirstClearsExactlyWhen(site: Site)
      requires Recoverable(site)
      ensures DeleteArtifactsResult(site) == Success(Site(None, site.root, None))
      ensures CleanerResult(Site(None, site.root, None)) == Success(NOTHING) <==> site.root.None?
      ensures site.root.Some? ==> CleanerResult(Site(None, site.root, None)).Failure?
    {
    }

    /** A removal that stops between its two deletions still verifies as a deleted root and can be run again. */
    lemma DeletedRootVerifiesAtEveryStage(expected: Binding, site: Site)
      requires VerifyDeleted(expected, site).Success?
      ensures DeleteBindingResult(expected, site) == Success(Site(None, site.root, None))
      ensures forall stage | stage in [site.(binding := None), Site(None, site.root, None)] ::
        VerifyDeleted(expected, stage).Success? && DeleteBindingResult(expected, stage) == Success(Site(None, site.root, None))
    {
    }
  }
}
