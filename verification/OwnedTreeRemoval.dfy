/** Inventory, exact verification and deletion of a tree on a volume whose calls may fail. */
module OwnedTreeRemoval {
  import opened Bytes
  import opened Wrappers
  import opened OwnedTree
  import opened OwnedTreeDeletion
  import opened IdentityText

  /** One entry of the list a removal is given, as an inventory writes it. */
  datatype Expectation = Expectation(path: string, directory: bool, identity: string)

  /** A verified node's open handle, named by its path, and its children's in the order they were found. */
  datatype VerifiedNode = VerifiedNode(handle: string, children: seq<VerifiedNode>)

  function HandleOrder(nodes: seq<VerifiedNode>): (r: seq<string>) {
    if nodes == [] then [] else HandleOrder(nodes[0].children) + [nodes[0].handle] + HandleOrder(nodes[1..])
  }

  lemma {:induction false} HandleOrderInParts(a: seq<VerifiedNode>, b: seq<VerifiedNode>)
    ensures HandleOrder(a + b) == HandleOrder(a) + HandleOrder(b)
    decreases |a|
  {
    if a == [] {
      assert a + b == b;
    } else {
      assert (a + b)[1..] == a[1..] + b;
      HandleOrderInParts(a[1..], b);
    }
  }

  function Recorded(e: Entry): Expectation {
    Expectation(e.path, e.directory, FormatIdentity(e.device, e.inode))
  }

  function RecordedAll(entries: seq<Entry>): (r: seq<Expectation>)
    ensures |r| == |entries|
  {
    seq(|entries|, i requires 0 <= i < |entries| => Recorded(entries[i]))
  }

  ghost predicate DistinctExpectations(entries: seq<Expectation>) {
    forall i, j | 0 <= i < j < |entries| :: entries[i].path != entries[j].path
  }

  predicate Parses(e: Expectation) { ParseIdentity(e.identity).Some? }

  function Meant(e: Expectation): Identity
    requires Parses(e)
  {
    var identity := ParseIdentity(e.identity).value;
    Identity(e.directory, identity.0, identity.1)
  }

  /** What a list of expectations means: a map, unless an identity does not parse or a path comes twice. */
  ghost function Expected(entries: seq<Expectation>): (r: Result<map<string, Identity>, TreeError>) {
    if exists i | 0 <= i < |entries| :: !Parses(entries[i]) then Failure(InvalidIdentity)
    else if !DistinctExpectations(entries) then Failure(IdentityMismatch)
    else Success(Collect(Readings(entries)))
  }

  /** Each entry's path with the identity it means. */
  function Readings(entries: seq<Expectation>): (r: seq<(string, Identity)>)
    requires forall i | 0 <= i < |entries| :: Parses(entries[i])
    ensures |r| == |entries|
  {
    seq(|entries|, i requires 0 <= i < |entries| => (entries[i].path, Meant(entries[i])))
  }

  /** Pairs collected into a map; of pairs with the same path the last counts. */
  function Collect(pairs: seq<(string, Identity)>): (r: map<string, Identity>) {
    if pairs == [] then map[]
    else Collect(pairs[..|pairs| - 1])[pairs[|pairs| - 1].0 := pairs[|pairs| - 1].1]
  }

  /** Why a removal refuses, if it does, before it deletes anything. */
  ghost function Refusal(identity: string, entries: seq<Expectation>, root: Node, allowMissing: bool): (r: Option<TreeError>) {
    match ParseIdentity(identity)
    case None => Some(InvalidIdentity)
    case Some((device, inode)) =>
      match Expected(entries)
      case Failure(error) => Some(error)
      case Success(expected) =>
        match Verdict(root, device, inode, expected, allowMissing)
        case Failure(error) => Some(error)
        case Success(_) => None
  }

  /** Pairs that name the entries they were made of collect into the entries' map. */
  lemma {:induction false} CollectsItsMap(entries: seq<Entry>, pairs: seq<(string, Identity)>)
    requires |pairs| == |entries|
    requires forall i | 0 <= i < |entries| :: pairs[i] == (entries[i].path, IdentityOf(entries[i]))
    ensures Collect(pairs) == AsMap(entries)
  {
    if entries != [] {
      CollectsItsMap(entries[..|entries| - 1], pairs[..|pairs| - 1]);
    }
  }

  /** What an inventory records of a tree is what an exact removal of that tree accepts. */
  lemma InventoryIsAccepted(root: Node, allowMissing: bool)
    requires WellNamed(root.children) && Inspectable(root)
    ensures Refusal(FormatIdentity(root.device, root.inode), RecordedAll(Walk("", root.children)), root, allowMissing).None?
  {
    var entries := Walk("", root.children);
    IdentityRoundTrips(root.device, root.inode);
    OwnInventoryIsAccepted(root, allowMissing);
    WalkPathsAreDistinct("", root.children);
    RecordedReadsBack(entries);
  }

  lemma RecordedReadsBack(entries: seq<Entry>)
    requires DistinctPaths(entries)
    ensures Expected(RecordedAll(entries)) == Success(AsMap(entries))
  {
    var recorded := RecordedAll(entries);
    forall i | 0 <= i < |entries|
      ensures recorded[i].path == entries[i].path && Parses(recorded[i])
      ensures Meant(recorded[i]) == IdentityOf(entries[i])
    {
      IdentityRoundTrips(entries[i].device, entries[i].inode);
    }
    CollectsItsMap(entries, Readings(recorded));
  }

  ghost predicate DistinctPairs(pairs: seq<(string, Identity)>) {
    forall i, j | 0 <= i < j < |pairs| :: pairs[i].0 != pairs[j].0
  }

  /** The map has as many entries as the list exactly when no path comes twice. */
  lemma {:induction false} AsManyIffDistinct(pairs: seq<(string, Identity)>)
    ensures forall path :: path in Collect(pairs) <==> exists i :: 0 <= i < |pairs| && pairs[i].0 == path
    ensures |Collect(pairs)| <= |pairs|
    ensures |Collect(pairs)| == |pairs| <==> DistinctPairs(pairs)
  {
    if pairs != [] {
      var n := |pairs| - 1;
      var init, last := pairs[..n], pairs[n].0;
      AsManyIffDistinct(init);
      assert forall i | 0 <= i < n :: init[i] == pairs[i];
      assert DistinctPairs(pairs) <==> DistinctPairs(init) && last !in Collect(init) by {
        DistinctWithLast(pairs);
      }
      assert forall path :: path in Collect(pairs) <==> path in Collect(init) || path == last;
    }
  }

  lemma DistinctWithLast(pairs: seq<(string, Identity)>)
    requires pairs != []
    ensures var n := |pairs| - 1;
      DistinctPairs(pairs) <==> DistinctPairs(pairs[..n]) && !exists i :: 0 <= i < n && pairs[..n][i].0 == pairs[n].0
  {
    var n := |pairs| - 1;
    assert forall i | 0 <= i < n :: pairs[..n][i] == pairs[i];
  }

  /** Reads every identity, up to the first that does not parse. */
  method ReadEntries(entries: seq<Expectation>) returns (r: Option<seq<(string, Identity)>>)
    ensures r.None? <==> exists i | 0 <= i < |entries| :: !Parses(entries[i])
    ensures r.Some? ==> r.value == Readings(entries)
  {
    var pairs: seq<(string, Identity)> := [];
    for i := 0 to |entries|
      invariant |pairs| == i
      invariant forall k | 0 <= k < i :: Parses(entries[k]) && pairs[k] == (entries[k].path, Meant(entries[k]))
    {
      if !Parses(entries[i]) {
        return None;
      }
      pairs := pairs + [(entries[i].path, Meant(entries[i]))];
    }
    return Some(pairs);
  }

  /** Collects a map pair by pair; a repeated path makes it smaller than the list. */
  method CollectPairs(pairs: seq<(string, Identity)>) returns (r: Option<map<string, Identity>>)
    ensures r == if DistinctPairs(pairs) then Some(Collect(pairs)) else None
  {
    var collected: map<string, Identity> := map[];
    for i := 0 to |pairs|
      invariant collected == Collect(pairs[..i])
    {
      collected := collected[pairs[i].0 := pairs[i].1];
      assert pairs[..i + 1][..i] == pairs[..i];
    }
    assert pairs[..|pairs|] == pairs;
    AsManyIffDistinct(pairs);
    return if |collected| == |pairs| then Some(collected) else None;
  }

  /** The map a list of expectations means, or the error that refuses the list. */
  method CollectExpected(entries: seq<Expectation>) returns (r: Result<map<string, Identity>, TreeError>)
    ensures r == Expected(entries)
  {
    var pairs := ReadEntries(entries);
    if pairs.None? {
      return Failure(InvalidIdentity);
    }
    assert forall i | 0 <= i < |entries| :: pairs.value[i].0 == entries[i].path;
    assert DistinctPairs(pairs.value) <==> DistinctExpectations(entries);
    var collected := CollectPairs(pairs.value);
    return if collected.None? then Failure(IdentityMismatch) else Success(collected.value);
  }

  // -------------------------------------------------------------------------
  // One step of a walk

  function WalkInside(path: string, node: Node): seq<Entry> {
    if node.directory then Walk(path, node.children) else []
  }

  /** What an inventory continued from `found` comes to. */
  function InventoryFrom(walk: seq<Entry>, device: U64, found: seq<Entry>): Result<seq<Entry>, TreeError> {
    if walk == [] then Success(found)
    else match InventoryFault(walk[0], device)
      case Some(fault) => Failure(fault)
      case None => InventoryFrom(walk[1..], device, found + [walk[0]])
  }

  /** An inventory fails with the fault of the first entry that has one, and otherwise lists the whole walk. */
  lemma {:induction false} InventoryListsTheWalk(walk: seq<Entry>, device: U64, found: seq<Entry>)
    ensures InventoryFrom(walk, device, found)
      == match FirstInventoryFault(walk, device)
         case Some(fault) => Failure(fault)
         case None => Success(found + walk)
    ensures InventoryFrom(walk, device, found).Success? <==> AllOrdinary(walk, device)
  {
    if walk == [] {
      assert found + walk == found;
    } else {
      InventoryTakesExactlyOrdinary(walk[0], device);
      InventoryListsTheWalk(walk[1..], device, found + [walk[0]]);
      assert forall e :: e in walk <==> e == walk[0] || e in walk[1..];
      assert found + [walk[0]] + walk[1..] == found + walk;
    }
  }

  lemma {:induction false} InventoryInParts(a: seq<Entry>, b: seq<Entry>, device: U64, found: seq<Entry>)
    ensures InventoryFrom(a + b, device, found)
      == match InventoryFrom(a, device, found)
         case Failure(fault) => Failure(fault)
         case Success(more) => InventoryFrom(b, device, more)
  {
    if a == [] {
      assert a + b == b;
    } else {
      assert (a + b)[1..] == a[1..] + b;
      InventoryInParts(a[1..], b, device, found + [a[0]]);
    }
  }

  lemma InventoryOneMore(prefix: string, nodes: seq<Node>, i: nat, device: U64, found: seq<Entry>)
    requires i < |nodes|
    ensures var path := Join(prefix, nodes[i].name); var e := EntryAt(path, nodes[i]);
      InventoryFrom(Walk(prefix, nodes[i..]), device, found)
      == match InventoryFault(e, device)
         case Some(fault) => Failure(fault)
         case None => match InventoryFrom(WalkInside(path, nodes[i]), device, found + [e])
           case Failure(fault) => Failure(fault)
           case Success(more) => InventoryFrom(Walk(prefix, nodes[i + 1..]), device, more)
  {
    var path := Join(prefix, nodes[i].name);
    var e, inner, rest := EntryAt(path, nodes[i]), WalkInside(path, nodes[i]), Walk(prefix, nodes[i + 1..]);
    assert nodes[i..][1..] == nodes[i + 1..];
    InventoryInParts([e] + inner, rest, device, found);
    InventoryInParts([e], inner, device, found);
  }

  /** The verifier over one node and everything below it. */
  function VerifiedWith(path: string, node: Node, device: U64, expected: map<string, Identity>, seen: set<string>): Result<set<string>, TreeError> {
    match Inspect(EntryAt(path, node), device, expected, seen)
    case Failure(error) => Failure(error)
    case Success(with) => Verify(WalkInside(path, node), device, expected, with)
  }

  ghost predicate IsHandleOf(handle: VerifiedNode, path: string, node: Node) {
    && handle.handle == path
    && HandleOrder(handle.children) == if node.directory then PostOrder(path, node.children) else []
  }

  lemma VerifyOneMore(prefix: string, nodes: seq<Node>, i: nat, device: U64, expected: map<string, Identity>, seen: set<string>)
    requires i < |nodes|
    ensures Verify(Walk(prefix, nodes[i..]), device, expected, seen)
      == match VerifiedWith(Join(prefix, nodes[i].name), nodes[i], device, expected, seen)
         case Failure(error) => Failure(error)
         case Success(more) => Verify(Walk(prefix, nodes[i + 1..]), device, expected, more)
  {
    var path := Join(prefix, nodes[i].name);
    var e, inner, rest := EntryAt(path, nodes[i]), WalkInside(path, nodes[i]), Walk(prefix, nodes[i + 1..]);
    assert nodes[i..][1..] == nodes[i + 1..];
    VerifyInParts([e] + inner, rest, device, expected, seen);
    VerifyInParts([e], inner, device, expected, seen);
  }

  lemma PostOrderOneMore(prefix: string, nodes: seq<Node>, i: nat, done: seq<VerifiedNode>, handle: VerifiedNode)
    requires i < |nodes| && IsHandleOf(handle, Join(prefix, nodes[i].name), nodes[i])
    ensures HandleOrder(done + [handle]) + PostOrder(prefix, nodes[i + 1..]) == HandleOrder(done) + PostOrder(prefix, nodes[i..])
  {
    assert nodes[i..][1..] == nodes[i + 1..];
    HandleOrderInParts(done, [handle]);
    var inner, rest := HandleOrder(handle.children), PostOrder(prefix, nodes[i + 1..]);
    assert HandleOrder([handle]) == inner + [handle.handle] by {
      assert [handle][1..] == [];
    }
    assert PostOrder(prefix, nodes[i..]) == inner + [handle.handle] + rest;
    assert HandleOrder(done) + (inner + [handle.handle]) + rest == HandleOrder(done) + (inner + [handle.handle] + rest);
  }

  /** A volume holding one owned tree. A volume that is not reliable may fail any call. */
  class Volume {
    const reliable: bool
    const root: Node
    /** The paths deleted so far, in order. */
    var deleted: seq<string>
    /** Whether a call failed, and how many of the deletions a flush of the root's parent followed. */
    ghost var failed: bool
    ghost var flushed: nat

    constructor (root: Node, reliable: bool)
      ensures this.root == root && this.reliable == reliable && deleted == [] && !failed && flushed == 0
    {
      this.root := root;
      this.reliable := reliable;
      deleted := [];
      failed, flushed := false, 0;
    }

    /** Whether the volume serves a call. */
    method Serves() returns (ok: bool)
      requires !failed
      modifies this`failed
      ensures (failed <==> !ok) && (reliable ==> ok)
    {
      ok := reliable;
      if * {
        ok := true;
      }
      failed := !ok;
    }

    /** Flushes the directory the root was in. */
    method FlushParent() returns (ok: bool)
      requires !failed
      modifies this`failed, this`flushed
      ensures (failed <==> !ok) && (reliable ==> ok) && flushed == if ok then |deleted| else old(flushed)
    {
      ok := Serves();
      if ok { flushed := |deleted|; }
    }

    /** Opens one entry for an inventory. */
    method InventoryEntry(e: Entry, device: U64) returns (fault: Option<TreeError>)
      requires !failed
      modifies this`failed
      ensures (fault == Some(Io) <==> failed) && (failed ==> !reliable)
      ensures fault != Some(Io) ==> fault == InventoryFault(e, device)
    {
      if !Plain(e.component) {
        return Some(InvalidPath);
      }
      var served := Serves();
      if !served {
        return Some(Io);
      }
      if !Opens(e) {
        return Some(IdentityMismatch);
      }
      if e.device != device || e.reparse || (!e.directory && e.links != 1) {
        return Some(IdentityMismatch);
      }
      return None;
    }

    /** Opens one entry and verifies it, adding its path to `seen`. */
    method VerifyEntry(e: Entry, device: U64, expected: map<string, Identity>, seen: set<string>) returns (r: Result<set<string>, TreeError>)
      requires !failed
      modifies this`failed
      ensures (r == Failure(Io) <==> failed) && (failed ==> !reliable)
      ensures r != Failure(Io) ==> r == Inspect(e, device, expected, seen)
    {
      if !Plain(e.component) {
        return Failure(InvalidPath);
      }
      if e.path !in expected {
        return Failure(IdentityMismatch);
      }
      var served := Serves();
      if !served {
        return Failure(Io);
      }
      if expected[e.path] != Identity(e.directory, e.device, e.inode) || e.reparse || e.links != 1 {
        return Failure(IdentityMismatch);
      }
      if e.device != device || e.path in seen {
        return Failure(IdentityMismatch);
      }
      return Success(seen + {e.path});
    }

    /** Appends to `entries` everything below a directory, or stops at the first entry that may not be there. */
    method InventoryDirectory(prefix: string, nodes: seq<Node>, device: U64, entries: seq<Entry>) returns (r: Result<seq<Entry>, TreeError>)
      requires !failed
      modifies this`failed
      ensures (r == Failure(Io) <==> failed) && (failed ==> !reliable)
      ensures r != Failure(Io) ==> r == InventoryFrom(Walk(prefix, nodes), device, entries)
      decreases nodes
    {
      var found := entries;
      var i := 0;
      assert nodes[0..] == nodes;
      while i < |nodes|
        invariant 0 <= i <= |nodes| && !failed
        invariant InventoryFrom(Walk(prefix, nodes), device, entries) == InventoryFrom(Walk(prefix, nodes[i..]), device, found)
      {
        InventoryOneMore(prefix, nodes, i, device, found);
        var node := nodes[i];
        var path := Join(prefix, node.name);
        var fault := InventoryEntry(EntryAt(path, node), device);
        if fault.Some? {
          return Failure(fault.value);
        }
        found := found + [EntryAt(path, node)];
        if node.directory {
          var below := InventoryDirectory(path, node.children, device, found);
          if below.Failure? {
            return Failure(below.error);
          }
          found := below.value;
        }
        assert InventoryFrom(Walk(prefix, nodes), device, entries) == InventoryFrom(Walk(prefix, nodes[i + 1..]), device, found);
        i := i + 1;
      }
      return Success(found);
    }

    /** Opens and verifies one node with everything below it. */
    method VerifyNode(path: string, node: Node, device: U64, expected: map<string, Identity>, seen: set<string>)
      returns (r: Result<(VerifiedNode, set<string>), TreeError>)
      requires !failed
      modifies this`failed
      ensures (r == Failure(Io) <==> failed) && (failed ==> !reliable)
      ensures r != Failure(Io) ==> match VerifiedWith(path, node, device, expected, seen)
        case Failure(error) => r == Failure(error)
        case Success(all) => r.Success? && r.value.1 == all && IsHandleOf(r.value.0, path, node)
      decreases node
    {
      var inspected := VerifyEntry(EntryAt(path, node), device, expected, seen);
      if inspected.Failure? {
        return Failure(inspected.error);
      }
      if !node.directory {
        return Success((VerifiedNode(path, []), inspected.value));
      }
      var inside := VerifyDirectory(path, node.children, device, expected, inspected.value);
      if inside.Failure? {
        return Failure(inside.error);
      }
      return Success((VerifiedNode(path, inside.value.0), inside.value.1));
    }

    /** Opens and verifies everything below a directory, adding each path to `seen`. */
    method VerifyDirectory(prefix: string, nodes: seq<Node>, device: U64, expected: map<string, Identity>, seen: set<string>)
      returns (r: Result<(seq<VerifiedNode>, set<string>), TreeError>)
      requires !failed
      modifies this`failed
      ensures (r == Failure(Io) <==> failed) && (failed ==> !reliable)
      ensures r != Failure(Io) ==> match Verify(Walk(prefix, nodes), device, expected, seen)
        case Failure(error) => r == Failure(error)
        case Success(all) => r.Success? && r.value.1 == all && HandleOrder(r.value.0) == PostOrder(prefix, nodes)
      decreases nodes
    {
      var children: seq<VerifiedNode>, now := [], seen;
      var i := 0;
      assert nodes[0..] == nodes;
      while i < |nodes|
        invariant 0 <= i <= |nodes| && !failed
        invariant Verify(Walk(prefix, nodes), device, expected, seen) == Verify(Walk(prefix, nodes[i..]), device, expected, now)
        invariant HandleOrder(children) + PostOrder(prefix, nodes[i..]) == PostOrder(prefix, nodes)
      {
        VerifyOneMore(prefix, nodes, i, device, expected, now);
        var verified := VerifyNode(Join(prefix, nodes[i].name), nodes[i], device, expected, now);
        if verified.Failure? {
          return Failure(verified.error);
        }
        PostOrderOneMore(prefix, nodes, i, children, verified.value.0);
        children, now := children + [verified.value.0], verified.value.1;
        i := i + 1;
      }
      return Success((children, now));
    }

    /** Verifies the root and everything below it against the expected identity and entries. */
    method VerifyTree(identity: string, entries: seq<Expectation>, allowMissing: bool) returns (r: Result<VerifiedNode, TreeError>)
      requires !failed
      modifies this`failed
      ensures (r == Failure(Io) <==> failed) && (failed ==> !reliable)
      ensures r.Success? ==> Refusal(identity, entries, root, allowMissing).None? && HandleOrder([r.value]) == Plan(root)
      ensures r.Failure? && r.error != Io ==> Refusal(identity, entries, root, allowMissing) == Some(r.error)
    {
      var parsed := ParseIdentity(identity);
      if parsed.None? {
        return Failure(InvalidIdentity);
      }
      var device, inode := parsed.value.0, parsed.value.1;
      var expected := CollectExpected(entries);
      if expected.Failure? {
        return Failure(expected.error);
      }
      var served := Serves();
      if !served {
        return Failure(Io);
      }
      if !RootIs(root, device, inode) {
        return Failure(IdentityMismatch);
      }
      var tree := VerifyDirectory("", root.children, device, expected.value, {});
      if tree.Failure? {
        return Failure(tree.error);
      }
      if !allowMissing && |tree.value.1| != |expected.value| {
        return Failure(IdentityMismatch);
      }
      assert HandleOrder([VerifiedNode("", tree.value.0)]) == PostOrder("", root.children) + [""] + HandleOrder([]);
      return Success(VerifiedNode("", tree.value.0));
    }

    /** Deleting through a handle: refused while the directory still holds anything. */
    method MarkDeleted(path: string) returns (r: Result<(), TreeError>)
      requires path in Plan(root) && path !in deleted && !failed
      modifies this`deleted, this`failed
      ensures r.Failure? ==> r.error == Io && deleted == old(deleted)
      ensures failed ==> r.Failure? && !reliable
      ensures !failed && (forall p | p in Plan(root) && Inside(p, path) :: p in old(deleted)) ==> r.Success?
      ensures r.Success? ==> deleted == old(deleted) + [path] && forall p | p in Plan(root) && Inside(p, path) :: p in old(deleted)
    {
      var served := Serves();
      if !served || exists p | p in Plan(root) :: Inside(p, path) && p !in deleted {
        return Failure(Io);
      }
      deleted := deleted + [path];
      return Success(());
    }

    /** The handles after `deleted` in the plan are deleted one by one; a failure stops there. */
    method DeleteVerified(nodes: seq<VerifiedNode>) returns (r: Result<(), TreeError>)
      requires WellNamed(root.children) && deleted + HandleOrder(nodes) <= Plan(root) && !failed
      modifies this`deleted, this`failed
      ensures r.Success? ==> deleted == old(deleted) + HandleOrder(nodes)
      ensures r.Failure? ==> r.error == Io && old(deleted) <= deleted < old(deleted) + HandleOrder(nodes)
      ensures (failed <==> r.Failure?) && (failed ==> !reliable)
      decreases nodes
    {
      var i := 0;
      ghost var goal := deleted + HandleOrder(nodes);
      while i < |nodes|
        invariant 0 <= i <= |nodes| && !failed
        invariant old(deleted) <= deleted && deleted + HandleOrder(nodes[i..]) == goal
        modifies this`deleted, this`failed
      {
        var node := nodes[i];
        ghost var before := deleted;
        ghost var inner, rest := HandleOrder(node.children), HandleOrder(nodes[i + 1..]);
        assert nodes[i..][1..] == nodes[i + 1..];
        assert goal == before + inner + [node.handle] + rest;
        var below := DeleteVerified(node.children);
        if below.Failure? {
          return below;
        }
        assert deleted + [node.handle] <= goal;
        InsideComesBefore(root, deleted, node.handle);
        var marked := MarkDeleted(node.handle);
        if marked.Failure? {
          return marked;
        }
        i := i + 1;
      }
      return Success(());
    }

    /** Deletes a verified tree and flushes the directory it was in. */
    method DeleteWhole(tree: VerifiedNode) returns (r: Result<(), TreeError>)
      requires WellNamed(root.children) && deleted == [] && HandleOrder([tree]) == Plan(root) && !failed
      modifies this`deleted, this`failed, this`flushed
      ensures r.Success? || r == Failure(Io)
      ensures (failed <==> r.Failure?) && (failed ==> !reliable)
      ensures r.Success? ==> deleted == Plan(root) && flushed == |deleted|
      ensures deleted <= Plan(root)
    {
      assert deleted + HandleOrder([tree]) == Plan(root);
      r := DeleteVerified([tree]);
      if r.Success? {
        var durable := FlushParent();
        if !durable {
          return Failure(Io);
        }
      }
    }

    /** Verifies the whole tree, then deletes it; nothing is deleted unless the whole tree is accepted. */
    method RemoveExact(identity: string, entries: seq<Expectation>, allowMissing: bool) returns (r: Result<(), TreeError>)
      requires WellNamed(root.children) && deleted == [] && !failed
      modifies this`deleted, this`failed, this`flushed
      ensures (r == Failure(Io) <==> failed) && (failed ==> !reliable)
      ensures r.Failure? && r.error != Io ==> deleted == [] && Refusal(identity, entries, root, allowMissing) == Some(r.error)
      ensures r.Success? ==> deleted == Plan(root) && flushed == |deleted| && Refusal(identity, entries, root, allowMissing).None?
      ensures deleted != [] ==> Refusal(identity, entries, root, allowMissing).None?
      ensures deleted <= Plan(root)
    {
      var tree := VerifyTree(identity, entries, allowMissing);
      if tree.Failure? {
        return Failure(tree.error);
      }
      r := DeleteWhole(tree.value);
    }
  }

  /** When a path's turn comes, everything inside it has been deleted and it has not. */
  lemma InsideComesBefore(root: Node, done: seq<string>, path: string)
    requires WellNamed(root.children) && done + [path] <= Plan(root)
    ensures path in Plan(root) && path !in done
    ensures forall p | p in Plan(root) && Inside(p, path) :: p in done
  {
    var plan, k := Plan(root), |done|;
    PlanIsChildrenFirst(root);
    assert (done + [path])[k] == plan[k] == path;
    assert forall i | 0 <= i < k :: (done + [path])[i] == plan[i] == done[i];
    forall p | p in plan && Inside(p, path)
      ensures p in done
    {
      var j :| 0 <= j < |plan| && plan[j] == p;
      assert j < k ==> done[j] == p;
      assert !Inside(path, path);
    }
  }
}
