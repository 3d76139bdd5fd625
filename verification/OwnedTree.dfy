/**
 Identity-bound deletion of a directory tree: what an inventory lists, what the exact verifier accepts, and the
 order in which verified nodes are deleted.
 */
module OwnedTree {
  import opened Bytes
  import opened Wrappers

  datatype TreeError = InvalidIdentity | IdentityMismatch | InvalidPath | Io

  /** An object on the volume, with what an open handle reports about it. */
  datatype Node = Node(
    name: string, directory: bool, device: U64, inode: U64, links: nat, reparse: bool, children: seq<Node>)

  /** A node as a walk meets it; `path` is relative to the root and has '/' between its components. */
  datatype Entry = Entry(
    path: string, component: string, directory: bool, device: U64, inode: U64, links: nat, reparse: bool)

  datatype Identity = Identity(directory: bool, device: U64, inode: U64)

  function Join(prefix: string, name: string): (r: string) {
    if prefix == "" then name else prefix + "/" + name
  }

  function EntryAt(path: string, node: Node): Entry {
    Entry(path, node.name, node.directory, node.device, node.inode, node.links, node.reparse)
  }

  function IdentityOf(e: Entry): Identity { Identity(e.directory, e.device, e.inode) }

  /** Everything below a directory, each directory before what it contains. */
  function Walk(prefix: string, nodes: seq<Node>): (r: seq<Entry>)
    decreases nodes
  {
    if nodes == [] then []
    else
      var path := Join(prefix, nodes[0].name);
      var inner := if nodes[0].directory then Walk(path, nodes[0].children) else [];
      [EntryAt(path, nodes[0])] + inner + Walk(prefix, nodes[1..])
  }

  predicate Plain(component: string) {
    '/' !in component && '\\' !in component && component != "." && component != ".."
  }

  ghost predicate DistinctPaths(entries: seq<Entry>) {
    forall i, j | 0 <= i < j < |entries| :: entries[i].path != entries[j].path
  }

  ghost function Paths(entries: seq<Entry>): (r: set<string>) {
    set i | 0 <= i < |entries| :: entries[i].path
  }

  /** An inventory as the map an exact removal is given; of entries with the same path the last counts. */
  function AsMap(entries: seq<Entry>): (r: map<string, Identity>) {
    if entries == [] then map[]
    else
      var last := entries[|entries| - 1];
      AsMap(entries[..|entries| - 1])[last.path := IdentityOf(last)]
  }

  lemma {:induction false} AsMapHolds(entries: seq<Entry>)
    ensures AsMap(entries).Keys == Paths(entries)
    ensures DistinctPaths(entries) ==> forall i | 0 <= i < |entries| :: AsMap(entries)[entries[i].path] == IdentityOf(entries[i])
  {
    if entries != [] {
      var n := |entries| - 1;
      var init := entries[..n];
      AsMapHolds(init);
      assert Paths(entries) == Paths(init) + {entries[n].path};
      assert forall i | 0 <= i < n :: init[i] == entries[i];
    }
  }

  // -------------------------------------------------------------------------
  // What the inventory and the verifier make of a walk

  /** Opening an entry relative to its directory refuses a reparse point and any object with several links. */
  predicate Opens(e: Entry) { !e.reparse && e.links == 1 }

  /** Why an inventory stops at `e`, if it does: its name, its opening, or what the walk itself checks afterwards. */
  function InventoryFault(e: Entry, device: U64): Option<TreeError> {
    if !Plain(e.component) then Some(InvalidPath)
    else if !Opens(e) then Some(IdentityMismatch)
    else if e.device != device || e.reparse || (!e.directory && e.links != 1) then Some(IdentityMismatch)
    else None
  }

  /** An entry that stays in its directory and is the object itself, of one link, on the root's volume. */
  ghost predicate Ordinary(e: Entry, device: U64) {
    && (forall c | c in e.component :: c != '/' && c != '\\')
    && e.component != "." && e.component != ".."
    && !e.reparse && e.links == 1 && e.device == device
  }

  ghost predicate AllOrdinary(entries: seq<Entry>, device: U64) {
    forall e | e in entries :: Ordinary(e, device)
  }

  /** An inventory takes exactly the ordinary entries; a name that leads elsewhere is told apart from a wrong object. */
  lemma InventoryTakesExactlyOrdinary(e: Entry, device: U64)
    ensures InventoryFault(e, device).None? <==> Ordinary(e, device)
    ensures InventoryFault(e, device) == Some(InvalidPath) <==>
      '/' in e.component || '\\' in e.component || e.component in {".", ".."}
    ensures InventoryFault(e, device) in {None, Some(InvalidPath), Some(IdentityMismatch)}
  {
  }

  /** The opening refuses directories of several links too, which the walk's own check lets pass. */
  lemma InventoryRefusesLinkedDirectories(e: Entry, device: U64)
    requires Plain(e.component) && e.directory && e.links != 1
    ensures InventoryFault(e, device) == Some(IdentityMismatch)
  {
  }

  function FirstInventoryFault(entries: seq<Entry>, device: U64): (r: Option<TreeError>)
    ensures r.None? <==> forall e | e in entries :: InventoryFault(e, device).None?
  {
    if entries == [] then None
    else if InventoryFault(entries[0], device).Some? then InventoryFault(entries[0], device)
    else FirstInventoryFault(entries[1..], device)
  }

  function Inspect(e: Entry, device: U64, expected: map<string, Identity>, seen: set<string>): Result<set<string>, TreeError> {
    if !Plain(e.component) then Failure(InvalidPath)
    else if e.path !in expected then Failure(IdentityMismatch)
    else if expected[e.path] != IdentityOf(e) || e.reparse || e.links != 1 then Failure(IdentityMismatch)
    else if e.device != device || e.path in seen then Failure(IdentityMismatch)
    else Success(seen + {e.path})
  }

  /** The verifier over a walk: the paths seen, or the fault of the first entry it refuses. */
  function Verify(entries: seq<Entry>, device: U64, expected: map<string, Identity>, seen: set<string>): Result<set<string>, TreeError> {
    if entries == [] then Success(seen)
    else match Inspect(entries[0], device, expected, seen)
      case Failure(error) => Failure(error)
      case Success(more) => Verify(entries[1..], device, expected, more)
  }

  /** Verifying a walk in two parts. */
  lemma {:induction false} VerifyInParts(first: seq<Entry>, second: seq<Entry>, device: U64, expected: map<string, Identity>, seen: set<string>)
    ensures var part := Verify(first, device, expected, seen);
      Verify(first + second, device, expected, seen)
      == if part.Success? then Verify(second, device, expected, part.value) else part
  {
    if first == [] {
      assert first + second == second;
    } else {
      var step := Inspect(first[0], device, expected, seen);
      assert (first + second)[1..] == first[1..] + second;
      if step.Success? {
        VerifyInParts(first[1..], second, device, expected, step.value);
      }
    }
  }

  ghost predicate Acceptable(e: Entry, device: U64, expected: map<string, Identity>) {
    Ordinary(e, device) && e.path in expected && expected[e.path] == Identity(e.directory, e.device, e.inode)
  }

  /** The verifier accepts exactly: every entry is acceptable and no path comes twice. */
  lemma {:induction false} VerifierAcceptsExactly(entries: seq<Entry>, device: U64, expected: map<string, Identity>, seen: set<string>)
    ensures var r := Verify(entries, device, expected, seen);
      && (r.Success? <==>
           && (forall i | 0 <= i < |entries| :: Acceptable(entries[i], device, expected))
           && DistinctPaths(entries)
           && (forall i | 0 <= i < |entries| :: entries[i].path !in seen))
      && (r.Success? ==> r.value == seen + Paths(entries))
  {
    if entries != [] {
      var step := Inspect(entries[0], device, expected, seen);
      var rest := entries[1..];
      assert forall i | 0 < i < |entries| :: entries[i] == rest[i - 1];
      if step.Success? {
        VerifierAcceptsExactly(rest, device, expected, step.value);
        if Verify(entries, device, expected, seen).Success? {
          assert Paths(entries) == {entries[0].path} + Paths(rest);
          DistinctFromRest(entries);
        } else {
          assert forall i | 0 <= i < |rest| :: rest[i] == entries[i + 1];
        }
      } else {
        assert !Acceptable(entries[0], device, expected) || entries[0].path in seen;
      }
    }
  }

  lemma DistinctFromRest(entries: seq<Entry>)
    requires entries != [] && DistinctPaths(entries[1..])
    requires forall i | 0 <= i < |entries[1..]| :: entries[1..][i].path != entries[0].path
    ensures DistinctPaths(entries)
  {
    forall i, j | 0 <= i < j < |entries|
      ensures entries[i].path != entries[j].path
    {
      assert entries[j] == entries[1..][j - 1];
      if i > 0 {
        assert entries[i] == entries[1..][i - 1];
      }
    }
  }

  // -------------------------------------------------------------------------
  // Trees whose walk has no path twice

  /** Sibling names are non-empty, slash-free and pairwise different, at every level. */
  ghost predicate WellNamed(nodes: seq<Node>) {
    && (forall i | 0 <= i < |nodes| :: nodes[i].name != "" && '/' !in nodes[i].name)
    && (forall i | 0 <= i < |nodes| :: nodes[i].directory ==> WellNamed(nodes[i].children))
    && (forall i, j | 0 <= i < j < |nodes| :: nodes[i].name != nodes[j].name)
  }

  /** `path` lies strictly inside the directory at `ancestor`; the root's own path is empty. */
  predicate Inside(path: string, ancestor: string) {
    if ancestor == "" then path != ""
    else |ancestor| < |path| && path[..|ancestor|] == ancestor && path[|ancestor|] == '/'
  }

  lemma InsideIsTransitive(path: string, middle: string, ancestor: string)
    requires Inside(middle, ancestor)
    ensures Inside(path, middle) ==> Inside(path, ancestor)
  {
    if Inside(path, middle) && ancestor != "" {
      assert path[..|ancestor|] == path[..|middle|][..|ancestor|];
      assert path[|ancestor|] == path[..|middle|][|ancestor|];
    }
  }

  lemma JoinIsInside(prefix: string, name: string)
    requires name != ""
    ensures Inside(Join(prefix, name), prefix)
  {
    assert prefix != "" ==> Join(prefix, name)[..|prefix|] == prefix;
  }

  predicate InBranch(path: string, prefix: string, name: string) {
    path == Join(prefix, name) || Inside(path, Join(prefix, name))
  }

  /** A walk stays inside its prefix, in the branch of one of the nodes walked. */
  lemma {:induction false} WalkStaysInside(prefix: string, nodes: seq<Node>, e: Entry)
    requires WellNamed(nodes) && e in Walk(prefix, nodes)
    ensures Inside(e.path, prefix)
    ensures exists i | 0 <= i < |nodes| :: InBranch(e.path, prefix, nodes[i].name)
    decreases nodes
  {
    var path := Join(prefix, nodes[0].name);
    JoinIsInside(prefix, nodes[0].name);
    if e == EntryAt(path, nodes[0]) {
      assert InBranch(e.path, prefix, nodes[0].name);
    } else if nodes[0].directory && e in Walk(path, nodes[0].children) {
      WalkStaysInside(path, nodes[0].children, e);
      InsideIsTransitive(e.path, path, prefix);
      assert InBranch(e.path, prefix, nodes[0].name);
    } else {
      WalkStaysInside(prefix, nodes[1..], e);
      var i :| 0 <= i < |nodes[1..]| && InBranch(e.path, prefix, nodes[1..][i].name);
      assert nodes[1..][i] == nodes[i + 1];
    }
  }

  function FirstComponent(path: string): string {
    if path == "" || path[0] == '/' then "" else [path[0]] + FirstComponent(path[1..])
  }

  lemma {:induction false} FirstComponentOf(component: string, rest: string)
    requires '/' !in component && (rest == "" || rest[0] == '/')
    ensures FirstComponent(component + rest) == component
  {
    if component == "" {
      assert component + rest == rest;
    } else {
      assert (component + rest)[1..] == component[1..] + rest;
      FirstComponentOf(component[1..], rest);
    }
  }

  /** The branch a path lies in can be read off the path, so two sibling branches have none in common. */
  lemma BranchOfPath(prefix: string, name: string, path: string)
    requires name != "" && '/' !in name
    requires InBranch(path, prefix, name)
    ensures var start := if prefix == "" then 0 else |prefix| + 1;
      start <= |path| && FirstComponent(path[start..]) == name
  {
    var branch := Join(prefix, name);
    var start := if prefix == "" then 0 else |prefix| + 1;
    var rest := path[|branch|..];
    assert path == branch + rest;
    assert path[start..] == name + rest;
    FirstComponentOf(name, rest);
  }

  lemma {:induction false} WalkPathsAreDistinct(prefix: string, nodes: seq<Node>)
    requires WellNamed(nodes)
    ensures DistinctPaths(Walk(prefix, nodes))
    decreases nodes
  {
    if nodes != [] {
      var path := Join(prefix, nodes[0].name);
      var inner := if nodes[0].directory then Walk(path, nodes[0].children) else [];
      var rest := Walk(prefix, nodes[1..]);
      if nodes[0].directory {
        WalkPathsAreDistinct(path, nodes[0].children);
        forall e | e in inner
          ensures Inside(e.path, path)
        {
          WalkStaysInside(path, nodes[0].children, e);
        }
      }
      WalkPathsAreDistinct(prefix, nodes[1..]);
      forall e | e in rest
        ensures !InBranch(e.path, prefix, nodes[0].name)
      {
        RestAvoidsFirst(prefix, nodes, e);
      }
      DistinctInThreeParts(EntryAt(path, nodes[0]), inner, rest);
    }
  }

  lemma RestAvoidsFirst(prefix: string, nodes: seq<Node>, e: Entry)
    requires WellNamed(nodes) && nodes != [] && e in Walk(prefix, nodes[1..])
    ensures !InBranch(e.path, prefix, nodes[0].name)
  {
    WalkStaysInside(prefix, nodes[1..], e);
    var i :| 0 <= i < |nodes[1..]| && InBranch(e.path, prefix, nodes[1..][i].name);
    assert nodes[1..][i] == nodes[i + 1];
    BranchOfPath(prefix, nodes[i + 1].name, e.path);
    if InBranch(e.path, prefix, nodes[0].name) {
      BranchOfPath(prefix, nodes[0].name, e.path);
    }
  }

  lemma DistinctInThreeParts(first: Entry, inner: seq<Entry>, rest: seq<Entry>)
    requires DistinctPaths(inner) && DistinctPaths(rest)
    requires forall e | e in inner :: Inside(e.path, first.path)
    requires forall e | e in rest :: e.path != first.path && !Inside(e.path, first.path)
    ensures DistinctPaths([first] + inner + rest)
  {
    var all := [first] + inner + rest;
    forall i, j | 0 <= i < j < |all|
      ensures all[i].path != all[j].path
    {
      var n := 1 + |inner|;
      if i == 0 {
        assert j < n ==> all[j] == inner[j - 1];
        assert j >= n ==> all[j] == rest[j - n];
      } else if j < n {
        assert all[i] == inner[i - 1] && all[j] == inner[j - 1];
      } else if i < n {
        assert all[i] == inner[i - 1] && all[j] == rest[j - n];
      } else {
        assert all[i] == rest[i - n] && all[j] == rest[j - n];
      }
    }
  }

  // -------------------------------------------------------------------------
  // The verdict of a removal

  predicate RootIs(root: Node, device: U64, inode: U64) {
    root.device == device && root.inode == inode && root.directory && !root.reparse && root.links == 1
  }

  /** What `validate_root` and the verifier decide about a tree. */
  function Verdict(root: Node, device: U64, inode: U64, expected: map<string, Identity>, allowMissing: bool): Result<(), TreeError> {
    if !RootIs(root, device, inode) then Failure(IdentityMismatch)
    else match Verify(Walk("", root.children), device, expected, {})
      case Failure(error) => Failure(error)
      case Success(seen) => if !allowMissing && |seen| != |expected| then Failure(IdentityMismatch) else Success(())
  }

  /** A tree an inventory can be taken of. */
  ghost predicate Inspectable(root: Node) {
    && root.directory && !root.reparse && root.links == 1
    && AllOrdinary(Walk("", root.children), root.device)
  }

  /** Every entry is in the map with its own identity iff the map contains the inventory. */
  lemma ContainsInventory(entries: seq<Entry>, device: U64, expected: map<string, Identity>)
    requires DistinctPaths(entries)
    ensures (forall i | 0 <= i < |entries| :: Acceptable(entries[i], device, expected)) <==>
      AllOrdinary(entries, device) && Contains(expected, AsMap(entries))
  {
    AsMapHolds(entries);
    var own := AsMap(entries);
    if forall i | 0 <= i < |entries| :: Acceptable(entries[i], device, expected) {
      forall path | path in own
        ensures path in expected && expected[path] == own[path]
      {
        var i :| 0 <= i < |entries| && entries[i].path == path;
        assert Acceptable(entries[i], device, expected);
      }
      assert forall e | e in entries :: Acceptable(e, device, expected);
    }
    if AllOrdinary(entries, device) && Contains(expected, own) {
      forall i | 0 <= i < |entries|
        ensures Acceptable(entries[i], device, expected)
      {
        assert entries[i] in entries && entries[i].path in own;
      }
    }
  }

  ghost predicate Contains(big: map<string, Identity>, small: map<string, Identity>) {
    forall path | path in small :: path in big && big[path] == small[path]
  }

  /** Of two maps that agree where the smaller is defined, equal size means equality. */
  lemma SameSizeMeansSame(big: map<string, Identity>, small: map<string, Identity>)
    ensures Contains(big, small) ==> (small == big <==> |small.Keys| == |big|)
    ensures small == big ==> Contains(big, small)
  {
    if Contains(big, small) {
      assert small.Keys <= big.Keys && |big| == |big.Keys|;
      assert big.Keys == small.Keys + (big.Keys - small.Keys);
      if |small.Keys| == |big.Keys| {
        assert small.Keys == big.Keys;
      }
    }
  }

  /**
   Exactness. A well-named tree is accepted iff the expected root and map are the tree's own; where missing
   entries are allowed, iff the map contains the tree's own.
   */
  lemma AcceptsExactlyItsInventory(root: Node, device: U64, inode: U64, expected: map<string, Identity>, allowMissing: bool)
    requires WellNamed(root.children)
    ensures Verdict(root, device, inode, expected, allowMissing).Success? <==>
      && Inspectable(root) && root.device == device && root.inode == inode
      && var own := AsMap(Walk("", root.children));
         if allowMissing then Contains(expected, own) else own == expected
  {
    var entries := Walk("", root.children);
    WalkPathsAreDistinct("", root.children);
    VerifierAcceptsExactly(entries, device, expected, {});
    ContainsInventory(entries, device, expected);
    var own := AsMap(entries);
    AsMapHolds(entries);
    SameSizeMeansSame(expected, own);
    assert {} + Paths(entries) == own.Keys;
    var verified := Verify(entries, device, expected, {});
    assert verified.Success? <==> AllOrdinary(entries, device) && Contains(expected, own);
    if verified.Success? {
      assert |verified.value| == |own.Keys|;
    }
  }

  /** What a tree is inventoried as is what it is accepted as. */
  lemma OwnInventoryIsAccepted(root: Node, allowMissing: bool)
    requires WellNamed(root.children) && Inspectable(root)
    ensures Verdict(root, root.device, root.inode, AsMap(Walk("", root.children)), allowMissing).Success?
  {
    WalkPathsAreDistinct("", root.children);
    AcceptsExactlyItsInventory(root, root.device, root.inode, AsMap(Walk("", root.children)), allowMissing);
  }
}
