/** The order in which a verified tree is deleted, and what an interrupted deletion leaves. */
module OwnedTreeDeletion {
  import opened Bytes
  import opened Wrappers
  import opened OwnedTree

  /** The paths of a verified directory's nodes, everything inside a directory before the directory. */
  function PostOrder(prefix: string, nodes: seq<Node>): (r: seq<string>)
    decreases nodes
  {
    if nodes == [] then []
    else
      var path := Join(prefix, nodes[0].name);
      var inner := if nodes[0].directory then PostOrder(path, nodes[0].children) else [];
      inner + [path] + PostOrder(prefix, nodes[1..])
  }

  /** The whole deletion; the root's own path is empty. */
  function Plan(root: Node): seq<string> {
    PostOrder("", root.children) + [""]
  }

  /** No path comes twice, and none comes after a directory it lies in. */
  ghost predicate ChildrenFirst(order: seq<string>) {
    forall i, j | 0 <= i < j < |order| :: order[i] != order[j] && !Inside(order[j], order[i])
  }

  /** Exactly the verified entries are deleted. */
  lemma {:induction false} DeletesExactlyTheWalk(prefix: string, nodes: seq<Node>, path: string)
    ensures path in PostOrder(prefix, nodes) <==> path in Paths(Walk(prefix, nodes))
    decreases nodes
  {
    if nodes != [] {
      var here := Join(prefix, nodes[0].name);
      var inner := if nodes[0].directory then Walk(here, nodes[0].children) else [];
      if nodes[0].directory {
        DeletesExactlyTheWalk(here, nodes[0].children, path);
      }
      DeletesExactlyTheWalk(prefix, nodes[1..], path);
      PathsInParts([EntryAt(here, nodes[0])] + inner, Walk(prefix, nodes[1..]));
      PathsInParts([EntryAt(here, nodes[0])], inner);
      var one := [EntryAt(here, nodes[0])];
      assert one[0].path == here && Paths(one) == {here};
    }
  }

  lemma PathsInParts(a: seq<Entry>, b: seq<Entry>)
    ensures Paths(a + b) == Paths(a) + Paths(b)
  {
    forall path | path in Paths(a) + Paths(b)
      ensures path in Paths(a + b)
    {
      if path in Paths(a) {
        var i :| 0 <= i < |a| && a[i].path == path;
        assert (a + b)[i].path == path;
      } else {
        var i :| 0 <= i < |b| && b[i].path == path;
        assert (a + b)[|a| + i].path == path;
      }
    }
  }

  /** Where a deleted path lies. */
  lemma DeletedPathLies(prefix: string, nodes: seq<Node>, path: string)
    requires WellNamed(nodes) && path in PostOrder(prefix, nodes)
    ensures Inside(path, prefix)
    ensures exists e | e in Walk(prefix, nodes) :: e.path == path
  {
    DeletesExactlyTheWalk(prefix, nodes, path);
    var i :| 0 <= i < |Walk(prefix, nodes)| && Walk(prefix, nodes)[i].path == path;
    WalkStaysInside(prefix, nodes, Walk(prefix, nodes)[i]);
  }

  lemma {:induction false} PostOrderIsChildrenFirst(prefix: string, nodes: seq<Node>)
    requires WellNamed(nodes)
    ensures ChildrenFirst(PostOrder(prefix, nodes))
    decreases nodes
  {
    if nodes != [] {
      var path := Join(prefix, nodes[0].name);
      var inner := if nodes[0].directory then PostOrder(path, nodes[0].children) else [];
      var rest := PostOrder(prefix, nodes[1..]);
      if nodes[0].directory {
        PostOrderIsChildrenFirst(path, nodes[0].children);
        forall p | p in inner
          ensures Inside(p, path)
        {
          DeletedPathLies(path, nodes[0].children, p);
        }
      }
      PostOrderIsChildrenFirst(prefix, nodes[1..]);
      forall p | p in rest
        ensures p != path && !Inside(p, path)
      {
        DeletedPathLies(prefix, nodes[1..], p);
        var e :| e in Walk(prefix, nodes[1..]) && e.path == p;
        RestAvoidsFirst(prefix, nodes, e);
      }
      ChildrenFirstInThreeParts(inner, path, rest);
    }
  }

  lemma ChildrenFirstInThreeParts(inner: seq<string>, path: string, rest: seq<string>)
    requires path != "" && ChildrenFirst(inner) && ChildrenFirst(rest)
    requires forall p | p in inner :: Inside(p, path)
    requires forall p | p in rest :: p != path && !Inside(p, path)
    ensures ChildrenFirst(inner + [path] + rest)
  {
    var order, n := inner + [path] + rest, |inner|;
    forall i, j | 0 <= i < j < |order|
      ensures order[i] != order[j] && !Inside(order[j], order[i])
    {
      if j < n {
        assert order[i] == inner[i] && order[j] == inner[j];
      } else if j == n {
        assert order[i] == inner[i] && order[i] in inner && order[j] == path;
      } else if i < n {
        assert order[i] == inner[i] && order[i] in inner;
        assert order[j] == rest[j - n - 1] && order[j] in rest;
        InsideIsTransitive(order[j], order[i], path);
      } else if i == n {
        assert order[i] == path && order[j] == rest[j - n - 1] && order[j] in rest;
      } else {
        assert order[i] == rest[i - n - 1] && order[j] == rest[j - n - 1];
      }
    }
  }

  lemma PlanIsChildrenFirst(root: Node)
    requires WellNamed(root.children)
    ensures ChildrenFirst(Plan(root))
  {
    var order := PostOrder("", root.children);
    PostOrderIsChildrenFirst("", root.children);
    forall i, j | 0 <= i < j < |Plan(root)|
      ensures Plan(root)[i] != Plan(root)[j] && !Inside(Plan(root)[j], Plan(root)[i])
    {
      assert Plan(root)[i] == order[i];
      DeletedPathLies("", root.children, order[i]);
    }
  }

  // -------------------------------------------------------------------------
  // An interrupted deletion

  /** The tree that is left when the nodes at `gone` have been deleted. */
  function Prune(prefix: string, nodes: seq<Node>, gone: set<string>): (r: seq<Node>)
    decreases nodes
  {
    if nodes == [] then []
    else
      var path := Join(prefix, nodes[0].name);
      var rest := Prune(prefix, nodes[1..], gone);
      if path in gone then rest
      else if nodes[0].directory then [nodes[0].(children := Prune(path, nodes[0].children, gone))] + rest
      else [nodes[0]] + rest
  }

  function Without(order: seq<string>, gone: set<string>): (r: seq<string>) {
    if order == [] then []
    else if order[0] in gone then Without(order[1..], gone)
    else [order[0]] + Without(order[1..], gone)
  }

  lemma {:induction false} WithoutInParts(a: seq<string>, b: seq<string>, gone: set<string>)
    ensures Without(a + b, gone) == Without(a, gone) + Without(b, gone)
  {
    if a == [] {
      assert a + b == b;
    } else {
      assert (a + b)[1..] == a[1..] + b;
      WithoutInParts(a[1..], b, gone);
    }
  }

  lemma WithoutInThreeParts(inner: seq<string>, path: string, rest: seq<string>, gone: set<string>)
    ensures Without(inner + [path] + rest, gone)
      == Without(inner, gone) + (if path in gone then [] else [path]) + Without(rest, gone)
  {
    WithoutInParts(inner + [path], rest, gone);
    WithoutInParts(inner, [path], gone);
  }

  lemma {:induction false} WithoutAll(order: seq<string>, gone: set<string>)
    requires forall p | p in order :: p in gone
    ensures Without(order, gone) == []
  {
    if order != [] {
      WithoutAll(order[1..], gone);
    }
  }

  lemma {:induction false} WithoutNone(order: seq<string>, gone: set<string>)
    requires forall p | p in order :: p !in gone
    ensures Without(order, gone) == order
  {
    if order != [] {
      WithoutNone(order[1..], gone);
    }
  }

  /** With a directory, everything in it is gone. */
  ghost predicate DownClosed(gone: set<string>, order: seq<string>) {
    forall p, q | p in gone && q in order && Inside(q, p) :: q in gone
  }

  /** The deletion of what is left is the rest of the deletion. */
  lemma {:induction false} PostOrderOfPruned(prefix: string, nodes: seq<Node>, gone: set<string>)
    requires WellNamed(nodes) && DownClosed(gone, PostOrder(prefix, nodes))
    ensures PostOrder(prefix, Prune(prefix, nodes, gone)) == Without(PostOrder(prefix, nodes), gone)
    decreases nodes
  {
    if nodes != [] {
      var path := Join(prefix, nodes[0].name);
      var inner := if nodes[0].directory then PostOrder(path, nodes[0].children) else [];
      var rest := PostOrder(prefix, nodes[1..]);
      WithoutInThreeParts(inner, path, rest, gone);
      assert DownClosed(gone, rest) && DownClosed(gone, inner);
      PostOrderOfPruned(prefix, nodes[1..], gone);
      if nodes[0].directory {
        PostOrderOfPruned(path, nodes[0].children, gone);
      }
      if path in gone {
        forall p | p in inner
          ensures p in gone
        {
          DeletedPathLies(path, nodes[0].children, p);
        }
        WithoutAll(inner, gone);
        assert [] + [] + Without(rest, gone) == Without(rest, gone);
      } else {
        PostOrderOfFirst(prefix, nodes, gone);
      }
    }
  }

  /** Unfolding both orders at a first node that is still there. */
  lemma PostOrderOfFirst(prefix: string, nodes: seq<Node>, gone: set<string>)
    requires nodes != [] && Join(prefix, nodes[0].name) !in gone
    ensures var path := Join(prefix, nodes[0].name);
      PostOrder(prefix, Prune(prefix, nodes, gone))
      == (if nodes[0].directory then PostOrder(path, Prune(path, nodes[0].children, gone)) else [])
         + [path] + PostOrder(prefix, Prune(prefix, nodes[1..], gone))
  {
    var pruned := Prune(prefix, nodes, gone);
    assert pruned[1..] == Prune(prefix, nodes[1..], gone);
  }

  /** What is left is well named, and every entry of its walk was there before. */
  lemma {:induction false} PrunedWalk(prefix: string, nodes: seq<Node>, gone: set<string>)
    requires WellNamed(nodes)
    ensures WellNamed(Prune(prefix, nodes, gone))
    ensures forall n | n in Prune(prefix, nodes, gone) :: exists i | 0 <= i < |nodes| :: nodes[i].name == n.name
    ensures forall e | e in Walk(prefix, Prune(prefix, nodes, gone)) :: e in Walk(prefix, nodes)
    decreases nodes
  {
    if nodes != [] {
      var path := Join(prefix, nodes[0].name);
      var pruned, rest := Prune(prefix, nodes, gone), Prune(prefix, nodes[1..], gone);
      PrunedWalk(prefix, nodes[1..], gone);
      forall n | n in rest
        ensures n.name != nodes[0].name && exists i | 0 <= i < |nodes| :: nodes[i].name == n.name
      {
        var i :| 0 <= i < |nodes[1..]| && nodes[1..][i].name == n.name;
        assert nodes[i + 1].name == n.name;
      }
      if path !in gone {
        if nodes[0].directory {
          PrunedWalk(path, nodes[0].children, gone);
        }
        assert pruned[1..] == rest;
        WellNamedInParts(pruned);
      }
    }
  }

  lemma WellNamedInParts(nodes: seq<Node>)
    requires nodes != [] && WellNamed(nodes[1..])
    requires nodes[0].name != "" && '/' !in nodes[0].name && (nodes[0].directory ==> WellNamed(nodes[0].children))
    requires forall n | n in nodes[1..] :: n.name != nodes[0].name
    ensures WellNamed(nodes)
  {
    assert forall i | 0 < i < |nodes| :: nodes[i] == nodes[1..][i - 1];
  }

  /** The tree after the first `k` deletions, the root not among them. */
  function Left(root: Node, k: nat): (r: Node)
    requires k < |Plan(root)|
  {
    root.(children := Prune("", root.children, set p | p in Plan(root)[..k]))
  }

  lemma PrefixOfPlanIsDownClosed(root: Node, k: nat)
    requires WellNamed(root.children) && k < |Plan(root)|
    ensures DownClosed((set p | p in Plan(root)[..k]), PostOrder("", root.children))
  {
    var plan, order := Plan(root), PostOrder("", root.children);
    PlanIsChildrenFirst(root);
    forall p, q | p in plan[..k] && q in order && Inside(q, p)
      ensures q in plan[..k]
    {
      var i :| 0 <= i < k && plan[i] == p;
      var j :| 0 <= j < |order| && order[j] == q;
      assert plan[j] == q && !Inside(p, p);
      assert plan[..k][i] == p && (j < k ==> plan[..k][j] == q);
    }
  }

  /** After any number of deletions, the deletion of what is left is exactly the rest of the plan. */
  lemma PlanOfWhatIsLeft(root: Node, k: nat)
    requires WellNamed(root.children) && k < |Plan(root)|
    ensures WellNamed(Left(root, k).children)
    ensures Plan(Left(root, k)) == Plan(root)[k..]
  {
    var plan, order := Plan(root), PostOrder("", root.children);
    var gone := set p | p in plan[..k];
    PrunedWalk("", root.children, gone);
    PrefixOfPlanIsDownClosed(root, k);
    PostOrderOfPruned("", root.children, gone);
    assert plan[..k] == order[..k] && plan[k..] == order[k..] + [""];
    PlanIsChildrenFirst(root);
    forall i, j | 0 <= i < j < |order|
      ensures order[i] != order[j]
    {
      assert plan[i] == order[i] && plan[j] == order[j];
    }
    WithoutPrefix(order, k);
  }

  lemma WithoutPrefix(order: seq<string>, k: nat)
    requires k <= |order| && forall i, j | 0 <= i < j < |order| :: order[i] != order[j]
    ensures Without(order, (set p | p in order[..k])) == order[k..]
  {
    var gone := set p | p in order[..k];
    assert order == order[..k] + order[k..];
    WithoutInParts(order[..k], order[k..], gone);
    WithoutAll(order[..k], gone);
    WithoutNone(order[k..], gone);
  }

  /** A removal that was accepted and then interrupted is accepted again with missing entries allowed. */
  lemma InterruptedRemovalIsAcceptedAgain(root: Node, device: U64, inode: U64, expected: map<string, Identity>, allowMissing: bool, k: nat)
    requires WellNamed(root.children) && k < |Plan(root)|
    requires Verdict(root, device, inode, expected, allowMissing).Success?
    ensures Verdict(Left(root, k), device, inode, expected, true).Success?
  {
    var gone := set p | p in Plan(root)[..k];
    var before, after := Walk("", root.children), Walk("", Left(root, k).children);
    PrunedWalk("", root.children, gone);
    WalkPathsAreDistinct("", Left(root, k).children);
    VerifierAcceptsExactly(before, device, expected, {});
    VerifierAcceptsExactly(after, device, expected, {});
    forall i | 0 <= i < |after|
      ensures Acceptable(after[i], device, expected)
    {
      assert after[i] in before;
    }
  }
}
