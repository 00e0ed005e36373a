/** Positions in an expression tree: a path lists the child to take at each node. */
module NodePaths {
  import opened Wrappers
  import opened Ast

  type Path = seq<nat>

  function NodeAt(n: Node, p: Path): Option<Node>
    decreases |p|
  {
    if p == [] then Some(n)
    else if p[0] < |n.children| then NodeAt(n.children[p[0]], p[1..])
    else None
  }

  /** A node strictly above the position satisfies `f`. */
  predicate Above(n: Node, p: Path, f: Node -> bool) {
    exists k :: 0 <= k < |p| && NodeAt(n, p[..k]).Some? && f(NodeAt(n, p[..k]).value)
  }

  lemma ChildPath(n: Node, i: nat, q: Path)
    requires i < |n.children|
    ensures NodeAt(n, [i] + q) == NodeAt(n.children[i], q)
    ensures forall k: nat :: k <= |q| ==> NodeAt(n, ([i] + q)[..k + 1]) == NodeAt(n.children[i], q[..k])
  {
    assert ([i] + q)[1..] == q;
    forall k: nat | k <= |q| ensures NodeAt(n, ([i] + q)[..k + 1]) == NodeAt(n.children[i], q[..k]) {
      assert ([i] + q)[..k + 1] == [i] + q[..k];
      assert ([i] + q[..k])[1..] == q[..k];
    }
  }

  /** What lies above a position below a child: the node itself, or what lies above it there. */
  lemma AboveChild(n: Node, i: nat, q: Path, f: Node -> bool)
    requires i < |n.children|
    ensures Above(n, [i] + q, f) <==> f(n) || Above(n.children[i], q, f)
  {
    var p := [i] + q;
    ChildPath(n, i, q);
    assert p[..0] == [] && NodeAt(n, p[..0]) == Some(n);
    if Above(n.children[i], q, f) {
      var k: nat :| 0 <= k < |q| && NodeAt(n.children[i], q[..k]).Some? && f(NodeAt(n.children[i], q[..k]).value);
      assert NodeAt(n, p[..k + 1]) == NodeAt(n.children[i], q[..k]);
    }
    if Above(n, p, f) && !f(n) {
      var k: nat :| 0 <= k < |p| && NodeAt(n, p[..k]).Some? && f(NodeAt(n, p[..k]).value);
      assert k > 0 && NodeAt(n, p[..k - 1 + 1]) == NodeAt(n.children[i], q[..k - 1]);
    }
  }

  /** A position that is not the root lies below a child. */
  lemma SplitPath(n: Node, p: Path)
    requires p != [] && NodeAt(n, p).Some?
    ensures p[0] < |n.children| && p == [p[0]] + p[1..] && NodeAt(n.children[p[0]], p[1..]) == NodeAt(n, p)
  {
  }

  lemma {:induction false} PrefixExists(n: Node, p: Path, k: nat)
    requires NodeAt(n, p).Some? && k <= |p|
    ensures NodeAt(n, p[..k]).Some?
    decreases k
  {
    if k > 0 {
      SplitPath(n, p);
      PrefixExists(n.children[p[0]], p[1..], k - 1);
      assert p[..k] == [p[0]] + p[1..][..k - 1];
      ChildPath(n, p[0], p[1..][..k - 1]);
    }
  }
}
