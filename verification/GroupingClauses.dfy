/** From the GROUP BY clause to the output: which keys lie in a grouping set, and which output
    columns are re-marked on their account. */
module GroupingClauses {
  import opened Wrappers
  import opened Identifier
  import opened Ast
  import opened Semantics
  import opened Infer
  import opened Scopes
  import opened References
  import opened Grouping
  import opened GroupingTheorems
  import opened GroupingSets
  import opened NodePaths
  import opened GroupingPaths

  // ----- Positions in the clause -----

  function ItemAt(items: seq<GroupItem>, p: Path): Option<GroupItem>
    decreases |p|
  {
    if p == [] || p[0] >= |items| then None
    else if |p| == 1 then Some(items[p[0]])
    else
      match items[p[0]]
      case Leaf(_) => None
      case Wrapper(_, inner) => ItemAt(inner, p[1..])
  }

  predicate IsElement(item: Option<GroupItem>) {
    item.Some? && item.value.Wrapper? && item.value.isElement
  }

  /** A grouping element encloses the position. */
  predicate Enclosed(items: seq<GroupItem>, p: Path) {
    exists k :: 0 < k < |p| && IsElement(ItemAt(items, p[..k]))
  }

  predicate IsLeafAt(items: seq<GroupItem>, p: Path, n: Node) {
    ItemAt(items, p) == Some(GroupItem.Leaf(n))
  }

  lemma InnerPath(items: seq<GroupItem>, i: nat, q: Path)
    requires i < |items| && q != []
    ensures ItemAt(items, [i] + q) == if items[i].Wrapper? then ItemAt(items[i].items, q) else None
    ensures items[i].Wrapper? ==> (Enclosed(items, [i] + q) <==> items[i].isElement || Enclosed(items[i].items, q))
  {
    var p := [i] + q;
    assert p[1..] == q;
    if items[i].Wrapper? {
      assert p[..1] == [i] && ItemAt(items, p[..1]) == Some(items[i]);
      forall k | 0 < k < |q| ensures ItemAt(items, p[..k + 1]) == ItemAt(items[i].items, q[..k]) {
        assert p[..k + 1] == [i] + q[..k];
        assert ([i] + q[..k])[1..] == q[..k];
      }
      if Enclosed(items, p) {
        var k :| 0 < k < |p| && IsElement(ItemAt(items, p[..k]));
        if k > 1 {
          assert IsElement(ItemAt(items[i].items, q[..k - 1]));
        }
      }
      if Enclosed(items[i].items, q) {
        var k :| 0 < k < |q| && IsElement(ItemAt(items[i].items, q[..k]));
        assert IsElement(ItemAt(items, p[..k + 1]));
      }
    }
  }

  lemma OwnPath(items: seq<GroupItem>, i: nat)
    requires i < |items|
    ensures ItemAt(items, [i]) == Some(items[i]) && !Enclosed(items, [i])
  {
  }

  /** Positions in the tail of the list, one further on. */
  function Shifted(p: Path): Path
    requires p != []
  {
    [p[0] + 1] + p[1..]
  }

  lemma ShiftedPath(items: seq<GroupItem>, p: Path)
    requires items != [] && p != []
    ensures ItemAt(items, Shifted(p)) == ItemAt(items[1..], p)
    ensures Enclosed(items, Shifted(p)) <==> Enclosed(items[1..], p)
  {
    var s := Shifted(p);
    forall k | 0 < k <= |p| ensures ItemAt(items, s[..k]) == ItemAt(items[1..], p[..k]) {
      assert s[..k][1..] == p[..k][1..];
    }
    assert s[..|p|] == s && p[..|p|] == p;
    if Enclosed(items, s) {
      var k :| 0 < k < |s| && IsElement(ItemAt(items, s[..k]));
      assert IsElement(ItemAt(items[1..], p[..k]));
    }
    if Enclosed(items[1..], p) {
      var k :| 0 < k < |p| && IsElement(ItemAt(items[1..], p[..k]));
      assert IsElement(ItemAt(items, s[..k]));
    }
  }

  lemma {:induction false} ImageSize(s: set<Path>, f: Path -> Path)
    requires forall p, q :: p in s && q in s && f(p) == f(q) ==> p == q
    ensures |set p | p in s :: f(p)| == |s|
  {
    if s != {} {
      var x :| x in s;
      ImageSize(s - {x}, f);
      assert (set p | p in s :: f(p)) == (set p | p in s - {x} :: f(p)) + {f(x)};
    }
  }

  // ----- How often a key comes out -----

  /** The positions of the leaf `n` that are marked, or unmarked; with `inSet` the whole list lies
      in a grouping element. */
  ghost predicate AreLeafPaths(paths: set<Path>, items: seq<GroupItem>, inSet: bool, n: Node, marked: bool) {
    forall p: Path :: p in paths <==> IsLeafAt(items, p, n) && ((inSet || Enclosed(items, p)) == marked)
  }

  lemma {:induction false} LeavesUnder(item: GroupItem, inSet: bool, n: Node, marked: bool) returns (paths: set<Path>)
    ensures |paths| == KeysUnder(item, inSet)[EffectiveKey(n, marked)]
    ensures forall p: Path :: p in paths <==>
              p != [] && p[0] == 0 && IsLeafAt([item], p, n) && ((inSet || Enclosed([item], p)) == marked)
    decreases item, 1
  {
    hide Enclosed;
    match item {
      case Leaf(m) =>
        OwnPath([item], 0);
        paths := if m == n && inSet == marked then {[0]} else {};
        forall p: Path | p != [] && p[0] == 0 && IsLeafAt([item], p, n) ensures p == [0] {
        }
      case Wrapper(isElement, items) =>
        var inner := LeafPaths(items, inSet || isElement, n, marked);
        var f: Path -> Path := (q: Path) => [0] + q;
        forall p, q | p in inner && q in inner && f(p) == f(q) ensures p == q {
          assert f(p)[1..] == p && f(q)[1..] == q;
        }
        ImageSize(inner, f);
        paths := set q | q in inner :: f(q);
        forall q: Path | q != [] ensures IsLeafAt([item], [0] + q, n) <==> IsLeafAt(items, q, n)
          ensures Enclosed([item], [0] + q) <==> isElement || Enclosed(items, q)
        {
          InnerPath([item], 0, q);
        }
        forall p: Path | p != [] && p[0] == 0 && IsLeafAt([item], p, n) && ((inSet || Enclosed([item], p)) == marked) ensures p in paths {
          var q := p[1..];
          assert p == [0] + q;
          assert q in inner && f(q) == p;
        }
        forall p | p in paths ensures p != [] && p[0] == 0 && IsLeafAt([item], p, n) && ((inSet || Enclosed([item], p)) == marked) {
          var q :| q in inner && f(q) == p;
        }
    }
  }

  /** A key comes out of the clause as often as its leaf stands there, marked exactly where a
      grouping element encloses it. */
  lemma {:induction false} LeafPaths(items: seq<GroupItem>, inSet: bool, n: Node, marked: bool) returns (paths: set<Path>)
    ensures AreLeafPaths(paths, items, inSet, n, marked)
    ensures |paths| == KeysOfItems(items, inSet)[EffectiveKey(n, marked)]
    decreases items, 0
  {
    hide Enclosed, KeysUnder, IsLeafAt, ItemAt;
    paths := {};
    if items == [] {
      NoLeaves(n);
    } else {
      var first := LeavesUnder(items[0], inSet, n, marked);
      var rest := LeafPaths(items[1..], inSet, n, marked);
      var later := LaterPaths(items, inSet, n, marked, rest);
      FirstPaths(items, inSet, n, marked, first);
      paths := first + later;
      assert first * later == {};
      forall p: Path | IsLeafAt(items, p, n) ensures p != [] {
        LeafSomewhere(items, p, n);
      }
    }
  }

  lemma NoLeaves(n: Node)
    ensures forall p: Path :: !IsLeafAt([], p, n)
  {
  }

  lemma LeafSomewhere(items: seq<GroupItem>, p: Path, n: Node)
    requires IsLeafAt(items, p, n)
    ensures p != []
  {
  }

  lemma FirstPaths(items: seq<GroupItem>, inSet: bool, n: Node, marked: bool, first: set<Path>)
    requires items != []
    requires forall p: Path :: p in first <==>
              p != [] && p[0] == 0 && IsLeafAt([items[0]], p, n) && ((inSet || Enclosed([items[0]], p)) == marked)
    ensures forall p: Path :: p in first <==>
              p != [] && p[0] == 0 && IsLeafAt(items, p, n) && ((inSet || Enclosed(items, p)) == marked)
  {
    hide Enclosed;
    forall p: Path | p != [] && p[0] == 0
      ensures IsLeafAt([items[0]], p, n) <==> IsLeafAt(items, p, n)
      ensures Enclosed([items[0]], p) <==> Enclosed(items, p)
    {
      HeadPath(items, p);
    }
  }

  lemma HeadPath(items: seq<GroupItem>, p: Path)
    requires items != [] && p != [] && p[0] == 0
    ensures ItemAt([items[0]], p) == ItemAt(items, p)
    ensures Enclosed([items[0]], p) <==> Enclosed(items, p)
  {
    forall k | 0 < k <= |p| ensures ItemAt([items[0]], p[..k]) == ItemAt(items, p[..k]) {
    }
    assert p[..|p|] == p;
  }

  lemma LaterPaths(items: seq<GroupItem>, inSet: bool, n: Node, marked: bool, rest: set<Path>) returns (later: set<Path>)
    requires items != [] && AreLeafPaths(rest, items[1..], inSet, n, marked)
    ensures |later| == |rest|
    ensures forall p: Path :: p in later <==>
              p != [] && p[0] > 0 && IsLeafAt(items, p, n) && ((inSet || Enclosed(items, p)) == marked)
  {
    hide Enclosed;
    var f: Path -> Path := (q: Path) => if q == [] then [] else Shifted(q);
    forall p, q | p in rest && q in rest && f(p) == f(q) ensures p == q {
      assert IsLeafAt(items[1..], p, n) && IsLeafAt(items[1..], q, n);
      ShiftedOnce(p, q);
    }
    ImageSize(rest, f);
    later := set q | q in rest :: f(q);
    forall q: Path | q != []
      ensures IsLeafAt(items, Shifted(q), n) <==> IsLeafAt(items[1..], q, n)
      ensures Enclosed(items, Shifted(q)) <==> Enclosed(items[1..], q)
    {
      ShiftedPath(items, q);
    }
    forall p: Path | p != [] && p[0] > 0 && IsLeafAt(items, p, n) && ((inSet || Enclosed(items, p)) == marked) ensures p in later {
      var q := [p[0] - 1] + p[1..];
      assert Shifted(q) == p;
      assert q in rest && f(q) == p;
    }
    forall p | p in later ensures p != [] && p[0] > 0 && IsLeafAt(items, p, n) && ((inSet || Enclosed(items, p)) == marked) {
      var q :| q in rest && f(q) == p;
      assert q != [];
    }
  }

  lemma ShiftedOnce(p: Path, q: Path)
    requires p != [] && q != [] && Shifted(p) == Shifted(q)
    ensures p == q
  {
    assert p == [Shifted(p)[0] - 1] + Shifted(p)[1..] && q == [Shifted(q)[0] - 1] + Shifted(q)[1..];
  }

  /** `EffectiveKey(n, true)` comes out as often as the clause has the leaf under a grouping
      element, `EffectiveKey(n, false)` as often as it has it outside. */
  lemma KeysAreExact(clause: seq<GroupItem>, n: Node, marked: bool) returns (paths: set<Path>)
    ensures forall p: Path :: p in paths <==> IsLeafAt(clause, p, n) && Enclosed(clause, p) == marked
    ensures |paths| == KeysOfItems(clause, false)[EffectiveKey(n, marked)]
  {
    hide Enclosed;
    paths := LeafPaths(clause, false, n, marked);
  }

  // ----- The keys handed to the re-mark -----

  lemma {:induction false} MarkedNodesAre(keys: seq<EffectiveKey>, n: Node)
    ensures n in MarkedNodes(keys) <==> EffectiveKey(n, true) in keys
  {
    if keys != [] {
      MarkedNodesAre(keys[..|keys| - 1], n);
      assert keys == keys[..|keys| - 1] + [keys[|keys| - 1]];
    }
  }

  /** The key stands under a grouping element of the clause. */
  ghost predicate InGroupingSet(clause: seq<GroupItem>, n: Node) {
    exists p: Path :: IsLeafAt(clause, p, n) && Enclosed(clause, p)
  }

  /** Exactly the keys under a grouping element are handed to the re-mark. */
  lemma HandedKeysAreExact(clause: seq<GroupItem>, keys: seq<EffectiveKey>, n: Node)
    requires multiset(keys) == KeysOfItems(clause, false)
    ensures n in MarkedNodes(keys) <==> InGroupingSet(clause, n)
  {
    hide Enclosed, KeysOfItems;
    var paths := KeysAreExact(clause, n, true);
    MarkedNodesAre(keys, n);
    assert EffectiveKey(n, true) in keys <==> multiset(keys)[EffectiveKey(n, true)] > 0;
    if p: Path :| IsLeafAt(clause, p, n) && Enclosed(clause, p) {
      assert p in paths;
    }
    if paths != {} {
      var p :| p in paths;
      assert IsLeafAt(clause, p, n) && Enclosed(clause, p);
    }
  }

  lemma {:induction false} SetIdsAre(nodes: seq<Node>, chain: seq<seq<Binding>>, id: Identity)
    ensures id in SetIds(nodes, chain) <==> id != Identity(0, 0) && exists n <- nodes :: NodeIdentity(chain, n) == id
  {
    hide NodeIdentity;
    if nodes != [] {
      SetIdsAre(nodes[..|nodes| - 1], chain, id);
      assert nodes == nodes[..|nodes| - 1] + [nodes[|nodes| - 1]];
    }
  }

  // ----- From the clause to the output -----

  /** The identity of a column that stands under a grouping element. */
  ghost predicate IsSetIdentity(clause: seq<GroupItem>, id: Identity, chain: seq<seq<Binding>>) {
    id != Identity(0, 0) && exists n: Node :: InGroupingSet(clause, n) && NodeIdentity(chain, n) == id
  }

  lemma HandedIdentities(clause: seq<GroupItem>, keys: seq<EffectiveKey>, chain: seq<seq<Binding>>, id: Identity)
    requires multiset(keys) == KeysOfItems(clause, false)
    ensures id in SetIds(MarkedNodes(keys), chain) <==> IsSetIdentity(clause, id, chain)
  {
    hide InGroupingSet, NodeIdentity, KeysOfItems, MarkedNodes;
    SetIdsAre(MarkedNodes(keys), chain, id);
    forall n: Node ensures n in MarkedNodes(keys) <==> InGroupingSet(clause, n) {
      HandedKeysAreExact(clause, keys, n);
    }
  }

  /** The output column is a key under a grouping element, or its expression reads one at some
      position outside aggregates, GROUPING calls and subqueries. */
  ghost predicate DependsOnSets(o: Output, clause: seq<GroupItem>, chain: seq<seq<Binding>>)
    requires OutputInBlock(chain, o)
  {
    || IsSetIdentity(clause, OutputIdentity(chain, o), chain)
    || (o.FromExpr? && exists p: Path :: SetColumnAt(o.node, clause, chain, p))
  }

  ghost predicate SetColumnAt(n: Node, clause: seq<GroupItem>, chain: seq<seq<Binding>>, p: Path) {
    && |p| < MAX_DEPTH && NodeAt(n, p).Some? && NodeAt(n, p).value.kind.ColumnRef?
    && IsSetIdentity(clause, IdentityOf(chain, NodeAt(n, p).value.text), chain)
    && !Above(n, p, IsAggregate) && !Above(n, p, IsIndicator) && !Above(n, p, IsSubquery) && !Above(n, p, IsColumn)
  }

  /** From clause to output, exactly the columns that depend on a grouping set are re-marked. */
  lemma RemarkIsExact(o: Output, clause: seq<GroupItem>, keys: seq<EffectiveKey>, chain: seq<seq<Binding>>)
    requires OutputInBlock(chain, o) && multiset(keys) == KeysOfItems(clause, false)
    ensures Remark(o, SetIds(MarkedNodes(keys), chain), chain).nullable <==> o.nullable || DependsOnSets(o, clause, chain)
  {
    hide SetIds, MarkedNodes, KeysOfItems, IsSetIdentity, ReadsKey, OutputIdentity, IdentityOf, Above;
    var ids := SetIds(MarkedNodes(keys), chain);
    forall id: Identity ensures id in ids <==> IsSetIdentity(clause, id, chain) {
      HandedIdentities(clause, keys, chain, id);
    }
    if o.FromExpr? {
      ReadsAreExact(o.node, ids, chain, false, 0);
      if p: Path :| ReadAt(o.node, ids, chain, false, p, 0) {
        assert SetColumnAt(o.node, clause, chain, p);
      }
      if p: Path :| SetColumnAt(o.node, clause, chain, p) {
        assert ReadAt(o.node, ids, chain, false, p, 0);
      }
    }
  }

  /** The slots are identified columns that stand under a grouping element of the clause. */
  ghost predicate SlotsOfClause(slots: set<Slot>, clause: seq<GroupItem>, chain: seq<seq<Binding>>) {
    forall s :: s in slots ==> exists n: Node ::
      InGroupingSet(clause, n) && n.kind.ColumnRef? && SlotOf(chain, n.text) == Some(s) && IdentityOf(chain, n.text) != Identity(0, 0)
  }

  lemma SlotsAreHanded(slots: set<Slot>, clause: seq<GroupItem>, keys: seq<EffectiveKey>, chain: seq<seq<Binding>>)
    requires SlotsOfClause(slots, clause, chain) && multiset(keys) == KeysOfItems(clause, false)
    ensures SlotsOfKeys(slots, MarkedNodes(keys), chain)
  {
    hide InGroupingSet, MarkedNodes, KeysOfItems, SlotOf, IdentityOf;
    var nodes := MarkedNodes(keys);
    forall s | s in slots ensures IsKeySlot(s, nodes, chain) {
      var n: Node :| InGroupingSet(clause, n) && n.kind.ColumnRef? && SlotOf(chain, n.text) == Some(s) && IdentityOf(chain, n.text) != Identity(0, 0);
      HandedKeysAreExact(clause, keys, n);
      var k :| 0 <= k < |nodes| && nodes[k] == n;
    }
  }

  /** From clause to rows: an output column left NOT NULL is NULL in no super-aggregate row,
      whichever identified columns under grouping elements are nulled there. */
  lemma ClauseOutputIsSound(o: Output, clause: seq<GroupItem>, keys: seq<EffectiveKey>, slots: set<Slot>, chain: seq<seq<Binding>>, f: Facts, base: Env, row: Row)
    requires OutputInBlock(chain, o) && multiset(keys) == KeysOfItems(clause, false) && SlotsOfClause(slots, clause, chain)
    requires Claimed(o, f, row) && Respects(InRow(base, chain, row), f)
    requires !Remark(o, SetIds(MarkedNodes(keys), chain), chain).nullable
    ensures OutputValue(o, chain, base, Nulled(row, slots)) != Null
  {
    hide Claimed, Respects, SlotsOfClause, SlotsOfKeys, Remark, SetIds, MarkedNodes, KeysOfItems, OutputValue, InRow, OutputInBlock;
    SlotsAreHanded(slots, clause, keys, chain);
    NotNullSurvivesGroupingSets(o, MarkedNodes(keys), slots, chain, f, base, row);
  }
}
