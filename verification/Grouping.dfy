/** GROUP BY legality: when an expression is one of the grouping keys, and which columns of an
    expression no key covers. */
module Grouping {
  import opened Wrappers
  import opened Identifier
  import opened Types
  import opened Ast
  import opened Semantics
  import opened Infer
  import opened Scopes
  import opened References

  // ----- Keys -----

  /** Where a grouping key comes from: an expression (written directly or through its output
      alias), an item named by position, or a star-expanded column named by position. */
  datatype KeySource =
    | Written(node: Node)
    | Item(node: Node, name: string)
    | StarColumn(rel: nat, col: nat)

  /** What the legality pass remembers of a key. */
  datatype GroupKey = GroupKey(id: Identity, text: string, instance: string, node: Option<Node>)

  function NodeIdentity(chain: seq<seq<Binding>>, n: Node): Identity {
    if n.kind.ColumnRef? then IdentityOf(chain, n.text) else Identity(0, 0)
  }

  predicate InBlock(chain: seq<seq<Binding>>, src: KeySource) {
    src.StarColumn? ==> chain != [] && src.rel < |chain[0]| && src.col < |chain[0][src.rel].columns|
  }

  function KeyOf(chain: seq<seq<Binding>>, src: KeySource): GroupKey
    requires InBlock(chain, src)
  {
    match src
    case Written(n) => GroupKey(NodeIdentity(chain, n), n.text, "", Some(n))
    case Item(n, name) =>
      GroupKey(NodeIdentity(chain, n), if n.kind.ColumnRef? then n.text else name, "", Some(n))
    case StarColumn(i, j) =>
      var c := chain[0][i].columns[j];
      GroupKey(Identity(c.tableId, c.columnId), c.name, chain[0][i].Qualifier(), None)
  }

  function KeysOf(chain: seq<seq<Binding>>, srcs: seq<KeySource>): (r: seq<GroupKey>)
    requires forall s <- srcs :: InBlock(chain, s)
    ensures |r| == |srcs| && forall i :: 0 <= i < |srcs| ==> r[i] == KeyOf(chain, srcs[i])
  {
    seq(|srcs|, i requires 0 <= i < |srcs| => KeyOf(chain, srcs[i]))
  }

  function KeyQualifier(k: GroupKey): string {
    if k.instance != "" then k.instance else QualifierOf(k.text)
  }

  // ----- Matching -----

  /** Does a column reference match a key? By identity where both have one, else by text. */
  predicate KeyMatches(k: GroupKey, chain: seq<seq<Binding>>, text: string) {
    var id := IdentityOf(chain, text);
    if id.column != 0 && k.id.column != 0 then
      && id == k.id
      && SameInstance(QualifierOf(text), KeyQualifier(k))
      && IEquals(NameOf(text), NameOf(k.text))
    else IEquals(text, k.text)
  }

  predicate SameColumnRef(chain: seq<seq<Binding>>, a: string, b: string) {
    var ia, ib := IdentityOf(chain, a), IdentityOf(chain, b);
    if ia.column != 0 && ib.column != 0 then
      ia == ib && SameInstance(QualifierOf(a), QualifierOf(b)) && IEquals(NameOf(a), NameOf(b))
    else IEquals(a, b)
  }

  predicate SameHead(e: Node, k: Node) {
    e.kind == k.kind && if e.kind.FunctionCall? then IEquals(e.text, k.text) else e.text == k.text
  }

  /** Is `e` the key expression `k`? */
  predicate GroupEqual(e: Node, k: Node, chain: seq<seq<Binding>>, d: nat)
    decreases e, 1
  {
    if d >= MAX_DEPTH then false
    else if e.kind.ColumnRef? && k.kind.ColumnRef? then SameColumnRef(chain, e.text, k.text)
    else SameHead(e, k) && |e.children| == |k.children| && GroupEqualFrom(e, k, 0, chain, d + 1)
  }

  predicate GroupEqualFrom(e: Node, k: Node, i: nat, chain: seq<seq<Binding>>, d: nat)
    requires |e.children| == |k.children|
    decreases e, 0, |e.children| - i
  {
    i >= |e.children| || (GroupEqual(e.children[i], k.children[i], chain, d) && GroupEqualFrom(e, k, i + 1, chain, d))
  }

  /** The sibling walk of the comparison. */
  method GroupExprEqual(e: Node, k: Node, chain: seq<seq<Binding>>, d: nat) returns (same: bool)
    ensures same == GroupEqual(e, k, chain, d)
    decreases e
  {
    if d >= MAX_DEPTH {
      return false;
    }
    if e.kind.ColumnRef? && k.kind.ColumnRef? {
      return SameColumnRef(chain, e.text, k.text);
    }
    if !SameHead(e, k) {
      return false;
    }
    var i := 0;
    while i < |e.children| && i < |k.children|
      invariant 0 <= i <= |e.children| && i <= |k.children|
      invariant |e.children| == |k.children| ==> GroupEqualFrom(e, k, 0, chain, d + 1) == GroupEqualFrom(e, k, i, chain, d + 1)
    {
      var equal := GroupExprEqual(e.children[i], k.children[i], chain, d + 1);
      if !equal {
        return false;
      }
      i := i + 1;
    }
    return i == |e.children| && i == |k.children|;
  }

  // ----- The legality pass -----

  datatype Finding = NonGroupedColumn(node: Node) | NestedAggregate(node: Node)

  predicate IsKey(n: Node, keys: seq<GroupKey>, chain: seq<seq<Binding>>) {
    exists i :: 0 <= i < |keys| && keys[i].node.Some? && GroupEqual(n, keys[i].node.value, chain, 0)
  }

  predicate Covered(text: string, keys: seq<GroupKey>, chain: seq<seq<Binding>>) {
    exists i :: 0 <= i < |keys| && KeyMatches(keys[i], chain, text)
  }

  predicate IsAggregate(n: Node) {
    n.kind.FunctionCall? && IsAggregateName(Fold(n.text))
  }

  /** Columns under an aggregate are exempt; an aggregate under an aggregate is not. */
  function Violations(n: Node, keys: seq<GroupKey>, chain: seq<seq<Binding>>, exempt: bool, inAggregate: bool, d: nat): seq<Finding>
    decreases n, 1
  {
    if d >= MAX_DEPTH || n.kind.Subquery? then []
    else if !exempt && IsKey(n, keys, chain) then []
    else if n.kind.FunctionCall? then
      (if IsAggregate(n) && inAggregate then [NestedAggregate(n)] else [])
      + ViolationsFrom(n, 0, keys, chain, exempt || IsAggregate(n), inAggregate || IsAggregate(n), d + 1)
    else if n.kind.ColumnRef? then
      if exempt || Covered(n.text, keys, chain) then [] else [NonGroupedColumn(n)]
    else ViolationsFrom(n, 0, keys, chain, exempt, inAggregate, d + 1)
  }

  function ViolationsFrom(n: Node, i: nat, keys: seq<GroupKey>, chain: seq<seq<Binding>>, exempt: bool, inAggregate: bool, d: nat): seq<Finding>
    decreases n, 0, |n.children| - i
  {
    if i >= |n.children| then []
    else
      Violations(n.children[i], keys, chain, exempt, inAggregate, d)
      + ViolationsFrom(n, i + 1, keys, chain, exempt, inAggregate, d)
  }

  /** The pass itself, with the depth counter it shares with inference. */
  class GroupingCheck {
    const keys: seq<GroupKey>
    const chain: seq<seq<Binding>>
    var depth: nat
    var findings: seq<Finding>

    constructor (keys: seq<GroupKey>, chain: seq<seq<Binding>>)
      ensures this.keys == keys && this.chain == chain && depth == 0 && findings == []
    {
      this.keys, this.chain := keys, chain;
      depth, findings := 0, [];
    }

    method IsWholeKey(n: Node) returns (r: bool)
      ensures r == IsKey(n, keys, chain)
    {
      hide GroupEqual;
      for i := 0 to |keys|
        invariant forall j :: 0 <= j < i ==> !(keys[j].node.Some? && GroupEqual(n, keys[j].node.value, chain, 0))
      {
        if keys[i].node.Some? {
          var same := GroupExprEqual(n, keys[i].node.value, chain, 0);
          if same {
            return true;
          }
        }
      }
      return false;
    }

    method IsCovered(text: string) returns (r: bool)
      ensures r == Covered(text, keys, chain)
    {
      hide KeyMatches;
      for i := 0 to |keys|
        invariant forall j :: 0 <= j < i ==> !KeyMatches(keys[j], chain, text)
      {
        if KeyMatches(keys[i], chain, text) {
          return true;
        }
      }
      return false;
    }

    method CheckGroupingExpr(n: Node, exempt: bool, inAggregate: bool)
      modifies this
      ensures depth == old(depth)
      ensures findings == old(findings) + Violations(n, keys, chain, exempt, inAggregate, depth)
      decreases n, 1
    {
      hide IsKey, Covered, IsAggregate, ViolationsFrom;
      if depth >= MAX_DEPTH || n.kind.Subquery? {
        return;
      }
      if !exempt {
        var whole := IsWholeKey(n);
        if whole {
          return;
        }
      }
      if n.kind.FunctionCall? {
        var aggregate := IsAggregate(n);
        if aggregate && inAggregate {
          findings := findings + [NestedAggregate(n)];
        }
        CheckChildren(n, exempt || aggregate, inAggregate || aggregate);
      } else if n.kind.ColumnRef? {
        if !exempt {
          var covered := IsCovered(n.text);
          if !covered {
            findings := findings + [NonGroupedColumn(n)];
          }
        }
      } else {
        CheckChildren(n, exempt, inAggregate);
      }
    }

    method CheckChildren(n: Node, exempt: bool, inAggregate: bool)
      modifies this
      ensures depth == old(depth)
      ensures findings == old(findings) + ViolationsFrom(n, 0, keys, chain, exempt, inAggregate, depth + 1)
      decreases n, 0
    {
      hide Violations;
      depth := depth + 1;
      for i := 0 to |n.children|
        invariant depth == old(depth) + 1
        invariant findings + ViolationsFrom(n, i, keys, chain, exempt, inAggregate, depth)
                  == old(findings) + ViolationsFrom(n, 0, keys, chain, exempt, inAggregate, depth)
      {
        ghost var before := findings;
        CheckGroupingExpr(n.children[i], exempt, inAggregate);
        Regrouped(before, Violations(n.children[i], keys, chain, exempt, inAggregate, depth),
                ViolationsFrom(n, i + 1, keys, chain, exempt, inAggregate, depth));
      }
      depth := depth - 1;
    }
  }

  // ----- Stars -----

  predicate CoversStarColumn(k: GroupKey, b: Binding, c: Column) {
    if c.columnId != 0 && k.id.column != 0 then
      && Identity(c.tableId, c.columnId) == k.id
      && SameInstance(b.Qualifier(), KeyQualifier(k)) && IEquals(NameOf(c.name), NameOf(k.text))
    else SameInstance(b.Qualifier(), KeyQualifier(k)) && IEquals(NameOf(c.name), NameOf(k.text))
  }

  /** Does a star with this qualifier show column `j` of relation `i`? */
  predicate StarShows(rels: seq<Binding>, qualifier: string, i: nat, j: nat) {
    && i < |rels| && j < |rels[i].columns|
    && (qualifier != "" ==> rels[i].MatchesQualifier(qualifier))
    && (qualifier == "" ==> !rels[i].columns[j].coalesced)
  }

  predicate StarColumnCovered(rels: seq<Binding>, keys: seq<GroupKey>, i: nat, j: nat)
    requires i < |rels| && j < |rels[i].columns|
  {
    exists k :: 0 <= k < |keys| && CoversStarColumn(keys[k], rels[i], rels[i].columns[j])
  }

  method IsStarColumnCovered(rels: seq<Binding>, keys: seq<GroupKey>, i: nat, j: nat) returns (r: bool)
    requires i < |rels| && j < |rels[i].columns|
    ensures r == StarColumnCovered(rels, keys, i, j)
  {
    hide CoversStarColumn;
    for k := 0 to |keys|
      invariant forall m :: 0 <= m < k ==> !CoversStarColumn(keys[m], rels[i], rels[i].columns[j])
    {
      if CoversStarColumn(keys[k], rels[i], rels[i].columns[j]) {
        return true;
      }
    }
    return false;
  }

  /** The ungrouped columns of a star: exactly the shown ones no key covers. */
  method CheckStar(rels: seq<Binding>, qualifier: string, keys: seq<GroupKey>) returns (bad: seq<(nat, nat)>)
    ensures forall i: nat, j: nat :: (i, j) in bad <==>
              StarShows(rels, qualifier, i, j) && !StarColumnCovered(rels, keys, i, j)
  {
    hide StarColumnCovered;
    bad := [];
    for i := 0 to |rels|
      invariant forall a: nat, b: nat :: (a, b) in bad <==>
                  a < i && StarShows(rels, qualifier, a, b) && !StarColumnCovered(rels, keys, a, b)
    {
      if qualifier != "" && !rels[i].MatchesQualifier(qualifier) {
        continue;
      }
      for j := 0 to |rels[i].columns|
        invariant forall a: nat, b: nat :: (a, b) in bad <==>
                    (a < i || (a == i && b < j)) && StarShows(rels, qualifier, a, b) && !StarColumnCovered(rels, keys, a, b)
      {
        if qualifier == "" && rels[i].columns[j].coalesced {
          continue;
        }
        var covered := IsStarColumnCovered(rels, keys, i, j);
        if !covered {
          bad := bad + [(i, j)];
        }
      }
    }
  }
}
