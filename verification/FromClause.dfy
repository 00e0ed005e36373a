/** How a FROM clause fills a scope: relations are appended to one flat list, and each join
    marks index ranges of that list. */
module FromClause {
  import opened Wrappers
  import opened Identifier
  import opened Scopes

  datatype JoinKind = Inner | Cross | Left | Right | Full {
    /** RIGHT and FULL joins null-supply their left operand. */
    predicate NullsLeft() { Right? || Full? }

    /** LEFT and FULL joins null-supply their right operand. */
    predicate NullsRight() { Left? || Full? }
  }

  datatype Condition = On | Using(names: seq<string>) | Natural

  /** A FROM item: a relation, a parenthesised group, or a join extending the items before it. */
  datatype FromItem =
    | Relation(binding: Binding)
    | Group(items: seq<FromItem>)
    | Join(kind: JoinKind, right: Binding, cond: Condition)

  predicate StartsCommaGroup(item: FromItem) {
    !item.Join?
  }

  // ----- USING and NATURAL -----

  datatype Slot = Slot(rel: nat, col: nat)

  predicate NameAt(rels: seq<Binding>, i: nat, j: nat, name: string) {
    i < |rels| && j < |rels[i].columns| && IEquals(rels[i].columns[j].name, name)
  }

  /** The slot the search over `[begin, end)` ends on: the last relation exposing the name. */
  function LastHit(rels: seq<Binding>, begin: nat, end: nat, name: string): (r: Option<Slot>)
    requires begin <= end <= |rels|
    ensures r.Some? ==> begin <= r.value.rel < end && NameAt(rels, r.value.rel, r.value.col, name)
    ensures r.None? ==> forall i, j :: begin <= i < end ==> !NameAt(rels, i, j, name)
    decreases end
  {
    if begin == end then None
    else
      match rels[end - 1].FindColumn(name)
      case Some(j) => Some(Slot(end - 1, j))
      case None => LastHit(rels, begin, end - 1, name)
  }

  /** No later relation of the range exposes the name. */
  lemma {:induction false} LastHitIsLast(rels: seq<Binding>, begin: nat, end: nat, name: string)
    requires begin <= end <= |rels| && LastHit(rels, begin, end, name).Some?
    ensures forall i, j :: LastHit(rels, begin, end, name).value.rel < i < end ==> !NameAt(rels, i, j, name)
    decreases end
  {
    if rels[end - 1].FindColumn(name).None? {
      LastHitIsLast(rels, begin, end - 1, name);
    }
  }

  /** The nullability recorded for COALESCE(left, right). */
  function MergedNullable(kind: JoinKind, left: bool, right: bool): bool {
    if kind.NullsLeft() && kind.NullsRight() then left || right
    else if kind.NullsLeft() then right
    else left
  }

  /** Merge the left copy at nullability `left` with the right column `rj` of that name. */
  function MergeAt(rels: seq<Binding>, n: nat, name: string, left: bool, right: bool, kind: JoinKind): (r: seq<Binding>)
    ensures |r| == |rels|
    ensures forall i :: 0 <= i < |rels| ==> |r[i].columns| == |rels[i].columns|
  {
    MapRange(Coalesce(name), MapRange(Merge(name, MergedNullable(kind, left, right)), rels, 0, n), n, |rels|)
  }

  function MergeName(rels: seq<Binding>, n: nat, name: string, kind: JoinKind): (r: seq<Binding>)
    requires n <= |rels|
    ensures |r| == |rels|
  {
    var l, r := LastHit(rels, 0, n, name), LastHit(rels, n, |rels|, name);
    if l.None? || r.None? then rels
    else
      MergeAt(rels, n, name, rels[l.value.rel].columns[l.value.col].nullable,
              rels[r.value.rel].columns[r.value.col].nullable, kind)
  }

  function MergeNames(rels: seq<Binding>, n: nat, names: seq<string>, kind: JoinKind): (r: seq<Binding>)
    requires n <= |rels|
    ensures |r| == |rels|
    decreases names
  {
    if names == [] then rels
    else MergeNames(MergeName(rels, n, names[0], kind), n, names[1..], kind)
  }

  predicate SlotsIn(slots: seq<Slot>, rels: seq<Binding>, n: nat)
    requires n <= |rels|
  {
    forall k :: 0 <= k < |slots| ==> slots[k].rel < n && slots[k].col < |rels[slots[k].rel].columns|
  }

  function RelationSlots(i: nat, m: nat): (r: seq<Slot>)
    ensures |r| == m && forall j :: 0 <= j < m ==> r[j] == Slot(i, j)
  {
    seq(m, (j: nat) => Slot(i, j))
  }

  /** The columns of `rels[..n]` in the order a nested loop visits them. */
  function SlotsOf(rels: seq<Binding>, n: nat): (r: seq<Slot>)
    requires n <= |rels|
    ensures SlotsIn(r, rels, n)
  {
    if n == 0 then []
    else SlotsOf(rels, n - 1) + RelationSlots(n - 1, |rels[n - 1].columns|)
  }

  /** NATURAL visits every left column and merges those the right side exposes too. */
  function MergeSlots(rels: seq<Binding>, n: nat, slots: seq<Slot>, kind: JoinKind): (r: seq<Binding>)
    requires n < |rels| && SlotsIn(slots, rels, n)
    ensures |r| == |rels|
    decreases slots
  {
    if slots == [] then rels
    else
      var c := rels[slots[0].rel].columns[slots[0].col];
      match rels[n].FindColumn(c.name)
      case None => MergeSlots(rels, n, slots[1..], kind)
      case Some(rj) =>
        var merged := MergeAt(rels, n, c.name, c.nullable, rels[n].columns[rj].nullable, kind);
        MergeSlots(merged, n, slots[1..], kind)
  }

  // ----- The flat walk -----

  function MarkSides(kind: JoinKind, rels: seq<Binding>, start: nat, n: nat): (r: seq<Binding>)
    requires start <= n <= |rels|
    ensures |r| == |rels|
    ensures forall i :: 0 <= i < |rels| ==>
      r[i] == if (start <= i < n && kind.NullsLeft()) || (n <= i && kind.NullsRight()) then NullSupply(rels[i]) else rels[i]
  {
    if kind.NullsLeft() then MapRange(NullSupply, rels, start, if kind.NullsRight() then |rels| else n)
    else if kind.NullsRight() then MapRange(NullSupply, rels, n, |rels|)
    else rels
  }

  /** Append the right relation, mark the null-supplied side, then merge shared columns. The
      left operand is `rels[start..]`: what a comma put before it keeps its nullability. */
  function ResolveJoin(kind: JoinKind, right: Binding, cond: Condition, rels: seq<Binding>, start: nat): (r: seq<Binding>)
    requires start <= |rels|
    ensures |r| == |rels| + 1
  {
    var n := |rels|;
    var marked := MarkSides(kind, rels + [right], start, n);
    match cond
    case On => marked
    case Using(names) => MergeNames(marked, n, names, kind)
    case Natural => MergeSlots(marked, n, SlotsOf(marked, n), kind)
  }

  function ResolveItem(item: FromItem, rels: seq<Binding>, start: nat): (r: seq<Binding>)
    requires start <= |rels|
    ensures |rels| <= |r|
    decreases item
  {
    match item
    case Relation(b) => rels + [b]
    case Group(items) => ResolveItems(items, rels, |rels|)
    case Join(kind, right, cond) => ResolveJoin(kind, right, cond, rels, start)
  }

  function ResolveItems(items: seq<FromItem>, rels: seq<Binding>, start: nat): (r: seq<Binding>)
    requires start <= |rels|
    ensures |rels| <= |r|
    decreases items
  {
    if items == [] then rels
    else
      var s := if StartsCommaGroup(items[0]) then |rels| else start;
      ResolveItems(items[1..], ResolveItem(items[0], rels, s), s)
  }

  lemma {:induction false} ResolveItemsSnoc(items: seq<FromItem>, rels: seq<Binding>, start: nat, k: nat, s: nat)
    requires start <= |rels| && k < |items|
    requires s == GroupStart(items[..k], rels, start)
    ensures s <= |ResolveItems(items[..k], rels, start)|
    ensures var here := ResolveItems(items[..k], rels, start);
            var s' := if StartsCommaGroup(items[k]) then |here| else s;
            && GroupStart(items[..k + 1], rels, start) == s'
            && ResolveItems(items[..k + 1], rels, start) == ResolveItem(items[k], here, s')
    decreases k
  {
    if k == 0 {
      assert items[..1][1..] == [];
    } else {
      var s0 := if StartsCommaGroup(items[0]) then |rels| else start;
      var next := ResolveItem(items[0], rels, s0);
      assert items[..k][1..] == items[1..][..k - 1];
      assert items[..k + 1][1..] == items[1..][..k];
      ResolveItemsSnoc(items[1..], next, s0, k - 1, GroupStart(items[1..][..k - 1], next, s0));
    }
  }

  /** Where the current comma group begins once `items` have been walked. */
  function GroupStart(items: seq<FromItem>, rels: seq<Binding>, start: nat): (r: nat)
    requires start <= |rels|
    ensures r <= |ResolveItems(items, rels, start)|
    decreases items
  {
    if items == [] then start
    else
      var s := if StartsCommaGroup(items[0]) then |rels| else start;
      GroupStart(items[1..], ResolveItem(items[0], rels, s), s)
  }

  method FindLast(scope: Scope, begin: nat, end: nat, name: string) returns (hit: Option<Slot>)
    requires begin <= end <= |scope.relations|
    ensures hit == LastHit(scope.relations, begin, end, name)
  {
    hit := None;
    for i := begin to end
      invariant hit == LastHit(scope.relations, begin, i, name)
    {
      var c := scope.relations[i].FindColumn(name);
      if c.Some? {
        hit := Some(Slot(i, c.value));
      }
    }
  }

  method MergePair(scope: Scope, n: nat, name: string, left: bool, right: bool, kind: JoinKind)
    modifies scope`relations
    ensures scope.relations == MergeAt(old(scope.relations), n, name, left, right, kind)
  {
    scope.SetMergedColumnNullability(0, n, name, MergedNullable(kind, left, right));
    scope.MarkColumnCoalesced(n, |scope.relations|, name);
  }

  method MergeUsingName(scope: Scope, n: nat, name: string, kind: JoinKind)
    requires n <= |scope.relations|
    modifies scope`relations
    ensures scope.relations == MergeName(old(scope.relations), n, name, kind)
  {
    var l := FindLast(scope, 0, n, name);
    var r := FindLast(scope, n, |scope.relations|, name);
    if l.Some? && r.Some? {
      MergePair(scope, n, name, scope.relations[l.value.rel].columns[l.value.col].nullable,
                scope.relations[r.value.rel].columns[r.value.col].nullable, kind);
    }
  }

  method ResolveUsing(names: seq<string>, scope: Scope, n: nat, kind: JoinKind)
    requires n <= |scope.relations|
    modifies scope`relations
    ensures scope.relations == MergeNames(old(scope.relations), n, names, kind)
  {
    for k := 0 to |names|
      invariant n <= |scope.relations|
      invariant MergeNames(old(scope.relations), n, names, kind) == MergeNames(scope.relations, n, names[k..], kind)
    {
      assert names[k..][1..] == names[k + 1..];
      MergeUsingName(scope, n, names[k], kind);
    }
  }

  method ResolveNatural(scope: Scope, n: nat, kind: JoinKind)
    requires n + 1 == |scope.relations|
    modifies scope`relations
    ensures scope.relations == MergeSlots(old(scope.relations), n, SlotsOf(old(scope.relations), n), kind)
  {
    var slots := SlotsOf(scope.relations, n);
    for k := 0 to |slots|
      invariant |scope.relations| == n + 1 && SlotsIn(slots, scope.relations, n)
      invariant MergeSlots(old(scope.relations), n, slots, kind) == MergeSlots(scope.relations, n, slots[k..], kind)
    {
      assert slots[k..][1..] == slots[k + 1..];
      var c := scope.relations[slots[k].rel].columns[slots[k].col];
      var rj := scope.relations[n].FindColumn(c.name);
      if rj.Some? {
        MergePair(scope, n, c.name, c.nullable, scope.relations[n].columns[rj.value].nullable, kind);
      }
    }
  }

  method ResolveFromItem(item: FromItem, scope: Scope, start: nat)
    requires start <= |scope.relations|
    modifies scope`relations
    ensures scope.relations == ResolveItem(item, old(scope.relations), start)
    decreases item, 0
  {
    hide MergeNames, MergeSlots, SlotsOf, NullSupply;
    match item {
      case Relation(b) =>
        scope.AddRelation(b);
      case Group(items) =>
        ResolveFrom(items, scope);
      case Join(kind, right, cond) =>
        var n := |scope.relations|;
        scope.AddRelation(right);
        match kind {
          case Left => scope.MarkJoinNullable(n, n + 1);
          case Right => scope.MarkJoinNullable(start, n);
          case Full => scope.MarkJoinNullable(start, n + 1);
          case _ =>
        }
        match cond {
          case On =>
          case Using(names) => ResolveUsing(names, scope, n, kind);
          case Natural => ResolveNatural(scope, n, kind);
        }
    }
  }

  /** The walk over a FROM clause, or over a parenthesised group inside one. */
  method ResolveFrom(items: seq<FromItem>, scope: Scope)
    modifies scope`relations
    ensures scope.relations == ResolveItems(items, old(scope.relations), |old(scope.relations)|)
    decreases items, 1
  {
    ghost var rels := scope.relations;
    var start := |scope.relations|;
    for k := 0 to |items|
      invariant start == GroupStart(items[..k], rels, |rels|) && start <= |scope.relations|
      invariant scope.relations == ResolveItems(items[..k], rels, |rels|)
    {
      ResolveItemsSnoc(items, rels, |rels|, k, start);
      if StartsCommaGroup(items[k]) {
        start := |scope.relations|;
      }
      ResolveFromItem(items[k], scope, start);
    }
    assert items[..|items|] == items;
  }
}
