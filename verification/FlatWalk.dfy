/** The flat walk over a FROM clause builds exactly the scope of its tree. */
module FlatWalk {
  import opened Wrappers
  import opened Identifier
  import opened Scopes
  import opened FromClause
  import opened JoinTree
  import opened JoinScope

  // ----- NATURAL is USING over the common columns -----

  /** The shared names met along a list of left columns. */
  function NamesAlong(rels: seq<Binding>, n: nat, slots: seq<Slot>): seq<string>
    requires n < |rels| && SlotsIn(slots, rels, n)
  {
    if slots == [] then []
    else
      var name := rels[slots[0].rel].columns[slots[0].col].name;
      (if rels[n].FindColumn(name).Some? then [name] else []) + NamesAlong(rels, n, slots[1..])
  }

  lemma SlotsInAppend(rels: seq<Binding>, n: nat, a: seq<Slot>, b: seq<Slot>)
    requires n <= |rels| && SlotsIn(a + b, rels, n)
    ensures SlotsIn(a, rels, n) && SlotsIn(b, rels, n)
  {
    assert forall k :: 0 <= k < |a| ==> (a + b)[k] == a[k];
    assert forall k :: 0 <= k < |b| ==> (a + b)[|a| + k] == b[k];
  }

  lemma {:induction false} NamesAlongAppend(rels: seq<Binding>, n: nat, a: seq<Slot>, b: seq<Slot>)
    requires n < |rels| && SlotsIn(a + b, rels, n)
    ensures SlotsIn(a, rels, n) && SlotsIn(b, rels, n)
    ensures NamesAlong(rels, n, a + b) == NamesAlong(rels, n, a) + NamesAlong(rels, n, b)
    decreases a
  {
    hide Binding.FindColumn, SlotsIn;
    SlotsInAppend(rels, n, a, b);
    if a == [] {
      assert a + b == b;
    } else {
      assert (a + b)[1..] == a[1..] + b;
      SlotsInAppend(rels, n, [a[0]], a[1..] + b) by {
        assert [a[0]] + (a[1..] + b) == a + b;
      }
      NamesAlongAppend(rels, n, a[1..], b);
    }
  }

  lemma {:induction false} NamesAlongRelation(rels: seq<Binding>, n: nat, i: nat, m: nat)
    requires i < n < |rels| && m <= |rels[i].columns|
    ensures NamesAlong(rels, n, RelationSlots(i, m)) == CommonColumns(rels[i].columns[..m], rels[n])
  {
    if m > 0 {
      NamesAlongRelation(rels, n, i, m - 1);
      assert RelationSlots(i, m) == RelationSlots(i, m - 1) + [Slot(i, m - 1)];
      NamesAlongAppend(rels, n, RelationSlots(i, m - 1), [Slot(i, m - 1)]);
      assert [Slot(i, m - 1)][1..] == [];
      assert rels[i].columns[..m][..m - 1] == rels[i].columns[..m - 1];
    }
  }

  lemma SlotsBelow(rels: seq<Binding>, m: nat, n: nat)
    requires m <= n <= |rels|
    ensures SlotsIn(SlotsOf(rels, m), rels, n)
  {
    var slots := SlotsOf(rels, m);
    assert SlotsIn(slots, rels, m);
  }

  lemma CommonNamesStep(rels: seq<Binding>, m: nat, right: Binding)
    requires 0 < m <= |rels|
    ensures CommonNames(rels[..m], right) == CommonNames(rels[..m - 1], right) + CommonColumns(rels[m - 1].columns, right)
  {
    assert rels[..m][..m - 1] == rels[..m - 1];
  }

  lemma SlotsOfStep(rels: seq<Binding>, m: nat)
    requires 0 < m <= |rels|
    ensures SlotsOf(rels, m) == SlotsOf(rels, m - 1) + RelationSlots(m - 1, |rels[m - 1].columns|)
  {
  }

  lemma NamesAlongWhole(rels: seq<Binding>, n: nat, i: nat)
    requires i < n < |rels|
    ensures SlotsIn(RelationSlots(i, |rels[i].columns|), rels, n)
    ensures NamesAlong(rels, n, RelationSlots(i, |rels[i].columns|)) == CommonColumns(rels[i].columns, rels[n])
  {
    NamesAlongRelation(rels, n, i, |rels[i].columns|);
    assert rels[i].columns[..|rels[i].columns|] == rels[i].columns;
  }

  lemma NamesAlongNone(rels: seq<Binding>, n: nat)
    requires n < |rels|
    ensures SlotsIn(SlotsOf(rels, 0), rels, n)
    ensures NamesAlong(rels, n, SlotsOf(rels, 0)) == CommonNames(rels[..0], rels[n])
  {
  }

  lemma {:induction false} NamesAlongAll(rels: seq<Binding>, n: nat, m: nat)
    requires m <= n < |rels|
    ensures SlotsIn(SlotsOf(rels, m), rels, n)
    ensures NamesAlong(rels, n, SlotsOf(rels, m)) == CommonNames(rels[..m], rels[n])
    decreases m
  {
    hide *;
    SlotsBelow(rels, m, n);
    if m == 0 {
      NamesAlongNone(rels, n);
    } else {
      NamesAlongAll(rels, n, m - 1);
      SlotsOfStep(rels, m);
      NamesAlongAppend(rels, n, SlotsOf(rels, m - 1), RelationSlots(m - 1, |rels[m - 1].columns|));
      NamesAlongWhole(rels, n, m - 1);
      CommonNamesStep(rels, m, rels[n]);
    }
  }

  lemma {:induction false} NamesAlongKept(a: seq<Binding>, b: seq<Binding>, n: nat, slots: seq<Slot>)
    requires SameNames(a, b) && n < |a| && SlotsIn(slots, a, n)
    ensures SlotsIn(slots, b, n)
    ensures NamesAlong(a, n, slots) == NamesAlong(b, n, slots)
    decreases slots
  {
    forall k | 0 <= k < |slots| ensures slots[k].col < |b[slots[k].rel].columns| {
      SameNamesAt(a, b, slots[k].rel, slots[k].col);
    }
    if slots != [] {
      SameNamesAt(a, b, slots[0].rel, slots[0].col);
      assert a[n].ColumnNames() == b[n].ColumnNames();
      NamesAlongKept(a, b, n, slots[1..]);
    }
  }

  /** One shared column of the NATURAL scan is merged as USING would merge its name. */
  lemma NaturalStep(rels: seq<Binding>, n: nat, slots: seq<Slot>, kind: JoinKind)
    requires n + 1 == |rels| && SlotsIn(slots, rels, n) && slots != []
    requires var name := rels[slots[0].rel].columns[slots[0].col].name;
             rels[n].FindColumn(name).Some? && Sides(rels, n, name)
    ensures var next := MergeName(rels, n, rels[slots[0].rel].columns[slots[0].col].name, kind);
            && SlotsIn(slots[1..], next, n)
            && MergeSlots(rels, n, slots, kind) == MergeSlots(next, n, slots[1..], kind)
  {
    hide Sides, MergeAt, Binding.FindColumn, LastHit;
    var c := rels[slots[0].rel].columns[slots[0].col];
    var l, r := HitsOf(rels, n, c.name);
    assert NameAt(rels, slots[0].rel, slots[0].col, c.name);
  }

  /** What is left of the scan after a merge sees the same names, still cleanly shared. */
  lemma NaturalRest(rels: seq<Binding>, next: seq<Binding>, n: nat, slots: seq<Slot>)
    requires n + 1 == |rels| && SlotsIn(slots, rels, n) && SameNames(next, rels)
    requires forall k :: 0 <= k < |NamesAlong(rels, n, slots)| ==> Sides(rels, n, NamesAlong(rels, n, slots)[k])
    ensures SlotsIn(slots, next, n) && NamesAlong(next, n, slots) == NamesAlong(rels, n, slots)
    ensures forall k :: 0 <= k < |NamesAlong(next, n, slots)| ==> Sides(next, n, NamesAlong(next, n, slots)[k])
  {
    hide Sides, NamesAlong;
    NamesAlongKept(rels, next, n, slots);
    var names := NamesAlong(rels, n, slots);
    forall k | 0 <= k < |names| ensures Sides(next, n, names[k]) {
      SidesKept(rels, next, n, names[k]);
    }
  }

  lemma {:induction false} NaturalIsUsing(rels: seq<Binding>, n: nat, slots: seq<Slot>, kind: JoinKind)
    requires n + 1 == |rels| && SlotsIn(slots, rels, n)
    requires forall k :: 0 <= k < |NamesAlong(rels, n, slots)| ==> Sides(rels, n, NamesAlong(rels, n, slots)[k])
    ensures MergeSlots(rels, n, slots, kind) == MergeNames(rels, n, NamesAlong(rels, n, slots), kind)
    decreases slots
  {
    hide Sides, SameNames, MergeAt, MergeName, Binding.FindColumn;
    if slots != [] {
      var names := NamesAlong(rels, n, slots);
      var rest := NamesAlong(rels, n, slots[1..]);
      var name := rels[slots[0].rel].columns[slots[0].col].name;
      if rels[n].FindColumn(name).None? {
        assert names == rest;
        NaturalIsUsing(rels, n, slots[1..], kind);
      } else {
        assert names == [name] + rest && names[0] == name && names[1..] == rest;
        assert forall k :: 0 <= k < |rest| ==> rest[k] == names[k + 1];
        var next := MergeName(rels, n, name, kind);
        MergeNameNames(rels, n, name, kind);
        NaturalStep(rels, n, slots, kind);
        NaturalRest(rels, next, n, slots[1..]);
        NaturalIsUsing(next, n, slots[1..], kind);
      }
    }
  }

  // ----- A join leaves what stands before its left operand alone -----

  ghost predicate Silent(rels: seq<Binding>, name: string) {
    forall i: nat, j: nat :: !NameAt(rels, i, j, name)
  }

  function ShiftHit(hit: Option<Slot>, shift: nat): Option<Slot> {
    match hit
    case Some(s) => Some(Slot(s.rel + shift, s.col))
    case None => None
  }

  lemma {:induction false} LastHitShift(p: seq<Binding>, r: seq<Binding>, begin: nat, end: nat, name: string)
    requires begin <= end <= |r|
    ensures LastHit(p + r, |p| + begin, |p| + end, name) == ShiftHit(LastHit(r, begin, end, name), |p|)
    decreases end
  {
    hide Binding.FindColumn;
    if begin < end {
      LastHitShift(p, r, begin, end - 1, name);
    }
  }

  lemma {:induction false} LastHitPast(p: seq<Binding>, r: seq<Binding>, end: nat, name: string)
    requires end <= |r| && Silent(p, name)
    ensures LastHit(p + r, 0, |p| + end, name) == ShiftHit(LastHit(r, 0, end, name), |p|)
    decreases end
  {
    hide Binding.FindColumn;
    if end > 0 {
      LastHitPast(p, r, end - 1, name);
    } else {
      var hit := LastHit(p + r, 0, |p|, name);
      assert hit.Some? ==> NameAt(p, hit.value.rel, hit.value.col, name);
    }
  }

  lemma MergeAtShift(p: seq<Binding>, r: seq<Binding>, n: nat, name: string, left: bool, right: bool, kind: JoinKind)
    requires n <= |r| && Silent(p, name)
    ensures MergeAt(p + r, |p| + n, name, left, right, kind) == p + MergeAt(r, n, name, left, right, kind)
  {
    var nullable := MergedNullable(kind, left, right);
    forall i | 0 <= i < |p| ensures Merge(name, nullable)(p[i]) == p[i] {
      forall j | 0 <= j < |p[i].columns| ensures !IEquals(p[i].columns[j].name, name) {
        assert !NameAt(p, i, j, name);
      }
      assert MapColumns(MergeColumn(name, nullable), p[i].columns) == p[i].columns;
    }
  }

  lemma MergeNameShift(p: seq<Binding>, r: seq<Binding>, n: nat, name: string, kind: JoinKind)
    requires n <= |r| && Silent(p, name)
    ensures MergeName(p + r, |p| + n, name, kind) == p + MergeName(r, n, name, kind)
  {
    hide MergeAt, LastHit, Silent;
    LastHitPast(p, r, n, name);
    LastHitShift(p, r, n, |r|, name);
    var l, h := LastHit(r, 0, n, name), LastHit(r, n, |r|, name);
    if l.Some? && h.Some? {
      MergeAtShift(p, r, n, name, r[l.value.rel].columns[l.value.col].nullable,
                   r[h.value.rel].columns[h.value.col].nullable, kind);
    }
  }

  lemma {:induction false} MergeNamesShift(p: seq<Binding>, r: seq<Binding>, n: nat, names: seq<string>, kind: JoinKind)
    requires n <= |r| && forall k :: 0 <= k < |names| ==> Silent(p, names[k])
    ensures MergeNames(p + r, |p| + n, names, kind) == p + MergeNames(r, n, names, kind)
    decreases names
  {
    hide MergeName, Silent;
    if names != [] {
      MergeNameShift(p, r, n, names[0], kind);
      MergeNamesShift(p, MergeName(r, n, names[0], kind), n, names[1..], kind);
    }
  }

  lemma {:induction false} SilentCommonColumns(cs: seq<Column>, right: Binding)
    requires forall j :: 0 <= j < |cs| ==> right.FindColumn(cs[j].name).None?
    ensures CommonColumns(cs, right) == []
  {
    if cs != [] {
      SilentCommonColumns(cs[..|cs| - 1], right);
    }
  }

  /** No column of `p` is also a column of `right`. */
  ghost predicate SharesNothing(p: seq<Binding>, right: Binding) {
    forall i: nat, j: nat :: i < |p| && j < |p[i].columns| ==> right.FindColumn(p[i].columns[j].name).None?
  }

  lemma {:induction false} CommonNamesPast(p: seq<Binding>, l: seq<Binding>, right: Binding)
    requires SharesNothing(p, right)
    ensures CommonNames(p + l, right) == CommonNames(l, right)
    decreases |p| + |l|
  {
    hide Binding.FindColumn, CommonColumns;
    if l != [] {
      assert (p + l)[..|p + l| - 1] == p + l[..|l| - 1];
      CommonNamesPast(p, l[..|l| - 1], right);
    } else if p != [] {
      assert p + l == p;
      SilentCommonColumns(p[|p| - 1].columns, right);
      assert p[..|p| - 1] + [] == p[..|p| - 1];
      CommonNamesPast(p[..|p| - 1], [], right);
    }
  }

  lemma {:induction false} CommonColumnsKept(a: Binding, b: Binding, right: Binding, m: nat)
    requires a.ColumnNames() == b.ColumnNames() && m <= |a.columns|
    ensures CommonColumns(a.columns[..m], right) == CommonColumns(b.columns[..m], right)
  {
    hide Binding.FindColumn;
    if m > 0 {
      assert a.columns[..m][..m - 1] == a.columns[..m - 1] && b.columns[..m][..m - 1] == b.columns[..m - 1];
      assert a.ColumnNames()[m - 1] == b.ColumnNames()[m - 1];
      CommonColumnsKept(a, b, right, m - 1);
    }
  }

  lemma {:induction false} CommonNamesKept(a: seq<Binding>, b: seq<Binding>, right: Binding)
    requires SameNames(a, b)
    ensures CommonNames(a, right) == CommonNames(b, right)
  {
    hide CommonColumns;
    if a != [] {
      var n := |a| - 1;
      assert SameNames(a[..n], b[..n]);
      CommonNamesKept(a[..n], b[..n], right);
      assert a[n].ColumnNames() == b[n].ColumnNames();
      CommonColumnsKept(a[n], b[n], right, |a[n].columns|);
      assert a[n].columns[..|a[n].columns|] == a[n].columns && b[n].columns[..|b[n].columns|] == b[n].columns;
    }
  }

  /** What stands before the join's left operand exposes none of the names it merges. The walk
      looks for the left copy in the whole list, so this is what keeps the search inside. */
  ghost predicate Apart(before: seq<Binding>, right: Binding, cond: Condition) {
    match cond
    case On => true
    case Using(names) => forall k :: 0 <= k < |names| ==> Silent(before, names[k])
    case Natural => SharesNothing(before, right)
  }

  lemma MarkSidesShift(p: seq<Binding>, r: seq<Binding>, n: nat, kind: JoinKind)
    requires n <= |r|
    ensures MarkSides(kind, p + r, |p|, |p| + n) == p + MarkSides(kind, r, 0, n)
  {
    hide MarkSides, NullSupply;
  }

  lemma {:induction false} CommonColumnsListed(cs: seq<Column>, right: Binding, k: nat) returns (j: nat)
    requires k < |CommonColumns(cs, right)|
    ensures j < |cs| && cs[j].name == CommonColumns(cs, right)[k] && right.FindColumn(cs[j].name).Some?
  {
    hide Binding.FindColumn;
    var n := |cs| - 1;
    if k < |CommonColumns(cs[..n], right)| {
      j := CommonColumnsListed(cs[..n], right, k);
    } else {
      j := n;
    }
  }

  lemma {:induction false} CommonNamesListed(left: seq<Binding>, right: Binding, k: nat)
    returns (i: nat, j: nat)
    requires k < |CommonNames(left, right)|
    ensures i < |left| && j < |left[i].columns| && left[i].columns[j].name == CommonNames(left, right)[k]
    ensures right.FindColumn(CommonNames(left, right)[k]).Some?
  {
    hide Binding.FindColumn, CommonColumns;
    var n := |left| - 1;
    if k < |CommonNames(left[..n], right)| {
      i, j := CommonNamesListed(left[..n], right, k);
    } else {
      i := n;
      j := CommonColumnsListed(left[n].columns, right, k - |CommonNames(left[..n], right)|);
    }
  }

  lemma NaturalApart(before: seq<Binding>, left: seq<Binding>, right: Binding, k: nat)
    requires SharesNothing(before, right) && k < |CommonNames(left, right)|
    ensures Silent(before, CommonNames(left, right)[k])
  {
    hide Binding.FindColumn;
    var name := CommonNames(left, right)[k];
    var _, _ := CommonNamesListed(left, right, k);
    forall i: nat, j: nat | NameAt(before, i, j, name) ensures false {
      FindColumnFolded(right, before[i].columns[j].name, name);
    }
  }

  lemma SidesFrom(p: seq<Binding>, l: seq<Binding>, right: Binding, rels: seq<Binding>, name: string)
    requires SameNames(rels, p + l + [right]) && Silent(p, name)
    requires ExposedOnce(l, name) && ExposedOnce([right], name)
    ensures Sides(rels, |p| + |l|, name)
  {
    var n := |p| + |l|;
    var i: nat, j: nat :| OnlyAt(l, i, j, name);
    assert NameAt(p + l, |p| + i, j, name);
    forall i': nat, j': nat | NameAt(p + l, i', j', name) ensures i' == |p| + i && j' == j {
      assert i' < |p| ==> NameAt(p, i', j', name);
      assert i' >= |p| ==> NameAt(l, i' - |p|, j', name);
    }
    assert OnlyAt(p + l, |p| + i, j, name);
    assert SameNames(p + l, rels[..n]);
    assert SameNames([right], rels[n..]);
    ExposedOnceNames(p + l, rels[..n], name);
    ExposedOnceNames([right], rels[n..], name);
  }

  lemma MergeNoNames(rels: seq<Binding>, n: nat, kind: JoinKind)
    requires n <= |rels|
    ensures MergeNames(rels, n, [], kind) == rels
  {
  }

  /** One join of the walk, the relations before its left operand being `p`. */
  lemma JoinShift(p: seq<Binding>, t: Table)
    requires t.Joined? && CleanMerges(t) && Apart(p, t.binding, t.cond)
    ensures ResolveJoin(t.kind, t.binding, t.cond, p + TreeScope(t.left), |p|) == p + TreeScope(t)
  {
    hide MarkSides, MergeNames, MergeSlots, SlotsOf, CommonNames, Silent, SharesNothing, SameNames, CleanMerges, ExposedOnce;
    var l, b, n := TreeScope(t.left), t.binding, |Leaves(t.left)|;
    var names := SharedNames(Leaves(t.left), b, t.cond);
    var marked := MarkSides(t.kind, p + l + [b], |p|, |p| + n);
    assert p + l + [b] == p + (l + [b]);
    MarkSidesShift(p, l + [b], n, t.kind);
    forall k | 0 <= k < |names| ensures Silent(p, names[k]) {
      if t.cond.Natural? {
        NaturalApart(p, Leaves(t.left), b, k);
      }
    }
    MergeNamesShift(p, MarkSides(t.kind, l + [b], 0, n), n, names, t.kind);
    MergeNoNames(marked, |p| + n, t.kind);
    if t.cond.Natural? {
      NaturalNames(p, t, marked);
      NaturalSides(p, t, marked);
      NaturalIsUsing(marked, |p| + n, SlotsOf(marked, |p| + n), t.kind);
    }
  }

  /** The list once a NATURAL join's right relation is in and its null side marked. */
  ghost predicate MarkedFor(p: seq<Binding>, t: Table, marked: seq<Binding>) {
    && t.Joined? && CleanMerges(t) && t.cond.Natural? && SharesNothing(p, t.binding)
    && marked == MarkSides(t.kind, p + TreeScope(t.left) + [t.binding], |p|, |p| + |Leaves(t.left)|)
  }

  lemma MarkedNames(p: seq<Binding>, t: Table, marked: seq<Binding>)
    requires MarkedFor(p, t, marked)
    ensures SameNames(marked, p + Leaves(t.left) + [t.binding])
  {
    hide SharesNothing, CleanMerges, MarkSides, TreeScope;
    MarkSidesNames(t.kind, p + TreeScope(t.left) + [t.binding], |p|, |p| + |Leaves(t.left)|);
    TreeScopeNames(t.left);
  }

  lemma NaturalSides(p: seq<Binding>, t: Table, marked: seq<Binding>)
    requires MarkedFor(p, t, marked)
    ensures forall k :: 0 <= k < |CommonNames(Leaves(t.left), t.binding)| ==>
              Sides(marked, |p| + |Leaves(t.left)|, CommonNames(Leaves(t.left), t.binding)[k])
  {
    hide CommonNames, Silent, SharesNothing, Sides, ExposedOnce, MarkSides, SameNames;
    MarkedNames(p, t, marked);
    var b, leaves := t.binding, Leaves(t.left);
    var names := CommonNames(leaves, b);
    forall k | 0 <= k < |names| ensures Sides(marked, |p| + |leaves|, names[k]) {
      NaturalApart(p, leaves, b, k);
      SidesFrom(p, leaves, b, marked, names[k]);
    }
  }

  lemma NaturalNames(p: seq<Binding>, t: Table, marked: seq<Binding>)
    requires MarkedFor(p, t, marked)
    ensures var n := |p| + |Leaves(t.left)|;
            && SlotsIn(SlotsOf(marked, n), marked, n)
            && NamesAlong(marked, n, SlotsOf(marked, n)) == CommonNames(Leaves(t.left), t.binding)
  {
    hide CommonNames, SharesNothing, NamesAlong, SlotsIn, SlotsOf, MarkSides, CleanMerges, CommonColumns;
    MarkedNames(p, t, marked);
    var b, leaves, n := t.binding, Leaves(t.left), |p| + |Leaves(t.left)|;
    NamesAlongAll(marked, n, n);
    assert SameNames(marked[..n], p + leaves);
    assert marked[n].ColumnNames() == b.ColumnNames();
    CommonNamesKept(marked[..n], p + leaves, marked[n]);
    CommonNamesPast(p, leaves, b);
    CommonNamesOfSame(p + leaves, marked[n], b);
  }

  lemma {:induction false} CommonColumnsOfSame(cs: seq<Column>, a: Binding, b: Binding)
    requires a.ColumnNames() == b.ColumnNames()
    ensures CommonColumns(cs, a) == CommonColumns(cs, b)
  {
    if cs != [] {
      CommonColumnsOfSame(cs[..|cs| - 1], a, b);
    }
  }

  lemma {:induction false} CommonNamesOfSame(left: seq<Binding>, a: Binding, b: Binding)
    requires a.ColumnNames() == b.ColumnNames()
    ensures CommonNames(left, a) == CommonNames(left, b)
  {
    hide CommonColumns;
    if left != [] {
      CommonColumnsOfSame(left[|left| - 1].columns, a, b);
      CommonNamesOfSame(left[..|left| - 1], a, b);
    }
  }

  // ----- The whole walk -----

  /** At every join of the walk the relations before its left operand are out of the way. */
  ghost predicate LocalMerges(items: seq<FromItem>, rels: seq<Binding>, start: nat)
    requires start <= |rels|
    decreases items
  {
    items == [] ||
    var item := items[0];
    var s := if StartsCommaGroup(item) then |rels| else start;
    && (item.Join? ==> Apart(rels[..start], item.right, item.cond))
    && (item.Group? ==> LocalMerges(item.items, rels, |rels|))
    && LocalMerges(items[1..], ResolveItem(item, rels, s), s)
  }

  function ScopeBefore(done: Option<Table>): seq<Binding> {
    match done
    case None => []
    case Some(d) => TreeScope(d)
  }

  /** A clean clause is built from clean parts. */
  lemma {:induction false} CleanParts(rest: seq<FromItem>, done: Option<Table>, cur: Table)
    requires GroupsFormed(rest)
    requires CleanMerges(Extend(rest, done, cur))
    ensures CleanMerges(cur) && (done.Some? ==> CleanMerges(done.value))
    decreases rest
  {
    if rest != [] {
      hide SharesCleanly;
      if rest[0].Join? {
        CleanParts(rest[1..], done, Joined(rest[0].kind, cur, rest[0].right, rest[0].cond));
      } else {
        CleanParts(rest[1..], Some(Beside(done, cur)), StartTable(rest[0]));
      }
    }
  }

  /** The walk so far: `p`, the comma groups already closed, and the group being built. */
  function ListSoFar(p: seq<Binding>, done: Option<Table>, cur: Table): seq<Binding> {
    p + ScopeBefore(done) + TreeScope(cur)
  }

  lemma CloseGroup(p: seq<Binding>, done: Option<Table>, cur: Table, next: Table)
    ensures ListSoFar(p, done, cur) == p + TreeScope(Beside(done, cur))
    ensures ListSoFar(p, Some(Beside(done, cur)), next) == ListSoFar(p, done, cur) + TreeScope(next)
    ensures |p| + |ScopeBefore(done)| <= |ListSoFar(p, done, cur)| == |p| + |ScopeBefore(Some(Beside(done, cur)))|
  {
  }

  ghost predicate CanExtend(rest: seq<FromItem>, p: seq<Binding>, done: Option<Table>, cur: Table) {
    && GroupsFormed(rest)
    && CleanMerges(Extend(rest, done, cur))
    && LocalMerges(rest, ListSoFar(p, done, cur), |p| + |ScopeBefore(done)|)
  }

  lemma {:induction false} ExtendScope(rest: seq<FromItem>, p: seq<Binding>, done: Option<Table>, cur: Table)
    requires CanExtend(rest, p, done, cur)
    ensures ResolveItems(rest, ListSoFar(p, done, cur), |p| + |ScopeBefore(done)|)
            == p + TreeScope(Extend(rest, done, cur))
    decreases rest, 1
  {
    hide ResolveJoin, CleanMerges, Apart, LocalMerges, TreeScope, ListSoFar, ScopeBefore, ResolveItem;
    if rest == [] {
      CloseGroup(p, done, cur, cur);
    } else if rest[0].Join? {
      ExtendByJoin(rest, p, done, cur);
    } else {
      ExtendByGroup(rest, p, done, cur);
    }
  }

  lemma {:induction false} ExtendByJoin(rest: seq<FromItem>, p: seq<Binding>, done: Option<Table>, cur: Table)
    requires CanExtend(rest, p, done, cur) && rest != [] && rest[0].Join?
    ensures ResolveItems(rest, ListSoFar(p, done, cur), |p| + |ScopeBefore(done)|)
            == p + TreeScope(Extend(rest, done, cur))
    decreases rest, 0
  {
    hide ResolveJoin, CleanMerges, Apart, TreeScope;
    var before := p + ScopeBefore(done);
    var next := Joined(rest[0].kind, cur, rest[0].right, rest[0].cond);
    assert ListSoFar(p, done, cur)[..|before|] == before;
    CleanParts(rest[1..], done, next);
    JoinShift(before, next);
    ExtendScope(rest[1..], p, done, next);
  }

  lemma {:induction false} ExtendByGroup(rest: seq<FromItem>, p: seq<Binding>, done: Option<Table>, cur: Table)
    requires CanExtend(rest, p, done, cur) && rest != [] && !rest[0].Join?
    ensures ResolveItems(rest, ListSoFar(p, done, cur), |p| + |ScopeBefore(done)|)
            == p + TreeScope(Extend(rest, done, cur))
    decreases rest, 0
  {
    hide ResolveItems, ResolveItem, CleanMerges, LocalMerges, TreeScope, ListSoFar, ScopeBefore;
    var next := StartTable(rest[0]);
    var closed := Some(Beside(done, cur));
    CloseGroup(p, done, cur, next);
    CleanParts(rest[1..], closed, next);
    StartGroup(rest, ListSoFar(p, done, cur), |p| + |ScopeBefore(done)|);
    ExtendScope(rest[1..], p, closed, next);
  }

  /** An item that opens a comma group appends the scope of its own table. */
  lemma {:induction false} StartGroup(items: seq<FromItem>, rels: seq<Binding>, start: nat)
    requires items != [] && StartsCommaGroup(items[0]) && (items[0].Group? ==> WellFormed(items[0].items))
    requires start <= |rels| && LocalMerges(items, rels, start) && CleanMerges(StartTable(items[0]))
    ensures var next := rels + TreeScope(StartTable(items[0]));
            && ResolveItems(items, rels, start) == ResolveItems(items[1..], next, |rels|)
            && LocalMerges(items[1..], next, |rels|)
    decreases items[0], 0
  {
    hide CleanMerges, Apart, TableOf, WellFormed;
    if items[0].Group? {
      FlatIsTree(items[0].items, rels);
    }
    assert ResolveItem(items[0], rels, |rels|) == rels + TreeScope(StartTable(items[0]));
  }

  /** The list the walk leaves behind is the scope of the clause's tree, after what was there. */
  lemma {:induction false} FlatIsTree(items: seq<FromItem>, p: seq<Binding>)
    requires WellFormed(items) && CleanMerges(TableOf(items)) && LocalMerges(items, p, |p|)
    ensures ResolveItems(items, p, |p|) == p + TreeScope(TableOf(items))
    decreases items, 2
  {
    hide ResolveItems, ResolveItem, CleanMerges, LocalMerges;
    var first := StartTable(items[0]);
    CleanParts(items[1..], None, first);
    StartGroup(items, p, |p|);
    assert ListSoFar(p, None, first) == p + TreeScope(first);
    ExtendScope(items[1..], p, None, first);
  }
}
