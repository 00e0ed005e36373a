/** What the FROM walk leaves in the scope, held against the row semantics of the joined table:
    the flat list agrees with the tree, and what the scope reports as NOT NULL is never NULL. */
module JoinScope {
  import opened Wrappers
  import opened Identifier
  import opened Scopes
  import opened FromClause
  import opened JoinTree

  // ----- Names never change while a FROM clause is resolved -----

  ghost predicate SameNames(a: seq<Binding>, b: seq<Binding>) {
    |a| == |b| && forall i :: 0 <= i < |a| ==> a[i].ColumnNames() == b[i].ColumnNames()
  }

  lemma SameNamesAt(a: seq<Binding>, b: seq<Binding>, i: nat, j: nat)
    requires SameNames(a, b) && i < |a|
    ensures |a[i].columns| == |b[i].columns|
    ensures j < |a[i].columns| ==> a[i].columns[j].name == b[i].columns[j].name
  {
    assert a[i].ColumnNames() == b[i].ColumnNames();
    if j < |a[i].columns| {
      assert a[i].ColumnNames()[j] == b[i].ColumnNames()[j];
    }
  }

  lemma MarkSidesNames(kind: JoinKind, rels: seq<Binding>, start: nat, n: nat)
    requires start <= n <= |rels|
    ensures SameNames(MarkSides(kind, rels, start, n), rels)
  {
    hide MarkSides;
    var r := MarkSides(kind, rels, start, n);
    forall i | 0 <= i < |rels| ensures r[i].ColumnNames() == rels[i].ColumnNames() {
    }
  }

  lemma MergeAtNames(rels: seq<Binding>, n: nat, name: string, left: bool, right: bool, kind: JoinKind)
    ensures SameNames(MergeAt(rels, n, name, left, right, kind), rels)
    ensures forall i :: 0 <= i < |rels| ==>
      MergeAt(rels, n, name, left, right, kind)[i].nullableFromJoin == rels[i].nullableFromJoin
  {
    var r := MergeAt(rels, n, name, left, right, kind);
    forall i | 0 <= i < |rels| ensures r[i].ColumnNames() == rels[i].ColumnNames() {
    }
  }

  lemma {:induction false} MergeNamesNames(rels: seq<Binding>, n: nat, names: seq<string>, kind: JoinKind)
    requires n <= |rels|
    ensures SameNames(MergeNames(rels, n, names, kind), rels)
    ensures forall i :: 0 <= i < |rels| ==>
      MergeNames(rels, n, names, kind)[i].nullableFromJoin == rels[i].nullableFromJoin
    decreases names
  {
    hide MergeAt;
    if names != [] {
      var l, r := LastHit(rels, 0, n, names[0]), LastHit(rels, n, |rels|, names[0]);
      if l.Some? && r.Some? {
        MergeAtNames(rels, n, names[0], rels[l.value.rel].columns[l.value.col].nullable,
                     rels[r.value.rel].columns[r.value.col].nullable, kind);
      }
      MergeNamesNames(MergeName(rels, n, names[0], kind), n, names[1..], kind);
    }
  }

  // ----- The scope a table fills, by recursion on the tree -----

  function TreeScope(t: Table): (r: seq<Binding>)
    ensures |r| == |Leaves(t)|
  {
    match t
    case Leaf(b) => [b]
    case Product(l, r) => TreeScope(l) + TreeScope(r)
    case Joined(kind, l, b, cond) =>
      var n := |Leaves(l)|;
      MergeNames(MarkSides(kind, TreeScope(l) + [b], 0, n), n, SharedNames(Leaves(l), b, cond), kind)
  }

  lemma {:induction false} TreeScopeNames(t: Table)
    ensures SameNames(TreeScope(t), Leaves(t))
  {
    match t {
      case Leaf(_) =>
      case Product(l, r) =>
        TreeScopeNames(l);
        TreeScopeNames(r);
      case Joined(kind, l, b, cond) =>
        var n := |Leaves(l)|;
        TreeScopeNames(l);
        var rels := TreeScope(l) + [b];
        assert SameNames(rels, Leaves(t));
        MarkSidesNames(kind, rels, 0, n);
        MergeNamesNames(MarkSides(kind, rels, 0, n), n, SharedNames(Leaves(l), b, cond), kind);
    }
  }

  /** A relation as a FROM item brings it in, before any join has touched it. */
  predicate Fresh(b: Binding) {
    && !b.nullableFromJoin
    && forall j :: 0 <= j < |b.columns| ==>
      !b.columns[j].coalesced && !b.columns[j].merged && !b.columns[j].nullableFromEnclosing
  }

  predicate AllFresh(leaves: seq<Binding>) {
    forall i :: 0 <= i < |leaves| ==> Fresh(leaves[i])
  }

  /** The marks in the scope are exactly the null-supplied instances of the table. */
  lemma {:induction false} ScopeMarks(t: Table, i: nat)
    requires AllFresh(Leaves(t)) && i < |Leaves(t)|
    ensures TreeScope(t)[i].nullableFromJoin == NullSupplied(t)[i]
  {
    hide MergeNames, MarkSides, SharedNames, SameNames;
    match t {
      case Leaf(_) =>
      case Product(l, r) =>
        var n := |Leaves(l)|;
        assert forall k :: 0 <= k < n ==> Leaves(l)[k] == Leaves(t)[k];
        assert forall k :: 0 <= k < |Leaves(r)| ==> Leaves(r)[k] == Leaves(t)[n + k];
        if i < n { ScopeMarks(l, i); } else { ScopeMarks(r, i - n); }
      case Joined(kind, l, b, cond) =>
        var n := |Leaves(l)|;
        assert forall k :: 0 <= k < n ==> Leaves(l)[k] == Leaves(t)[k];
        assert Leaves(t)[n] == b;
        var marked := MarkSides(kind, TreeScope(l) + [b], 0, n);
        MergeNamesNames(marked, n, SharedNames(Leaves(l), b, cond), kind);
        if i < n { ScopeMarks(l, i); }
    }
  }

  // ----- Columns shared by USING and NATURAL -----

  /** `(i, j)` is the only column of that name. */
  ghost predicate OnlyAt(rels: seq<Binding>, i: nat, j: nat, name: string) {
    NameAt(rels, i, j, name) && forall i': nat, j': nat :: NameAt(rels, i', j', name) ==> i' == i && j' == j
  }

  ghost predicate ExposedOnce(rels: seq<Binding>, name: string) {
    exists i: nat, j: nat :: OnlyAt(rels, i, j, name)
  }

  predicate Distinct(names: seq<string>) {
    forall k, m :: 0 <= k < m < |names| ==> !IEquals(names[k], names[m])
  }

  /** Every shared name is one column on each side, and is shared once. */
  ghost predicate SharesCleanly(left: seq<Binding>, right: Binding, names: seq<string>) {
    Distinct(names) && forall k :: 0 <= k < |names| ==> ExposedOnce(left, names[k]) && ExposedOnce([right], names[k])
  }

  ghost predicate CleanMerges(t: Table) {
    match t
    case Leaf(_) => true
    case Product(l, r) => CleanMerges(l) && CleanMerges(r)
    case Joined(kind, l, b, cond) =>
      && CleanMerges(l)
      && (kind.Cross? ==> cond.On?)
      && SharesCleanly(Leaves(l), b, SharedNames(Leaves(l), b, cond))
  }

  lemma ExposedOnceNames(a: seq<Binding>, b: seq<Binding>, name: string)
    requires SameNames(a, b) && ExposedOnce(a, name)
    ensures ExposedOnce(b, name)
  {
    var i, j :| OnlyAt(a, i, j, name);
    SameNamesAt(a, b, i, j);
    forall i': nat, j': nat | NameAt(b, i', j', name) ensures i' == i && j' == j {
      SameNamesAt(a, b, i', j');
      assert NameAt(a, i', j', name);
    }
    assert OnlyAt(b, i, j, name);
  }

  lemma {:induction false} LastHitOnly(rels: seq<Binding>, begin: nat, end: nat, i: nat, j: nat, name: string)
    requires begin <= i < end <= |rels| && NameAt(rels, i, j, name)
    requires forall i': nat, j': nat :: begin <= i' < end && NameAt(rels, i', j', name) ==> i' == i && j' == j
    ensures LastHit(rels, begin, end, name) == Some(Slot(i, j))
  {
    var hit := LastHit(rels, begin, end, name);
    assert hit.Some?;
    assert NameAt(rels, hit.value.rel, hit.value.col, name);
  }

  /** What merging one name does to the column at `(i, j)`. */
  function MergedColumn(c: Column, isLeft: bool, shared: bool, kind: JoinKind, rightNullable: bool): Column {
    if !shared then c
    else if !isLeft then c.(coalesced := true)
    else if c.coalesced then c
    else c.(nullable := MergedNullable(kind, c.nullable, rightNullable), merged := true)
  }

  /** The nullability of the right column of a shared name. */
  function RightNullable(right: Binding, name: string): bool {
    match right.FindColumn(name)
    case Some(j) => right.columns[j].nullable
    case None => true
  }

  ghost predicate Sides(rels: seq<Binding>, n: nat, name: string) {
    n + 1 == |rels| && ExposedOnce(rels[..n], name) && ExposedOnce(rels[n..], name)
  }

  /** Both searches for a cleanly shared name end on its only column. */
  lemma HitsOf(rels: seq<Binding>, n: nat, name: string) returns (l: Slot, r: Slot)
    requires Sides(rels, n, name)
    ensures |rels| == n + 1 && l.rel < n == r.rel
    ensures LastHit(rels, 0, n, name) == Some(l) && LastHit(rels, n, n + 1, name) == Some(r)
    ensures NameAt(rels, l.rel, l.col, name) && rels[n].FindColumn(name) == Some(r.col)
    ensures forall i': nat, j': nat :: i' < n && NameAt(rels, i', j', name) ==> Slot(i', j') == l
  {
    var li: nat, lj: nat :| OnlyAt(rels[..n], li, lj, name);
    assert NameAt(rels, li, lj, name);
    forall i': nat, j': nat | i' < n && NameAt(rels, i', j', name) ensures i' == li && j' == lj {
      assert NameAt(rels[..n], i', j', name);
    }
    LastHitOnly(rels, 0, n, li, lj, name);
    var ri: nat, rj: nat :| OnlyAt(rels[n..], ri, rj, name);
    assert rels[n..][0] == rels[n];
    assert NameAt(rels, n, rj, name);
    forall i': nat, j': nat | n <= i' < n + 1 && NameAt(rels, i', j', name) ensures i' == n && j' == rj {
      assert NameAt(rels[n..], 0, j', name);
    }
    LastHitOnly(rels, n, n + 1, n, rj, name);
    l, r := Slot(li, lj), Slot(n, rj);
  }

  lemma MergeNameColumn(rels: seq<Binding>, n: nat, name: string, kind: JoinKind, i: nat, j: nat)
    requires Sides(rels, n, name) && i <= n && j < |rels[i].columns|
    ensures |MergeName(rels, n, name, kind)[i].columns| == |rels[i].columns|
    ensures MergeName(rels, n, name, kind)[i].columns[j] ==
            MergedColumn(rels[i].columns[j], i < n, IEquals(rels[i].columns[j].name, name), kind,
                         RightNullable(rels[n], rels[i].columns[j].name))
  {
    hide Sides, LastHit, Binding.FindColumn;
    var l, r := HitsOf(rels, n, name);
    var c := rels[i].columns[j];
    if IEquals(c.name, name) {
      FindColumnFolded(rels[n], c.name, name);
      if i < n {
        assert NameAt(rels, i, j, name);
      }
    }
  }

  lemma FindColumnFolded(b: Binding, x: string, y: string)
    requires IEquals(x, y)
    ensures b.FindColumn(x) == b.FindColumn(y)
  {
    FirstMatchFolded(b.ColumnNames(), x, y);
  }

  lemma {:induction false} FirstMatchFolded(names: seq<string>, x: string, y: string)
    requires IEquals(x, y)
    ensures FirstMatch(names, x) == FirstMatch(names, y)
  {
    if names != [] {
      FirstMatchFolded(names[..|names| - 1], x, y);
    }
  }

  lemma ListsStep(names: seq<string>, name: string)
    requires names != []
    ensures Lists(names, name) <==> IEquals(names[0], name) || Lists(names[1..], name)
  {
    if IEquals(names[0], name) {
      assert Lists(names, name);
    }
    if Lists(names[1..], name) {
      var k :| 0 <= k < |names[1..]| && IEquals(names[1..][k], name);
      assert IEquals(names[k + 1], name);
    }
    if Lists(names, name) && !IEquals(names[0], name) {
      var k :| 0 <= k < |names| && IEquals(names[k], name);
      assert IEquals(names[1..][k - 1], name);
    }
  }

  lemma SidesKept(a: seq<Binding>, b: seq<Binding>, n: nat, name: string)
    requires SameNames(a, b) && Sides(a, n, name)
    ensures Sides(b, n, name)
  {
    assert SameNames(a[..n], b[..n]);
    assert SameNames(a[n..], b[n..]);
    ExposedOnceNames(a[..n], b[..n], name);
    ExposedOnceNames(a[n..], b[n..], name);
  }

  lemma MergeNameNames(rels: seq<Binding>, n: nat, name: string, kind: JoinKind)
    requires n <= |rels|
    ensures SameNames(MergeName(rels, n, name, kind), rels)
  {
    MergeNamesNames(rels, n, [name], kind);
    assert MergeNames(rels, n, [name], kind) == MergeName(rels, n, name, kind) by {
      assert [name][1..] == [];
    }
  }

  lemma SharedOnlyOnce(names: seq<string>, name: string)
    requires names != [] && Distinct(names)
    ensures Distinct(names[1..])
    ensures !(IEquals(names[0], name) && Lists(names[1..], name))
  {
    if Lists(names[1..], name) {
      var k :| 0 <= k < |names[1..]| && IEquals(names[1..][k], name);
      assert names[1..][k] == names[k + 1];
    }
  }

  /** Merging a list of distinct names touches each column at most once. */
  lemma {:induction false} MergeNamesColumn(rels: seq<Binding>, n: nat, names: seq<string>, kind: JoinKind, i: nat, j: nat)
    requires n + 1 == |rels| && i <= n && j < |rels[i].columns|
    requires Distinct(names) && forall k :: 0 <= k < |names| ==> Sides(rels, n, names[k])
    ensures |MergeNames(rels, n, names, kind)[i].columns| == |rels[i].columns|
    ensures MergeNames(rels, n, names, kind)[i].columns[j] ==
            MergedColumn(rels[i].columns[j], i < n, Lists(names, rels[i].columns[j].name), kind,
                         RightNullable(rels[n], rels[i].columns[j].name))
    decreases names
  {
    if names != [] {
      hide MergeName, Sides, RightNullable, IEquals, Lists;
      var c := rels[i].columns[j];
      var next := MergeName(rels, n, names[0], kind);
      MergeNameNames(rels, n, names[0], kind);
      MergeNameColumn(rels, n, names[0], kind, i, j);
      SameNamesAt(next, rels, i, j);
      ListsStep(names, c.name);
      forall k | 0 <= k < |names[1..]| ensures Sides(next, n, names[1..][k]) {
        SidesKept(rels, next, n, names[k + 1]);
      }
      MergeNamesColumn(next, n, names[1..], kind, i, j);
      SharedOnlyOnce(names, c.name);
      RightNullableKept(rels, n, names[0], kind, c.name);
    }
  }

  lemma RightNullableKept(rels: seq<Binding>, n: nat, merging: string, kind: JoinKind, name: string)
    requires Sides(rels, n, merging)
    ensures RightNullable(MergeName(rels, n, merging, kind)[n], name) == RightNullable(rels[n], name)
  {
    var next := MergeName(rels, n, merging, kind);
    MergeNameNames(rels, n, merging, kind);
    assert next[n].ColumnNames() == rels[n].ColumnNames();
    var hit := rels[n].FindColumn(name);
    if hit.Some? {
      MergeNameColumn(rels, n, merging, kind, n, hit.value);
    }
  }
}
