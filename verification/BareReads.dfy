/** Unqualified reads: a bare column reference finds the one visible column of that name, and
    when the scope reports it NOT NULL its value is NULL in no row of the joined table. */
module BareReads {
  import opened Wrappers
  import opened Identifier
  import opened Scopes
  import opened FromClause
  import opened JoinTree
  import opened JoinScope

  /** The column before this join merges anything: marked if its side is null-supplied. */
  function MarkedColumn(c: Column, supplied: bool): Column {
    if supplied then EncloseColumn(c) else c
  }

  /** Does this join null-supply the instance at `i` of its `n + 1` instances? */
  predicate SuppliesHere(kind: JoinKind, i: nat, n: nat) {
    if i < n then kind.NullsLeft() else kind.NullsRight()
  }

  function JoinNames(t: Table): seq<string>
    requires t.Joined?
  {
    SharedNames(Leaves(t.left), t.binding, t.cond)
  }

  /** The binding at `i` as the join finds it. */
  function Incoming(t: Table, i: nat): Binding
    requires t.Joined? && i < |Leaves(t)|
  {
    if i < |Leaves(t.left)| then TreeScope(t.left)[i] else t.binding
  }

  lemma RightNullableOfSame(a: Binding, b: Binding, name: string)
    requires a.ColumnNames() == b.ColumnNames()
    requires forall j :: 0 <= j < |a.columns| ==> a.columns[j].nullable == b.columns[j].nullable
    ensures RightNullable(a, name) == RightNullable(b, name)
  {
  }

  /** What one join does to one column. */
  lemma JoinedColumn(t: Table, i: nat, j: nat)
    requires t.Joined? && CleanMerges(t) && i < |Leaves(t)| && j < |Incoming(t, i).columns|
    ensures var n := |Leaves(t.left)|; var c := Incoming(t, i).columns[j];
            && |TreeScope(t)[i].columns| == |Incoming(t, i).columns|
            && TreeScope(t)[i].nullableFromJoin == (Incoming(t, i).nullableFromJoin || SuppliesHere(t.kind, i, n))
            && TreeScope(t)[i].columns[j] ==
                 MergedColumn(MarkedColumn(c, SuppliesHere(t.kind, i, n)), i < n, Lists(JoinNames(t), c.name), t.kind,
                              RightNullable(t.binding, c.name))
  {
    hide MergeNames, SharedNames, Lists, CleanMerges, ExposedOnce, RightNullable, MarkSides, SameNames;
    var n, names := |Leaves(t.left)|, JoinNames(t);
    var rels := TreeScope(t.left) + [t.binding];
    var marked := MarkSides(t.kind, rels, 0, n);
    JoinSides(t, marked);
    MergeNamesColumn(marked, n, names, t.kind, i, j);
    MergeNamesNames(marked, n, names, t.kind);
    MarkedRight(t, marked, rels[i].columns[j].name);
  }

  lemma MarkedRight(t: Table, marked: seq<Binding>, name: string)
    requires t.Joined? && marked == MarkSides(t.kind, TreeScope(t.left) + [t.binding], 0, |Leaves(t.left)|)
    ensures RightNullable(marked[|Leaves(t.left)|], name) == RightNullable(t.binding, name)
  {
    hide MarkSides, RightNullable, TreeScope;
    var right := marked[|Leaves(t.left)|];
    assert right.ColumnNames() == t.binding.ColumnNames();
    RightNullableOfSame(right, t.binding, name);
  }

  lemma JoinSides(t: Table, marked: seq<Binding>)
    requires t.Joined? && CleanMerges(t)
    requires marked == MarkSides(t.kind, TreeScope(t.left) + [t.binding], 0, |Leaves(t.left)|)
    ensures Distinct(JoinNames(t))
    ensures forall k :: 0 <= k < |JoinNames(t)| ==> Sides(marked, |Leaves(t.left)|, JoinNames(t)[k])
  {
    hide MarkSides, TreeScope, SharedNames, SameNames, ExposedOnce;
    var n, names := |Leaves(t.left)|, JoinNames(t);
    MarkSidesNames(t.kind, TreeScope(t.left) + [t.binding], 0, n);
    TreeScopeNames(t.left);
    SameNamesParts(marked, t, n);
    forall k | 0 <= k < |names| ensures Sides(marked, n, names[k]) {
      ExposedOnceNames(Leaves(t.left), marked[..n], names[k]);
      ExposedOnceNames([t.binding], marked[n..], names[k]);
    }
  }

  lemma SameNamesParts(marked: seq<Binding>, t: Table, n: nat)
    requires t.Joined? && n == |Leaves(t.left)|
    requires SameNames(marked, TreeScope(t.left) + [t.binding]) && SameNames(TreeScope(t.left), Leaves(t.left))
    ensures SameNames(Leaves(t.left), marked[..n]) && SameNames([t.binding], marked[n..])
  {
    hide TreeScope;
  }

  /** The left copy's reported nullability must back the merged verdict wherever the join can
      leave the right side empty; the verdict is computed from the declared one alone. */
  predicate SoundMerge(kind: JoinKind, left: Binding, c: Column, rightNullable: bool) {
    kind.NullsRight() && !MergedNullable(kind, c.nullable, rightNullable) ==> !ReadBare(left, c).nullable
  }

  ghost predicate SoundMergesHere(t: Table)
    requires t.Joined?
  {
    forall i, j :: 0 <= i < |Leaves(t.left)| && 0 <= j < |TreeScope(t.left)[i].columns| ==>
      var c := TreeScope(t.left)[i].columns[j];
      !c.coalesced && Lists(JoinNames(t), c.name) ==>
      SoundMerge(t.kind, TreeScope(t.left)[i], c, RightNullable(t.binding, c.name))
  }

  ghost predicate SoundMerges(t: Table) {
    match t
    case Leaf(_) => true
    case Product(l, r) => SoundMerges(l) && SoundMerges(r)
    case Joined(_, l, _, _) => SoundMerges(l) && SoundMergesHere(t)
  }

  /** A slot the scope answers for: not a hidden copy, and reported NOT NULL when read bare. */
  predicate ReportedNotNull(rels: seq<Binding>, i: nat, j: nat) {
    && i < |rels| && j < |rels[i].columns|
    && !rels[i].columns[j].coalesced
    && !ReadBare(rels[i], rels[i].columns[j]).nullable
  }

  lemma RespectsSlice(leaves: seq<Binding>, part: seq<Binding>, inst: Instance, base: nat, k: nat)
    requires Respects(leaves, inst, base) && k + |part| <= |leaves| && part == leaves[k..k + |part|]
    ensures Respects(part, inst, base + k)
  {
    hide Holds;
    forall i | 0 <= i < |part| ensures Holds(part[i], inst.tables(base + k + i)) {
      assert part[i] == leaves[k + i];
      assert base + k + i == base + (k + i);
    }
  }

  lemma RespectsParts(t: Table, inst: Instance, base: nat)
    requires Respects(Leaves(t), inst, base) && !t.Leaf?
    ensures Respects(Leaves(t.left), inst, base)
    ensures t.Product? ==> Respects(Leaves(t.right), inst, base + |Leaves(t.left)|)
    ensures t.Joined? ==> Holds(t.binding, inst.tables(base + |Leaves(t.left)|))
  {
    hide Respects, Holds;
    var all, n := Leaves(t), |Leaves(t.left)|;
    assert all[0..n] == Leaves(t.left);
    RespectsSlice(all, Leaves(t.left), inst, base, 0);
    if t.Product? {
      assert all[n..n + |Leaves(t.right)|] == Leaves(t.right);
      RespectsSlice(all, Leaves(t.right), inst, base, n);
    } else {
      assert all[n] == t.binding;
      LeafHolds(all, inst, base, n);
    }
  }

  lemma LeafHolds(leaves: seq<Binding>, inst: Instance, base: nat, i: nat)
    requires Respects(leaves, inst, base) && i < |leaves|
    ensures Holds(leaves[i], inst.tables(base + i))
  {
  }

  lemma FreshParts(t: Table)
    requires AllFresh(Leaves(t)) && !t.Leaf?
    ensures AllFresh(Leaves(t.left))
    ensures t.Product? ==> AllFresh(Leaves(t.right))
    ensures t.Joined? ==> Fresh(t.binding)
  {
    hide Fresh;
    var n := |Leaves(t.left)|;
    assert forall i :: 0 <= i < n ==> Leaves(t)[i] == Leaves(t.left)[i];
    if t.Product? {
      assert forall i :: 0 <= i < |Leaves(t.right)| ==> Leaves(t)[n + i] == Leaves(t.right)[i];
    } else {
      assert Leaves(t)[n] == t.binding;
    }
  }

  /** A row of a join, by the way it came about. */
  datatype Origin = Matched | RightEmpty | LeftEmpty

  ghost function OriginOf(t: Table, row: Row, inst: Instance, base: nat): (o: Origin)
    requires t.Joined? && InRows(t, row, inst, base)
    ensures var n := |Leaves(t.left)|; |row| == n + 1
    ensures var n := |Leaves(t.left)|;
            match o
            case Matched => InRows(t.left, row[..n], inst, base) && row[n].Some? && row[n].value in inst.tables(base + n)
                            && Matches(t, inst, base, row[..n], row[n].value)
            case RightEmpty => t.kind.NullsRight() && InRows(t.left, row[..n], inst, base)
            case LeftEmpty => t.kind.NullsLeft() && row[n].Some? && row[n].value in inst.tables(base + n)
  {
    hide Matches;
    var n := |Leaves(t.left)|;
    if row[n].None? then RightEmpty
    else if InRows(t.left, row[..n], inst, base) && Matches(t, inst, base, row[..n], row[n].value) then Matched
    else LeftEmpty
  }

  /** The right copy of a shared column, read in a row. */
  function RightCopy(t: Table, row: Row, name: string): Value
    requires t.Joined?
  {
    match t.binding.FindColumn(name)
    case Some(rj) => CellValue(row, |Leaves(t.left)|, rj)
    case None => Null
  }

  lemma LeafIsPresent(t: Table, row: Row, inst: Instance, base: nat, i: nat, j: nat)
    requires t.Leaf? && AllFresh(Leaves(t)) && Respects(Leaves(t), inst, base) && InRows(t, row, inst, base)
    requires ReportedNotNull(TreeScope(t), i, j)
    ensures |row| == |Leaves(t)| && VisibleValue(t, row, i, j) != Null
  {
    LeafHolds(Leaves(t), inst, base, 0);
  }

  lemma ProductParts(t: Table, row: Row, inst: Instance, base: nat, i: nat, j: nat)
    requires t.Product? && InRows(t, row, inst, base) && i < |Leaves(t)|
    ensures var n := |Leaves(t.left)|;
            && n <= |row| == |Leaves(t)| == n + |Leaves(t.right)|
            && InRows(t.left, row[..n], inst, base) && InRows(t.right, row[n..], inst, base + n)
            && VisibleValue(t, row, i, j) ==
                 if i < n then VisibleValue(t.left, row[..n], i, j) else VisibleValue(t.right, row[n..], i - n, j)
  {
  }

  /** What is reported NOT NULL is present in every row. */
  lemma {:induction false} ReportedIsPresent(t: Table, row: Row, inst: Instance, base: nat, i: nat, j: nat)
    requires CleanMerges(t) && SoundMerges(t) && AllFresh(Leaves(t))
    requires Respects(Leaves(t), inst, base) && InRows(t, row, inst, base)
    requires ReportedNotNull(TreeScope(t), i, j)
    ensures |row| == |Leaves(t)| && i < |row|
    ensures VisibleValue(t, row, i, j) != Null
    decreases t, 0
  {
    hide CleanMerges, SoundMerges, AllFresh, Respects, InRows, VisibleValue, TreeScope, Leaves;
    if t.Leaf? {
      LeafIsPresent(t, row, inst, base, i, j);
    } else if t.Joined? {
      JoinedIsPresent(t, row, inst, base, i, j);
    } else {
      RespectsParts(t, inst, base);
      FreshParts(t);
      CleanProduct(t);
      ReportedInProduct(t, i, j);
      ProductParts(t, row, inst, base, i, j);
      var n := |Leaves(t.left)|;
      if i < n {
        ReportedIsPresent(t.left, row[..n], inst, base, i, j);
      } else {
        ReportedIsPresent(t.right, row[n..], inst, base + n, i - n, j);
      }
    }
  }

  lemma CleanProduct(t: Table)
    requires t.Product? && CleanMerges(t) && SoundMerges(t)
    ensures CleanMerges(t.left) && CleanMerges(t.right) && SoundMerges(t.left) && SoundMerges(t.right)
  {
    hide SharesCleanly, SoundMergesHere, SharedNames, TreeScope, Leaves;
  }

  lemma ReportedInProduct(t: Table, i: nat, j: nat)
    requires t.Product? && ReportedNotNull(TreeScope(t), i, j)
    ensures if i < |Leaves(t.left)| then ReportedNotNull(TreeScope(t.left), i, j)
            else ReportedNotNull(TreeScope(t.right), i - |Leaves(t.left)|, j)
  {
    hide ReadBare, MergeNames, MarkSides;
  }

  lemma {:induction false} JoinedIsPresent(t: Table, row: Row, inst: Instance, base: nat, i: nat, j: nat)
    requires t.Joined? && CleanMerges(t) && SoundMerges(t) && AllFresh(Leaves(t))
    requires Respects(Leaves(t), inst, base) && InRows(t, row, inst, base)
    requires ReportedNotNull(TreeScope(t), i, j)
    ensures |row| == |Leaves(t)|
    ensures VisibleValue(t, row, i, j) != Null
    decreases t.left, 2
  {
    hide InRows, Matches, Respects, AllFresh, TreeScope, SharedNames, Lists, SoundMergesHere, SharesCleanly, Binding.FindColumn, ExposedOnce;
    var n := |Leaves(t.left)|;
    RespectsParts(t, inst, base);
    FreshParts(t);
    TreeScopeNames(t);
    TreeScopeNames(t.left);
    SameNamesAt(TreeScope(t), Leaves(t), i, j);
    if i == n {
      RightIsPresent(t, row, inst, base, j);
    } else {
      SameNamesAt(TreeScope(t.left), Leaves(t.left), i, j);
      assert Leaves(t)[i] == Leaves(t.left)[i];
      LeftIsPresent(t, row, inst, base, i, j);
    }
  }

  lemma RightIsPresent(t: Table, row: Row, inst: Instance, base: nat, j: nat)
    requires t.Joined? && CleanMerges(t) && Fresh(t.binding)
    requires Holds(t.binding, inst.tables(base + |Leaves(t.left)|))
    requires InRows(t, row, inst, base) && j < |t.binding.columns|
    requires ReportedNotNull(TreeScope(t), |Leaves(t.left)|, j)
    ensures |row| == |Leaves(t)|
    ensures VisibleValue(t, row, |Leaves(t.left)|, j) != Null
  {
    hide InRows, Matches, TreeScope, Lists, CleanMerges;
    JoinedColumn(t, |Leaves(t.left)|, j);
    var _ := OriginOf(t, row, inst, base);
  }

  lemma {:induction false} LeftIsPresent(t: Table, row: Row, inst: Instance, base: nat, i: nat, j: nat)
    requires t.Joined? && CleanMerges(t) && SoundMerges(t) && Fresh(t.binding) && AllFresh(Leaves(t.left))
    requires Respects(Leaves(t.left), inst, base)
    requires Holds(t.binding, inst.tables(base + |Leaves(t.left)|))
    requires InRows(t, row, inst, base)
    requires i < |Leaves(t.left)| && j < |TreeScope(t.left)[i].columns| == |Leaves(t.left)[i].columns|
    requires TreeScope(t.left)[i].columns[j].name == Leaves(t.left)[i].columns[j].name
    requires ReportedNotNull(TreeScope(t), i, j)
    ensures |row| == |Leaves(t)|
    ensures VisibleValue(t, row, i, j) != Null
    decreases t.left, 1
  {
    hide InRows, Matches, TreeScope, Lists, SharedNames, WellTyped, AllFresh, Respects, CleanMerges, SoundMergesHere, SoundMerges, RightNullable;
    var n, l := |Leaves(t.left)|, TreeScope(t.left)[i];
    var c := l.columns[j];
    var origin := OriginOf(t, row, inst, base);
    JoinedColumn(t, i, j);
    CleanLeft(t);
    if !Lists(JoinNames(t), c.name) {
      assert ReportedNotNull(TreeScope(t.left), i, j) && !t.kind.NullsLeft();
      ReportedIsPresent(t.left, row[..n], inst, base, i, j);
    } else if origin.LeftEmpty? {
      RightCopyPresent(t, row, inst, base, c.name);
    } else if origin.Matched? {
      MatchedCopyPresent(t, row, inst, base, i, j);
    } else {
      SoundHere(t, i, j);
      assert ReportedNotNull(TreeScope(t.left), i, j);
      ReportedIsPresent(t.left, row[..n], inst, base, i, j);
    }
  }

  lemma CleanLeft(t: Table)
    requires t.Joined? && CleanMerges(t) && SoundMerges(t)
    ensures CleanMerges(t.left) && SoundMerges(t.left) && SoundMergesHere(t)
    ensures t.kind.Cross? ==> forall name :: !Lists(JoinNames(t), name)
  {
  }

  lemma SoundHere(t: Table, i: nat, j: nat)
    requires t.Joined? && SoundMergesHere(t) && i < |Leaves(t.left)| && j < |TreeScope(t.left)[i].columns|
    requires var c := TreeScope(t.left)[i].columns[j]; !c.coalesced && Lists(JoinNames(t), c.name)
    ensures var c := TreeScope(t.left)[i].columns[j];
            SoundMerge(t.kind, TreeScope(t.left)[i], c, RightNullable(t.binding, c.name))
  {
  }

  /** A shared column declared NOT NULL on the right is present when the right side is. */
  lemma RightCopyPresent(t: Table, row: Row, inst: Instance, base: nat, name: string)
    requires t.Joined? && |row| == |Leaves(t)| && row[|Leaves(t.left)|].Some?
    requires row[|Leaves(t.left)|].value in inst.tables(base + |Leaves(t.left)|)
    requires Holds(t.binding, inst.tables(base + |Leaves(t.left)|))
    requires !RightNullable(t.binding, name)
    ensures RightCopy(t, row, name) != Null
  {
  }

  /** In a matched row the shared column's two copies are equal and not NULL. */
  lemma MatchedCopyPresent(t: Table, row: Row, inst: Instance, base: nat, i: nat, j: nat)
    requires t.Joined? && |row| == |Leaves(t)| && i < |Leaves(t.left)| && j < |Leaves(t.left)[i].columns|
    requires row[|Leaves(t.left)|].Some? && !t.kind.Cross?
    requires Matches(t, inst, base, row[..|Leaves(t.left)|], row[|Leaves(t.left)|].value)
    requires Lists(JoinNames(t), Leaves(t.left)[i].columns[j].name)
    ensures RightCopy(t, row, Leaves(t.left)[i].columns[j].name) != Null
  {
    hide VisibleValue;
    var name := Leaves(t.left)[i].columns[j].name;
    var names := JoinNames(t);
    var k :| 0 <= k < |names| && IEquals(names[k], name);
    FindColumnFolded(t.binding, names[k], name);
    assert Agrees(t.left, t.binding, names[k], row[..|Leaves(t.left)|], row[|Leaves(t.left)|].value);
  }
}
