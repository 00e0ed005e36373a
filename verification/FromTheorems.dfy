/** The main results about FROM clauses, stated for the list the walk leaves in the scope. */
module FromTheorems {
  import opened Wrappers
  import opened Identifier
  import opened Scopes
  import opened FromClause
  import opened JoinTree
  import opened JoinScope
  import opened FlatWalk
  import opened BareReads
  import opened Visibility

  // ----- Clauses joined by ON alone -----

  /** Every join of the clause, in groups too, carries an ON predicate or none. */
  predicate ItemsOnOnly(items: seq<FromItem>) {
    items == [] ||
    (&& (items[0].Group? ==> ItemsOnOnly(items[0].items))
     && (items[0].Join? ==> items[0].cond.On?)
     && ItemsOnOnly(items[1..]))
  }

  lemma {:induction false} OnOnlyLocal(items: seq<FromItem>, rels: seq<Binding>, start: nat)
    requires ItemsOnOnly(items) && start <= |rels|
    ensures LocalMerges(items, rels, start)
    decreases items
  {
    hide ResolveItem;
    if items != [] {
      if items[0].Group? {
        OnOnlyLocal(items[0].items, rels, |rels|);
      }
      var s := if StartsCommaGroup(items[0]) then |rels| else start;
      OnOnlyLocal(items[1..], ResolveItem(items[0], rels, s), s);
    }
  }

  lemma {:induction false} OnOnlyExtend(rest: seq<FromItem>, done: Option<Table>, cur: Table)
    requires GroupsFormed(rest) && ItemsOnOnly(rest) && OnOnly(cur) && (done.Some? ==> OnOnly(done.value))
    ensures OnOnly(Extend(rest, done, cur))
    decreases rest, 0
  {
    if rest != [] {
      if rest[0].Join? {
        OnOnlyExtend(rest[1..], done, Joined(rest[0].kind, cur, rest[0].right, rest[0].cond));
      } else {
        if rest[0].Group? {
          OnOnlyTable(rest[0].items);
        }
        OnOnlyExtend(rest[1..], Some(Beside(done, cur)), StartTable(rest[0]));
      }
    }
  }

  lemma {:induction false} OnOnlyTable(items: seq<FromItem>)
    requires WellFormed(items) && ItemsOnOnly(items)
    ensures OnOnly(TableOf(items))
    decreases items, 1
  {
    if items[0].Group? {
      OnOnlyTable(items[0].items);
    }
    OnOnlyExtend(items[1..], None, StartTable(items[0]));
  }

  lemma {:induction false} OnOnlyClean(t: Table)
    requires OnOnly(t)
    ensures CleanMerges(t) && SoundMerges(t)
  {
    match t {
      case Leaf(_) =>
      case Product(l, r) =>
        OnOnlyClean(l);
        OnOnlyClean(r);
      case Joined(_, l, _, _) =>
        OnOnlyClean(l);
        assert JoinNames(t) == [];
    }
  }

  /** Outer-join marks are sound and exact: after the walk a relation is unmarked if and only
      if no table contents and ON predicates give a row in which it is null-extended. */
  lemma ClauseMarksAreExact(items: seq<FromItem>, i: nat)
    requires WellFormed(items) && ItemsOnOnly(items) && AllFresh(Leaves(TableOf(items)))
    requires i < |Leaves(TableOf(items))|
    ensures ResolveItems(items, [], 0) == TreeScope(TableOf(items))
    ensures ResolveItems(items, [], 0)[i].nullableFromJoin <==> CanBeNullExtended(TableOf(items), i)
  {
    hide ResolveItems, TreeScope, TableOf, CleanMerges, SoundMerges, LocalMerges, CanBeNullExtended;
    var t := TableOf(items);
    OnOnlyTable(items);
    OnOnlyClean(t);
    OnOnlyLocal(items, [], 0);
    FlatIsTree(items, []);
    assert [] + TreeScope(t) == TreeScope(t);
    ScopeMarks(t, i);
    MarksAreExact(t, i);
  }

  // ----- Bare references and `*` -----

  ghost predicate NeverNull(t: Table, i: nat, j: nat)
    requires i < |Leaves(t)|
  {
    forall inst: Instance, row: Row :: IsRowOf(t, inst, row) ==> VisibleValue(t, row, i, j) != Null
  }

  ghost predicate IsRowOf(t: Table, inst: Instance, row: Row) {
    Respects(Leaves(t), inst, 0) && |row| == |Leaves(t)| && InRows(t, row, inst, 0)
  }

  /** A bare name is found exactly when one visible column of the clause carries it, a shared
      column counting once; reported NOT NULL, it is NULL in no row. */
  lemma BareReferenceIsSound(items: seq<FromItem>, name: string)
    requires WellFormed(items) && LocalMerges(items, [], 0)
    requires CleanMerges(TableOf(items)) && SoundMerges(TableOf(items)) && AllFresh(Leaves(TableOf(items)))
    ensures var t := TableOf(items); var r := ResolveBare([ResolveItems(items, [], 0)], name);
            && (r.Found? <==> VisibleCount(t, name) == 1)
            && (r.Ambiguous? <==> VisibleCount(t, name) > 1)
            && (r.Found? ==> r.level == 0 && r.rel < |Leaves(t)|)
            && (r.Found? && !r.column.nullable ==> NeverNull(t, r.rel, r.col))
  {
    hide ResolveItems, TreeScope, TableOf, CleanMerges, SoundMerges, LocalMerges, AllFresh, BareAnswer, InRows, VisibleCount, VisibleValue, OnlyAnswer;
    var t := TableOf(items);
    var rels := TreeScope(t);
    FlatIsTree(items, []);
    assert [] + rels == rels;
    BareByCount(t, name);
    var chain: seq<seq<Binding>> := [rels];
    assert chain[1..] == [];
    var r := ResolveBare(chain, name);
    if r.Found? {
      BareAnswerVisible(rels[r.rel], name);
      if !r.column.nullable {
        forall inst: Instance, row: Row | IsRowOf(t, inst, row) ensures VisibleValue(t, row, r.rel, r.col) != Null {
          ReportedIsPresent(t, row, inst, 0, r.rel, r.col);
        }
      }
    }
  }

  lemma BareAnswerVisible(b: Binding, name: string)
    ensures var a := BareAnswer(b, name);
            a.Once? ==> a.col < |b.columns| && !b.columns[a.col].coalesced && IEquals(b.columns[a.col].name, name)
  {
  }

  /** The columns `*` projects: hidden copies skipped, each with its read nullability. */
  function StarColumns(b: Binding, cs: seq<Column>): seq<Column> {
    if cs == [] then []
    else
      var c := cs[|cs| - 1];
      StarColumns(b, cs[..|cs| - 1]) + if c.coalesced then [] else [ReadBare(b, c).(coalesced := false)]
  }

  function ExpandStar(rels: seq<Binding>): seq<Column> {
    if rels == [] then []
    else
      var b := rels[|rels| - 1];
      ExpandStar(rels[..|rels| - 1]) + StarColumns(b, b.columns)
  }

  method ExpandStarInto(scope: Scope) returns (output: seq<Column>)
    ensures output == ExpandStar(scope.relations)
  {
    output := [];
    for i := 0 to |scope.relations|
      invariant output == ExpandStar(scope.relations[..i])
    {
      var b := scope.relations[i];
      ghost var before := output;
      for j := 0 to |b.columns|
        invariant output == before + StarColumns(b, b.columns[..j])
      {
        assert b.columns[..j + 1][..j] == b.columns[..j];
        if !b.columns[j].coalesced {
          output := output + [ReadBare(b, b.columns[j]).(coalesced := false)];
        }
      }
      assert b.columns[..|b.columns|] == b.columns;
      assert scope.relations[..i + 1][..i] == scope.relations[..i];
    }
    assert scope.relations[..|scope.relations|] == scope.relations;
  }

  lemma {:induction false} CountAppend(a: seq<Column>, b: seq<Column>, name: string)
    ensures CountNames(a + b, name) == CountNames(a, name) + CountNames(b, name)
  {
    if b == [] {
      assert a + b == a;
    } else {
      assert (a + b)[..|a + b| - 1] == a + b[..|b| - 1];
      CountAppend(a, b[..|b| - 1], name);
    }
  }

  lemma {:induction false} CountStarColumns(b: Binding, cs: seq<Column>, name: string)
    ensures CountNames(StarColumns(b, cs), name) == CountColumn(cs, name)
  {
    if cs != [] {
      var n := |cs| - 1;
      CountStarColumns(b, cs[..n], name);
      var last := if cs[n].coalesced then [] else [ReadBare(b, cs[n]).(coalesced := false)];
      CountAppend(StarColumns(b, cs[..n]), last, name);
    }
  }

  lemma {:induction false} CountExpandStar(rels: seq<Binding>, name: string)
    ensures CountNames(ExpandStar(rels), name) == TotalVisible(rels, name)
  {
    if rels != [] {
      var b := rels[|rels| - 1];
      CountExpandStar(rels[..|rels| - 1], name);
      CountStarColumns(b, b.columns, name);
      CountAppend(ExpandStar(rels[..|rels| - 1]), StarColumns(b, b.columns), name);
    }
  }

  /** `*` emits each column of the joined table once, a shared column included. */
  lemma StarEmitsOnce(items: seq<FromItem>, name: string)
    requires WellFormed(items) && LocalMerges(items, [], 0)
    requires CleanMerges(TableOf(items)) && AllFresh(Leaves(TableOf(items)))
    ensures CountNames(ExpandStar(ResolveItems(items, [], 0)), name) == VisibleCount(TableOf(items), name)
  {
    hide ResolveItems, TreeScope, TableOf, CleanMerges, LocalMerges, AllFresh, ExpandStar, VisibleCount;
    FlatIsTree(items, []);
    assert [] + TreeScope(TableOf(items)) == TreeScope(TableOf(items));
    CountExpandStar(TreeScope(TableOf(items)), name);
    ScopeExposes(TableOf(items), name);
  }

  // ----- Exactly when a merged verdict is right -----

  /** ON joins only mark relations; they leave the columns alone. */
  lemma {:induction false} PlainScope(t: Table, i: nat)
    requires OnOnly(t) && AllFresh(Leaves(t)) && i < |Leaves(t)|
    ensures TreeScope(t)[i].columns == Leaves(t)[i].columns
  {
    if !t.Leaf? {
      hide AllFresh, MarkSides;
      FreshParts(t);
      var n := |Leaves(t.left)|;
      if t.Product? {
        if i < n { PlainScope(t.left, i); } else { PlainScope(t.right, i - n); }
      } else {
        if i < n { PlainScope(t.left, i); }
        FreshUnmerged(Leaves(t), i);
        assert Leaves(t)[i] == if i < n then Leaves(t.left)[i] else t.binding;
        MapUnmerged(Leaves(t)[i].columns);
      }
    }
  }

  lemma FreshUnmerged(leaves: seq<Binding>, i: nat)
    requires AllFresh(leaves) && i < |leaves|
    ensures forall j :: 0 <= j < |leaves[i].columns| ==> !leaves[i].columns[j].merged
    ensures forall j :: 0 <= j < |leaves[i].columns| ==> !leaves[i].columns[j].nullableFromEnclosing
    ensures forall j :: 0 <= j < |leaves[i].columns| ==> !leaves[i].columns[j].coalesced
  {
    assert Fresh(leaves[i]);
  }

  lemma MapUnmerged(cs: seq<Column>)
    requires forall j :: 0 <= j < |cs| ==> !cs[j].merged
    ensures MapColumns(EncloseColumn, cs) == cs
  {
  }

  lemma {:induction false} PlainValue(t: Table, row: Row, i: nat, j: nat)
    requires OnOnly(t) && |row| == |Leaves(t)| && i < |row|
    ensures VisibleValue(t, row, i, j) == CellValue(row, i, j)
  {
    match t {
      case Leaf(_) =>
      case Product(l, r) =>
        var n := |Leaves(l)|;
        if i < n { PlainValue(l, row[..n], i, j); } else { PlainValue(r, row[n..], i - n, j); }
      case Joined(_, l, b, cond) =>
        var n := |Leaves(l)|;
        if i < n { PlainValue(l, row[..n], i, j); }
    }
  }

  /** A join over ON joins, sharing the column at `(i, j)` of its left side. */
  ghost predicate SharesSlot(t: Table, i: nat, j: nat) {
    && t.Joined? && OnOnly(t.left) && CleanMerges(t) && AllFresh(Leaves(t))
    && i < |Leaves(t.left)| && j < |Leaves(t.left)[i].columns|
    && Lists(JoinNames(t), Leaves(t.left)[i].columns[j].name)
  }

  /** When the left copy's relation is already null-supplied and the join can leave its right
      side empty, a verdict of NOT NULL is contradicted by a row where both copies are absent. */
  lemma MergeFailure(t: Table, i: nat, j: nat) returns (inst: Instance, row: Row)
    requires SharesSlot(t, i, j)
    requires var c := Leaves(t.left)[i].columns[j];
             !SoundMerge(t.kind, TreeScope(t.left)[i], c, RightNullable(t.binding, c.name))
    ensures ReportedNotNull(TreeScope(t), i, j)
    ensures IsRowOf(t, inst, row) && VisibleValue(t, row, i, j) == Null
  {
    hide TreeScope, CleanMerges, AllFresh, InRows, OnOnly, Lists, RightNullable, SharedNames, Witness, Respects;
    var n := |Leaves(t.left)|;
    FreshParts(t);
    PlainScope(t.left, i);
    FreshUnmerged(Leaves(t.left), i);
    ScopeMarks(t.left, i);
    JoinedColumn(t, i, j);
    inst, row := AbsentRow(t, i);
    AbsentValue(t, row, i, j);
  }

  lemma AbsentRow(t: Table, i: nat) returns (inst: Instance, row: Row)
    requires t.Joined? && OnOnly(t.left) && i < |Leaves(t.left)| && NullSupplied(t.left)[i] && t.kind.NullsRight()
    ensures IsRowOf(t, inst, row) && row[i].None? && row[|Leaves(t.left)|].None?
  {
    hide InRows, Matches;
    var leaves, n := Leaves(t.left), |Leaves(t.left)|;
    assert leaves[0..n] == leaves;
    var a := MarkedIsExtended(t.left, leaves, 0, i, None);
    inst := Witness(leaves, Culprit(t.left, i), None);
    RightExtendedRow(t, a, inst, 0);
    row := a + [None];
    forall k | 0 <= k <= n ensures Holds(Leaves(t)[k], inst.tables(0 + k)) {
      assert k < n ==> Leaves(t)[k] == leaves[k];
    }
  }

  lemma AbsentValue(t: Table, row: Row, i: nat, j: nat)
    requires t.Joined? && OnOnly(t.left) && |row| == |Leaves(t)| && i < |Leaves(t.left)|
    requires row[i].None? && row[|Leaves(t.left)|].None?
    ensures VisibleValue(t, row, i, j) == Null
  {
    PlainValue(t.left, row[..|Leaves(t.left)|], i, j);
  }

  /** Over ON joins, the merged verdicts of a USING or NATURAL join are right if and only if
      each NOT NULL verdict of a LEFT or FULL join rests on a left copy reported NOT NULL. */
  lemma MergeVerdictsAreExact(t: Table)
    requires t.Joined? && OnOnly(t.left) && CleanMerges(t) && AllFresh(Leaves(t))
    ensures SoundMergesHere(t) <==>
            forall i: nat, j: nat :: i < |Leaves(t.left)| && ReportedNotNull(TreeScope(t), i, j) ==> NeverNull(t, i, j)
  {
    hide TreeScope, CleanMerges, AllFresh, OnOnly, ReportedNotNull, InRows, VisibleValue;
    OnOnlyClean(t.left);
    FreshParts(t);
    if SoundMergesHere(t) {
      forall i: nat, j: nat | i < |Leaves(t.left)| && ReportedNotNull(TreeScope(t), i, j) ensures NeverNull(t, i, j) {
        forall inst: Instance, row: Row | IsRowOf(t, inst, row) ensures VisibleValue(t, row, i, j) != Null {
          ReportedIsPresent(t, row, inst, 0, i, j);
        }
      }
    } else {
      var i: nat, j: nat :| i < |Leaves(t.left)| && j < |TreeScope(t.left)[i].columns| &&
        var c := TreeScope(t.left)[i].columns[j];
        !c.coalesced && Lists(JoinNames(t), c.name) &&
        !SoundMerge(t.kind, TreeScope(t.left)[i], c, RightNullable(t.binding, c.name));
      PlainScope(t.left, i);
      var inst, row := MergeFailure(t, i, j);
      assert !NeverNull(t, i, j);
    }
  }

  /** `a LEFT JOIN b ON ... LEFT JOIN c USING (x)`, with `x` declared NOT NULL in `b` and `c`. */
  function NullKeyJoin(): Table {
    var a := Binding("a", "", [Column("y", false, 1, 1, false, false, false)], false);
    var b := Binding("b", "", [Column("x", false, 2, 1, false, false, false)], false);
    var c := Binding("c", "", [Column("x", false, 3, 1, false, false, false)], false);
    Joined(Left, Joined(Left, Leaf(a), b, On), c, Using(["x"]))
  }

  /** There `x` is reported NOT NULL, yet some row has it NULL. */
  lemma NullKeyExample() returns (inst: Instance, row: Row)
    ensures ReportedNotNull(TreeScope(NullKeyJoin()), 1, 0)
    ensures IsRowOf(NullKeyJoin(), inst, row) && VisibleValue(NullKeyJoin(), row, 1, 0) == Null
  {
    hide TreeScope, InRows, VisibleValue;
    var t := NullKeyJoin();
    var l := t.left;
    assert Leaves(l) == [l.left.binding, l.binding];
    assert Leaves(t) == [l.left.binding, l.binding, t.binding];
    assert JoinNames(t) == ["x"];
    assert Fold("x") == ['x'] && Fold("y") == ['y'];
    assert OnlyAt(Leaves(l), 1, 0, "x");
    assert OnlyAt([t.binding], 0, 0, "x");
    assert IEquals(JoinNames(t)[0], "x");
    assert SharesSlot(t, 1, 0);
    PlainScope(l, 1);
    ScopeMarks(l, 1);
    inst, row := MergeFailure(t, 1, 0);
  }
}
