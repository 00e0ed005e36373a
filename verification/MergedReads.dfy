/** How tight the nullability of bare references is: what is reported nullable can be NULL. */
module MergedReads {
  import opened Wrappers
  import opened Identifier
  import opened Scopes
  import opened FromClause
  import opened JoinTree
  import opened JoinScope
  import opened FlatWalk
  import opened BareReads
  import opened Visibility
  import opened FromTheorems
  import opened QualifiedReads

  // ----- Clauses joined by ON -----

  lemma PlainRead(t: Table, i: nat, j: nat)
    requires OnOnly(t) && AllFresh(Leaves(t)) && i < |Leaves(t)| && j < |Leaves(t)[i].columns|
    ensures j < |TreeScope(t)[i].columns|
    ensures ReadBare(TreeScope(t)[i], TreeScope(t)[i].columns[j]).nullable == (Leaves(t)[i].columns[j].nullable || NullSupplied(t)[i])
  {
    hide TreeScope, AllFresh, NullSupplied, OnOnly;
    PlainScope(t, i);
    FreshUnmerged(Leaves(t), i);
    ScopeMarks(t, i);
  }

  /** A slot that a bare read reports nullable. */
  predicate ReportedNullable(rels: seq<Binding>, i: nat, j: nat) {
    i < |rels| && j < |rels[i].columns| && ReadBare(rels[i], rels[i].columns[j]).nullable
  }

  /** With ON joins only, a bare reference is reported nullable if and only if it is NULL in
      some row. */
  lemma BareReferenceIsExact(items: seq<FromItem>, name: string)
    requires WellFormed(items) && ItemsOnOnly(items) && AllFresh(Leaves(TableOf(items)))
    requires ResolveBare([ResolveItems(items, [], 0)], name).Found?
    ensures var t := TableOf(items); var r := ResolveBare([ResolveItems(items, [], 0)], name);
            r.rel < |Leaves(t)| && (r.column.nullable <==> !NeverNull(t, r.rel, r.col))
  {
    hide ResolveItems, TreeScope, TableOf, CleanMerges, SoundMerges, LocalMerges, AllFresh, InRows, OnOnly, NullSupplied, BareAnswer, VisibleValue;
    var t := TableOf(items);
    OnOnlyTable(items);
    OnOnlyClean(t);
    OnOnlyLocal(items, [], 0);
    BareReferenceIsSound(items, name);
    FlatIsTree(items, []);
    assert [] + TreeScope(t) == TreeScope(t);
    var chain: seq<seq<Binding>> := [TreeScope(t)];
    assert chain[1..] == [];
    var r := ResolveBare(chain, name);
    BareAnswerVisible(TreeScope(t)[r.rel], name);
    TreeScopeNames(t);
    SameNamesAt(TreeScope(t), Leaves(t), r.rel, r.col);
    PlainRead(t, r.rel, r.col);
    if r.column.nullable {
      OwnIsAbsent(t, r.rel, r.col);
      var inst: Instance, row: Row :| IsRowOf(t, inst, row) && CellValue(row, r.rel, r.col) == Null;
      PlainValue(t, row, r.rel, r.col);
    }
  }

  // ----- Columns shared by one join -----

  /** A join that shares a column with a left side joined by ON: the flag a bare read reports. */
  lemma MergedFlag(t: Table, i: nat, j: nat)
    requires SharesSlot(t, i, j)
    ensures var c := Leaves(t.left)[i].columns[j];
            && j < |TreeScope(t)[i].columns|
            && ReadBare(TreeScope(t)[i], TreeScope(t)[i].columns[j]).nullable == MergedNullable(t.kind, c.nullable, RightNullable(t.binding, c.name))
  {
    hide TreeScope, CleanMerges, AllFresh, OnOnly, Lists, RightNullable, SharedNames;
    FreshParts(t);
    PlainScope(t.left, i);
    FreshUnmerged(Leaves(t.left), i);
    JoinedColumn(t, i, j);
  }

  /** A match agrees on the shared column, so neither copy is NULL in it. */
  lemma MatchedCopies(t: Table, i: nat, j: nat, inst: Instance, a: Row, tuple: Tuple)
    requires SharesSlot(t, i, j) && !t.kind.Cross? && |a| == |Leaves(t.left)| && Matches(t, inst, 0, a, tuple)
    ensures CellValue(a, i, j) != Null
    ensures var rj := t.binding.FindColumn(Leaves(t.left)[i].columns[j].name);
            rj.Some? && rj.value < |tuple| && tuple[rj.value] != Null
  {
    hide CleanMerges, AllFresh, OnOnly, LastHit, VisibleValue, CommonNames;
    var l := Leaves(t.left);
    var name := l[i].columns[j].name;
    var names := JoinNames(t);
    var k :| 0 <= k < |names| && IEquals(names[k], name);
    FindColumnFolded(t.binding, names[k], name);
    CleanSlot(t, i, j, k);
    assert Agrees(t.left, t.binding, names[k], a, tuple);
    PlainValue(t.left, a, i, j);
  }

  lemma CleanNames(t: Table)
    requires t.Joined? && CleanMerges(t)
    ensures SharesCleanly(Leaves(t.left), t.binding, JoinNames(t))
  {
  }

  lemma CleanSlot(t: Table, i: nat, j: nat, k: nat)
    requires SharesSlot(t, i, j) && k < |JoinNames(t)| && IEquals(JoinNames(t)[k], Leaves(t.left)[i].columns[j].name)
    ensures LastHit(Leaves(t.left), 0, |Leaves(t.left)|, JoinNames(t)[k]) == Some(FromClause.Slot(i, j))
  {
    hide OnOnly, LastHit, AllFresh, SharedNames, CleanMerges;
    var l, name := Leaves(t.left), JoinNames(t)[k];
    CleanNames(t);
    assert ExposedOnce(l, JoinNames(t)[k]);
    assert NameAt(l, i, j, name);
    LastHitOnly(l, 0, |l|, i, j, name);
  }

  /** For an outer join a merged column reported nullable is NULL in some row. */
  lemma MergedReportIsTight(t: Table, i: nat, j: nat)
    requires SharesSlot(t, i, j) && (t.kind.Left? || t.kind.Right? || t.kind.Full?)
    requires ReportedNullable(TreeScope(t), i, j)
    ensures !NeverNull(t, i, j)
  {
    hide TreeScope, CleanMerges, AllFresh, InRows, OnOnly, VisibleValue, Lists, RightNullable, SharedNames, IsRowOf;
    var c := Leaves(t.left)[i].columns[j];
    MergedFlag(t, i, j);
    var inst: Instance, row: Row;
    if t.kind.NullsRight() && c.nullable {
      inst, row := AbsentLeftKey(t, i, j);
    } else {
      inst, row := AbsentRightKey(t, i, j);
    }
  }

  lemma AbsentLeftKey(t: Table, i: nat, j: nat) returns (inst: Instance, row: Row)
    requires SharesSlot(t, i, j) && t.kind.NullsRight() && Leaves(t.left)[i].columns[j].nullable
    ensures IsRowOf(t, inst, row) && VisibleValue(t, row, i, j) == Null
  {
    hide CleanMerges, AllFresh, InRows, Lists, RightNullable, SharedNames, Matches, Witness, Respects, Stored, OnOnly;
    var l, n := Leaves(t.left), |Leaves(t.left)|;
    assert l[0..n] == l;
    var hole := Some(FromClause.Slot(i, j));
    var a := RowExists(t.left, l, 0, n, hole);
    assert a[i] == Some(Stored(l[i], 0 + i, hole));
    inst := Witness(l, n, hole);
    forall tuple | tuple in inst.tables(0 + |a|) ensures !Matches(t, inst, 0, a, tuple) {
      if Matches(t, inst, 0, a, tuple) {
        MatchedCopies(t, i, j, inst, a, tuple);
      }
    }
    RightExtendedRow(t, a, inst, 0);
    row := a + [None];
    WitnessRespects(l, n, hole);
    RespectsBeyond(t, inst, n, hole);
    assert row[..n] == a;
    PlainValue(t.left, a, i, j);
    NullShared(t, row, i, j);
  }

  lemma RespectsBeyond(t: Table, inst: Instance, n: nat, hole: Option<Slot>)
    requires t.Joined? && n == |Leaves(t.left)| && inst == Witness(Leaves(t.left), n, hole) && Respects(Leaves(t.left), inst, 0)
    ensures Respects(Leaves(t), inst, 0)
  {
    hide Holds;
    var leaves := Leaves(t);
    forall k | 0 <= k < |leaves| ensures Holds(leaves[k], inst.tables(0 + k)) {
      if k < n {
        assert leaves[k] == Leaves(t.left)[k];
      } else {
        NothingHolds(leaves[k], inst.tables(0 + k));
      }
    }
  }

  lemma NothingHolds(b: Binding, table: iset<Tuple>)
    requires table == iset{}
    ensures Holds(b, table)
  {
  }

  /** Both copies NULL: the shared column reads as NULL. */
  lemma NullShared(t: Table, row: Row, i: nat, j: nat)
    requires t.Joined? && |row| == |Leaves(t)| && i < |Leaves(t.left)| && j < |Leaves(t.left)[i].columns|
    requires VisibleValue(t.left, row[..|Leaves(t.left)|], i, j) == Null
    requires RightCopy(t, row, Leaves(t.left)[i].columns[j].name) == Null
    ensures VisibleValue(t, row, i, j) == Null
  {
  }

  lemma AbsentRightKey(t: Table, i: nat, j: nat) returns (inst: Instance, row: Row)
    requires SharesSlot(t, i, j) && t.kind.NullsLeft() && RightNullable(t.binding, Leaves(t.left)[i].columns[j].name)
    ensures IsRowOf(t, inst, row) && VisibleValue(t, row, i, j) == Null
  {
    hide CleanMerges, AllFresh, InRows, Lists, SharedNames, Matches, Respects, Stored, OnOnly;
    var all, n := Leaves(t), |Leaves(t.left)|;
    var name := Leaves(t.left)[i].columns[j].name;
    SharedOnRight(t, i, j);
    var rj := t.binding.FindColumn(name).value;
    assert all[n] == t.binding;
    var hole := Some(FromClause.Slot(n, rj));
    inst := Witness(all, |all|, hole);
    var tuple := Stored(t.binding, n, hole);
    forall l0: Row | |l0| == n && InRows(t.left, l0, inst, 0) ensures !Matches(t, inst, 0, l0, tuple) {
      if Matches(t, inst, 0, l0, tuple) {
        MatchedCopies(t, i, j, inst, l0, tuple);
      }
    }
    LeftExtendedRow(t, tuple, inst, 0);
    row := Nulls(n) + [Some(tuple)];
    WitnessRespects(all, |all|, hole);
    assert row[..n] == Nulls(n);
    PlainValue(t.left, row[..n], i, j);
    NullShared(t, row, i, j);
  }

  lemma SharedOnRight(t: Table, i: nat, j: nat)
    requires SharesSlot(t, i, j)
    ensures t.binding.FindColumn(Leaves(t.left)[i].columns[j].name).Some?
  {
    hide OnOnly, AllFresh, SharedNames, LastHit;
    var names, name := JoinNames(t), Leaves(t.left)[i].columns[j].name;
    var k :| 0 <= k < |names| && IEquals(names[k], name);
    assert ExposedOnce([t.binding], names[k]);
    var a: nat, b: nat :| OnlyAt([t.binding], a, b, names[k]);
    assert IEquals(t.binding.columns[b].name, name);
  }

  /** An inner join reports the left copy's flag, although a shared column is NULL in none of its
      rows: the report is safe, not tight. */
  lemma InnerMergeIsCautious(t: Table, i: nat, j: nat)
    requires SharesSlot(t, i, j) && t.kind.Inner?
    ensures ReportedNullable(TreeScope(t), i, j) <==> Leaves(t.left)[i].columns[j].nullable
    ensures NeverNull(t, i, j)
  {
    hide TreeScope, CleanMerges, AllFresh, InRows, OnOnly, Lists, RightNullable, SharedNames, Matches, Respects, VisibleValue;
    MergedFlag(t, i, j);
    forall inst: Instance, row: Row | IsRowOf(t, inst, row) ensures VisibleValue(t, row, i, j) != Null {
      var n := |Leaves(t.left)|;
      var _ := OriginOf(t, row, inst, 0);
      MatchedCopies(t, i, j, inst, row[..n], row[n].value);
      PlainValue(t.left, row[..n], i, j);
      PresentShared(t, row, i, j);
    }
  }

  lemma PresentShared(t: Table, row: Row, i: nat, j: nat)
    requires t.Joined? && |row| == |Leaves(t)| && i < |Leaves(t.left)|
    requires VisibleValue(t.left, row[..|Leaves(t.left)|], i, j) != Null
    ensures VisibleValue(t, row, i, j) != Null
  {
  }
}
