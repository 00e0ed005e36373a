/** The catalog invariant holds after every run of commands; foreign keys of a table to itself are
    the one thing a command can break, and exactly one command does. */
module CatalogTheorems {
  import opened Wrappers
  import opened Identifier
  import opened Types
  import opened Catalogs
  import opened Ddl
  import opened CatalogInvariant
  import opened CatalogRuns

  /** Dropping a column that a key of the same table refers to without containing it: that key
      survives, pointing at nothing. */
  predicate OrphansSelfReference(c: Catalog, cmd: Command) {
    && cmd.DropColumn? && Fold(cmd.table) in c.tables
    && var t := c.tables[Fold(cmd.table)];
       && t.FindColumn(cmd.col).Some?
       && var id := t.columns[t.FindColumn(cmd.col).value].id;
          exists f <- t.constraints :: RefersToColumn(f, t.name, id) && id !in f.columns
  }

  lemma AltersTable(c: Catalog, cmd: Command)
    requires !cmd.DropIndex?
    requires KeysMatch(c) && Fold(cmd.table) in c.tables
    ensures IEquals(c.tables[Fold(cmd.table)].name, cmd.table)
  {
  }

  predicate IsAlter(cmd: Command) {
    !cmd.CreateTable? && !cmd.DropTable? && !cmd.CreateIndex? && !cmd.DropIndex?
  }

  // ----- One command at a time -----

  /** The alterations that only add to the table, or change one column of it. */
  lemma AlterExtends(c: Catalog, t: TableInfo, cmd: Command)
    requires IsAlter(cmd) && !cmd.DropColumn? && !cmd.DropConstraint? && !cmd.AddForeignKey?
    requires TableOk(t) && AlterTable(c, t, cmd).Changed?
    ensures exists u :: Extends(t, u) && AlterTable(c, t, cmd) == Changed(Bumped(WithTable(c, u)))
  {
    hide TableOk, Extends, ColumnIds, Fold, HasPrimaryKey, WithPrimaryKey, WithUnique, WithCheck;
    match cmd
    case AddColumn(_, column) => AddColumnExtends(t, column);
    case SetColumnDefault(_, col, expr) =>
      var i := t.FindColumn(col).value;
      WithColumnExtends(t, i, t.columns[i].(hasDefault := true, defaultExpr := expr));
    case SetColumnNullable(_, col, nullable) =>
      var i := t.FindColumn(col).value;
      WithColumnExtends(t, i, t.columns[i].(nullable := nullable));
    case DropColumnDefault(_, col) =>
      var i := t.FindColumn(col).value;
      WithColumnExtends(t, i, t.columns[i].(hasDefault := false, defaultExpr := ""));
    case AddPrimaryKey(_, key) => PrimaryKeyExtends(t, key);
    case AddUnique(_, key) => UniqueExtends(t, key);
    case AddCheck(_, check) => CheckExtends(t, check);
    case _ =>
  }

  lemma AddForeignKeyKeepsInv(c: Catalog, t: TableInfo, fk: ForeignKeySpec, strict: bool)
    requires Inv(c, strict) && Fold(t.name) in c.tables && c.tables[Fold(t.name)] == t && WithForeignKey(c, t, fk).Some?
    ensures Inv(Bumped(WithTable(c, WithForeignKey(c, t, fk).value)), strict)
  {
    hide TableOk, HasId, BuildForeignKey, Fold, IndexOk;
    ForeignKeyIsOk(c, t, fk);
    var u := WithForeignKey(c, t, fk).value;
    SameIds(t, u);
    forall k | k in u.constraints ensures ReferenceOk(c, u.name, k, strict) {
      assert k in t.constraints ==> ReferenceOk(c, c.tables[Fold(t.name)].name, k, strict);
    }
    ReplaceKeepsInv(c, t, u, strict);
  }

  lemma DropConstraintKeepsInv(c: Catalog, t: TableInfo, cmd: Command, strict: bool)
    requires Inv(c, strict) && cmd.DropConstraint? && Fold(cmd.table) in c.tables && c.tables[Fold(cmd.table)] == t
    requires AlterTable(c, t, cmd).Changed?
    ensures Inv(AlterTable(c, t, cmd).next, strict)
  {
    hide TableOk, Fold, IndexesOk, ReferencesOk, OthersRefer, StripColumns, ConstraintDropped;
    var i := FindConstraint(t.constraints, cmd.constraint).value;
    var target := t.constraints[i];
    AltersTable(c, cmd);
    assert TableOk(t);
    DropConstraintExtends(t, cmd.constraint, i);
    StripColumnsKeepsInv(c, cmd.table, target.columns, strict);
    var detached := if ProvidesKey(target) then StripColumns(c, cmd.table, target.columns) else c;
    ExtendsKeepsInv(detached, t, ConstraintDropped(t, cmd.constraint, target), strict);
  }

  /** The catalog DROP COLUMN works on once dependents outside the table are gone. */
  function Detached(c: Catalog, table: string, id: nat, cascade: bool): Catalog {
    var detached := if cascade then MapTables(c, (u: TableInfo) => StripColumnReferences(u, table, id)) else c;
    DropIndexes(detached, (x: IndexInfo) => IEquals(x.table, table) && id in x.columns)
  }

  lemma DetachedIsUnreferenced(c: Catalog, t: TableInfo, table: string, id: nat, cascade: bool, strict: bool)
    requires KeysMatch(c) && Fold(table) in c.tables && c.tables[Fold(table)] == t
    requires cascade || !OthersRefer(c, table, (k: Constraint) => RefersToColumn(k, table, id))
    requires strict ==> forall f :: f in t.constraints && id !in f.columns ==> !RefersToColumn(f, t.name, id)
    ensures var d := Detached(c, table, id, cascade);
            Fold(t.name) in d.tables && d.tables[Fold(t.name)] == t && Unreferenced(d, t, id, strict)
  {
    hide Fold;
    var d := Detached(c, table, id, cascade);
    var refers := (k: Constraint) => RefersToColumn(k, table, id);
    forall k, f | k in d.tables && k != Fold(t.name) && f in d.tables[k].constraints ensures !RefersToColumn(f, t.name, id) {
      assert Fold(c.tables[k].name) == k;
      if !cascade {
        assert f in c.tables[k].constraints && !refers(f);
      }
    }
  }

  lemma DropColumnKeepsInv(c: Catalog, t: TableInfo, cmd: Command, strict: bool)
    requires Inv(c, strict) && cmd.DropColumn? && Fold(cmd.table) in c.tables && c.tables[Fold(cmd.table)] == t
    requires AlterTable(c, t, cmd).Changed? && (strict ==> !OrphansSelfReference(c, cmd))
    ensures Inv(AlterTable(c, t, cmd).next, strict)
  {
    hide TableOk, Fold, IndexesOk, ReferencesOk, OthersRefer, RefersToColumn, Unreferenced;
    var i := t.FindColumn(cmd.col).value;
    var id := t.columns[i].id;
    DetachedIsUnreferenced(c, t, cmd.table, id, cmd.cascade, strict);
    var strip := (u: TableInfo) => StripColumnReferences(u, cmd.table, id);
    StripTrims(cmd.table, id);
    TrimKeepsInv(c, strip, strict);
    var detached := if cmd.cascade then MapTables(c, strip) else c;
    DropIndexesKeepsInv(detached, (x: IndexInfo) => IEquals(x.table, cmd.table) && id in x.columns, strict);
    RemoveColumnKeepsInv(Detached(c, cmd.table, id, cmd.cascade), t, cmd.col, i, strict);
  }

  lemma DropTableKeepsInv(c: Catalog, cmd: Command, strict: bool)
    requires Inv(c, strict) && cmd.DropTable? && Apply(c, cmd).Changed?
    ensures Inv(Apply(c, cmd).next, strict)
  {
    hide TableOk, Fold, IndexesOk, ReferencesOk;
    var strip := (t: TableInfo) => StripReferences(t, cmd.table);
    StripTrims(cmd.table, 0);
    TrimKeepsInv(c, strip, strict);
    var detached := if cmd.cascade then MapTables(c, strip) else c;
    var drop := (x: IndexInfo) => IEquals(x.table, cmd.table);
    DropIndexesKeepsInv(detached, drop, strict);
    var unindexed := DropIndexes(detached, drop);
    NothingRefers(c, cmd);
    RemoveTableKeepsInv(unindexed, Fold(cmd.table), strict);
    var removed := unindexed.(tables := unindexed.tables - {Fold(cmd.table)});
    BumpedIsOk(removed, strict);
    SameRemoval(c, cmd);
  }

  lemma NothingRefers(c: Catalog, cmd: Command)
    requires KeysMatch(c) && cmd.DropTable? && Apply(c, cmd).Changed?
    ensures var detached := if cmd.cascade then MapTables(c, (t: TableInfo) => StripReferences(t, cmd.table)) else c;
            forall k, f :: k in detached.tables && k != Fold(cmd.table) && f in detached.tables[k].constraints && f.kind.ForeignKey?
              ==> Fold(f.refTable) != Fold(cmd.table)
  {
    hide Fold;
    var refers := (k: Constraint) => RefersTo(k, cmd.table);
    if !cmd.cascade {
      forall k, f | k in c.tables && k != Fold(cmd.table) && f in c.tables[k].constraints && f.kind.ForeignKey?
        ensures Fold(f.refTable) != Fold(cmd.table)
      {
        assert Fold(c.tables[k].name) == k;
        assert !refers(f);
      }
    }
  }

  lemma SameRemoval(c: Catalog, cmd: Command)
    requires cmd.DropTable? && Apply(c, cmd).Changed?
    ensures var detached := if cmd.cascade then MapTables(c, (t: TableInfo) => StripReferences(t, cmd.table)) else c;
            var unindexed := DropIndexes(detached, (x: IndexInfo) => IEquals(x.table, cmd.table));
            Apply(c, cmd).next == Bumped(unindexed.(tables := unindexed.tables - {Fold(cmd.table)}))
  {
    hide Fold, OthersRefer, StripReferences;
    var detached := if cmd.cascade then MapTables(c, (t: TableInfo) => StripReferences(t, cmd.table)) else c;
    var unindexed := DropIndexes(detached, (x: IndexInfo) => IEquals(x.table, cmd.table));
    var removed := unindexed.(tables := unindexed.tables - {Fold(cmd.table)});
    assert Apply(c, cmd).next.tables == removed.tables;
    assert Apply(c, cmd).next.indexes == removed.indexes;
  }

  lemma CreateIndexKeepsInv(c: Catalog, cmd: Command, strict: bool)
    requires Inv(c, strict) && cmd.CreateIndex? && Apply(c, cmd).Changed?
    ensures Inv(Apply(c, cmd).next, strict)
  {
    hide Fold, HasId, TableOk, ReferencesOk, ColumnIds;
    var t := c.tables[Fold(cmd.table)];
    ColumnIdsExist(t, cmd.names);
    var x := IndexInfo(cmd.index, c.nextIndexId, cmd.table, ColumnIds(t, cmd.names).value, cmd.unique);
    var d := c.(indexes := c.indexes[Fold(cmd.index) := x], nextIndexId := c.nextIndexId + 1);
    assert IndexOk(c, x);
    IndexChangeKeepsInv(c, d, strict);
    BumpedIsOk(d, strict);
  }

  lemma DropIndexKeepsInv(c: Catalog, cmd: Command, strict: bool)
    requires Inv(c, strict) && cmd.DropIndex? && Apply(c, cmd).Changed?
    ensures Inv(Apply(c, cmd).next, strict)
  {
    hide Fold, HasId, TableOk, ReferencesOk;
    var d := c.(indexes := c.indexes - {Fold(cmd.index)});
    IndexChangeKeepsInv(c, d, strict);
    BumpedIsOk(d, strict);
  }

  lemma CreateTableKeepsInv(c: Catalog, cmd: Command, strict: bool)
    requires Inv(c, strict) && cmd.CreateTable? && Sensible(cmd) && Apply(c, cmd).Changed?
    ensures Inv(Apply(c, cmd).next, strict)
  {
    hide Fold, HasId, TableOk, ReferencesOk, IndexesOk, Created, Building;
    CreatedIsBuilt(c, cmd);
    var t0 := TableInfo(cmd.table, c.nextTableId, Numbered(cmd.columns), []);
    BuiltName(c, Created(c, cmd).value, t0);
    AddTableKeepsInv(c, Created(c, cmd).value, t0, strict);
  }

  lemma BuiltName(c: Catalog, t: TableInfo, t0: TableInfo)
    requires Building(c, t, t0)
    ensures t.name == t0.name
  {
  }

  lemma AlterKeepsInv(c: Catalog, cmd: Command, strict: bool)
    requires Inv(c, strict) && IsAlter(cmd) && Apply(c, cmd).Changed? && (strict ==> !OrphansSelfReference(c, cmd))
    ensures Inv(Apply(c, cmd).next, strict)
  {
    hide AlterTable, TableOk, ReferencesOk, IndexesOk, Fold, OrphansSelfReference;
    var t := c.tables[Fold(cmd.table)];
    AltersTable(c, cmd);
    assert TableOk(t);
    if cmd.AddForeignKey? {
      AddsForeignKey(c, t, cmd);
      AddForeignKeyKeepsInv(c, t, cmd.foreignKey, strict);
    } else if cmd.DropConstraint? {
      DropConstraintKeepsInv(c, t, cmd, strict);
    } else if cmd.DropColumn? {
      DropColumnKeepsInv(c, t, cmd, strict);
    } else {
      AlterExtends(c, t, cmd);
      var u :| Extends(t, u) && AlterTable(c, t, cmd) == Changed(Bumped(WithTable(c, u)));
      ExtendsKeepsInv(c, t, u, strict);
    }
  }

  lemma AddsForeignKey(c: Catalog, t: TableInfo, cmd: Command)
    requires cmd.AddForeignKey? && AlterTable(c, t, cmd).Changed?
    ensures WithForeignKey(c, t, cmd.foreignKey).Some?
    ensures AlterTable(c, t, cmd).next == Bumped(WithTable(c, WithForeignKey(c, t, cmd.foreignKey).value))
  {
  }

  // ----- The theorems -----

  /** Every command keeps the invariant; keys of a table to itself are included unless the
      command orphans one. */
  lemma StepKeepsInv(c: Catalog, cmd: Command, strict: bool)
    requires Inv(c, strict) && Sensible(cmd) && Apply(c, cmd).Changed? && (strict ==> !OrphansSelfReference(c, cmd))
    ensures Inv(Apply(c, cmd).next, strict)
  {
    hide Inv, Apply, OrphansSelfReference;
    match cmd
    case CreateTable(_, _, _, _, _, _) => CreateTableKeepsInv(c, cmd, strict);
    case DropTable(_, _, _) => DropTableKeepsInv(c, cmd, strict);
    case CreateIndex(_, _, _, _, _) => CreateIndexKeepsInv(c, cmd, strict);
    case DropIndex(_, _) => DropIndexKeepsInv(c, cmd, strict);
    case _ => AlterKeepsInv(c, cmd, strict);
  }

  /** A command that orphans a key breaks the strict invariant. */
  lemma OrphanBreaks(c: Catalog, cmd: Command)
    requires Inv(c, true) && Apply(c, cmd).Changed? && OrphansSelfReference(c, cmd)
    ensures !Inv(Apply(c, cmd).next, true)
  {
    hide Fold, OthersRefer, IndexesOk, ConstraintOk, PrimaryKeys;
    var t := c.tables[Fold(cmd.table)];
    var i := t.FindColumn(cmd.col).value;
    var id := t.columns[i].id;
    var f :| f in t.constraints && RefersToColumn(f, t.name, id) && id !in f.columns;
    var u := ColumnDropped(t, cmd.col, id);
    AltersTable(c, cmd);
    assert TableOk(t);
    IdGone(t, cmd.col, i);
    var d := Apply(c, cmd).next;
    assert d.tables[Fold(t.name)] == u && f in u.constraints;
    assert !ReferenceOk(d, u.name, f, true);
  }

  lemma IdGone(t: TableInfo, name: string, i: nat)
    requires DistinctIds(t.columns) && t.FindColumn(name) == Some(i)
    ensures !HasId(ColumnDropped(t, name, t.columns[i].id), t.columns[i].id)
  {
    hide Fold;
    var kept := WithoutColumn(t.columns, name);
    forall m | 0 <= m < |kept| ensures kept[m].id != t.columns[i].id {
      assert kept[m] in t.columns && !IEquals(kept[m].name, name);
      var j :| 0 <= j < |t.columns| && t.columns[j] == kept[m];
    }
  }

  /** Foreign keys of tables to themselves survive a command exactly when it does not orphan
      one. */
  lemma SelfReferencesSurviveExactly(c: Catalog, cmd: Command)
    requires Inv(c, true) && Sensible(cmd) && Apply(c, cmd).Changed?
    ensures Inv(Apply(c, cmd).next, true) <==> !OrphansSelfReference(c, cmd)
  {
    hide Inv, Apply, OrphansSelfReference;
    if OrphansSelfReference(c, cmd) {
      OrphanBreaks(c, cmd);
    } else {
      StepKeepsInv(c, cmd, true);
    }
  }

  /** A refused or empty command leaves the catalog; any other bumps the version by one. */
  ghost function Next(c: Catalog, cmd: Command): Catalog {
    match Apply(c, cmd)
    case Changed(d) => d
    case _ => c
  }

  ghost function Run(c: Catalog, cmds: seq<Command>): Catalog {
    if cmds == [] then c else Next(Run(c, cmds[..|cmds| - 1]), cmds[|cmds| - 1])
  }

  /** The invariant holds after every run, from the empty catalog on. */
  lemma {:induction false} RunKeepsInv(cmds: seq<Command>)
    requires forall i :: 0 <= i < |cmds| ==> Sensible(cmds[i])
    ensures Inv(Run(EMPTY, cmds), false)
  {
    hide Inv, Apply, Sensible;
    if cmds == [] {
      EmptyIsOk();
      StrictImplies(EMPTY);
    } else {
      var front, last := cmds[..|cmds| - 1], cmds[|cmds| - 1];
      RunKeepsInv(front);
      if Apply(Run(EMPTY, front), last).Changed? {
        StepKeepsInv(Run(EMPTY, front), last, false);
      }
    }
  }

  lemma StrictImplies(c: Catalog)
    requires Inv(c, true)
    ensures Inv(c, false)
  {
    hide Fold, HasId, TableOk, IndexOk;
    forall k, f | k in c.tables && f in c.tables[k].constraints ensures ReferenceOk(c, c.tables[k].name, f, false) {
      assert ReferenceOk(c, c.tables[k].name, f, true);
    }
  }

  lemma VersionStep(c: Catalog, cmd: Command)
    ensures Next(c, cmd).version == c.version + if Apply(c, cmd).Changed? then 1 else 0
  {
    hide Fold, OthersRefer, Created, ColumnIds, WithPrimaryKey, WithUnique, WithCheck, WithForeignKey;
    if cmd.DropConstraint? && Fold(cmd.table) in c.tables {
      var t := c.tables[Fold(cmd.table)];
      var i := FindConstraint(t.constraints, cmd.constraint);
      if i.Some? {
        StripKeepsVersion(c, cmd.table, t.constraints[i.value].columns);
      }
    }
  }

  lemma {:induction false} StripKeepsVersion(c: Catalog, table: string, ids: seq<nat>)
    ensures StripColumns(c, table, ids).version == c.version
  {
    if ids != [] {
      StripKeepsVersion(c, table, ids[..|ids| - 1]);
    }
  }

  // ----- Reused column ids -----

  /** The id ADD COLUMN hands out may have belonged to a dropped column, yet nothing in the
      catalog refers to it, but for an orphaned key of the table to itself. */
  lemma FreshColumnIdIsUnreferenced(c: Catalog, key: string, strict: bool)
    requires Inv(c, strict) && key in c.tables
    ensures var t := c.tables[key]; var id := MaxId(t.columns) + 1;
            && (forall f <- t.constraints :: id !in f.columns)
            && (forall x <- c.indexes :: IEquals(c.indexes[x].table, t.name) ==> id !in c.indexes[x].columns)
            && (forall k, f :: k in c.tables && f in c.tables[k].constraints && (strict || k != key) ==> !RefersToColumn(f, t.name, id))
  {
    hide Fold, DistinctNames, DistinctIds, PrimaryKeys, MaxId;
    var t := c.tables[key];
    var id := MaxId(t.columns) + 1;
    assert !HasId(t, id);
    assert TableOk(t);
    forall f | f in t.constraints ensures id !in f.columns {
      assert ConstraintOk(t, f);
    }
    forall x | x in c.indexes && IEquals(c.indexes[x].table, t.name) ensures id !in c.indexes[x].columns {
      assert IndexOk(c, c.indexes[x]);
    }
    forall k, f | k in c.tables && f in c.tables[k].constraints && (strict || k != key) ensures !RefersToColumn(f, t.name, id) {
      assert ReferenceOk(c, c.tables[k].name, f, strict);
    }
  }

  function Plain(name: string, id: nat): ColumnInfo {
    ColumnInfo(name, Integer, true, false, id, "")
  }

  function SelfReferring(columns: seq<ColumnInfo>): TableInfo {
    TableInfo("t", 1, columns, [Constraint(ForeignKey, "f", [1], "t", [2], "")])
  }

  lemma Spellings()
    ensures Fold("t") == "t" && !IEquals("a", "b") && !IEquals("a", "x") && IEquals("b", "b")
  {
    assert Fold("a")[0] != Fold("b")[0] && Fold("a")[0] != Fold("x")[0];
  }

  lemma DropLast(a: ColumnInfo, b: ColumnInfo)
    requires a == Plain("a", 1) && b == Plain("b", 2)
    ensures SelfReferring([a, b]).FindColumn("b") == Some(1)
    ensures ColumnDropped(SelfReferring([a, b]), "b", 2) == SelfReferring([a])
  {
    hide Fold;
    Spellings();
    var names := SelfReferring([a, b]).ColumnNames();
    assert names == ["a", "b"];
    FirstMatchUnique(names, "b", 1);
    assert [a, b][..1] == [a] && [a][..0] == [];
    assert WithoutColumn([a], "b") == [a];
    assert WithoutColumn([a, b], "b") == [a];
    var fk := Constraint(ForeignKey, "f", [1], "t", [2], "");
    assert [fk][..0] == [];
    assert Without([fk], (k: Constraint) => 2 in k.columns) == [fk];
  }

  lemma AddAgain(a: ColumnInfo)
    requires a == Plain("a", 1)
    ensures SelfReferring([a]).FindColumn("x").None? && MaxId([a]) == 1
  {
    hide Fold;
    Spellings();
    assert SelfReferring([a]).columns == [a];
    assert [a][..0] == [];
  }

  lemma OnlyTable(c: Catalog, refers: Constraint -> bool)
    requires c.tables.Keys == {"t"} && c.tables["t"].name == "t"
    ensures !OthersRefer(c, "t", refers)
  {
  }

  /** `t(a, b)` with a key from `a` to `t.b`: dropping `b` leaves the key, and the next column
      added takes over its id. */
  lemma OrphanExample()
    ensures var a, b, x := Plain("a", 1), Plain("b", 2), Plain("x", 0);
            var c := Catalog(map["t" := SelfReferring([a, b])], map[], 2, 1, 1);
            var drop, add := DropColumn("t", "b", false, false), AddColumn("t", x);
            && Apply(c, drop).Changed? && Apply(Apply(c, drop).next, add).Changed?
            && Apply(Apply(c, drop).next, add).next.tables["t"] == SelfReferring([a, x.(id := 2)])
  {
    hide Fold, ColumnDropped, OthersRefer, MaxId;
    var a, b, x := Plain("a", 1), Plain("b", 2), Plain("x", 0);
    var t := SelfReferring([a, b]);
    var c := Catalog(map["t" := t], map[], 2, 1, 1);
    Spellings();
    DropLast(a, b);
    AddAgain(a);
    OnlyTable(c, (k: Constraint) => RefersToColumn(k, "t", 2));
    var after := Apply(c, DropColumn("t", "b", false, false)).next;
    assert after.tables["t"] == SelfReferring([a]);
  }
}
