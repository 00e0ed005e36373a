/** Which commands keep the catalog printable, so that what a run commits can be read back. */
module PrintableRuns {
  import opened Wrappers
  import opened Identifier
  import opened Numerals
  import opened Types
  import opened Catalogs
  import opened Ddl
  import opened CatalogTheorems
  import opened Lines
  import opened SnapshotTheorems

  // ----- What a caller can see of a command -----

  predicate SpelledColumn(x: ColumnInfo) {
    x.name != "" && IsText(x.name) && IsText(x.defaultExpr) && (x.hasDefault || x.defaultExpr == "")
  }

  predicate SpelledForeignKey(fk: ForeignKeySpec) { IsText(fk.name) && IsText(fk.refTable) }

  predicate SpelledCheck(check: CheckSpec) { IsText(check.name) && IsText(check.expr) }

  /** The texts of a command are printable: no newline, no leading space, names of tables and
      columns not empty, default text only with a default. */
  predicate Spelled(cmd: Command) {
    match cmd
    case CreateTable(table, columns, foreignKeys, checks, primaryKey, uniques) =>
      && table != "" && IsText(table) && (forall x <- columns :: SpelledColumn(x))
      && (forall fk <- foreignKeys :: SpelledForeignKey(fk)) && (forall check <- checks :: SpelledCheck(check))
      && IsText(primaryKey.name) && forall key <- uniques :: IsText(key.name)
    case CreateIndex(index, table, _, _, _) => IsText(index) && IsText(table)
    case AddColumn(_, column) => SpelledColumn(column)
    case SetColumnDefault(_, _, expr) => IsText(expr)
    case AddPrimaryKey(_, key) => IsText(key.name)
    case AddUnique(_, key) => IsText(key.name)
    case AddCheck(_, check) => SpelledCheck(check)
    case AddForeignKey(_, fk) => SpelledForeignKey(fk)
    case _ => true
  }

  /** The numbers the command hands out stay within `top`. */
  predicate HasRoom(c: Catalog, cmd: Command, top: nat) {
    && c.version < top
    && (cmd.CreateTable? ==> c.nextTableId < top && |cmd.columns| <= top)
    && (cmd.CreateIndex? ==> c.nextIndexId < top)
    && (cmd.AddColumn? && Fold(cmd.table) in c.tables ==> MaxId(c.tables[Fold(cmd.table)].columns) < top)
  }

  // ----- Catalogs whose numbers stay within a bound -----

  predicate Within(ns: seq<nat>, top: nat) {
    forall n <- ns :: n <= top
  }

  predicate TidyColumn(x: ColumnInfo, top: nat) {
    SpelledColumn(x) && x.id <= top
  }

  predicate TidyConstraint(k: Constraint, top: nat) {
    && IsText(k.name) && IsText(k.refTable) && IsText(k.expr) && Within(k.columns, top) && Within(k.refColumns, top)
    && (k.kind.ForeignKey? || (k.refTable == "" && k.refColumns == [])) && (k.kind.Check? || k.expr == "")
  }

  predicate TidyTable(t: TableInfo, top: nat) {
    && t.name != "" && IsText(t.name) && t.id <= top
    && (forall x <- t.columns :: TidyColumn(x, top)) && forall k <- t.constraints :: TidyConstraint(k, top)
  }

  predicate TidyIndex(x: IndexInfo, top: nat) {
    IsText(x.name) && IsText(x.table) && x.id <= top && Within(x.columns, top)
  }

  predicate TidyTables(c: Catalog, top: nat) {
    forall k <- c.tables :: TidyTable(c.tables[k], top)
  }

  predicate TidyIndexes(c: Catalog, top: nat) {
    forall k <- c.indexes :: TidyIndex(c.indexes[k], top)
  }

  predicate Tidy(c: Catalog, top: nat) {
    c.version <= top && c.nextTableId <= top && c.nextIndexId <= top && TidyTables(c, top) && TidyIndexes(c, top)
  }

  /** Printable is tidy within 32 bits. */
  lemma PrintableIsTidy(c: Catalog)
    ensures Printable(c) <==> Tidy(c, U32_MAX)
  {
    hide IsText;
    if Printable(c) {
      forall k | k in c.tables ensures TidyTable(c.tables[k], U32_MAX) {
        assert CleanTable(c.tables[k]);
        forall f | f in c.tables[k].constraints ensures TidyConstraint(f, U32_MAX) {
          assert CleanConstraint(f);
        }
      }
    }
    if Tidy(c, U32_MAX) {
      forall k | k in c.tables ensures CleanTable(c.tables[k]) {
        assert TidyTable(c.tables[k], U32_MAX);
      }
    }
  }

  lemma TableGrows(t: TableInfo, top: nat, more: nat)
    requires TidyTable(t, top) && top <= more
    ensures TidyTable(t, more)
  {
    hide SpelledColumn, IsText;
    forall k | k in t.constraints ensures TidyConstraint(k, more) {
      assert TidyConstraint(k, top);
    }
  }

  lemma TidyGrows(c: Catalog, top: nat, more: nat)
    requires Tidy(c, top) && top <= more
    ensures Tidy(c, more)
  {
    hide TidyTable;
    forall k | k in c.tables ensures TidyTable(c.tables[k], more) {
      TableGrows(c.tables[k], top, more);
    }
  }

  // ----- Tables the commands build -----

  lemma {:induction false} ColumnIdsWithin(t: TableInfo, names: seq<string>, top: nat)
    requires TidyTable(t, top) && ColumnIds(t, names).Some?
    ensures Within(ColumnIds(t, names).value, top)
  {
    hide SpelledColumn;
    if names != [] {
      ColumnIdsWithin(t, names[..|names| - 1], top);
      assert t.columns[t.FindColumn(names[|names| - 1]).value] in t.columns;
    }
  }

  lemma AddsTidy(t: TableInfo, k: Constraint, top: nat)
    requires TidyTable(t, top) && TidyConstraint(k, top)
    ensures TidyTable(WithConstraint(t, k), top)
  {
    hide TidyConstraint, TidyColumn;
  }

  lemma ForcedIsTidy(t: TableInfo, names: seq<string>, top: nat)
    requires TidyTable(t, top)
    ensures TidyTable(ForceNotNull(t, names), top)
  {
    hide TidyConstraint, ForceNotNull, IsText;
    var u := ForceNotNull(t, names);
    forall x | x in u.columns ensures TidyColumn(x, top) {
      var i :| 0 <= i < |u.columns| && u.columns[i] == x;
      assert TidyColumn(t.columns[i], top);
    }
  }

  lemma PrimaryKeyIsTidy(t: TableInfo, key: KeySpec, top: nat)
    requires TidyTable(t, top) && IsText(key.name) && WithPrimaryKey(t, key).Some?
    ensures TidyTable(WithPrimaryKey(t, key).value, top)
  {
    hide TidyTable, ForceNotNull, ColumnIds;
    ColumnIdsWithin(t, key.columns, top);
    ForcedIsTidy(t, key.columns, top);
    AddsTidy(ForceNotNull(t, key.columns), Constraint(PrimaryKey, key.name, ColumnIds(t, key.columns).value, "", [], ""), top);
  }

  lemma UniqueIsTidy(t: TableInfo, key: KeySpec, top: nat)
    requires TidyTable(t, top) && IsText(key.name) && WithUnique(t, key).Some?
    ensures TidyTable(WithUnique(t, key).value, top)
  {
    hide TidyTable, ColumnIds;
    ColumnIdsWithin(t, key.columns, top);
    AddsTidy(t, Constraint(Unique, key.name, ColumnIds(t, key.columns).value, "", [], ""), top);
  }

  lemma CheckIsTidy(t: TableInfo, check: CheckSpec, top: nat)
    requires TidyTable(t, top) && SpelledCheck(check) && WithCheck(t, check).Some?
    ensures TidyTable(WithCheck(t, check).value, top)
  {
    hide TidyTable, ColumnIds;
    ColumnIdsWithin(t, check.columns, top);
    AddsTidy(t, Constraint(Check, check.name, ColumnIds(t, check.columns).value, "", [], check.expr), top);
  }

  lemma ForeignKeyIsTidy(c: Catalog, t: TableInfo, fk: ForeignKeySpec, top: nat)
    requires TidyTables(c, top) && TidyTable(t, top) && SpelledForeignKey(fk) && WithForeignKey(c, t, fk).Some?
    ensures TidyTable(WithForeignKey(c, t, fk).value, top)
  {
    hide TidyTable, ColumnIds, Fold;
    ColumnIdsWithin(t, fk.columns, top);
    ColumnIdsWithin(FindTable(c, fk.refTable).value, fk.refColumns, top);
    AddsTidy(t, BuildForeignKey(c, t, fk).value, top);
  }

  lemma {:induction false} UniquesAreTidy(t: TableInfo, keys: seq<KeySpec>, top: nat)
    requires TidyTable(t, top) && (forall key <- keys :: IsText(key.name)) && WithUniques(t, keys).Some?
    ensures TidyTable(WithUniques(t, keys).value, top)
  {
    hide TidyTable, IsText, WithUnique;
    if keys != [] {
      UniquesAreTidy(t, keys[..|keys| - 1], top);
      if keys[|keys| - 1].columns != [] {
        UniqueIsTidy(WithUniques(t, keys[..|keys| - 1]).value, keys[|keys| - 1], top);
      }
    }
  }

  lemma {:induction false} ForeignKeysAreTidy(c: Catalog, t: TableInfo, fks: seq<ForeignKeySpec>, top: nat)
    requires TidyTables(c, top) && TidyTable(t, top) && (forall fk <- fks :: SpelledForeignKey(fk)) && WithForeignKeys(c, t, fks).Some?
    ensures TidyTable(WithForeignKeys(c, t, fks).value, top)
  {
    hide TidyTable, SpelledForeignKey, WithForeignKey, Fold;
    if fks != [] {
      ForeignKeysAreTidy(c, t, fks[..|fks| - 1], top);
      var u := WithForeignKeys(c, t, fks[..|fks| - 1]).value;
      ForeignKeyIsTidy(WithTable(c, u), u, fks[|fks| - 1], top);
    }
  }

  lemma {:induction false} ChecksAreTidy(t: TableInfo, checks: seq<CheckSpec>, top: nat)
    requires TidyTable(t, top) && (forall check <- checks :: SpelledCheck(check)) && WithChecks(t, checks).Some?
    ensures TidyTable(WithChecks(t, checks).value, top)
  {
    hide TidyTable, SpelledCheck, WithCheck;
    if checks != [] {
      ChecksAreTidy(t, checks[..|checks| - 1], top);
      CheckIsTidy(WithChecks(t, checks[..|checks| - 1]).value, checks[|checks| - 1], top);
    }
  }

  lemma NumberedIsTidy(t: TableInfo, columns: seq<ColumnInfo>, top: nat)
    requires t.columns == Numbered(columns) && t.constraints == [] && t.name != "" && IsText(t.name) && t.id <= top
    requires |columns| <= top && forall x <- columns :: SpelledColumn(x)
    ensures TidyTable(t, top)
  {
    hide IsText;
    forall x | x in t.columns ensures TidyColumn(x, top) {
      var i :| 0 <= i < |t.columns| && t.columns[i] == x;
      assert SpelledColumn(columns[i]);
    }
  }

  lemma CreatedIsTidy(c: Catalog, cmd: Command, top: nat)
    requires TidyTables(c, top) && cmd.CreateTable? && Spelled(cmd) && HasRoom(c, cmd, top) && Created(c, cmd).Some?
    ensures TidyTable(Created(c, cmd).value, top)
  {
    hide TidyTable, TidyTables, SpelledColumn, SpelledForeignKey, SpelledCheck, IsText, WithPrimaryKey, WithUniques, WithForeignKeys, WithChecks;
    var t := TableInfo(cmd.table, c.nextTableId, Numbered(cmd.columns), []);
    NumberedIsTidy(t, cmd.columns, top);
    var keyed := if cmd.primaryKey.columns == [] then Some(t) else WithPrimaryKey(t, cmd.primaryKey);
    if cmd.primaryKey.columns != [] {
      PrimaryKeyIsTidy(t, cmd.primaryKey, top);
    }
    UniquesAreTidy(keyed.value, cmd.uniques, top);
    var unique := WithUniques(keyed.value, cmd.uniques).value;
    ForeignKeysAreTidy(c, unique, cmd.foreignKeys, top);
    ChecksAreTidy(WithForeignKeys(c, unique, cmd.foreignKeys).value, cmd.checks, top);
  }

  // ----- Tables the commands trim -----

  /** A table that lost constraints or columns, or had columns' nullability changed. */
  lemma TrimmedIsTidy(t: TableInfo, u: TableInfo, top: nat)
    requires TidyTable(t, top) && u.name == t.name && u.id == t.id && forall k <- u.constraints :: k in t.constraints
    requires forall x <- u.columns :: x in t.columns || x.(nullable := false) in t.columns || x.(nullable := true) in t.columns
    ensures TidyTable(u, top)
  {
    hide TidyConstraint, IsText;
    forall x | x in u.columns ensures TidyColumn(x, top) {
      if x !in t.columns {
        assert TidyColumn(if x.(nullable := false) in t.columns then x.(nullable := false) else x.(nullable := true), top);
      }
    }
  }

  lemma {:induction false} StrippedIsTidy(c: Catalog, table: string, ids: seq<nat>, top: nat)
    requires TidyTables(c, top)
    ensures TidyTables(StripColumns(c, table, ids), top) && StripColumns(c, table, ids) == c.(tables := StripColumns(c, table, ids).tables)
  {
    hide TidyTable, StripColumnReferences;
    if ids != [] {
      StrippedIsTidy(c, table, ids[..|ids| - 1], top);
      var before := StripColumns(c, table, ids[..|ids| - 1]);
      DetachedIsTidy(before, table, ids[|ids| - 1], top);
    }
  }

  lemma DetachedIsTidy(c: Catalog, table: string, id: nat, top: nat)
    requires TidyTables(c, top)
    ensures TidyTables(MapTables(c, (u: TableInfo) => StripColumnReferences(u, table, id)), top)
  {
    hide TidyTable, IEquals;
    forall k | k in c.tables ensures TidyTable(StripColumnReferences(c.tables[k], table, id), top) {
      TrimmedIsTidy(c.tables[k], StripColumnReferences(c.tables[k], table, id), top);
    }
  }

  lemma UnreferencedIsTidy(c: Catalog, table: string, top: nat)
    requires TidyTables(c, top)
    ensures TidyTables(MapTables(c, (u: TableInfo) => StripReferences(u, table)), top)
  {
    hide TidyTable, IEquals;
    forall k | k in c.tables ensures TidyTable(StripReferences(c.tables[k], table), top) {
      TrimmedIsTidy(c.tables[k], StripReferences(c.tables[k], table), top);
    }
  }

  lemma WithColumnIsTidy(t: TableInfo, i: nat, x: ColumnInfo, top: nat)
    requires TidyTable(t, top) && i < |t.columns| && TidyColumn(x, top)
    ensures TidyTable(WithColumn(t, i, x), top)
  {
    hide TidyConstraint, TidyColumn;
  }

  // ----- One command -----

  lemma TidyWithTable(c: Catalog, d: Catalog, u: TableInfo, top: nat)
    requires Tidy(c, top) && TidyTables(d, top) && TidyIndexes(d, top) && TidyTable(u, top) && c.version < top
    requires d == c.(tables := d.tables, indexes := d.indexes)
    ensures Tidy(Bumped(WithTable(d, u)), top)
  {
    hide TidyTable, Fold, TidyIndex;
  }

  /** The alterations that only add to the table, or change one column of it. */
  lemma AlteredIsTidy(c: Catalog, t: TableInfo, cmd: Command, top: nat)
    requires Tidy(c, top) && TidyTable(t, top) && IsAlter(cmd) && !cmd.DropColumn? && !cmd.DropConstraint?
    requires Spelled(cmd) && c.version < top && (cmd.AddColumn? ==> MaxId(t.columns) < top) && AlterTable(c, t, cmd).Changed?
    ensures Tidy(AlterTable(c, t, cmd).next, top)
  {
    hide Tidy, TidyTable, IsText, ColumnIds, Fold, HasPrimaryKey, WithPrimaryKey, WithUnique, WithCheck, WithForeignKey, WithColumn, TidyTables, TidyIndexes;
    TidyParts(c, top);
    match cmd
    case AddColumn(_, column) =>
      AddedColumnIsTidy(t, column, top);
      TidyWithTable(c, c, t.(columns := t.columns + [column.(id := MaxId(t.columns) + 1)]), top);
    case SetColumnDefault(_, col, expr) =>
      var i := t.FindColumn(col).value;
      ColumnOfTidy(t, i, top);
      WithColumnIsTidy(t, i, t.columns[i].(hasDefault := true, defaultExpr := expr), top);
      TidyWithTable(c, c, WithColumn(t, i, t.columns[i].(hasDefault := true, defaultExpr := expr)), top);
    case SetColumnNullable(_, col, nullable) =>
      var i := t.FindColumn(col).value;
      ColumnOfTidy(t, i, top);
      WithColumnIsTidy(t, i, t.columns[i].(nullable := nullable), top);
      TidyWithTable(c, c, WithColumn(t, i, t.columns[i].(nullable := nullable)), top);
    case DropColumnDefault(_, col) =>
      var i := t.FindColumn(col).value;
      ColumnOfTidy(t, i, top);
      assert IsText("") by { EmptyText(); }
      WithColumnIsTidy(t, i, t.columns[i].(hasDefault := false, defaultExpr := ""), top);
      TidyWithTable(c, c, WithColumn(t, i, t.columns[i].(hasDefault := false, defaultExpr := "")), top);
    case AddPrimaryKey(_, key) =>
      PrimaryKeyIsTidy(t, key, top);
      TidyWithTable(c, c, WithPrimaryKey(t, key).value, top);
    case AddUnique(_, key) =>
      UniqueIsTidy(t, key, top);
      TidyWithTable(c, c, WithUnique(t, key).value, top);
    case AddCheck(_, check) =>
      CheckIsTidy(t, check, top);
      TidyWithTable(c, c, WithCheck(t, check).value, top);
    case AddForeignKey(_, fk) =>
      ForeignKeyIsTidy(c, t, fk, top);
      TidyWithTable(c, c, WithForeignKey(c, t, fk).value, top);
  }

  lemma EmptyText()
    ensures IsText("")
  {
  }

  lemma TidyParts(c: Catalog, top: nat)
    requires Tidy(c, top)
    ensures TidyTables(c, top) && TidyIndexes(c, top)
  {
  }

  lemma ColumnOfTidy(t: TableInfo, i: nat, top: nat)
    requires TidyTable(t, top) && i < |t.columns|
    ensures TidyColumn(t.columns[i], top)
  {
    hide TidyColumn, TidyConstraint;
    assert t.columns[i] in t.columns;
  }

  lemma AddedColumnIsTidy(t: TableInfo, column: ColumnInfo, top: nat)
    requires TidyTable(t, top) && SpelledColumn(column) && MaxId(t.columns) < top
    ensures TidyTable(t.(columns := t.columns + [column.(id := MaxId(t.columns) + 1)]), top)
  {
    hide TidyConstraint, IsText, MaxId;
  }

  lemma DroppedColumnIsTidy(c: Catalog, t: TableInfo, cmd: Command, top: nat)
    requires Tidy(c, top) && TidyTable(t, top) && cmd.DropColumn? && c.version < top && AlterTable(c, t, cmd).Changed?
    ensures Tidy(AlterTable(c, t, cmd).next, top)
  {
    hide TidyTable, TidyTables, TidyIndex, Fold, IEquals, ColumnDropped, OthersRefer, StripColumnReferences;
    var id := t.columns[t.FindColumn(cmd.col).value].id;
    var detached := if cmd.cascade then MapTables(c, (u: TableInfo) => StripColumnReferences(u, cmd.table, id)) else c;
    var unindexed := DropIndexes(detached, (x: IndexInfo) => IEquals(x.table, cmd.table) && id in x.columns);
    if cmd.cascade {
      DetachedIsTidy(c, cmd.table, id, top);
    }
    SameTables(detached, unindexed, top);
    DroppedFromTable(t, cmd.col, id, top);
    TidyWithTable(c, unindexed, ColumnDropped(t, cmd.col, id), top);
  }

  lemma SameTables(c: Catalog, d: Catalog, top: nat)
    requires TidyTables(c, top) && d.tables == c.tables
    ensures TidyTables(d, top)
  {
    hide TidyTable;
  }

  lemma DroppedFromTable(t: TableInfo, col: string, id: nat, top: nat)
    requires TidyTable(t, top)
    ensures TidyTable(ColumnDropped(t, col, id), top)
  {
    hide TidyTable, IEquals;
    TrimmedIsTidy(t, ColumnDropped(t, col, id), top);
  }

  lemma DroppedConstraintIsTidy(c: Catalog, t: TableInfo, cmd: Command, top: nat)
    requires Tidy(c, top) && TidyTable(t, top) && cmd.DropConstraint? && c.version < top && AlterTable(c, t, cmd).Changed?
    ensures Tidy(AlterTable(c, t, cmd).next, top)
  {
    hide TidyTable, TidyTables, TidyIndexes, Fold, IEquals, ConstraintDropped, OthersRefer, StripColumns;
    TidyParts(c, top);
    var target := t.constraints[FindConstraint(t.constraints, cmd.constraint).value];
    var detached := if ProvidesKey(target) then StripColumns(c, cmd.table, target.columns) else c;
    if ProvidesKey(target) {
      StrippedIsTidy(c, cmd.table, target.columns, top);
    }
    SameIndexes(c, detached, top);
    RelaxedIsTidy(t, cmd.constraint, target, top);
    TidyWithTable(c, detached, ConstraintDropped(t, cmd.constraint, target), top);
  }

  lemma SameIndexes(c: Catalog, d: Catalog, top: nat)
    requires TidyIndexes(c, top) && d.indexes == c.indexes
    ensures TidyIndexes(d, top)
  {
    hide TidyIndex;
  }

  lemma RelaxedIsTidy(t: TableInfo, cname: string, target: Constraint, top: nat)
    requires TidyTable(t, top)
    ensures TidyTable(ConstraintDropped(t, cname, target), top)
  {
    hide TidyTable, IEquals;
    var u := ConstraintDropped(t, cname, target);
    forall x | x in u.columns ensures x in t.columns || x.(nullable := false) in t.columns || x.(nullable := true) in t.columns {
      var i :| 0 <= i < |u.columns| && u.columns[i] == x;
      assert t.columns[i] in t.columns;
      assert x == t.columns[i] || x == t.columns[i].(nullable := true);
      assert t.columns[i] == t.columns[i].(nullable := t.columns[i].nullable);
    }
    TrimmedIsTidy(t, u, top);
  }

  lemma DroppedTableIsTidy(c: Catalog, cmd: Command, top: nat)
    requires Tidy(c, top) && cmd.DropTable? && c.version < top && Apply(c, cmd).Changed?
    ensures Tidy(Apply(c, cmd).next, top)
  {
    hide TidyTable, TidyIndex, Fold, IEquals, OthersRefer, StripReferences;
    var removed := c.(tables := c.tables - {Fold(cmd.table)});
    var unindexed := DropIndexes(removed, (x: IndexInfo) => IEquals(x.table, cmd.table));
    UnreferencedIsTidy(unindexed, cmd.table, top);
  }

  lemma CreatedIndexIsTidy(c: Catalog, cmd: Command, top: nat)
    requires Tidy(c, top) && cmd.CreateIndex? && Spelled(cmd) && HasRoom(c, cmd, top) && Apply(c, cmd).Changed?
    ensures Tidy(Apply(c, cmd).next, top)
  {
    hide TidyTable, IsText, Fold, ColumnIds;
    ColumnIdsWithin(c.tables[Fold(cmd.table)], cmd.names, top);
  }

  /** Printable texts and room for the next numbers keep a catalog tidy, whatever the command. */
  lemma StepKeepsTidy(c: Catalog, cmd: Command, top: nat)
    requires Tidy(c, top) && Spelled(cmd) && HasRoom(c, cmd, top) && Apply(c, cmd).Changed?
    ensures Tidy(Apply(c, cmd).next, top)
  {
    hide TidyTable, TidyIndex, Fold, Spelled, AlterTable, Created;
    match cmd
    case CreateTable(_, _, _, _, _, _) =>
      CreatedIsTidy(c, cmd, top);
    case DropTable(_, _, _) => DroppedTableIsTidy(c, cmd, top);
    case CreateIndex(_, _, _, _, _) => CreatedIndexIsTidy(c, cmd, top);
    case DropIndex(_, _) =>
    case _ =>
      var t := c.tables[Fold(cmd.table)];
      if cmd.DropColumn? {
        DroppedColumnIsTidy(c, t, cmd, top);
      } else if cmd.DropConstraint? {
        DroppedConstraintIsTidy(c, t, cmd, top);
      } else {
        AlteredIsTidy(c, t, cmd, top);
      }
  }

  // ----- The theorems -----

  /** A command with printable texts, and room for its numbers within 32 bits, keeps the
      catalog printable. */
  lemma StepKeepsPrintable(c: Catalog, cmd: Command)
    requires Printable(c) && Spelled(cmd) && HasRoom(c, cmd, U32_MAX) && Apply(c, cmd).Changed?
    ensures Printable(Apply(c, cmd).next)
  {
    hide Printable, Tidy, Apply, Spelled, HasRoom;
    PrintableIsTidy(c);
    StepKeepsTidy(c, cmd, U32_MAX);
    PrintableIsTidy(Apply(c, cmd).next);
  }

  /** Half of the 32-bit range: so many columns a table may be created with, and so many
      commits leave room. */
  const HALF: nat := 0x8000_0000

  predicate Storable(cmd: Command) {
    Spelled(cmd) && (cmd.CreateTable? ==> |cmd.columns| <= HALF)
  }

  /** No number is further above `HALF` than there were commits. */
  predicate Spacious(c: Catalog) {
    Tidy(c, HALF + c.version)
  }

  lemma StepKeepsSpacious(c: Catalog, cmd: Command)
    requires Spacious(c) && Storable(cmd)
    ensures Spacious(Next(c, cmd))
  {
    hide TidyTables, TidyIndexes, Apply, Spelled, MaxId, Fold;
    var more := HALF + c.version + 1;
    VersionStep(c, cmd);
    if Apply(c, cmd).Changed? {
      TidyGrows(c, HALF + c.version, more);
      RoomAbove(c, cmd, HALF + c.version);
      StepKeepsTidy(c, cmd, more);
    }
  }

  lemma RoomAbove(c: Catalog, cmd: Command, top: nat)
    requires Tidy(c, top) && (cmd.CreateTable? ==> |cmd.columns| <= top)
    ensures HasRoom(c, cmd, top + 1)
  {
    hide TidyConstraint, SpelledColumn, Fold;
    if cmd.AddColumn? && Fold(cmd.table) in c.tables {
      MaxIdWithin(c.tables[Fold(cmd.table)].columns, top);
    }
  }

  lemma {:induction false} MaxIdWithin(columns: seq<ColumnInfo>, top: nat)
    requires forall x <- columns :: TidyColumn(x, top)
    ensures MaxId(columns) <= top
  {
    hide SpelledColumn;
    if columns != [] {
      MaxIdWithin(columns[..|columns| - 1], top);
      assert columns[|columns| - 1] in columns;
    }
  }

  lemma SpaciousIsPrintable(c: Catalog)
    requires Spacious(c) && c.version < HALF
    ensures Printable(c)
  {
    hide Tidy, Printable;
    TidyGrows(c, HALF + c.version, U32_MAX);
    PrintableIsTidy(c);
  }

  /** From the empty catalog, every run of fewer than 2^31 commands with printable texts reaches
      a printable catalog. */
  lemma {:induction false} RunIsPrintable(cmds: seq<Command>)
    requires |cmds| < HALF && forall i :: 0 <= i < |cmds| ==> Storable(cmds[i])
    ensures Printable(Run(EMPTY, cmds))
  {
    hide Spacious, Printable, Storable;
    RunIsSpacious(cmds);
    SpaciousIsPrintable(Run(EMPTY, cmds));
  }

  lemma {:induction false} RunIsSpacious(cmds: seq<Command>)
    requires forall i :: 0 <= i < |cmds| ==> Storable(cmds[i])
    ensures Spacious(Run(EMPTY, cmds)) && Run(EMPTY, cmds).version <= |cmds|
  {
    hide Spacious, Apply, Storable;
    if cmds == [] {
      EmptyIsSpacious();
    } else {
      var front, last := cmds[..|cmds| - 1], cmds[|cmds| - 1];
      RunIsSpacious(front);
      StepKeepsSpacious(Run(EMPTY, front), last);
      VersionStep(Run(EMPTY, front), last);
    }
  }

  lemma EmptyIsSpacious()
    ensures Spacious(EMPTY)
  {
  }
}
