/** What CREATE TABLE stores: the statement's columns and, in order, its primary key, its unique
    keys, its foreign keys and its checks. */
module DdlCreation {
  import opened Wrappers
  import opened Identifier
  import opened Types
  import opened Catalogs
  import opened Ddl
  import opened DdlEffects

  // ----- One list of constraints after another -----

  /** The keys of the statement that name columns. */
  function NonEmpty(keys: seq<KeySpec>): seq<KeySpec> {
    if keys == [] then []
    else NonEmpty(keys[..|keys| - 1]) + if keys[|keys| - 1].columns == [] then [] else [keys[|keys| - 1]]
  }

  ghost predicate AreUniquesOf(ks: seq<Constraint>, keys: seq<KeySpec>, columns: seq<ColumnInfo>) {
    |ks| == |keys| && forall i :: 0 <= i < |ks| ==> IsKeyOf(ks[i], Unique, keys[i], columns)
  }

  ghost predicate AreChecksOf(ks: seq<Constraint>, checks: seq<CheckSpec>, columns: seq<ColumnInfo>) {
    |ks| == |checks| && forall i :: 0 <= i < |ks| ==> IsCheckOf(ks[i], checks[i], columns)
  }

  /** The columns of the table of that name, which may be the one being created. */
  function ColumnsOf(c: Catalog, name: string, columns: seq<ColumnInfo>, table: string): Option<seq<ColumnInfo>> {
    if IEquals(table, name) then Some(columns)
    else if Fold(table) in c.tables then Some(c.tables[Fold(table)].columns)
    else None
  }

  ghost predicate AreForeignKeysOf(ks: seq<Constraint>, fks: seq<ForeignKeySpec>, c: Catalog, name: string, columns: seq<ColumnInfo>) {
    |ks| == |fks| && forall i :: 0 <= i < |ks| ==>
      ColumnsOf(c, name, columns, fks[i].refTable).Some? &&
      IsForeignKeyOf(ks[i], fks[i], columns, ColumnsOf(c, name, columns, fks[i].refTable).value)
  }

  predicate CanReference(c: Catalog, name: string, columns: seq<ColumnInfo>, fk: ForeignKeySpec) {
    && fk.columns != [] && |fk.columns| == |fk.refColumns| && HasColumns(columns, fk.columns)
    && ColumnsOf(c, name, columns, fk.refTable).Some? && HasColumns(ColumnsOf(c, name, columns, fk.refTable).value, fk.refColumns)
  }

  /** `u` is `t` with `ks` at the end of its constraints. */
  predicate Appends(t: TableInfo, u: TableInfo, ks: seq<Constraint>) {
    u == t.(constraints := t.constraints + ks)
  }

  lemma AppendsMore(t: TableInfo, u: TableInfo, ks: seq<Constraint>, k: Constraint)
    requires Appends(t, u, ks)
    ensures Appends(t, WithConstraint(u, k), ks + [k])
  {
    assert t.constraints + (ks + [k]) == t.constraints + ks + [k];
  }

  lemma {:induction false} UniquesStored(t: TableInfo, keys: seq<KeySpec>) returns (ks: seq<Constraint>)
    ensures WithUniques(t, keys).Some? <==> forall i :: 0 <= i < |keys| ==> HasColumns(t.columns, keys[i].columns)
    ensures WithUniques(t, keys).Some? ==> Appends(t, WithUniques(t, keys).value, ks) && AreUniquesOf(ks, NonEmpty(keys), t.columns)
  {
    hide HasColumns, WithUnique, IsKeyOf;
    ks := [];
    if keys != [] {
      var front, last := keys[..|keys| - 1], keys[|keys| - 1];
      assert keys == front + [last];
      ks := UniquesStored(t, front);
      NoColumnsNeeded(t.columns, last.columns);
      assert forall i :: 0 <= i < |front| ==> keys[i] == front[i];
      if WithUniques(t, front).Some? && last.columns != [] {
        var u := WithUniques(t, front).value;
        UniqueStored(u, last);
        if WithUnique(u, last).Some? {
          var k := UniqueAdded(u, last);
          AppendsMore(t, u, ks, k);
          ks := ks + [k];
        }
      }
    }
  }

  lemma NoColumnsNeeded(columns: seq<ColumnInfo>, names: seq<string>)
    ensures names == [] ==> HasColumns(columns, names)
  {
  }

  lemma UniqueStored(u: TableInfo, key: KeySpec)
    ensures WithUnique(u, key).Some? <==> HasColumns(u.columns, key.columns)
  {
    hide HasColumns, AreIdsOf, ColumnIds;
    ColumnIdsAre(u, key.columns);
  }

  lemma UniqueAdded(u: TableInfo, key: KeySpec) returns (k: Constraint)
    requires WithUnique(u, key).Some?
    ensures WithUnique(u, key).value == WithConstraint(u, k) && IsKeyOf(k, Unique, key, u.columns)
  {
    hide AreIdsOf, ColumnIds;
    ColumnIdsAre(u, key.columns);
    k := Constraint(Unique, key.name, ColumnIds(u, key.columns).value, "", [], "");
  }

  lemma {:induction false} ChecksStored(t: TableInfo, checks: seq<CheckSpec>) returns (ks: seq<Constraint>)
    ensures WithChecks(t, checks).Some? <==> forall i :: 0 <= i < |checks| ==> HasColumns(t.columns, checks[i].columns)
    ensures WithChecks(t, checks).Some? ==> Appends(t, WithChecks(t, checks).value, ks) && AreChecksOf(ks, checks, t.columns)
  {
    hide HasColumns, WithCheck, IsCheckOf;
    ks := [];
    if checks != [] {
      var front, last := checks[..|checks| - 1], checks[|checks| - 1];
      assert checks == front + [last];
      ks := ChecksStored(t, front);
      assert forall i :: 0 <= i < |front| ==> checks[i] == front[i];
      if WithChecks(t, front).Some? {
        var u := WithChecks(t, front).value;
        CheckStored(u, last);
        if WithCheck(u, last).Some? {
          var k := CheckAdded(u, last);
          AppendsMore(t, u, ks, k);
          ks := ks + [k];
        }
      }
    }
  }

  lemma CheckStored(u: TableInfo, check: CheckSpec)
    ensures WithCheck(u, check).Some? <==> HasColumns(u.columns, check.columns)
  {
    hide HasColumns, AreIdsOf, ColumnIds;
    ColumnIdsAre(u, check.columns);
  }

  lemma CheckAdded(u: TableInfo, check: CheckSpec) returns (k: Constraint)
    requires WithCheck(u, check).Some?
    ensures WithCheck(u, check).value == WithConstraint(u, k) && IsCheckOf(k, check, u.columns)
  {
    hide AreIdsOf, ColumnIds;
    ColumnIdsAre(u, check.columns);
    k := Constraint(Check, check.name, ColumnIds(u, check.columns).value, "", [], check.expr);
  }

  lemma ForeignKeysMore(ks: seq<Constraint>, fks: seq<ForeignKeySpec>, k: Constraint, fk: ForeignKeySpec, c: Catalog, name: string, columns: seq<ColumnInfo>)
    requires AreForeignKeysOf(ks, fks, c, name, columns) && ColumnsOf(c, name, columns, fk.refTable).Some?
    requires IsForeignKeyOf(k, fk, columns, ColumnsOf(c, name, columns, fk.refTable).value)
    ensures AreForeignKeysOf(ks + [k], fks + [fk], c, name, columns)
  {
    hide IsForeignKeyOf, ColumnsOf;
  }

  lemma {:induction false} ForeignKeysStored(c: Catalog, t: TableInfo, fks: seq<ForeignKeySpec>) returns (ks: seq<Constraint>)
    ensures WithForeignKeys(c, t, fks).Some? <==> forall i :: 0 <= i < |fks| ==> CanReference(c, t.name, t.columns, fks[i])
    ensures WithForeignKeys(c, t, fks).Some? ==>
            Appends(t, WithForeignKeys(c, t, fks).value, ks) && AreForeignKeysOf(ks, fks, c, t.name, t.columns)
  {
    hide CanReference, WithForeignKey, IsForeignKeyOf, ColumnsOf, WithTable, AreForeignKeysOf;
    ks := [];
    if fks == [] {
      assert AreForeignKeysOf(ks, fks, c, t.name, t.columns) by { NoForeignKeys(c, t); }
    } else {
      var front, last := fks[..|fks| - 1], fks[|fks| - 1];
      assert fks == front + [last];
      ks := ForeignKeysStored(c, t, front);
      assert forall i :: 0 <= i < |front| ==> fks[i] == front[i];
      if WithForeignKeys(c, t, front).Some? {
        var u := WithForeignKeys(c, t, front).value;
        ForeignKeyStored(c, u, last);
        if WithForeignKey(WithTable(c, u), u, last).Some? {
          var k := ForeignKeyAdded(c, u, last);
          AppendsMore(t, u, ks, k);
          ForeignKeysMore(ks, front, k, last, c, t.name, t.columns);
          ks := ks + [k];
        }
      }
    }
  }

  lemma NoForeignKeys(c: Catalog, t: TableInfo)
    ensures AreForeignKeysOf([], [], c, t.name, t.columns)
  {
  }

  lemma ColumnsInNew(c: Catalog, u: TableInfo, table: string)
    ensures Fold(table) in WithTable(c, u).tables <==> ColumnsOf(c, u.name, u.columns, table).Some?
    ensures Fold(table) in WithTable(c, u).tables ==> WithTable(c, u).tables[Fold(table)].columns == ColumnsOf(c, u.name, u.columns, table).value
  {
    hide Fold;
  }

  lemma ForeignKeyStored(c: Catalog, u: TableInfo, fk: ForeignKeySpec)
    ensures WithForeignKey(WithTable(c, u), u, fk).Some? <==> CanReference(c, u.name, u.columns, fk)
  {
    hide HasColumns, BuildForeignKey, Fold, WithTable, ColumnsOf, IsForeignKeyOf;
    ColumnsInNew(c, u, fk.refTable);
    ForeignKeyBuilt(WithTable(c, u), u, fk);
  }

  lemma ForeignKeyAdded(c: Catalog, u: TableInfo, fk: ForeignKeySpec) returns (k: Constraint)
    requires WithForeignKey(WithTable(c, u), u, fk).Some?
    ensures WithForeignKey(WithTable(c, u), u, fk).value == WithConstraint(u, k)
    ensures ColumnsOf(c, u.name, u.columns, fk.refTable).Some?
    ensures IsForeignKeyOf(k, fk, u.columns, ColumnsOf(c, u.name, u.columns, fk.refTable).value)
  {
    hide HasColumns, BuildForeignKey, Fold, WithTable, ColumnsOf, IsForeignKeyOf;
    ColumnsInNew(c, u, fk.refTable);
    ForeignKeyBuilt(WithTable(c, u), u, fk);
    k := BuildForeignKey(WithTable(c, u), u, fk).value;
  }

  // ----- The statement as a whole -----

  /** The new table's columns before keys force any of them: numbered from one. */
  predicate AreNumbered(given: seq<ColumnInfo>, stored: seq<ColumnInfo>) {
    |stored| == |given| && forall j :: 0 <= j < |given| ==> stored[j] == given[j].(id := j + 1)
  }

  /** Every column a constraint of the statement names exists, and so do the referenced tables. */
  predicate CanCreate(c: Catalog, cmd: Command, columns: seq<ColumnInfo>)
    requires cmd.CreateTable?
  {
    && HasColumns(columns, cmd.primaryKey.columns)
    && (forall i :: 0 <= i < |cmd.uniques| ==> HasColumns(columns, cmd.uniques[i].columns))
    && (forall i :: 0 <= i < |cmd.foreignKeys| ==> CanReference(c, cmd.table, columns, cmd.foreignKeys[i]))
    && forall i :: 0 <= i < |cmd.checks| ==> HasColumns(columns, cmd.checks[i].columns)
  }

  /** The constraints of the statement, in order. */
  ghost predicate AreConstraintsOf(ks: seq<Constraint>, c: Catalog, cmd: Command, columns: seq<ColumnInfo>)
    requires cmd.CreateTable?
  {
    exists pk: seq<Constraint>, us: seq<Constraint>, fs: seq<Constraint>, chs: seq<Constraint> ::
      ks == pk + us + fs + chs && ArePartsOf(pk, us, fs, chs, c, cmd, columns)
  }

  ghost predicate ArePartsOf(pk: seq<Constraint>, us: seq<Constraint>, fs: seq<Constraint>, chs: seq<Constraint>, c: Catalog, cmd: Command, columns: seq<ColumnInfo>)
    requires cmd.CreateTable?
  {
    && (if cmd.primaryKey.columns == [] then pk == [] else |pk| == 1 && IsKeyOf(pk[0], PrimaryKey, cmd.primaryKey, columns))
    && AreUniquesOf(us, NonEmpty(cmd.uniques), columns)
    && AreForeignKeysOf(fs, cmd.foreignKeys, c, cmd.table, columns) && AreChecksOf(chs, cmd.checks, columns)
  }

  lemma HasSame(a: seq<ColumnInfo>, b: seq<ColumnInfo>, names: seq<string>)
    requires |a| == |b| && forall j :: 0 <= j < |a| ==> a[j].name == b[j].name
    ensures HasColumns(a, names) <==> HasColumns(b, names)
  {
    hide IEquals;
    forall i | 0 <= i < |names| ensures HasColumn(a, names[i]) <==> HasColumn(b, names[i]) {
      if HasColumn(a, names[i]) {
        var j :| 0 <= j < |a| && IEquals(a[j].name, names[i]);
        assert IEquals(b[j].name, names[i]);
      }
      if HasColumn(b, names[i]) {
        var j :| 0 <= j < |b| && IEquals(b[j].name, names[i]);
        assert IEquals(a[j].name, names[i]);
      }
    }
  }

  lemma IdsSame(a: seq<ColumnInfo>, b: seq<ColumnInfo>, names: seq<string>, ids: seq<nat>)
    requires |a| == |b| && forall j :: 0 <= j < |a| ==> a[j].name == b[j].name && a[j].id == b[j].id
    ensures AreIdsOf(a, names, ids) <==> AreIdsOf(b, names, ids)
  {
    hide IEquals;
    if |ids| == |names| {
      forall i | 0 <= i < |names| ensures IsIdOf(a, names[i], ids[i]) <==> IsIdOf(b, names[i], ids[i]) {
        if j: nat :| FirstNamed(a, names[i], j) && a[j].id == ids[i] {
          assert FirstNamed(b, names[i], j);
        }
        if j: nat :| FirstNamed(b, names[i], j) && b[j].id == ids[i] {
          assert FirstNamed(a, names[i], j);
        }
      }
    }
  }

  /** The table after its primary key is in place. */
  lemma KeyedTable(t: TableInfo, key: KeySpec) returns (pk: seq<Constraint>)
    requires t.constraints == []
    ensures var keyed := if key.columns == [] then Some(t) else WithPrimaryKey(t, key);
            && (keyed.Some? <==> HasColumns(t.columns, key.columns))
            && (keyed.Some? ==>
                  && keyed.value == t.(columns := keyed.value.columns, constraints := pk)
                  && Forced(t.columns, keyed.value.columns, key.columns)
                  && if key.columns == [] then pk == [] else |pk| == 1 && IsKeyOf(pk[0], PrimaryKey, key, t.columns))
  {
    hide HasColumns, AreIdsOf, ColumnIds, ForceNotNull, FirstNamed;
    pk := [];
    NoColumnsNeeded(t.columns, key.columns);
    if key.columns != [] {
      ColumnIdsAre(t, key.columns);
      if ColumnIds(t, key.columns).Some? {
        ForcedColumns(t, key.columns);
        pk := [Constraint(PrimaryKey, key.name, ColumnIds(t, key.columns).value, "", [], "")];
        assert t.constraints + pk == pk;
      }
    }
  }

  /** CREATE TABLE adds one table under the next id: the given columns numbered from one, those of
      the primary key NOT NULL, and the statement's constraints in order. */
  lemma CreateTableEffect(c: Catalog, cmd: Command)
    requires cmd.CreateTable?
    ensures var o := Apply(c, cmd); var key := Fold(cmd.table);
            if key !in c.tables && CanCreate(c, cmd, Numbered(cmd.columns)) then
              && o.Changed? && o.next == c.(tables := o.next.tables, nextTableId := c.nextTableId + 1, version := c.version + 1)
              && o.next.tables.Keys == c.tables.Keys + {key} && (forall k :: k in c.tables ==> o.next.tables[k] == c.tables[k])
              && IsCreated(o.next.tables[key], c, cmd)
            else o.Refused?
  {
    hide Fold, Created, CanCreate, IsCreated;
    CreatedStored(c, cmd);
    if Created(c, cmd).Some? && Fold(cmd.table) !in c.tables {
      CreatedName(c, cmd);
    }
  }

  ghost predicate IsCreated(t: TableInfo, c: Catalog, cmd: Command)
    requires cmd.CreateTable?
  {
    && t.name == cmd.table && t.id == c.nextTableId
    && exists plain: seq<ColumnInfo> :: AreNumbered(cmd.columns, plain) && Forced(plain, t.columns, cmd.primaryKey.columns)
         && AreConstraintsOf(t.constraints, c, cmd, plain)
  }

  lemma CreatedName(c: Catalog, cmd: Command)
    requires cmd.CreateTable? && Created(c, cmd).Some? && IsCreated(Created(c, cmd).value, c, cmd)
    ensures Created(c, cmd).value.name == cmd.table
  {
  }

  lemma CreatedStored(c: Catalog, cmd: Command)
    requires cmd.CreateTable?
    ensures Created(c, cmd).Some? <==> CanCreate(c, cmd, Numbered(cmd.columns))
    ensures Created(c, cmd).Some? ==> IsCreated(Created(c, cmd).value, c, cmd)
  {
    hide HasColumns, WithPrimaryKey, WithUniques, WithForeignKeys, WithChecks, Forced, CanReference, AreUniquesOf, AreForeignKeysOf, AreChecksOf, IsKeyOf, NonEmpty;
    var plain := Numbered(cmd.columns);
    var t := TableInfo(cmd.table, c.nextTableId, plain, []);
    var pk := KeyedTable(t, cmd.primaryKey);
    var keyed := if cmd.primaryKey.columns == [] then Some(t) else WithPrimaryKey(t, cmd.primaryKey);
    if keyed.Some? {
      var u := keyed.value;
      ForcedAlike(t.columns, u.columns, cmd.primaryKey.columns);
      StatementAlike(c, cmd, plain, u.columns);
      var us := UniquesStored(u, cmd.uniques);
      if WithUniques(u, cmd.uniques).Some? {
        var v := WithUniques(u, cmd.uniques).value;
        var fs := ForeignKeysStored(c, v, cmd.foreignKeys);
        if WithForeignKeys(c, v, cmd.foreignKeys).Some? {
          var w := WithForeignKeys(c, v, cmd.foreignKeys).value;
          var chs := ChecksStored(w, cmd.checks);
          if WithChecks(w, cmd.checks).Some? {
            assert ArePartsOf(pk, us, fs, chs, c, cmd, plain) by {
              PartsAlike(us, fs, chs, c, cmd, u.columns, plain);
            }
            assert WithChecks(w, cmd.checks).value.constraints == pk + us + fs + chs;
            assert AreConstraintsOf(pk + us + fs + chs, c, cmd, plain);
            assert AreNumbered(cmd.columns, plain);
          }
        }
      }
    }
  }

  predicate Alike(a: seq<ColumnInfo>, b: seq<ColumnInfo>) {
    |a| == |b| && forall j :: 0 <= j < |a| ==> a[j].name == b[j].name && a[j].id == b[j].id
  }

  lemma ForcedAlike(a: seq<ColumnInfo>, b: seq<ColumnInfo>, names: seq<string>)
    requires Forced(a, b, names)
    ensures Alike(a, b) && Alike(b, a)
  {
    hide FirstNamed;
  }

  /** Forcing columns NOT NULL does not change which names exist. */
  lemma StatementAlike(c: Catalog, cmd: Command, a: seq<ColumnInfo>, b: seq<ColumnInfo>)
    requires cmd.CreateTable? && Alike(a, b)
    ensures forall names :: HasColumns(a, names) <==> HasColumns(b, names)
    ensures forall fk :: CanReference(c, cmd.table, a, fk) <==> CanReference(c, cmd.table, b, fk)
  {
    hide HasColumns, Fold;
    forall names: seq<string> ensures HasColumns(a, names) <==> HasColumns(b, names) {
      HasSame(a, b, names);
    }
  }

  lemma PartsAlike(us: seq<Constraint>, fs: seq<Constraint>, chs: seq<Constraint>, c: Catalog, cmd: Command, a: seq<ColumnInfo>, b: seq<ColumnInfo>)
    requires cmd.CreateTable? && Alike(a, b)
    requires AreUniquesOf(us, NonEmpty(cmd.uniques), a) && AreForeignKeysOf(fs, cmd.foreignKeys, c, cmd.table, a) && AreChecksOf(chs, cmd.checks, a)
    ensures AreUniquesOf(us, NonEmpty(cmd.uniques), b) && AreForeignKeysOf(fs, cmd.foreignKeys, c, cmd.table, b) && AreChecksOf(chs, cmd.checks, b)
  {
    hide AreIdsOf, NonEmpty, Fold;
    forall names, ids ensures AreIdsOf(a, names, ids) <==> AreIdsOf(b, names, ids) {
      IdsSame(a, b, names, ids);
    }
  }
}
