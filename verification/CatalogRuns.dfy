/** The catalog invariant over every run, and what dropping and adding columns does to ids. */
module CatalogRuns {
  import opened Wrappers
  import opened Identifier
  import opened Types
  import opened Catalogs
  import opened Ddl
  import opened CatalogInvariant

  // ----- Column ids and NOT NULL -----

  lemma {:induction false} ColumnIdsExist(t: TableInfo, names: seq<string>)
    ensures ColumnIds(t, names).Some? ==> forall id <- ColumnIds(t, names).value :: HasId(t, id)
  {
    hide HasId;
    if names != [] {
      ColumnIdsExist(t, names[..|names| - 1]);
      if ColumnIds(t, names).Some? {
        FoundId(t, t.FindColumn(names[|names| - 1]).value);
      }
    }
  }

  lemma FoundId(t: TableInfo, i: nat)
    requires i < |t.columns|
    ensures HasId(t, t.columns[i].id)
  {
  }

  lemma {:induction false} ForcedIds(t: TableInfo, names: seq<string>)
    requires DistinctIds(t.columns) && ColumnIds(t, names).Some?
    ensures forall id <- ColumnIds(t, names).value :: NotNullId(ForceNotNull(t, names), id)
    ensures forall id :: NotNullId(t, id) ==> NotNullId(ForceNotNull(t, names), id)
  {
    if names != [] {
      var front := names[..|names| - 1];
      ForcedIds(t, front);
      var i := t.FindColumn(names[|names| - 1]).value;
      ForceOne(t, ForceNotNull(t, front), i);
    }
  }

  lemma ForceOne(t: TableInfo, before: TableInfo, i: nat)
    requires DistinctIds(t.columns) && i < |t.columns| == |before.columns|
    requires forall j :: 0 <= j < |t.columns| ==> before.columns[j].id == t.columns[j].id
    ensures var after := before.(columns := before.columns[i := before.columns[i].(nullable := false)]);
            NotNullId(after, t.columns[i].id) && forall id :: NotNullId(before, id) ==> NotNullId(after, id)
  {
  }

  lemma ForcedShape(t: TableInfo, names: seq<string>)
    requires DistinctNames(t.columns) && DistinctIds(t.columns)
    ensures var u := ForceNotNull(t, names); DistinctNames(u.columns) && DistinctIds(u.columns)
    ensures forall id :: HasId(t, id) ==> HasId(ForceNotNull(t, names), id)
  {
    var u := ForceNotNull(t, names);
    forall id | HasId(t, id) ensures HasId(u, id) {
      var i :| 0 <= i < |t.columns| && t.columns[i].id == id;
      assert u.columns[i].id == id;
    }
  }

  // ----- Adding a constraint -----

  lemma AddedConstraint(t: TableInfo, u: TableInfo, k: Constraint)
    requires TableOk(t) && DistinctNames(u.columns) && DistinctIds(u.columns) && u.constraints == t.constraints
    requires forall id :: HasId(t, id) ==> HasId(u, id)
    requires forall id :: NotNullId(t, id) ==> NotNullId(u, id)
    requires ConstraintOk(u, k) && (k.kind.PrimaryKey? ==> PrimaryKeys(t.constraints) == 0)
    ensures TableOk(WithConstraint(u, k))
  {
    hide HasId, NotNullId, DistinctNames, DistinctIds, PrimaryKeys;
    var v := WithConstraint(u, k);
    KeysSnoc(u.constraints, k);
    SameIds(u, v);
    forall g | g in v.constraints ensures ConstraintOk(v, g) {
      assert g in t.constraints ==> ConstraintOk(t, g);
    }
  }

  lemma SameIds(u: TableInfo, v: TableInfo)
    requires u.columns == v.columns
    ensures forall id :: HasId(u, id) <==> HasId(v, id)
    ensures forall id :: NotNullId(u, id) <==> NotNullId(v, id)
  {
  }

  lemma {:induction false} NoPrimaryKey(cs: seq<Constraint>)
    requires forall k <- cs :: !k.kind.PrimaryKey?
    ensures PrimaryKeys(cs) == 0
  {
    if cs != [] {
      NoPrimaryKey(cs[..|cs| - 1]);
    }
  }

  /** What a change to one table must leave for the catalog invariant. */
  ghost predicate Extends(t: TableInfo, u: TableInfo) {
    && TableOk(u) && SameTable(u, t) && Covers(u, t)
    && forall k <- u.constraints :: k in t.constraints || !k.kind.ForeignKey?
  }

  lemma PrimaryKeyExtends(t: TableInfo, key: KeySpec)
    requires TableOk(t) && !HasPrimaryKey(t) && WithPrimaryKey(t, key).Some?
    ensures Extends(t, WithPrimaryKey(t, key).value)
  {
    hide HasId, NotNullId, DistinctNames, DistinctIds, PrimaryKeys, ColumnIds, ForceNotNull;
    var ids, forced := ColumnIds(t, key.columns).value, ForceNotNull(t, key.columns);
    ColumnIdsExist(t, key.columns);
    ForcedIds(t, key.columns);
    ForcedShape(t, key.columns);
    NoPrimaryKey(t.constraints);
    AddedConstraint(t, forced, Constraint(PrimaryKey, key.name, ids, "", [], ""));
    SameIds(forced, WithPrimaryKey(t, key).value);
  }

  lemma UniqueExtends(t: TableInfo, key: KeySpec)
    requires TableOk(t) && WithUnique(t, key).Some?
    ensures Extends(t, WithUnique(t, key).value)
  {
    hide HasId, NotNullId, DistinctNames, DistinctIds, PrimaryKeys, ColumnIds;
    var ids := ColumnIds(t, key.columns).value;
    ColumnIdsExist(t, key.columns);
    AddedConstraint(t, t, Constraint(Unique, key.name, ids, "", [], ""));
    SameIds(t, WithUnique(t, key).value);
  }

  lemma CheckExtends(t: TableInfo, check: CheckSpec)
    requires TableOk(t) && WithCheck(t, check).Some?
    ensures Extends(t, WithCheck(t, check).value)
  {
    hide HasId, NotNullId, DistinctNames, DistinctIds, PrimaryKeys, ColumnIds;
    var ids := ColumnIds(t, check.columns).value;
    ColumnIdsExist(t, check.columns);
    AddedConstraint(t, t, Constraint(Check, check.name, ids, "", [], check.expr));
    SameIds(t, WithCheck(t, check).value);
  }

  /** A built foreign key is in order locally and names what exists. */
  lemma ForeignKeyIsOk(c: Catalog, t: TableInfo, fk: ForeignKeySpec)
    requires TableOk(t) && BuildForeignKey(c, t, fk).Some?
    ensures TableOk(WithConstraint(t, BuildForeignKey(c, t, fk).value))
    ensures ReferenceOk(c, t.name, BuildForeignKey(c, t, fk).value, true)
    ensures BuildForeignKey(c, t, fk).value.kind == ForeignKey
  {
    hide HasId, NotNullId, DistinctNames, DistinctIds, PrimaryKeys, ColumnIds, Fold;
    ColumnIdsExist(t, fk.columns);
    ColumnIdsExist(FindTable(c, fk.refTable).value, fk.refColumns);
    AddedConstraint(t, t, BuildForeignKey(c, t, fk).value);
  }

  lemma ExtendsKeepsInv(c: Catalog, t: TableInfo, u: TableInfo, strict: bool)
    requires Inv(c, strict) && Fold(t.name) in c.tables && c.tables[Fold(t.name)] == t && Extends(t, u)
    ensures Inv(Bumped(WithTable(c, u)), strict)
  {
    hide TableOk, Covers, Fold, IndexOk, HasId;
    forall k | k in u.constraints ensures ReferenceOk(c, u.name, k, strict) {
      if k in t.constraints {
        assert ReferenceOk(c, c.tables[Fold(t.name)].name, k, strict);
      }
    }
    ReplaceKeepsInv(c, t, u, strict);
  }

  // ----- ALTER TABLE -----

  lemma AddColumnExtends(t: TableInfo, column: ColumnInfo)
    requires TableOk(t) && t.FindColumn(column.name).None?
    ensures Extends(t, t.(columns := t.columns + [column.(id := MaxId(t.columns) + 1)]))
  {
    hide PrimaryKeys, MaxId;
    var u := t.(columns := t.columns + [column.(id := MaxId(t.columns) + 1)]);
    forall id | HasId(t, id) ensures HasId(u, id) {
      var i :| 0 <= i < |t.columns| && t.columns[i].id == id;
      assert u.columns[i] == t.columns[i];
    }
    forall k | k in u.constraints ensures ConstraintOk(u, k) {
      assert ConstraintOk(t, k);
      forall id | id in k.columns && NotNullId(t, id) && HasId(t, id) ensures NotNullId(u, id) {
        assert id <= MaxId(t.columns);
      }
    }
  }

  lemma WithColumnExtends(t: TableInfo, i: nat, x: ColumnInfo)
    requires TableOk(t) && i < |t.columns| && x.id == t.columns[i].id && IEquals(x.name, t.columns[i].name)
    requires t.columns[i].nullable || !x.nullable || forall k <- t.constraints :: k.kind.PrimaryKey? ==> x.id !in k.columns
    ensures Extends(t, WithColumn(t, i, x))
  {
    hide PrimaryKeys, Fold;
    var u := WithColumn(t, i, x);
    forall id | HasId(t, id) ensures HasId(u, id) {
      var j :| 0 <= j < |t.columns| && t.columns[j].id == id;
      assert u.columns[j].id == id;
    }
    forall k | k in u.constraints ensures ConstraintOk(u, k) {
      assert ConstraintOk(t, k);
    }
  }

  // ----- DROP COLUMN -----

  lemma DistinctSnoc(columns: seq<ColumnInfo>, last: ColumnInfo)
    requires DistinctNames(columns) && DistinctIds(columns)
    requires forall x <- columns :: x.id != last.id && !IEquals(x.name, last.name)
    ensures DistinctNames(columns + [last]) && DistinctIds(columns + [last])
  {
    hide Fold;
  }

  lemma DistinctFront(columns: seq<ColumnInfo>)
    requires columns != [] && DistinctNames(columns) && DistinctIds(columns)
    ensures var front, last := columns[..|columns| - 1], columns[|columns| - 1];
            DistinctNames(front) && DistinctIds(front) && forall x <- front :: x.id != last.id && !IEquals(x.name, last.name)
  {
    hide Fold;
  }

  lemma {:induction false} WithoutColumnDistinct(columns: seq<ColumnInfo>, name: string)
    requires DistinctNames(columns) && DistinctIds(columns)
    ensures DistinctNames(WithoutColumn(columns, name)) && DistinctIds(WithoutColumn(columns, name))
  {
    hide DistinctNames, DistinctIds, IEquals;
    if columns != [] {
      DistinctFront(columns);
      var front, last := columns[..|columns| - 1], columns[|columns| - 1];
      WithoutColumnDistinct(front, name);
      DistinctSnoc(WithoutColumn(front, name), last);
      assert WithoutColumn(front, name) + [] == WithoutColumn(front, name);
    }
  }

  /** Dropping the column at `i` takes its id away and no other. */
  lemma DroppedIds(t: TableInfo, name: string, i: nat, id: nat)
    requires TableOk(t) && t.FindColumn(name) == Some(i) && id != t.columns[i].id && HasId(t, id)
    ensures HasId(ColumnDropped(t, name, t.columns[i].id), id)
  {
    hide Fold, PrimaryKeys, ConstraintOk;
    var j :| 0 <= j < |t.columns| && t.columns[j].id == id;
    assert IEquals(t.columns[j].name, name) ==> IEquals(t.columns[i].name, t.columns[j].name);
    var kept := WithoutColumn(t.columns, name);
    assert t.columns[j] in kept;
    var m :| 0 <= m < |kept| && kept[m] == t.columns[j];
    assert ColumnDropped(t, name, t.columns[i].id).columns[m].id == id;
  }

  lemma DroppedConstraintOk(t: TableInfo, name: string, i: nat, k: Constraint)
    requires TableOk(t) && t.FindColumn(name) == Some(i) && ConstraintOk(t, k) && t.columns[i].id !in k.columns
    ensures ConstraintOk(ColumnDropped(t, name, t.columns[i].id), k)
  {
    hide Fold, TableOk, HasId, NotNullId, ColumnDropped;
    forall x | x in k.columns
      ensures HasId(ColumnDropped(t, name, t.columns[i].id), x)
      ensures NotNullId(t, x) ==> NotNullId(ColumnDropped(t, name, t.columns[i].id), x)
    {
      DroppedIds(t, name, i, x);
      if NotNullId(t, x) {
        DroppedNotNull(t, name, t.columns[i].id, x);
      }
    }
  }

  lemma DroppedTableOk(t: TableInfo, name: string, i: nat)
    requires TableOk(t) && t.FindColumn(name) == Some(i)
    ensures TableOk(ColumnDropped(t, name, t.columns[i].id))
  {
    hide Fold, DistinctNames, DistinctIds, PrimaryKeys, ConstraintOk;
    var id := t.columns[i].id;
    var u := ColumnDropped(t, name, id);
    WithoutColumnDistinct(t.columns, name);
    WithoutKeepsFewKeys(t.constraints, (k: Constraint) => id in k.columns);
    forall k | k in u.constraints ensures ConstraintOk(u, k) {
      DroppedConstraintOk(t, name, i, k);
    }
  }

  lemma DroppedNotNull(t: TableInfo, name: string, id: nat, x: nat)
    requires NotNullId(t, x)
    ensures NotNullId(ColumnDropped(t, name, id), x)
  {
    hide Fold;
    var kept := WithoutColumn(t.columns, name);
    forall m | 0 <= m < |kept| && kept[m].id == x ensures !kept[m].nullable {
      assert kept[m] in t.columns;
    }
  }

  /** Nothing outside refers to the column; if `strict`, nor does the table itself in a key that
      survives. */
  ghost predicate Unreferenced(c: Catalog, t: TableInfo, id: nat, strict: bool) {
    && (forall k, f :: k in c.tables && k != Fold(t.name) && f in c.tables[k].constraints ==> !RefersToColumn(f, t.name, id))
    && (forall k :: k in c.indexes && IEquals(c.indexes[k].table, t.name) ==> id !in c.indexes[k].columns)
    && (strict ==> forall f :: f in t.constraints && id !in f.columns ==> !RefersToColumn(f, t.name, id))
  }

  lemma DroppedReference(c: Catalog, t: TableInfo, name: string, i: nat, owner: string, f: Constraint, strict: bool)
    requires Fold(t.name) in c.tables && c.tables[Fold(t.name)] == t && TableOk(t) && t.FindColumn(name) == Some(i)
    requires ReferenceOk(c, owner, f, strict)
    requires (strict || !IEquals(f.refTable, owner)) ==> !RefersToColumn(f, t.name, t.columns[i].id)
    ensures ReferenceOk(WithTable(c, ColumnDropped(t, name, t.columns[i].id)), owner, f, strict)
  {
    hide Fold, TableOk, HasId;
    var u := ColumnDropped(t, name, t.columns[i].id);
    if f.kind.ForeignKey? && (strict || !IEquals(f.refTable, owner)) && IEquals(f.refTable, t.name) {
      forall id | id in f.refColumns ensures HasId(u, id) {
        DroppedIds(t, name, i, id);
      }
    }
  }

  lemma DroppedIndex(c: Catalog, t: TableInfo, name: string, i: nat, x: IndexInfo)
    requires Fold(t.name) in c.tables && c.tables[Fold(t.name)] == t && TableOk(t) && t.FindColumn(name) == Some(i)
    requires IndexOk(c, x) && (IEquals(x.table, t.name) ==> t.columns[i].id !in x.columns)
    ensures IndexOk(WithTable(c, ColumnDropped(t, name, t.columns[i].id)), x)
  {
    hide Fold, TableOk, HasId;
    if IEquals(x.table, t.name) {
      forall id | id in x.columns ensures HasId(ColumnDropped(t, name, t.columns[i].id), id) {
        DroppedIds(t, name, i, id);
      }
    }
  }

  lemma RefersElsewhere(f: Constraint, table: string, id: nat)
    requires !IEquals(f.refTable, table)
    ensures !RefersToColumn(f, table, id)
  {
  }

  lemma RemoveColumnKeepsInv(c: Catalog, t: TableInfo, name: string, i: nat, strict: bool)
    requires Inv(c, strict) && Fold(t.name) in c.tables && c.tables[Fold(t.name)] == t && t.FindColumn(name) == Some(i)
    requires Unreferenced(c, t, t.columns[i].id, strict)
    ensures Inv(Bumped(WithTable(c, ColumnDropped(t, name, t.columns[i].id))), strict)
  {
    hide Fold, TableOk, HasId, ReferenceOk, IndexOk, RefersToColumn;
    var u := ColumnDropped(t, name, t.columns[i].id);
    var d := WithTable(c, u);
    DroppedTableOk(t, name, i);
    forall k, f | k in d.tables && f in d.tables[k].constraints ensures ReferenceOk(d, d.tables[k].name, f, strict) {
      assert ReferenceOk(c, c.tables[k].name, f, strict);
      if !IEquals(f.refTable, t.name) {
        RefersElsewhere(f, t.name, t.columns[i].id);
      }
      DroppedReference(c, t, name, i, c.tables[k].name, f, strict);
    }
    forall k | k in d.indexes ensures IndexOk(d, d.indexes[k]) {
      DroppedIndex(c, t, name, i, d.indexes[k]);
    }
    BumpedIsOk(d, strict);
  }

  // ----- DROP TABLE, CREATE INDEX, DROP INDEX -----

  lemma RemoveTableKeepsInv(c: Catalog, key: string, strict: bool)
    requires Inv(c, strict)
    requires forall k, f :: k in c.tables && k != key && f in c.tables[k].constraints && f.kind.ForeignKey? ==> Fold(f.refTable) != key
    requires forall k :: k in c.indexes ==> Fold(c.indexes[k].table) != key
    ensures Inv(c.(tables := c.tables - {key}), strict)
  {
    hide Fold, TableOk, HasId, IEquals;
    var d := c.(tables := c.tables - {key});
    forall k, f | k in d.tables && f in d.tables[k].constraints ensures ReferenceOk(d, d.tables[k].name, f, strict) {
      assert ReferenceOk(c, c.tables[k].name, f, strict);
    }
    forall k | k in d.indexes ensures IndexOk(d, d.indexes[k]) {
      assert IndexOk(c, c.indexes[k]);
    }
  }

  lemma IndexChangeKeepsInv(c: Catalog, d: Catalog, strict: bool)
    requires Inv(c, strict) && d.tables == c.tables && d.nextTableId == c.nextTableId && d.nextIndexId >= c.nextIndexId
    requires forall k :: k in d.indexes && k in c.indexes ==> d.indexes[k] == c.indexes[k]
    requires forall k :: k in d.indexes && k !in c.indexes ==>
               Fold(d.indexes[k].name) == k && d.indexes[k].id == c.nextIndexId < d.nextIndexId && IndexOk(c, d.indexes[k])
    requires forall j, k :: j in d.indexes && k in d.indexes && j !in c.indexes && k !in c.indexes ==> j == k
    ensures Inv(d, strict)
  {
    hide Fold, TableOk, HasId, IEquals;
    forall k, f | k in d.tables && f in d.tables[k].constraints ensures ReferenceOk(d, d.tables[k].name, f, strict) {
      assert ReferenceOk(c, c.tables[k].name, f, strict);
    }
    forall k | k in d.indexes ensures IndexOk(d, d.indexes[k]) {
      assert k in c.indexes ==> IndexOk(c, c.indexes[k]);
    }
  }

  // ----- DROP CONSTRAINT -----

  lemma {:induction false} StripColumnsKeepsInv(c: Catalog, table: string, ids: seq<nat>, strict: bool)
    requires Inv(c, strict)
    ensures Inv(StripColumns(c, table, ids), strict)
    ensures Fold(table) in c.tables ==> Fold(table) in StripColumns(c, table, ids).tables
                                        && StripColumns(c, table, ids).tables[Fold(table)] == c.tables[Fold(table)]
  {
    hide TableOk, HasId, ReferencesOk, IndexesOk, Fold;
    if ids != [] {
      var front, id := ids[..|ids| - 1], ids[|ids| - 1];
      StripColumnsKeepsInv(c, table, front, strict);
      StripTrims(table, id);
      TrimKeepsInv(StripColumns(c, table, front), (t: TableInfo) => StripColumnReferences(t, table, id), strict);
    }
  }

  lemma {:induction false} WithoutDropsKeys(cs: seq<Constraint>, drop: Constraint -> bool, i: nat)
    requires i < |cs| && cs[i].kind.PrimaryKey? && drop(cs[i])
    ensures PrimaryKeys(Without(cs, drop)) < PrimaryKeys(cs)
  {
    hide PrimaryKeys;
    var front, last := cs[..|cs| - 1], cs[|cs| - 1];
    assert cs == front + [last];
    KeysSnoc(front, last);
    KeysSnoc(Without(front, drop), last);
    assert Without(front, drop) + [] == Without(front, drop);
    if i < |front| {
      WithoutDropsKeys(front, drop, i);
    } else {
      WithoutKeepsFewKeys(front, drop);
    }
  }

  lemma {:induction false} NoKeysLeft(cs: seq<Constraint>)
    requires PrimaryKeys(cs) == 0
    ensures forall k <- cs :: !k.kind.PrimaryKey?
  {
    if cs != [] {
      NoKeysLeft(cs[..|cs| - 1]);
    }
  }

  lemma RelaxedShape(t: TableInfo, ids: seq<nat>)
    requires DistinctNames(t.columns) && DistinctIds(t.columns)
    ensures var u := t.(columns := Relaxed(t.columns, ids)); DistinctNames(u.columns) && DistinctIds(u.columns)
    ensures var u := t.(columns := Relaxed(t.columns, ids)); forall id :: HasId(t, id) ==> HasId(u, id)
  {
    var u := t.(columns := Relaxed(t.columns, ids));
    forall id | HasId(t, id) ensures HasId(u, id) {
      var i :| 0 <= i < |t.columns| && t.columns[i].id == id;
      assert u.columns[i].id == id;
    }
  }

  lemma DropConstraintExtends(t: TableInfo, cname: string, i: nat)
    requires TableOk(t) && FindConstraint(t.constraints, cname) == Some(i)
    ensures Extends(t, ConstraintDropped(t, cname, t.constraints[i]))
  {
    hide DistinctNames, DistinctIds, PrimaryKeys, HasId, NotNullId, Fold;
    var target := t.constraints[i];
    var drop := (k: Constraint) => IEquals(k.name, cname);
    var u := ConstraintDropped(t, cname, target);
    WithoutKeepsFewKeys(t.constraints, drop);
    RelaxedShape(t, target.columns);
    SameIds(if target.kind.PrimaryKey? then t.(columns := Relaxed(t.columns, target.columns)) else t, u);
    if target.kind.PrimaryKey? {
      WithoutDropsKeys(t.constraints, drop, i);
      NoKeysLeft(u.constraints);
    }
    forall k | k in u.constraints ensures ConstraintOk(u, k) {
      assert ConstraintOk(t, k);
    }
  }

  // ----- CREATE TABLE -----

  /** A table under construction, in order and referring only to what exists. */
  ghost predicate Building(c: Catalog, t: TableInfo, t0: TableInfo) {
    && TableOk(t) && t.name == t0.name && t.id == t0.id && Covers(t, t0)
    && forall k <- t.constraints :: ReferenceOk(WithTable(c, t), t.name, k, true)
  }

  lemma GrowReference(c: Catalog, t: TableInfo, u: TableInfo, k: Constraint)
    requires u.name == t.name && Covers(u, t) && ReferenceOk(WithTable(c, t), t.name, k, true)
    ensures ReferenceOk(WithTable(c, u), u.name, k, true)
  {
    hide Fold, HasId;
  }

  lemma BuildStep(c: Catalog, t: TableInfo, u: TableInfo, t0: TableInfo)
    requires Building(c, t, t0) && Extends(t, u) && u.name == t.name
    ensures Building(c, u, t0)
  {
    hide TableOk, HasId, ReferenceOk;
    forall k | k in u.constraints ensures ReferenceOk(WithTable(c, u), u.name, k, true) {
      if k in t.constraints {
        GrowReference(c, t, u, k);
      } else {
        NotAReference(c, u, k);
      }
    }
  }

  lemma NotAReference(c: Catalog, u: TableInfo, k: Constraint)
    requires !k.kind.ForeignKey?
    ensures ReferenceOk(WithTable(c, u), u.name, k, true)
  {
  }

  lemma {:induction false} UniquesBuild(c: Catalog, t: TableInfo, keys: seq<KeySpec>, t0: TableInfo)
    requires Building(c, t, t0) && WithUniques(t, keys).Some?
    ensures Building(c, WithUniques(t, keys).value, t0)
  {
    hide Building, WithUnique, ColumnIds;
    if keys != [] {
      var front := keys[..|keys| - 1];
      UniquesBuild(c, t, front, t0);
      var u, last := WithUniques(t, front).value, keys[|keys| - 1];
      if last.columns != [] {
        BuildingIsOk(c, u, t0);
        UniqueExtends(u, last);
        UniqueName(u, last);
        BuildStep(c, u, WithUnique(u, last).value, t0);
      }
    }
  }

  lemma BuildingIsOk(c: Catalog, t: TableInfo, t0: TableInfo)
    requires Building(c, t, t0)
    ensures TableOk(t)
  {
  }

  lemma UniqueName(u: TableInfo, key: KeySpec)
    requires WithUnique(u, key).Some?
    ensures WithUnique(u, key).value.name == u.name
  {
  }

  lemma {:induction false} ChecksBuild(c: Catalog, t: TableInfo, checks: seq<CheckSpec>, t0: TableInfo)
    requires Building(c, t, t0) && WithChecks(t, checks).Some?
    ensures Building(c, WithChecks(t, checks).value, t0)
  {
    hide Building, WithCheck, ColumnIds;
    if checks != [] {
      var front := checks[..|checks| - 1];
      ChecksBuild(c, t, front, t0);
      var u, last := WithChecks(t, front).value, checks[|checks| - 1];
      BuildingIsOk(c, u, t0);
      CheckExtends(u, last);
      CheckName(u, last);
      BuildStep(c, u, WithCheck(u, last).value, t0);
    }
  }

  lemma CheckName(u: TableInfo, check: CheckSpec)
    requires WithCheck(u, check).Some?
    ensures WithCheck(u, check).value.name == u.name
  {
  }

  lemma ForeignKeyBuilds(c: Catalog, u: TableInfo, fk: ForeignKeySpec, t0: TableInfo)
    requires Building(c, u, t0) && WithForeignKey(WithTable(c, u), u, fk).Some?
    ensures Building(c, WithForeignKey(WithTable(c, u), u, fk).value, t0)
  {
    hide TableOk, ReferenceOk, BuildForeignKey, HasId, Fold;
    ForeignKeyIsOk(WithTable(c, u), u, fk);
    var k := BuildForeignKey(WithTable(c, u), u, fk).value;
    var v := WithConstraint(u, k);
    SameIds(u, v);
    forall g | g in v.constraints ensures ReferenceOk(WithTable(c, v), v.name, g, true) {
      GrowReference(c, u, v, g);
    }
  }

  lemma {:induction false} ForeignKeysBuild(c: Catalog, t: TableInfo, fks: seq<ForeignKeySpec>, t0: TableInfo)
    requires Building(c, t, t0) && WithForeignKeys(c, t, fks).Some?
    ensures Building(c, WithForeignKeys(c, t, fks).value, t0)
  {
    hide Building, WithForeignKey;
    if fks != [] {
      var front := fks[..|fks| - 1];
      ForeignKeysBuild(c, t, front, t0);
      ForeignKeyBuilds(c, WithForeignKeys(c, t, front).value, fks[|fks| - 1], t0);
    }
  }

  lemma NumberedIsOk(name: string, id: nat, columns: seq<ColumnInfo>)
    requires DistinctNames(columns)
    ensures TableOk(TableInfo(name, id, Numbered(columns), []))
  {
    hide Fold;
  }

  lemma CreatedIsBuilt(c: Catalog, cmd: Command)
    requires cmd.CreateTable? && Sensible(cmd) && Created(c, cmd).Some?
    ensures Building(c, Created(c, cmd).value, TableInfo(cmd.table, c.nextTableId, Numbered(cmd.columns), []))
  {
    hide Building, WithPrimaryKey, WithUniques, WithForeignKeys, WithChecks;
    var t0 := TableInfo(cmd.table, c.nextTableId, Numbered(cmd.columns), []);
    NumberedIsOk(cmd.table, c.nextTableId, cmd.columns);
    StartBuilding(c, t0);
    var keyed := if cmd.primaryKey.columns == [] then Some(t0) else WithPrimaryKey(t0, cmd.primaryKey);
    if cmd.primaryKey.columns != [] {
      PrimaryKeyBuilds(c, t0, cmd.primaryKey);
    }
    UniquesBuild(c, keyed.value, cmd.uniques, t0);
    var unique := WithUniques(keyed.value, cmd.uniques).value;
    ForeignKeysBuild(c, unique, cmd.foreignKeys, t0);
    ChecksBuild(c, WithForeignKeys(c, unique, cmd.foreignKeys).value, cmd.checks, t0);
  }

  lemma StartBuilding(c: Catalog, t0: TableInfo)
    requires TableOk(t0) && t0.constraints == []
    ensures Building(c, t0, t0)
  {
  }

  lemma PrimaryKeyBuilds(c: Catalog, t0: TableInfo, key: KeySpec)
    requires TableOk(t0) && t0.constraints == [] && WithPrimaryKey(t0, key).Some?
    ensures Building(c, WithPrimaryKey(t0, key).value, t0)
  {
    hide TableOk, HasId, ColumnIds, ReferenceOk;
    StartBuilding(c, t0);
    PrimaryKeyExtends(t0, key);
    BuildStep(c, t0, WithPrimaryKey(t0, key).value, t0);
  }

  lemma AddTableKeepsInv(c: Catalog, t: TableInfo, t0: TableInfo, strict: bool)
    requires Inv(c, strict) && Fold(t.name) !in c.tables && t0.id == c.nextTableId && Building(c, t, t0)
    ensures Inv(Bumped(WithTable(c, t).(nextTableId := c.nextTableId + 1)), strict)
  {
    hide Fold, TableOk, HasId, Covers;
    var d := WithTable(c, t).(nextTableId := c.nextTableId + 1);
    forall k, f | k in d.tables && f in d.tables[k].constraints ensures ReferenceOk(d, d.tables[k].name, f, strict) {
      if k in c.tables {
        assert ReferenceOk(c, c.tables[k].name, f, strict);
      } else {
        assert ReferenceOk(WithTable(c, t), t.name, f, true);
      }
    }
    forall k | k in d.indexes ensures IndexOk(d, d.indexes[k]) {
      assert IndexOk(c, c.indexes[k]);
    }
    BumpedIsOk(d, strict);
  }
}
