/** What every run of schema changes keeps true of the catalog. */
module CatalogInvariant {
  import opened Wrappers
  import opened Identifier
  import opened Types
  import opened Catalogs
  import opened Ddl

  // ----- One table -----

  predicate HasId(t: TableInfo, id: nat) {
    exists i :: 0 <= i < |t.columns| && t.columns[i].id == id
  }

  predicate NotNullId(t: TableInfo, id: nat) {
    forall i :: 0 <= i < |t.columns| && t.columns[i].id == id ==> !t.columns[i].nullable
  }

  predicate DistinctNames(columns: seq<ColumnInfo>) {
    forall i, j :: 0 <= i < j < |columns| ==> !IEquals(columns[i].name, columns[j].name)
  }

  predicate DistinctIds(columns: seq<ColumnInfo>) {
    forall i, j :: 0 <= i < j < |columns| ==> columns[i].id != columns[j].id
  }

  predicate ConstraintOk(t: TableInfo, k: Constraint) {
    && (forall id <- k.columns :: HasId(t, id))
    && (k.kind.PrimaryKey? ==> forall id <- k.columns :: NotNullId(t, id))
    && (k.kind.ForeignKey? ==> |k.columns| == |k.refColumns| > 0)
  }

  function PrimaryKeys(cs: seq<Constraint>): nat {
    if cs == [] then 0 else PrimaryKeys(cs[..|cs| - 1]) + if cs[|cs| - 1].kind.PrimaryKey? then 1 else 0
  }

  predicate TableOk(t: TableInfo) {
    && DistinctNames(t.columns) && DistinctIds(t.columns)
    && (forall k <- t.constraints :: ConstraintOk(t, k))
    && PrimaryKeys(t.constraints) <= 1
  }

  // ----- The catalog -----

  /** A foreign key to another table names columns that exist there; if `strict`, one to its own
      table too. */
  predicate ReferenceOk(c: Catalog, owner: string, k: Constraint, strict: bool) {
    k.kind.ForeignKey? && (strict || !IEquals(k.refTable, owner)) ==>
      Fold(k.refTable) in c.tables && forall id <- k.refColumns :: HasId(c.tables[Fold(k.refTable)], id)
  }

  predicate IndexOk(c: Catalog, x: IndexInfo) {
    Fold(x.table) in c.tables && forall id <- x.columns :: HasId(c.tables[Fold(x.table)], id)
  }

  predicate IdsBelow(c: Catalog) {
    && (forall k <- c.tables :: 1 <= c.tables[k].id < c.nextTableId)
    && (forall k <- c.indexes :: 1 <= c.indexes[k].id < c.nextIndexId)
    && c.nextTableId >= 1 && c.nextIndexId >= 1
  }

  predicate TablesOk(c: Catalog) {
    forall k <- c.tables :: TableOk(c.tables[k])
  }

  predicate ReferencesOk(c: Catalog, strict: bool) {
    forall k, f :: k in c.tables && f in c.tables[k].constraints ==> ReferenceOk(c, c.tables[k].name, f, strict)
  }

  predicate IndexesOk(c: Catalog) {
    forall k <- c.indexes :: IndexOk(c, c.indexes[k])
  }

  predicate Inv(c: Catalog, strict: bool) {
    KeysMatch(c) && IdsBelow(c) && IdsDistinct(c) && TablesOk(c) && ReferencesOk(c, strict) && IndexesOk(c)
  }

  lemma EmptyIsOk()
    ensures Inv(EMPTY, true)
  {
  }

  /** What a caller owes: the columns of a new table have distinct names. */
  predicate Sensible(cmd: Command) {
    cmd.CreateTable? ==> DistinctNames(cmd.columns)
  }

  // ----- Replacing one table -----

  /** Everything said of `t` from outside can be said of `u`. */
  ghost predicate Covers(u: TableInfo, t: TableInfo) {
    forall id :: HasId(t, id) ==> HasId(u, id)
  }

  predicate SameTable(u: TableInfo, t: TableInfo) {
    IEquals(u.name, t.name) && u.id == t.id
  }

  lemma ReplacedReference(c: Catalog, t: TableInfo, u: TableInfo, owner: string, k: Constraint, strict: bool)
    requires Fold(t.name) in c.tables && c.tables[Fold(t.name)] == t && IEquals(u.name, t.name) && Covers(u, t)
    requires ReferenceOk(c, owner, k, strict)
    ensures ReferenceOk(WithTable(c, u), owner, k, strict)
  {
    hide Fold, HasId;
  }

  lemma ReplacedIndex(c: Catalog, t: TableInfo, u: TableInfo, x: IndexInfo)
    requires Fold(t.name) in c.tables && c.tables[Fold(t.name)] == t && IEquals(u.name, t.name) && Covers(u, t)
    requires IndexOk(c, x)
    ensures IndexOk(WithTable(c, u), x)
  {
    hide Fold, HasId;
  }

  predicate OwnReferencesOk(c: Catalog, u: TableInfo, strict: bool) {
    forall k <- u.constraints :: ReferenceOk(c, u.name, k, strict)
  }

  /** A table may be replaced by one that loses no column, if its own parts are in order. */
  lemma ReplaceKeepsInv(c: Catalog, t: TableInfo, u: TableInfo, strict: bool)
    requires Inv(c, strict) && Fold(t.name) in c.tables && c.tables[Fold(t.name)] == t && SameTable(u, t) && Covers(u, t)
    requires TableOk(u) && OwnReferencesOk(c, u, strict)
    ensures Inv(Bumped(WithTable(c, u)), strict)
  {
    hide Fold, TableOk, ReferenceOk, IndexOk, Covers;
    var d := WithTable(c, u);
    forall k, f | k in d.tables && f in d.tables[k].constraints ensures ReferenceOk(d, d.tables[k].name, f, strict) {
      ReplacedReference(c, t, u, d.tables[k].name, f, strict);
    }
    forall k | k in d.indexes ensures IndexOk(d, d.indexes[k]) {
      ReplacedIndex(c, t, u, d.indexes[k]);
    }
    BumpedIsOk(d, strict);
  }

  lemma BumpedIsOk(c: Catalog, strict: bool)
    requires Inv(c, strict)
    ensures Inv(Bumped(c), strict)
  {
    hide TableOk, HasId;
    assert forall owner, k :: ReferenceOk(c, owner, k, strict) ==> ReferenceOk(Bumped(c), owner, k, strict);
    assert forall x :: IndexOk(c, x) ==> IndexOk(Bumped(c), x);
  }

  // ----- Dropping constraints -----

  lemma KeysSnoc(cs: seq<Constraint>, k: Constraint)
    ensures PrimaryKeys(cs + [k]) == PrimaryKeys(cs) + if k.kind.PrimaryKey? then 1 else 0
  {
    assert (cs + [k])[..|cs|] == cs;
  }

  lemma {:induction false} WithoutKeepsFewKeys(cs: seq<Constraint>, drop: Constraint -> bool)
    ensures PrimaryKeys(Without(cs, drop)) <= PrimaryKeys(cs)
  {
    hide PrimaryKeys;
    if cs != [] {
      var front, last := cs[..|cs| - 1], cs[|cs| - 1];
      assert cs == front + [last];
      WithoutKeepsFewKeys(front, drop);
      KeysSnoc(front, last);
      KeysSnoc(Without(front, drop), last);
      assert Without(front, drop) + [] == Without(front, drop);
    }
  }

  lemma FewerConstraints(t: TableInfo, drop: Constraint -> bool)
    requires TableOk(t)
    ensures TableOk(t.(constraints := Without(t.constraints, drop)))
  {
    hide DistinctNames, DistinctIds;
    var u := t.(constraints := Without(t.constraints, drop));
    WithoutKeepsFewKeys(t.constraints, drop);
    forall k | k in u.constraints ensures ConstraintOk(u, k) {
      assert ConstraintOk(t, k);
      assert forall id :: HasId(t, id) ==> HasId(u, id);
    }
  }

  /** `f` only takes constraints away. */
  ghost predicate Trims(f: TableInfo -> TableInfo) {
    forall t :: f(t).name == t.name && f(t).id == t.id && f(t).columns == t.columns
                && (forall k :: k in f(t).constraints ==> k in t.constraints)
                && (TableOk(t) ==> TableOk(f(t)))
  }

  lemma TrimmedIds(t: TableInfo, u: TableInfo)
    requires u.columns == t.columns
    ensures forall id :: HasId(t, id) ==> HasId(u, id)
  {
  }

  lemma TrimKeepsInv(c: Catalog, f: TableInfo -> TableInfo, strict: bool)
    requires Inv(c, strict) && Trims(f)
    ensures Inv(MapTables(c, f), strict)
  {
    hide Fold, TableOk, HasId, IEquals;
    var d := MapTables(c, f);
    forall k | k in c.tables ensures forall id :: HasId(c.tables[k], id) ==> HasId(d.tables[k], id) {
      TrimmedIds(c.tables[k], d.tables[k]);
    }
    forall k, g | k in d.tables && g in d.tables[k].constraints ensures ReferenceOk(d, d.tables[k].name, g, strict) {
      assert ReferenceOk(c, c.tables[k].name, g, strict);
    }
    forall k | k in d.indexes ensures IndexOk(d, d.indexes[k]) {
      assert IndexOk(c, c.indexes[k]);
    }
  }

  lemma StripTrims(table: string, id: nat)
    ensures Trims((t: TableInfo) => StripReferences(t, table))
    ensures Trims((t: TableInfo) => StripColumnReferences(t, table, id))
  {
    hide TableOk;
    forall t: TableInfo ensures TableOk(t) ==> TableOk(StripReferences(t, table)) && TableOk(StripColumnReferences(t, table, id)) {
      if TableOk(t) {
        FewerConstraints(t, (k: Constraint) => RefersTo(k, table));
        FewerConstraints(t, (k: Constraint) => RefersToColumn(k, table, id));
      }
    }
  }

  lemma DropIndexesKeepsInv(c: Catalog, drop: IndexInfo -> bool, strict: bool)
    requires Inv(c, strict)
    ensures Inv(DropIndexes(c, drop), strict)
  {
    hide Fold, TableOk, HasId, IEquals;
    var d := DropIndexes(c, drop);
    forall k, g | k in d.tables && g in d.tables[k].constraints ensures ReferenceOk(d, d.tables[k].name, g, strict) {
      assert ReferenceOk(c, c.tables[k].name, g, strict);
    }
    forall k | k in d.indexes ensures IndexOk(d, d.indexes[k]) {
      assert IndexOk(c, c.indexes[k]);
    }
  }
}
