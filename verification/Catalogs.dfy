/** The in-memory catalog: tables and indexes under case-insensitive names, and the allocators of
    their ids. */
module Catalogs {
  import opened Wrappers
  import opened Identifier
  import opened Types

  datatype ColumnInfo = ColumnInfo(
    name: string,
    type_: DataType,
    nullable: bool,
    hasDefault: bool,
    id: nat,
    defaultExpr: string)

  datatype ConstraintKind = PrimaryKey | Unique | ForeignKey | Check

  /** Columns are named by id; a foreign key also names a table and columns of it. */
  datatype Constraint = Constraint(
    kind: ConstraintKind,
    name: string,
    columns: seq<nat>,
    refTable: string,
    refColumns: seq<nat>,
    expr: string)

  datatype TableInfo = TableInfo(name: string, id: nat, columns: seq<ColumnInfo>, constraints: seq<Constraint>) {
    function ColumnNames(): (r: seq<string>)
      ensures |r| == |columns|
    {
      seq(|columns|, i requires 0 <= i < |columns| => columns[i].name)
    }

    /** The position of the column of this name. */
    function FindColumn(q: string): (r: Option<nat>)
      ensures r.Some? ==> r.value < |columns| && IEquals(columns[r.value].name, q)
      ensures r.None? ==> forall i :: 0 <= i < |columns| ==> !IEquals(columns[i].name, q)
    {
      var r := FirstMatch(ColumnNames(), q);
      assert r.None? ==> forall i :: 0 <= i < |columns| ==> ColumnNames()[i] == columns[i].name;
      r
    }
  }

  datatype IndexInfo = IndexInfo(name: string, id: nat, table: string, columns: seq<nat>, unique: bool)

  /** A catalog as a value. */
  datatype Catalog = Catalog(
    tables: map<string, TableInfo>,
    indexes: map<string, IndexInfo>,
    nextTableId: nat,
    nextIndexId: nat,
    version: nat)

  function FindTable(c: Catalog, name: string): (r: Option<TableInfo>)
    ensures r.Some? <==> Fold(name) in c.tables
  {
    if Fold(name) in c.tables then Some(c.tables[Fold(name)]) else None
  }

  /** Entries are filed under the folded name they carry. */
  predicate KeysMatch(c: Catalog) {
    && (forall k <- c.tables :: Fold(c.tables[k].name) == k)
    && (forall k <- c.indexes :: Fold(c.indexes[k].name) == k)
  }

  /** Tables have ids of their own, and so have indexes. */
  predicate IdsDistinct(c: Catalog) {
    && (forall j, k :: j in c.tables && k in c.tables && j != k ==> c.tables[j].id != c.tables[k].id)
    && (forall j, k :: j in c.indexes && k in c.indexes && j != k ==> c.indexes[j].id != c.indexes[k].id)
  }

  const EMPTY: Catalog := Catalog(map[], map[], 1, 1, 0)

  // ----- What the mutators leave behind -----

  function Numbered(columns: seq<ColumnInfo>): (r: seq<ColumnInfo>)
    ensures |r| == |columns|
    ensures forall i :: 0 <= i < |r| ==> r[i] == columns[i].(id := i + 1)
  {
    seq(|columns|, i requires 0 <= i < |columns| => columns[i].(id := i + 1))
  }

  function WithTable(c: Catalog, t: TableInfo): Catalog {
    c.(tables := c.tables[Fold(t.name) := t])
  }

  function Without(cs: seq<Constraint>, drop: Constraint -> bool): (r: seq<Constraint>)
    ensures forall k :: k in r <==> k in cs && !drop(k)
    ensures |r| <= |cs|
  {
    if cs == [] then []
    else Without(cs[..|cs| - 1], drop) + if drop(cs[|cs| - 1]) then [] else [cs[|cs| - 1]]
  }

  /** Does the constraint refer to the table? */
  predicate RefersTo(k: Constraint, table: string) {
    k.kind.ForeignKey? && IEquals(k.refTable, table)
  }

  predicate RefersToColumn(k: Constraint, table: string, id: nat) {
    RefersTo(k, table) && id in k.refColumns
  }

  function StripReferences(t: TableInfo, table: string): TableInfo {
    t.(constraints := Without(t.constraints, (k: Constraint) => RefersTo(k, table)))
  }

  function StripColumnReferences(t: TableInfo, table: string, id: nat): TableInfo {
    if IEquals(t.name, table) then t
    else t.(constraints := Without(t.constraints, (k: Constraint) => RefersToColumn(k, table, id)))
  }

  function MapTables(c: Catalog, f: TableInfo -> TableInfo): Catalog {
    c.(tables := map k | k in c.tables :: f(c.tables[k]))
  }

  function DropIndexes(c: Catalog, drop: IndexInfo -> bool): Catalog {
    c.(indexes := map k | k in c.indexes && !drop(c.indexes[k]) :: c.indexes[k])
  }

  // ----- Loops over a constraint list -----

  /** The erase-remove idiom over one table's constraints. */
  method EraseConstraints(cs: seq<Constraint>, drop: Constraint -> bool) returns (r: seq<Constraint>)
    ensures r == Without(cs, drop)
  {
    r := [];
    for i := 0 to |cs|
      invariant r == Without(cs[..i], drop)
    {
      assert cs[..i + 1][..i] == cs[..i];
      if !drop(cs[i]) {
        r := r + [cs[i]];
      }
    }
    assert cs[..|cs|] == cs;
  }

  method StripTable(t: TableInfo, table: string) returns (r: TableInfo)
    ensures r == StripReferences(t, table)
  {
    var kept := EraseConstraints(t.constraints, (c: Constraint) => RefersTo(c, table));
    r := t.(constraints := kept);
  }

  method StripTableColumn(t: TableInfo, table: string, id: nat) returns (r: TableInfo)
    ensures r == StripColumnReferences(t, table, id)
  {
    if IEquals(t.name, table) {
      return t;
    }
    var kept := EraseConstraints(t.constraints, (c: Constraint) => RefersToColumn(c, table, id));
    r := t.(constraints := kept);
  }

  // ----- The class -----

  class InMemoryCatalog {
    var tables: map<string, TableInfo>
    var indexes: map<string, IndexInfo>
    var nextTableId: nat
    var nextIndexId: nat
    var version: nat

    function View(): Catalog
      reads this
    {
      Catalog(tables, indexes, nextTableId, nextIndexId, version)
    }

    constructor ()
      ensures View() == EMPTY
    {
      tables, indexes, nextTableId, nextIndexId, version := map[], map[], 1, 1, 0;
    }

    /** A copy shares nothing with the original. */
    constructor Copy(c: InMemoryCatalog)
      ensures View() == c.View()
    {
      tables, indexes, nextTableId, nextIndexId, version := c.tables, c.indexes, c.nextTableId, c.nextIndexId, c.version;
    }

    /** A new table with fresh ids; an existing one of that name stays. */
    method AddTable(name: string, columns: seq<ColumnInfo>) returns (t: TableInfo)
      modifies this
      ensures t == TableInfo(name, old(nextTableId), Numbered(columns), [])
      ensures View() == old(if Fold(name) in tables then View() else WithTable(View(), TableInfo(name, nextTableId, Numbered(columns), []))).(nextTableId := old(nextTableId) + 1)
    {
      var numbered: seq<ColumnInfo> := [];
      for i := 0 to |columns|
        invariant numbered == Numbered(columns)[..i]
        invariant View() == old(View())
      {
        numbered := numbered + [columns[i].(id := i + 1)];
      }
      t := TableInfo(name, nextTableId, numbered, []);
      nextTableId := nextTableId + 1;
      if Fold(name) !in tables {
        tables := tables[Fold(name) := t];
      }
    }

    method RestoreTable(t: TableInfo)
      modifies this
      ensures View() == WithTable(old(View()), t)
    {
      tables := tables[Fold(t.name) := t];
    }

    method RemoveTable(name: string) returns (removed: bool)
      modifies this
      ensures removed == (Fold(name) in old(tables))
      ensures View() == old(View()).(tables := old(tables) - {Fold(name)})
    {
      removed := Fold(name) in tables;
      tables := tables - {Fold(name)};
    }

    method AddIndex(name: string, table: string, columns: seq<nat>, unique: bool)
      modifies this
      ensures View() == old(View()).(nextIndexId := old(nextIndexId) + 1,
                                     indexes := if Fold(name) in old(indexes) then old(indexes)
                                                else old(indexes)[Fold(name) := IndexInfo(name, old(nextIndexId), table, columns, unique)])
    {
      var idx := IndexInfo(name, nextIndexId, table, columns, unique);
      nextIndexId := nextIndexId + 1;
      if Fold(name) !in indexes {
        indexes := indexes[Fold(name) := idx];
      }
    }

    method RestoreIndex(idx: IndexInfo)
      modifies this
      ensures View() == old(View()).(indexes := old(indexes)[Fold(idx.name) := idx])
    {
      indexes := indexes[Fold(idx.name) := idx];
    }

    method RemoveIndex(name: string) returns (removed: bool)
      modifies this
      ensures removed == (Fold(name) in old(indexes))
      ensures View() == old(View()).(indexes := old(indexes) - {Fold(name)})
    {
      removed := Fold(name) in indexes;
      indexes := indexes - {Fold(name)};
    }

    method SetSchemaVersion(v: nat)
      modifies this
      ensures View() == old(View()).(version := v)
    {
      version := v;
    }

    /** The iterator loop that erases indexes. */
    method EraseIndexes(drop: IndexInfo -> bool) returns (removed: nat)
      modifies this
      ensures View() == DropIndexes(old(View()), drop)
      ensures removed == |old(indexes)| - |indexes|
    {
      removed := 0;
      var rest := indexes.Keys;
      ghost var all := indexes;
      while rest != {}
        invariant rest <= all.Keys && View() == old(View()).(indexes := indexes)
        invariant forall k :: k in indexes <==> k in all && (k in rest || !drop(all[k]))
        invariant forall k :: k in indexes ==> indexes[k] == all[k]
        invariant removed + |indexes| == |all|
        decreases |rest|
      {
        var k :| k in rest;
        rest := rest - {k};
        if drop(indexes[k]) {
          indexes := indexes - {k};
          removed := removed + 1;
        }
      }
      assert indexes == DropIndexes(old(View()), drop).indexes;
    }

    method DropIndexesOn(table: string) returns (removed: nat)
      modifies this
      ensures View() == DropIndexes(old(View()), (x: IndexInfo) => IEquals(x.table, table))
      ensures removed == |old(indexes)| - |indexes|
    {
      removed := EraseIndexes((x: IndexInfo) => IEquals(x.table, table));
    }

    method DropIndexesOnColumn(table: string, id: nat) returns (removed: nat)
      modifies this
      ensures View() == DropIndexes(old(View()), (x: IndexInfo) => IEquals(x.table, table) && id in x.columns)
      ensures removed == |old(indexes)| - |indexes|
    {
      removed := EraseIndexes((x: IndexInfo) => IEquals(x.table, table) && id in x.columns);
    }

    method DropForeignKeysReferencing(table: string)
      modifies this
      ensures View() == MapTables(old(View()), (t: TableInfo) => StripReferences(t, table))
    {
      hide StripReferences;
      var rest := tables.Keys;
      ghost var all := tables;
      while rest != {}
        invariant rest <= all.Keys && View() == old(View()).(tables := tables) && tables.Keys == all.Keys
        invariant forall k :: k in all ==> tables[k] == if k in rest then all[k] else StripReferences(all[k], table)
        decreases |rest|
      {
        var k :| k in rest;
        rest := rest - {k};
        var stripped := StripTable(tables[k], table);
        tables := tables[k := stripped];
      }
      assert tables == MapTables(old(View()), (t: TableInfo) => StripReferences(t, table)).tables;
    }

    /** The referring table itself is skipped. */
    method DropForeignKeysReferencingColumn(table: string, id: nat)
      modifies this
      ensures View() == MapTables(old(View()), (t: TableInfo) => StripColumnReferences(t, table, id))
    {
      hide StripColumnReferences;
      var rest := tables.Keys;
      ghost var all := tables;
      while rest != {}
        invariant rest <= all.Keys && View() == old(View()).(tables := tables) && tables.Keys == all.Keys
        invariant forall k :: k in all ==> tables[k] == if k in rest then all[k] else StripColumnReferences(all[k], table, id)
        decreases |rest|
      {
        var k :| k in rest;
        rest := rest - {k};
        var stripped := StripTableColumn(tables[k], table, id);
        tables := tables[k := stripped];
      }
      assert tables == MapTables(old(View()), (t: TableInfo) => StripColumnReferences(t, table, id)).tables;
    }
  }
}
