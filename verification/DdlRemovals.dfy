/** What the commands that remove something, and those on indexes, do to the catalog. */
module DdlRemovals {
  import opened Wrappers
  import opened Identifier
  import opened Types
  import opened Catalogs
  import opened Ddl
  import opened DdlEffects

  // ----- What goes -----

  /** A foreign key to the table. */
  function KeyTo(table: string): Constraint -> bool {
    (k: Constraint) => k.kind.ForeignKey? && IEquals(k.refTable, table)
  }

  /** A foreign key to one of these columns of the table. */
  function KeyToColumns(table: string, ids: seq<nat>): Constraint -> bool {
    (k: Constraint) => k.kind.ForeignKey? && IEquals(k.refTable, table) && exists i :: 0 <= i < |ids| && ids[i] in k.refColumns
  }

  /** A constraint over the column. */
  function Over(id: nat): Constraint -> bool {
    (k: Constraint) => id in k.columns
  }

  function SoNamed(cname: string): Constraint -> bool {
    (k: Constraint) => IEquals(k.name, cname)
  }

  function ColumnNamed(col: string): ColumnInfo -> bool {
    (x: ColumnInfo) => IEquals(x.name, col)
  }

  function IndexOn(table: string): IndexInfo -> bool {
    (x: IndexInfo) => IEquals(x.table, table)
  }

  function IndexOver(table: string, id: nat): IndexInfo -> bool {
    (x: IndexInfo) => IEquals(x.table, table) && id in x.columns
  }

  function Nothing(): Constraint -> bool {
    (_: Constraint) => false
  }

  lemma FilterSame<T>(a: seq<T>, b: seq<T>, f: T -> bool, g: T -> bool)
    requires IsFilter(a, b, f) && forall x :: f(x) <==> g(x)
    ensures IsFilter(a, b, g)
  {
    var at: seq<nat> :| Picks(a, b, f, at);
    assert Picks(a, b, g, at);
  }

  lemma FiltersSo(cs: seq<Constraint>, f: Constraint -> bool, g: Constraint -> bool)
    requires forall k :: f(k) <==> g(k)
    ensures IsFilter(cs, Without(cs, f), g)
  {
    hide IsFilter;
    WithoutIsFilter(cs, f);
    FilterSame(cs, Without(cs, f), f, g);
  }

  lemma {:induction false} FilterNothing(cs: seq<Constraint>)
    ensures IsFilter(cs, cs, Nothing())
  {
    hide IsFilter;
    if cs == [] {
      FilterNone(Nothing());
    } else {
      FilterNothing(cs[..|cs| - 1]);
      FilterSnoc(cs[..|cs| - 1], cs[..|cs| - 1], Nothing(), cs[|cs| - 1]);
      assert cs == cs[..|cs| - 1] + [cs[|cs| - 1]];
    }
  }

  /** Some other table has a foreign key that goes with `drop`. */
  ghost predicate OtherHas(c: Catalog, table: string, drop: Constraint -> bool) {
    exists key, k :: key in c.tables && !IEquals(c.tables[key].name, table) && k in c.tables[key].constraints && drop(k)
  }

  lemma OthersReferIs(c: Catalog, table: string, refers: Constraint -> bool, drop: Constraint -> bool)
    requires forall k :: refers(k) <==> drop(k)
    ensures OthersRefer(c, table, refers) <==> OtherHas(c, table, drop)
  {
  }

  // ----- DROP TABLE -----

  /** DROP TABLE takes the table and its indexes; CASCADE also takes the foreign keys to it. */
  lemma DropTableEffect(c: Catalog, table: string, ifExists: bool, cascade: bool)
    requires KeysMatch(c)
    ensures var o := Apply(c, DropTable(table, ifExists, cascade)); var key := Fold(table);
            if key !in c.tables then (if ifExists then o.Unchanged? else o.Refused?)
            else if !cascade && OtherHas(c, table, KeyTo(table)) then o.Refused?
            else
              && o.Changed? && o.next == c.(tables := o.next.tables, indexes := o.next.indexes, version := c.version + 1)
              && o.next.tables.Keys == c.tables.Keys - {key}
              && OthersLose(c, o.next, key, if cascade then KeyTo(table) else Nothing())
              && IndexesLose(c, o.next, IndexOn(table))
  {
    hide Fold, IsFilter, IEquals, OthersRefer, OtherHas, KeyTo, Nothing;
    var key := Fold(table);
    var refers: Constraint -> bool := (k: Constraint) => RefersTo(k, table);
    KeyToIs(table, refers);
    OthersReferIs(c, table, refers, KeyTo(table));
    if key in c.tables && Apply(c, DropTable(table, ifExists, cascade)).Changed? {
      var d := Apply(c, DropTable(table, ifExists, cascade)).next;
      forall k | k in c.tables && k != key
        ensures k in d.tables && d.tables[k] == c.tables[k].(constraints := d.tables[k].constraints)
        ensures IsFilter(c.tables[k].constraints, d.tables[k].constraints, if cascade then KeyTo(table) else Nothing())
      {
        if cascade {
          FiltersSo(c.tables[k].constraints, refers, KeyTo(table));
          StrippedIs(c.tables[k], table, refers);
        } else {
          FilterNothing(c.tables[k].constraints);
        }
      }
      IndexesOnGo(c, d, table);
    }
  }

  lemma KeyToIs(table: string, refers: Constraint -> bool)
    requires forall k :: refers(k) <==> RefersTo(k, table)
    ensures forall k :: refers(k) <==> KeyTo(table)(k)
  {
  }

  lemma {:induction false} WithoutSame(cs: seq<Constraint>, f: Constraint -> bool, g: Constraint -> bool)
    requires forall k :: f(k) <==> g(k)
    ensures Without(cs, f) == Without(cs, g)
  {
    if cs != [] {
      WithoutSame(cs[..|cs| - 1], f, g);
    }
  }

  lemma StrippedIs(t: TableInfo, table: string, refers: Constraint -> bool)
    requires forall k :: refers(k) <==> RefersTo(k, table)
    ensures StripReferences(t, table) == t.(constraints := Without(t.constraints, refers))
  {
    var f: Constraint -> bool := (k: Constraint) => RefersTo(k, table);
    WithoutSame(t.constraints, f, refers);
  }

  lemma IndexesOnGo(c: Catalog, d: Catalog, table: string)
    requires d.indexes == DropIndexes(c, (x: IndexInfo) => IEquals(x.table, table)).indexes
    ensures IndexesLose(c, d, IndexOn(table))
  {
    hide IEquals;
  }

  // ----- Indexes -----

  /** CREATE INDEX files a new index over the named columns, under the next id. */
  lemma CreateIndexEffect(c: Catalog, index: string, table: string, names: seq<string>, unique: bool, ifNotExists: bool)
    ensures var o := Apply(c, CreateIndex(index, table, names, unique, ifNotExists)); var key := Fold(index);
            if key in c.indexes then (if ifNotExists then o.Unchanged? else o.Refused?)
            else if Fold(table) in c.tables && names != [] && HasColumns(c.tables[Fold(table)].columns, names) then
              && o.Changed? && o.next == c.(indexes := o.next.indexes, nextIndexId := c.nextIndexId + 1, version := c.version + 1)
              && o.next.indexes.Keys == c.indexes.Keys + {key} && (forall k :: k in c.indexes ==> o.next.indexes[k] == c.indexes[k])
              && var x := o.next.indexes[key];
                 x == IndexInfo(index, c.nextIndexId, table, x.columns, unique) && AreIdsOf(c.tables[Fold(table)].columns, names, x.columns)
            else o.Refused?
  {
    hide Fold, HasColumns, ColumnIds, AreIdsOf;
    if Fold(table) in c.tables {
      ColumnIdsAre(c.tables[Fold(table)], names);
    }
  }

  /** DROP INDEX takes that index and nothing else. */
  lemma DropIndexEffect(c: Catalog, index: string, ifExists: bool)
    ensures var o := Apply(c, DropIndex(index, ifExists)); var key := Fold(index);
            if key !in c.indexes then (if ifExists then o.Unchanged? else o.Refused?)
            else
              && o.Changed? && o.next == c.(indexes := o.next.indexes, version := c.version + 1)
              && o.next.indexes.Keys == c.indexes.Keys - {key} && forall k :: k in o.next.indexes ==> o.next.indexes[k] == c.indexes[k]
  {
    hide Fold;
  }

  // ----- DROP COLUMN -----

  /** DROP COLUMN takes the column, the table's own constraints and indexes over it, and with
      CASCADE the foreign keys of other tables to it. */
  lemma DropColumnEffect(c: Catalog, table: string, col: string, ifExists: bool, cascade: bool)
    requires KeysMatch(c)
    ensures var o := Apply(c, DropColumn(table, col, ifExists, cascade)); var key := Fold(table);
            if key !in c.tables then o.Refused?
            else if !HasColumn(c.tables[key].columns, col) then (if ifExists then o.Unchanged? else o.Refused?)
            else if |c.tables[key].columns| == 1 then o.Refused?
            else
              var t := c.tables[key];
              exists j: nat :: FirstNamed(t.columns, col, j) &&
                var id := t.columns[j].id;
                if !cascade && OtherHas(c, table, KeyToColumns(table, [id])) then o.Refused?
                else
                  && o.Changed? && ColumnGone(c, o.next, key, table, col, id)
                  && OthersLose(c, o.next, key, if cascade then KeyToColumns(table, [id]) else Nothing())
  {
    hide Fold, IEquals, FirstNamed, HasColumn, TableInfo.FindColumn, OtherHas, OthersLose, ColumnGone, OthersRefer, KeyToColumns, Nothing, MapTables, DropIndexes, ColumnDropped;
    var key := Fold(table);
    if key in c.tables {
      var t := c.tables[key];
      FindsFirst(t, col);
      if t.FindColumn(col).Some? && |t.columns| != 1 {
        var id := t.columns[t.FindColumn(col).value].id;
        var refers: Constraint -> bool := (k: Constraint) => RefersToColumn(k, table, id);
        KeyToColumnIs(table, id, refers);
        OthersReferIs(c, table, refers, KeyToColumns(table, [id]));
        DropColumnChanges(c, table, col, id, cascade);
      }
    }
  }

  /** The table lost the column and what is over it; indexes over it are gone. */
  ghost predicate ColumnGone(c: Catalog, d: Catalog, key: string, table: string, col: string, id: nat) {
    && key in c.tables && d == c.(tables := d.tables, indexes := d.indexes, version := c.version + 1) && d.tables.Keys == c.tables.Keys
    && (var t, u := c.tables[key], d.tables[key];
        && u == t.(columns := u.columns, constraints := u.constraints)
        && IsFilter(t.columns, u.columns, ColumnNamed(col)) && IsFilter(t.constraints, u.constraints, Over(id)))
    && IndexesLose(c, d, IndexOver(table, id))
  }

  lemma KeyToColumnIs(table: string, id: nat, refers: Constraint -> bool)
    requires forall k :: refers(k) <==> RefersToColumn(k, table, id)
    ensures forall k :: refers(k) <==> KeyToColumns(table, [id])(k)
  {
    hide IEquals;
    var ids := [id];
    assert ids[0] == id;
  }

  /** The catalog DROP COLUMN leaves behind. */
  lemma DropColumnChanges(c: Catalog, table: string, col: string, id: nat, cascade: bool)
    requires KeysMatch(c) && Fold(table) in c.tables
    ensures var t := c.tables[Fold(table)];
            var detached := if cascade then MapTables(c, (u: TableInfo) => StripColumnReferences(u, table, id)) else c;
            var unindexed := DropIndexes(detached, (x: IndexInfo) => IEquals(x.table, table) && id in x.columns);
            var d := Bumped(WithTable(unindexed, ColumnDropped(t, col, id)));
            && ColumnGone(c, d, Fold(table), table, col, id)
            && OthersLose(c, d, Fold(table), if cascade then KeyToColumns(table, [id]) else Nothing())
  {
    hide IsFilter, KeyToColumns, Nothing, StripColumnReferences;
    var t, key := c.tables[Fold(table)], Fold(table);
    var detached := if cascade then MapTables(c, (u: TableInfo) => StripColumnReferences(u, table, id)) else c;
    var unindexed := DropIndexes(detached, (x: IndexInfo) => IEquals(x.table, table) && id in x.columns);
    var d := Bumped(WithTable(unindexed, ColumnDropped(t, col, id)));
    DroppedParts(t, col, id);
    forall k | k in c.tables && k != key
      ensures k in d.tables && d.tables[k] == c.tables[k].(constraints := d.tables[k].constraints)
      ensures IsFilter(c.tables[k].constraints, d.tables[k].constraints, if cascade then KeyToColumns(table, [id]) else Nothing())
    {
      if cascade {
        assert Fold(c.tables[k].name) == k;
        LosesKeys(c.tables[k], table, id);
      } else {
        FilterNothing(c.tables[k].constraints);
      }
    }
  }

  lemma DroppedParts(t: TableInfo, col: string, id: nat)
    ensures var u := ColumnDropped(t, col, id);
            && u == t.(columns := u.columns, constraints := u.constraints)
            && IsFilter(t.columns, u.columns, ColumnNamed(col)) && IsFilter(t.constraints, u.constraints, Over(id))
  {
    hide IsFilter, IEquals;
    WithoutColumnIsFilter(t.columns, col, ColumnNamed(col));
    FiltersSo(t.constraints, (k: Constraint) => id in k.columns, Over(id));
  }

  lemma LosesKeys(t: TableInfo, table: string, id: nat)
    requires !IEquals(t.name, table)
    ensures var u := StripColumnReferences(t, table, id);
            u == t.(constraints := u.constraints) && IsFilter(t.constraints, u.constraints, KeyToColumns(table, [id]))
  {
    hide IsFilter, IEquals, KeyToColumns;
    var refers: Constraint -> bool := (k: Constraint) => RefersToColumn(k, table, id);
    KeyToColumnIs(table, id, refers);
    FiltersSo(t.constraints, refers, KeyToColumns(table, [id]));
  }

  // ----- DROP CONSTRAINT -----

  /** The first constraint of the name. */
  predicate FirstConstraint(t: TableInfo, cname: string, i: nat) {
    i < |t.constraints| && IEquals(t.constraints[i].name, cname) && forall m :: 0 <= m < i ==> !IEquals(t.constraints[m].name, cname)
  }

  /** Columns with one of these ids become nullable, and nothing else changes. */
  predicate Loosened(before: seq<ColumnInfo>, after: seq<ColumnInfo>, ids: seq<nat>) {
    |after| == |before| && forall j :: 0 <= j < |before| ==>
      after[j] == if before[j].id in ids then before[j].(nullable := true) else before[j]
  }

  /** DROP CONSTRAINT takes the constraints of the name; with a key that other tables rely on it
      is refused, or takes their foreign keys to its columns; the columns of a primary key become
      nullable. */
  lemma DropConstraintEffect(c: Catalog, table: string, cname: string, cascade: bool)
    requires KeysMatch(c)
    ensures var o := Apply(c, DropConstraint(table, cname, cascade)); var key := Fold(table);
            if key in c.tables && NameTaken(c.tables[key], cname) then
              var t := c.tables[key];
              exists i: nat :: FirstConstraint(t, cname, i) &&
                var target := t.constraints[i];
                var isKey := target.kind.PrimaryKey? || target.kind.Unique?;
                if isKey && !cascade && OtherHas(c, table, KeyToColumns(table, target.columns)) then o.Refused?
                else
                  && o.Changed? && ConstraintGone(c, o.next, key, cname, target)
                  && OthersLose(c, o.next, key, if isKey then KeyToColumns(table, target.columns) else Nothing())
            else o.Refused?
  {
    hide Fold, IEquals, FirstConstraint, OtherHas, OthersLose, ConstraintGone, OthersRefer, KeyToColumns, Nothing, StripColumns, ConstraintDropped;
    var key := Fold(table);
    if key in c.tables {
      var t := c.tables[key];
      NamedFirst(t, cname);
      if cname != "" && FindConstraint(t.constraints, cname).Some? {
        var target := t.constraints[FindConstraint(t.constraints, cname).value];
        var refers: Constraint -> bool := (k: Constraint) => RefersTo(k, table) && exists id <- target.columns :: id in k.refColumns;
        KeyToColumnsIs(table, target.columns, refers);
        OthersReferIs(c, table, refers, KeyToColumns(table, target.columns));
        DropConstraintChanges(c, table, cname, target);
      }
    }
  }

  ghost predicate ConstraintGone(c: Catalog, d: Catalog, key: string, cname: string, target: Constraint) {
    && key in c.tables && d == c.(tables := d.tables, version := c.version + 1) && d.tables.Keys == c.tables.Keys
    && var t, u := c.tables[key], d.tables[key];
       && u == t.(columns := u.columns, constraints := u.constraints)
       && IsFilter(t.constraints, u.constraints, SoNamed(cname))
       && Loosened(t.columns, u.columns, if target.kind.PrimaryKey? then target.columns else [])
  }

  lemma NamedFirst(t: TableInfo, cname: string)
    ensures var i := FindConstraint(t.constraints, cname);
            && (cname != "" ==> (i.Some? <==> NameTaken(t, cname))) && (cname == "" ==> !NameTaken(t, cname))
            && (i.Some? ==> FirstConstraint(t, cname, i.value))
  {
    hide IEquals;
  }

  lemma KeyToColumnsIs(table: string, ids: seq<nat>, refers: Constraint -> bool)
    requires forall k :: refers(k) <==> RefersTo(k, table) && exists id <- ids :: id in k.refColumns
    ensures forall k :: refers(k) <==> KeyToColumns(table, ids)(k)
  {
    hide IEquals;
    forall k: Constraint ensures (exists id <- ids :: id in k.refColumns) <==> exists i :: 0 <= i < |ids| && ids[i] in k.refColumns {
    }
  }

  /** The catalog with the foreign keys to a dropped key taken out of the other tables. */
  function Detached(c: Catalog, table: string, target: Constraint): Catalog {
    if ProvidesKey(target) then StripColumns(c, table, target.columns) else c
  }

  lemma DetachedLoses(c: Catalog, table: string, target: Constraint)
    requires KeysMatch(c)
    ensures var d := Detached(c, table, target);
            && d == c.(tables := d.tables) && d.tables.Keys == c.tables.Keys
            && OthersLose(c, d, Fold(table), if ProvidesKey(target) then KeyToColumns(table, target.columns) else Nothing())
  {
    hide IsFilter, KeyToColumns, Nothing, StripColumns, IEquals, Fold;
    var d := Detached(c, table, target);
    StripColumnsLose(c, table, target.columns);
    forall k | k in c.tables && k != Fold(table)
      ensures k in d.tables && d.tables[k] == c.tables[k].(constraints := d.tables[k].constraints)
      ensures IsFilter(c.tables[k].constraints, d.tables[k].constraints, if ProvidesKey(target) then KeyToColumns(table, target.columns) else Nothing())
    {
      if ProvidesKey(target) {
        OtherName(c, table, k);
      } else {
        FilterNothing(c.tables[k].constraints);
      }
    }
  }

  lemma DropConstraintChanges(c: Catalog, table: string, cname: string, target: Constraint)
    requires KeysMatch(c) && Fold(table) in c.tables
    ensures var t := c.tables[Fold(table)];
            var d := Bumped(WithTable(Detached(c, table, target), ConstraintDropped(t, cname, target)));
            && ConstraintGone(c, d, Fold(table), cname, target)
            && OthersLose(c, d, Fold(table), if ProvidesKey(target) then KeyToColumns(table, target.columns) else Nothing())
  {
    hide IsFilter, KeyToColumns, Nothing, Detached, IEquals, Fold, Loosened;
    DetachedLoses(c, table, target);
    ConstraintParts(c.tables[Fold(table)], cname, target);
  }

  lemma OtherName(c: Catalog, table: string, k: string)
    requires KeysMatch(c) && k in c.tables && k != Fold(table)
    ensures !IEquals(c.tables[k].name, table)
  {
  }

  lemma ConstraintParts(t: TableInfo, cname: string, target: Constraint)
    ensures var u := ConstraintDropped(t, cname, target);
            && u == t.(columns := u.columns, constraints := u.constraints) && IsFilter(t.constraints, u.constraints, SoNamed(cname))
            && Loosened(t.columns, u.columns, if target.kind.PrimaryKey? then target.columns else [])
  {
    hide IsFilter, IEquals;
    FiltersSo(t.constraints, (k: Constraint) => IEquals(k.name, cname), SoNamed(cname));
  }

  /** Stripping column by column loses exactly the keys to any of the columns. */
  lemma {:induction false} StripColumnsLose(c: Catalog, table: string, ids: seq<nat>)
    ensures var d := StripColumns(c, table, ids);
            && d == c.(tables := d.tables) && d.tables.Keys == c.tables.Keys
            && forall k :: k in c.tables ==>
                 d.tables[k] == if IEquals(c.tables[k].name, table) then c.tables[k]
                                else c.tables[k].(constraints := Without(c.tables[k].constraints, KeyToColumns(table, ids)))
    ensures forall k :: k in c.tables && !IEquals(c.tables[k].name, table) ==>
              IsFilter(c.tables[k].constraints, StripColumns(c, table, ids).tables[k].constraints, KeyToColumns(table, ids))
  {
    hide IEquals, IsFilter, KeyToColumns;
    var d := StripColumns(c, table, ids);
    if ids == [] {
      forall k | k in c.tables ensures Without(c.tables[k].constraints, KeyToColumns(table, ids)) == c.tables[k].constraints {
        LosesNothing(c.tables[k].constraints, table);
      }
    } else {
      var front, last := ids[..|ids| - 1], ids[|ids| - 1];
      StripColumnsLose(c, table, front);
      forall k | k in c.tables && !IEquals(c.tables[k].name, table)
        ensures d.tables[k] == c.tables[k].(constraints := Without(c.tables[k].constraints, KeyToColumns(table, ids)))
      {
        StripOneMore(c.tables[k].constraints, table, ids);
      }
    }
    forall k | k in c.tables && !IEquals(c.tables[k].name, table)
      ensures IsFilter(c.tables[k].constraints, d.tables[k].constraints, KeyToColumns(table, ids))
    {
      WithoutIsFilter(c.tables[k].constraints, KeyToColumns(table, ids));
    }
  }

  lemma {:induction false} LosesNothing(cs: seq<Constraint>, table: string)
    ensures Without(cs, KeyToColumns(table, [])) == cs
  {
    if cs != [] {
      LosesNothing(cs[..|cs| - 1], table);
      assert cs == cs[..|cs| - 1] + [cs[|cs| - 1]];
    }
  }

  lemma StripOneMore(cs: seq<Constraint>, table: string, ids: seq<nat>)
    requires ids != []
    ensures var front, last := ids[..|ids| - 1], ids[|ids| - 1];
            Without(Without(cs, KeyToColumns(table, front)), (k: Constraint) => RefersToColumn(k, table, last))
            == Without(cs, KeyToColumns(table, ids))
  {
    hide IEquals;
    var front, last := ids[..|ids| - 1], ids[|ids| - 1];
    assert ids == front + [last];
    var g: Constraint -> bool := (k: Constraint) => RefersToColumn(k, table, last);
    forall k ensures KeyToColumns(table, ids)(k) <==> KeyToColumns(table, front)(k) || g(k) {
      if i :| 0 <= i < |front| && front[i] in k.refColumns {
        assert ids[i] in k.refColumns;
      }
      if last in k.refColumns {
        assert ids[|ids| - 1] in k.refColumns;
      }
    }
    WithoutTwice(cs, KeyToColumns(table, front), g, KeyToColumns(table, ids));
  }
}
