/** What each schema command does, said of the catalogs before and after it. */
module DdlEffects {
  import opened Wrappers
  import opened Identifier
  import opened Types
  import opened Catalogs
  import opened Ddl

  // ----- Names and ids -----

  /** `columns[j]` is the first column of the name. */
  predicate FirstNamed(columns: seq<ColumnInfo>, name: string, j: nat) {
    j < |columns| && IEquals(columns[j].name, name) && forall m :: 0 <= m < j ==> !IEquals(columns[m].name, name)
  }

  predicate HasColumn(columns: seq<ColumnInfo>, name: string) {
    exists j :: 0 <= j < |columns| && IEquals(columns[j].name, name)
  }

  predicate HasColumns(columns: seq<ColumnInfo>, names: seq<string>) {
    forall i :: 0 <= i < |names| ==> HasColumn(columns, names[i])
  }

  ghost predicate IsIdOf(columns: seq<ColumnInfo>, name: string, id: nat) {
    exists j: nat :: FirstNamed(columns, name, j) && columns[j].id == id
  }

  /** Position by position, the ids are those of the columns so named. */
  ghost predicate AreIdsOf(columns: seq<ColumnInfo>, names: seq<string>, ids: seq<nat>) {
    |ids| == |names| && forall i :: 0 <= i < |names| ==> IsIdOf(columns, names[i], ids[i])
  }

  lemma FindsFirst(t: TableInfo, name: string)
    ensures t.FindColumn(name).Some? <==> HasColumn(t.columns, name)
    ensures t.FindColumn(name).Some? ==> FirstNamed(t.columns, name, t.FindColumn(name).value)
  {
    hide IEquals;
    assert forall i :: 0 <= i < |t.columns| ==> t.ColumnNames()[i] == t.columns[i].name;
  }

  lemma FirstIsOne(columns: seq<ColumnInfo>, name: string, i: nat, j: nat)
    requires FirstNamed(columns, name, i) && FirstNamed(columns, name, j)
    ensures i == j
  {
  }

  lemma {:induction false} ColumnIdsAre(t: TableInfo, names: seq<string>)
    ensures ColumnIds(t, names).Some? <==> HasColumns(t.columns, names)
    ensures ColumnIds(t, names).Some? ==> AreIdsOf(t.columns, names, ColumnIds(t, names).value)
  {
    hide HasColumn, FirstNamed, TableInfo.FindColumn;
    if names != [] {
      var front, last := names[..|names| - 1], names[|names| - 1];
      ColumnIdsAre(t, front);
      FindsFirst(t, last);
      assert names == front + [last];
      if ColumnIds(t, names).Some? {
        assert IsIdOf(t.columns, last, t.columns[t.FindColumn(last).value].id);
      }
    }
  }

  /** The columns the names pick out become NOT NULL, and nothing else changes. */
  ghost predicate Forced(before: seq<ColumnInfo>, after: seq<ColumnInfo>, names: seq<string>) {
    |after| == |before| && forall j: nat :: j < |before| ==>
      after[j] == if exists k :: 0 <= k < |names| && FirstNamed(before, names[k], j) then before[j].(nullable := false) else before[j]
  }

  lemma {:induction false} ForcedColumns(t: TableInfo, names: seq<string>)
    requires HasColumns(t.columns, names)
    ensures Forced(t.columns, ForceNotNull(t, names).columns, names)
  {
    hide FirstNamed, TableInfo.FindColumn;
    if names != [] {
      var front, last := names[..|names| - 1], names[|names| - 1];
      assert names == front + [last];
      ForcedColumns(t, front);
      FindsFirst(t, last);
      assert HasColumn(t.columns, names[|names| - 1]);
      var i := t.FindColumn(last).value;
      var u, v := ForceNotNull(t, front).columns, ForceNotNull(t, names).columns;
      forall j: nat | j < |t.columns|
        ensures v[j] == if exists k :: 0 <= k < |names| && FirstNamed(t.columns, names[k], j) then t.columns[j].(nullable := false) else t.columns[j]
      {
        ForcedStep(t.columns, names, j, i);
        assert u[j] == if exists k :: 0 <= k < |front| && FirstNamed(t.columns, front[k], j) then t.columns[j].(nullable := false) else t.columns[j];
      }
    }
  }

  lemma ForcedStep(columns: seq<ColumnInfo>, names: seq<string>, j: nat, i: nat)
    requires names != [] && FirstNamed(columns, names[|names| - 1], i)
    ensures var front := names[..|names| - 1];
            (exists k :: 0 <= k < |names| && FirstNamed(columns, names[k], j)) <==>
            j == i || exists k :: 0 <= k < |front| && FirstNamed(columns, front[k], j)
  {
    hide FirstNamed;
    var front := names[..|names| - 1];
    if k :| 0 <= k < |names| && FirstNamed(columns, names[k], j) {
      if k == |names| - 1 {
        FirstIsOne(columns, names[k], i, j);
      } else {
        assert FirstNamed(columns, front[k], j);
      }
    }
    if k :| 0 <= k < |front| && FirstNamed(columns, front[k], j) {
      assert FirstNamed(columns, names[k], j);
    }
  }

  // ----- Lists with some elements taken out -----

  predicate Increasing(at: seq<nat>) {
    forall i, j :: 0 <= i < j < |at| ==> at[i] < at[j]
  }

  ghost predicate Selects<T>(a: seq<T>, b: seq<T>, at: seq<nat>) {
    |at| == |b| && forall i :: 0 <= i < |at| ==> at[i] < |a| && b[i] == a[at[i]]
  }

  predicate Keeps<T>(a: seq<T>, drop: T -> bool, at: seq<nat>) {
    forall k: nat :: k < |a| ==> (k in at <==> !drop(a[k]))
  }

  /** `at` lists the kept positions in order. */
  ghost predicate Picks<T>(a: seq<T>, b: seq<T>, drop: T -> bool, at: seq<nat>) {
    Increasing(at) && Selects(a, b, at) && Keeps(a, drop, at)
  }

  /** `b` is `a` without the elements to drop, in order. */
  ghost predicate IsFilter<T>(a: seq<T>, b: seq<T>, drop: T -> bool) {
    exists at: seq<nat> :: Picks(a, b, drop, at)
  }

  lemma FilterNone<T>(drop: T -> bool)
    ensures IsFilter([], [], drop)
  {
    assert Picks([], [], drop, []);
  }

  lemma FilterSnoc<T>(a: seq<T>, b: seq<T>, drop: T -> bool, x: T)
    requires IsFilter(a, b, drop)
    ensures IsFilter(a + [x], if drop(x) then b else b + [x], drop)
  {
    hide Increasing, Selects, Keeps;
    var at: seq<nat> :| Picks(a, b, drop, at);
    SelectsMore(a, b, at, x);
    KeepsMore(a, drop, at, x, b);
    IncreasesMore(a, b, at);
    assert Picks(a + [x], if drop(x) then b else b + [x], drop, if drop(x) then at else at + [|a|]);
  }

  lemma SelectsMore<T>(a: seq<T>, b: seq<T>, at: seq<nat>, x: T)
    requires Selects(a, b, at)
    ensures Selects(a + [x], b, at) && Selects(a + [x], b + [x], at + [|a|])
  {
  }

  lemma KeepsMore<T>(a: seq<T>, drop: T -> bool, at: seq<nat>, x: T, b: seq<T>)
    requires Keeps(a, drop, at) && Selects(a, b, at)
    ensures Keeps(a + [x], drop, if drop(x) then at else at + [|a|])
  {
    assert |a| !in at;
    forall k: nat ensures k in at + [|a|] <==> k in at || k == |a| {
    }
  }

  lemma IncreasesMore<T>(a: seq<T>, b: seq<T>, at: seq<nat>)
    requires Increasing(at) && Selects(a, b, at)
    ensures Increasing(at + [|a|])
  {
  }

  lemma {:induction false} WithoutIsFilter(cs: seq<Constraint>, drop: Constraint -> bool)
    ensures IsFilter(cs, Without(cs, drop), drop)
  {
    hide IsFilter;
    if cs == [] {
      FilterNone(drop);
    } else {
      var front, last := cs[..|cs| - 1], cs[|cs| - 1];
      WithoutIsFilter(front, drop);
      FilterSnoc(front, Without(front, drop), drop, last);
      assert cs == front + [last];
      assert Without(front, drop) + [] == Without(front, drop);
    }
  }

  lemma {:induction false} WithoutColumnIsFilter(columns: seq<ColumnInfo>, name: string, drop: ColumnInfo -> bool)
    requires forall x :: drop(x) <==> IEquals(x.name, name)
    ensures IsFilter(columns, WithoutColumn(columns, name), drop)
  {
    hide IsFilter, IEquals;
    if columns == [] {
      FilterNone(drop);
    } else {
      var front, last := columns[..|columns| - 1], columns[|columns| - 1];
      WithoutColumnIsFilter(front, name, drop);
      FilterSnoc(front, WithoutColumn(front, name), drop, last);
      assert columns == front + [last];
      assert WithoutColumn(front, name) + [] == WithoutColumn(front, name);
    }
  }

  lemma {:induction false} WithoutTwice(cs: seq<Constraint>, f: Constraint -> bool, g: Constraint -> bool, h: Constraint -> bool)
    requires forall k :: h(k) <==> f(k) || g(k)
    ensures Without(Without(cs, f), g) == Without(cs, h)
  {
    if cs != [] {
      var front, last := cs[..|cs| - 1], cs[|cs| - 1];
      WithoutTwice(front, f, g, h);
      var w := Without(front, f);
      if f(last) {
        assert Without(cs, f) == w + [] == w;
        assert Without(cs, h) == Without(front, h) + [] == Without(front, h);
      } else {
        assert Without(cs, f) == w + [last];
        assert (w + [last])[..|w|] == w;
      }
    }
  }

  // ----- One table changed -----

  /** The commit touches one table and bumps the version. */
  predicate OnlyTable(c: Catalog, d: Catalog, key: string) {
    && key in c.tables && d.tables.Keys == c.tables.Keys && (forall k :: k in c.tables && k != key ==> d.tables[k] == c.tables[k])
    && d == c.(tables := d.tables, version := c.version + 1)
  }

  /** Every other table loses exactly the constraints `drop` holds of. */
  ghost predicate OthersLose(c: Catalog, d: Catalog, key: string, drop: Constraint -> bool) {
    forall k :: k in c.tables && k != key ==>
      k in d.tables && d.tables[k] == c.tables[k].(constraints := d.tables[k].constraints)
      && IsFilter(c.tables[k].constraints, d.tables[k].constraints, drop)
  }

  /** Exactly the indexes `drop` does not hold of stay. */
  ghost predicate IndexesLose(c: Catalog, d: Catalog, drop: IndexInfo -> bool) {
    forall k :: (k in d.indexes <==> k in c.indexes && !drop(c.indexes[k])) && (k in d.indexes ==> k in c.indexes && d.indexes[k] == c.indexes[k])
  }

  predicate NameTaken(t: TableInfo, cname: string) {
    cname != "" && exists i :: 0 <= i < |t.constraints| && IEquals(t.constraints[i].name, cname)
  }

  /** The column at `j` becomes `x`; nothing else changes. */
  predicate OnlyColumn(t: TableInfo, u: TableInfo, j: nat, x: ColumnInfo) {
    && j < |t.columns| == |u.columns| && u == t.(columns := u.columns)
    && forall m :: 0 <= m < |t.columns| ==> u.columns[m] == if m == j then x else t.columns[m]
  }

  lemma ReplacedTable(c: Catalog, key: string, u: TableInfo)
    requires KeysMatch(c) && key in c.tables && u.name == c.tables[key].name
    ensures OnlyTable(c, Bumped(WithTable(c, u)), key) && Bumped(WithTable(c, u)).tables[key] == u
  {
    hide Fold;
  }

  // ----- ALTER TABLE ... ADD -----

  lemma NoColumnFound(t: TableInfo, name: string)
    ensures t.FindColumn(name).None? <==> !HasColumn(t.columns, name)
  {
    FindsFirst(t, name);
  }

  lemma FreeName(t: TableInfo, cname: string)
    ensures NameIsFree(t, cname) <==> !NameTaken(t, cname)
  {
    hide IEquals;
    if !NameIsFree(t, cname) {
      var k :| k in t.constraints && IEquals(k.name, cname);
    }
  }

  /** ADD COLUMN appends the column, its id one above the highest. */
  lemma AddColumnEffect(c: Catalog, table: string, column: ColumnInfo)
    requires KeysMatch(c)
    ensures var o := Apply(c, AddColumn(table, column)); var key := Fold(table);
            if key in c.tables && !HasColumn(c.tables[key].columns, column.name) then
              o.Changed? && OnlyTable(c, o.next, key) &&
              var t, u := c.tables[key], o.next.tables[key];
              && |u.columns| == |t.columns| + 1 && u == t.(columns := u.columns) && u.columns[..|t.columns|] == t.columns
              && var x := u.columns[|t.columns|];
                 && x == column.(id := x.id) && (forall y <- t.columns :: y.id < x.id)
                 && (x.id == 1 || exists y <- t.columns :: y.id == x.id - 1)
            else o.Refused?
  {
    hide Fold, HasColumn, TableInfo.FindColumn, MaxId;
    if Fold(table) in c.tables {
      var t := c.tables[Fold(table)];
      NoColumnFound(t, column.name);
      var u := t.(columns := t.columns + [column.(id := MaxId(t.columns) + 1)]);
      ReplacedTable(c, Fold(table), u);
      MaxIdIsHighest(t.columns);
      assert u.columns[..|t.columns|] == t.columns;
    }
  }

  lemma {:induction false} MaxIdIsHighest(columns: seq<ColumnInfo>)
    ensures forall y <- columns :: y.id <= MaxId(columns)
    ensures MaxId(columns) == 0 || exists y <- columns :: y.id == MaxId(columns)
  {
    if columns != [] {
      var front, last := columns[..|columns| - 1], columns[|columns| - 1];
      MaxIdIsHighest(front);
      assert columns == front + [last];
      assert last in columns;
    }
  }

  /** What a new constraint is made of, by kind. */
  ghost predicate IsKeyOf(k: Constraint, kind: ConstraintKind, key: KeySpec, columns: seq<ColumnInfo>) {
    k == Constraint(kind, key.name, k.columns, "", [], "") && AreIdsOf(columns, key.columns, k.columns)
  }

  ghost predicate IsCheckOf(k: Constraint, check: CheckSpec, columns: seq<ColumnInfo>) {
    k == Constraint(Check, check.name, k.columns, "", [], check.expr) && AreIdsOf(columns, check.columns, k.columns)
  }

  /** `columns` and `others` are the columns of the two tables. */
  ghost predicate IsForeignKeyOf(k: Constraint, fk: ForeignKeySpec, columns: seq<ColumnInfo>, others: seq<ColumnInfo>) {
    && k == Constraint(ForeignKey, fk.name, k.columns, fk.refTable, k.refColumns, "")
    && AreIdsOf(columns, fk.columns, k.columns) && AreIdsOf(others, fk.refColumns, k.refColumns)
  }

  /** The table gains one constraint at the end of its list. */
  predicate GainsConstraint(t: TableInfo, u: TableInfo) {
    |u.constraints| == |t.constraints| + 1 && u.constraints[..|t.constraints|] == t.constraints && u == t.(columns := u.columns, constraints := u.constraints)
  }

  function Gained(t: TableInfo, u: TableInfo): Constraint
    requires GainsConstraint(t, u)
  {
    u.constraints[|t.constraints|]
  }

  /** ADD CHECK adds the check to the named table and changes nothing else. */
  lemma AddCheckEffect(c: Catalog, table: string, check: CheckSpec)
    requires KeysMatch(c)
    ensures var o := Apply(c, AddCheck(table, check)); var key := Fold(table);
            if key in c.tables && !NameTaken(c.tables[key], check.name) && HasColumns(c.tables[key].columns, check.columns) then
              o.Changed? && OnlyTable(c, o.next, key) &&
              var t, u := c.tables[key], o.next.tables[key];
              GainsConstraint(t, u) && u.columns == t.columns && IsCheckOf(Gained(t, u), check, t.columns)
            else o.Refused?
  {
    hide Fold, HasColumns, NameTaken, NameIsFree, ColumnIds, AreIdsOf;
    if Fold(table) in c.tables {
      var t := c.tables[Fold(table)];
      FreeName(t, check.name);
      ColumnIdsAre(t, check.columns);
      if WithCheck(t, check).Some? {
        ReplacedTable(c, Fold(table), WithCheck(t, check).value);
        CheckGained(t, check);
      }
    }
  }

  lemma CheckGained(t: TableInfo, check: CheckSpec)
    requires WithCheck(t, check).Some?
    ensures var u := WithCheck(t, check).value; GainsConstraint(t, u) && u.columns == t.columns && IsCheckOf(Gained(t, u), check, t.columns)
  {
    hide ColumnIds, AreIdsOf;
    ColumnIdsAre(t, check.columns);
  }

  /** ADD UNIQUE likewise; a key names at least one column. */
  lemma AddUniqueEffect(c: Catalog, table: string, spec: KeySpec)
    requires KeysMatch(c)
    ensures var o := Apply(c, AddUnique(table, spec)); var key := Fold(table);
            if key in c.tables && !NameTaken(c.tables[key], spec.name) && spec.columns != [] && HasColumns(c.tables[key].columns, spec.columns) then
              o.Changed? && OnlyTable(c, o.next, key) &&
              var t, u := c.tables[key], o.next.tables[key];
              GainsConstraint(t, u) && u.columns == t.columns && IsKeyOf(Gained(t, u), Unique, spec, t.columns)
            else o.Refused?
  {
    hide Fold, HasColumns, NameTaken, NameIsFree, ColumnIds, AreIdsOf;
    if Fold(table) in c.tables {
      var t := c.tables[Fold(table)];
      FreeName(t, spec.name);
      ColumnIdsAre(t, spec.columns);
      if WithUnique(t, spec).Some? {
        ReplacedTable(c, Fold(table), WithUnique(t, spec).value);
        UniqueGained(t, spec);
      }
    }
  }

  lemma UniqueGained(t: TableInfo, spec: KeySpec)
    requires WithUnique(t, spec).Some?
    ensures var u := WithUnique(t, spec).value; GainsConstraint(t, u) && u.columns == t.columns && IsKeyOf(Gained(t, u), Unique, spec, t.columns)
  {
    hide ColumnIds, AreIdsOf;
    ColumnIdsAre(t, spec.columns);
  }

  /** ADD PRIMARY KEY likewise, if there is none; its columns become NOT NULL. */
  lemma AddPrimaryKeyEffect(c: Catalog, table: string, spec: KeySpec)
    requires KeysMatch(c)
    ensures var o := Apply(c, AddPrimaryKey(table, spec)); var key := Fold(table);
            if key in c.tables && (forall i :: 0 <= i < |c.tables[key].constraints| ==> !c.tables[key].constraints[i].kind.PrimaryKey?)
               && !NameTaken(c.tables[key], spec.name) && spec.columns != [] && HasColumns(c.tables[key].columns, spec.columns)
            then
              o.Changed? && OnlyTable(c, o.next, key) &&
              var t, u := c.tables[key], o.next.tables[key];
              GainsConstraint(t, u) && Forced(t.columns, u.columns, spec.columns) && IsKeyOf(Gained(t, u), PrimaryKey, spec, t.columns)
            else o.Refused?
  {
    hide Fold, HasColumns, NameTaken, NameIsFree, ColumnIds, AreIdsOf, Forced, ForceNotNull;
    if Fold(table) in c.tables {
      var t := c.tables[Fold(table)];
      FreeName(t, spec.name);
      ColumnIdsAre(t, spec.columns);
      if WithPrimaryKey(t, spec).Some? {
        ReplacedTable(c, Fold(table), WithPrimaryKey(t, spec).value);
        PrimaryKeyGained(t, spec);
      }
    }
  }

  lemma PrimaryKeyGained(t: TableInfo, spec: KeySpec)
    requires WithPrimaryKey(t, spec).Some?
    ensures var u := WithPrimaryKey(t, spec).value;
            GainsConstraint(t, u) && Forced(t.columns, u.columns, spec.columns) && IsKeyOf(Gained(t, u), PrimaryKey, spec, t.columns)
  {
    hide ColumnIds, AreIdsOf, Forced, ForceNotNull, HasColumns;
    ColumnIdsAre(t, spec.columns);
    ForcedColumns(t, spec.columns);
  }

  /** What a foreign key must name to be accepted. */
  predicate NamesExist(c: Catalog, columns: seq<ColumnInfo>, fk: ForeignKeySpec) {
    && fk.columns != [] && |fk.columns| == |fk.refColumns| && HasColumns(columns, fk.columns)
    && Fold(fk.refTable) in c.tables && HasColumns(c.tables[Fold(fk.refTable)].columns, fk.refColumns)
  }

  lemma ForeignKeyBuilt(c: Catalog, t: TableInfo, fk: ForeignKeySpec)
    ensures BuildForeignKey(c, t, fk).Some? <==> NamesExist(c, t.columns, fk)
    ensures BuildForeignKey(c, t, fk).Some? ==>
            IsForeignKeyOf(BuildForeignKey(c, t, fk).value, fk, t.columns, c.tables[Fold(fk.refTable)].columns)
  {
    hide Fold, HasColumns, ColumnIds, AreIdsOf;
    ColumnIdsAre(t, fk.columns);
    if Fold(fk.refTable) in c.tables {
      ColumnIdsAre(c.tables[Fold(fk.refTable)], fk.refColumns);
    }
  }

  /** ADD FOREIGN KEY likewise; both sides exist, column for column. */
  lemma AddForeignKeyEffect(c: Catalog, table: string, fk: ForeignKeySpec)
    requires KeysMatch(c)
    ensures var o := Apply(c, AddForeignKey(table, fk)); var key := Fold(table);
            if key in c.tables && !NameTaken(c.tables[key], fk.name) && NamesExist(c, c.tables[key].columns, fk) then
              o.Changed? && OnlyTable(c, o.next, key) &&
              var t, u := c.tables[key], o.next.tables[key];
              && GainsConstraint(t, u) && u.columns == t.columns
              && IsForeignKeyOf(Gained(t, u), fk, t.columns, c.tables[Fold(fk.refTable)].columns)
            else o.Refused?
  {
    hide Fold, NameTaken, NameIsFree, BuildForeignKey, NamesExist, IsForeignKeyOf;
    if Fold(table) in c.tables {
      var t := c.tables[Fold(table)];
      FreeName(t, fk.name);
      ForeignKeyBuilt(c, t, fk);
      if WithForeignKey(c, t, fk).Some? {
        ReplacedTable(c, Fold(table), WithForeignKey(c, t, fk).value);
      }
    }
  }

  // ----- ALTER TABLE ... ALTER COLUMN -----

  lemma ChangedColumn(t: TableInfo, j: nat, x: ColumnInfo)
    requires j < |t.columns|
    ensures OnlyColumn(t, WithColumn(t, j, x), j, x)
  {
  }

  /** SET DEFAULT gives the column the default text. */
  lemma SetColumnDefaultEffect(c: Catalog, table: string, col: string, expr: string)
    requires KeysMatch(c)
    ensures var o := Apply(c, SetColumnDefault(table, col, expr)); var key := Fold(table);
            if key in c.tables && HasColumn(c.tables[key].columns, col) then
              o.Changed? && OnlyTable(c, o.next, key) &&
              var t, u := c.tables[key], o.next.tables[key];
              exists j: nat :: FirstNamed(t.columns, col, j) && OnlyColumn(t, u, j, t.columns[j].(hasDefault := true, defaultExpr := expr))
            else o.Refused?
  {
    hide Fold, HasColumn, FirstNamed, TableInfo.FindColumn, OnlyColumn, WithColumn;
    if Fold(table) in c.tables {
      var t := c.tables[Fold(table)];
      FindsFirst(t, col);
      if t.FindColumn(col).Some? {
        ColumnReplaced(c, t, t.FindColumn(col).value, t.columns[t.FindColumn(col).value].(hasDefault := true, defaultExpr := expr));
      }
    }
  }

  lemma ColumnReplaced(c: Catalog, t: TableInfo, j: nat, x: ColumnInfo)
    requires KeysMatch(c) && Fold(t.name) in c.tables && c.tables[Fold(t.name)] == t && j < |t.columns|
    ensures var d := Bumped(WithTable(c, WithColumn(t, j, x)));
            OnlyTable(c, d, Fold(t.name)) && OnlyColumn(t, d.tables[Fold(t.name)], j, x)
  {
    hide Fold;
    ChangedColumn(t, j, x);
    ReplacedTable(c, Fold(t.name), WithColumn(t, j, x));
  }

  /** DROP DEFAULT takes the default away; where there is none it does nothing. */
  lemma DropColumnDefaultEffect(c: Catalog, table: string, col: string)
    requires KeysMatch(c)
    ensures var o := Apply(c, DropColumnDefault(table, col)); var key := Fold(table);
            if key in c.tables && HasColumn(c.tables[key].columns, col) then
              var t := c.tables[key];
              exists j: nat :: FirstNamed(t.columns, col, j) &&
                if t.columns[j].hasDefault then
                  o.Changed? && OnlyTable(c, o.next, key)
                  && OnlyColumn(t, o.next.tables[key], j, t.columns[j].(hasDefault := false, defaultExpr := ""))
                else o.Unchanged?
            else o.Refused?
  {
    hide Fold, HasColumn, FirstNamed, TableInfo.FindColumn, OnlyColumn, WithColumn;
    if Fold(table) in c.tables {
      var t := c.tables[Fold(table)];
      FindsFirst(t, col);
      if t.FindColumn(col).Some? {
        ColumnReplaced(c, t, t.FindColumn(col).value, t.columns[t.FindColumn(col).value].(hasDefault := false, defaultExpr := ""));
      }
    }
  }

  /** Is the column in a primary key of the table? */
  predicate InPrimaryKey(t: TableInfo, id: nat) {
    exists i :: 0 <= i < |t.constraints| && t.constraints[i].kind.PrimaryKey? && id in t.constraints[i].columns
  }

  lemma KeyedColumn(t: TableInfo, id: nat)
    ensures InPrimaryKey(t, id) <==> exists k <- t.constraints :: k.kind.PrimaryKey? && id in k.columns
  {
  }

  /** SET or DROP NOT NULL flips one flag; a primary key column cannot be relaxed. */
  lemma SetColumnNullableEffect(c: Catalog, table: string, col: string, nullable: bool)
    requires KeysMatch(c)
    ensures var o := Apply(c, SetColumnNullable(table, col, nullable)); var key := Fold(table);
            if key in c.tables && HasColumn(c.tables[key].columns, col) then
              var t := c.tables[key];
              exists j: nat :: FirstNamed(t.columns, col, j) &&
                if nullable && InPrimaryKey(t, t.columns[j].id) then o.Refused?
                else if t.columns[j].nullable == nullable then o.Unchanged?
                else o.Changed? && OnlyTable(c, o.next, key) && OnlyColumn(t, o.next.tables[key], j, t.columns[j].(nullable := nullable))
            else o.Refused?
  {
    hide Fold, HasColumn, FirstNamed, TableInfo.FindColumn, OnlyColumn, WithColumn, InPrimaryKey;
    if Fold(table) in c.tables {
      var t := c.tables[Fold(table)];
      FindsFirst(t, col);
      if t.FindColumn(col).Some? {
        var j := t.FindColumn(col).value;
        KeyedColumn(t, t.columns[j].id);
        ColumnReplaced(c, t, j, t.columns[j].(nullable := nullable));
      }
    }
  }
}
