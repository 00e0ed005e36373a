/** What each schema change does to a catalog, as a function on values. */
module Ddl {
  import opened Wrappers
  import opened Identifier
  import opened Types
  import opened Catalogs

  datatype KeySpec = KeySpec(name: string, columns: seq<string>)
  datatype CheckSpec = CheckSpec(name: string, expr: string, columns: seq<string>)
  datatype ForeignKeySpec = ForeignKeySpec(name: string, columns: seq<string>, refTable: string, refColumns: seq<string>)

  datatype Command =
    | CreateTable(table: string, columns: seq<ColumnInfo>, foreignKeys: seq<ForeignKeySpec>, checks: seq<CheckSpec>,
                  primaryKey: KeySpec, uniques: seq<KeySpec>)
    | DropTable(table: string, ifExists: bool, cascade: bool)
    | CreateIndex(index: string, table: string, names: seq<string>, unique: bool, ifNotExists: bool)
    | DropIndex(index: string, ifExists: bool)
    | AddColumn(table: string, column: ColumnInfo)
    | DropColumn(table: string, col: string, ifExists: bool, cascade: bool)
    | SetColumnDefault(table: string, col: string, expr: string)
    | SetColumnNullable(table: string, col: string, nullable: bool)
    | DropColumnDefault(table: string, col: string)
    | AddPrimaryKey(table: string, key: KeySpec)
    | AddUnique(table: string, key: KeySpec)
    | AddCheck(table: string, check: CheckSpec)
    | AddForeignKey(table: string, foreignKey: ForeignKeySpec)
    | DropConstraint(table: string, constraint: string, cascade: bool)

  /** Refused with an error, accepted without effect, or a new catalog to commit. */
  datatype Outcome = Refused | Unchanged | Changed(next: Catalog)

  // ----- Names to ids -----

  function ColumnIds(t: TableInfo, names: seq<string>): (r: Option<seq<nat>>)
    ensures r.Some? ==> |r.value| == |names|
  {
    if names == [] then Some([])
    else
      var before, last := ColumnIds(t, names[..|names| - 1]), t.FindColumn(names[|names| - 1]);
      if before.None? || last.None? then None else Some(before.value + [t.columns[last.value].id])
  }

  /** Each named column becomes NOT NULL. */
  function ForceNotNull(t: TableInfo, names: seq<string>): (r: TableInfo)
    ensures |r.columns| == |t.columns| && r == t.(columns := r.columns)
    ensures forall i :: 0 <= i < |r.columns| ==> r.columns[i] == t.columns[i] || r.columns[i] == t.columns[i].(nullable := false)
  {
    if names == [] then t
    else
      var before, last := ForceNotNull(t, names[..|names| - 1]), t.FindColumn(names[|names| - 1]);
      if last.None? then before
      else before.(columns := before.columns[last.value := before.columns[last.value].(nullable := false)])
  }

  predicate NameIsFree(t: TableInfo, cname: string) {
    cname == "" || forall k <- t.constraints :: !IEquals(k.name, cname)
  }

  predicate HasPrimaryKey(t: TableInfo) {
    exists k <- t.constraints :: k.kind.PrimaryKey?
  }

  function WithConstraint(t: TableInfo, k: Constraint): TableInfo {
    t.(constraints := t.constraints + [k])
  }

  /** A key must name columns that exist. */
  function WithPrimaryKey(t: TableInfo, key: KeySpec): Option<TableInfo> {
    match ColumnIds(t, key.columns)
    case None => None
    case Some(ids) => Some(WithConstraint(ForceNotNull(t, key.columns), Constraint(PrimaryKey, key.name, ids, "", [], "")))
  }

  function WithUnique(t: TableInfo, key: KeySpec): Option<TableInfo> {
    match ColumnIds(t, key.columns)
    case None => None
    case Some(ids) => Some(WithConstraint(t, Constraint(Unique, key.name, ids, "", [], "")))
  }

  function WithCheck(t: TableInfo, check: CheckSpec): Option<TableInfo> {
    match ColumnIds(t, check.columns)
    case None => None
    case Some(ids) => Some(WithConstraint(t, Constraint(Check, check.name, ids, "", [], check.expr)))
  }

  function BuildForeignKey(c: Catalog, self: TableInfo, fk: ForeignKeySpec): Option<Constraint> {
    if fk.columns == [] || fk.refColumns == [] || |fk.columns| != |fk.refColumns| then None
    else
      var ids, rt := ColumnIds(self, fk.columns), FindTable(c, fk.refTable);
      if ids.None? || rt.None? then None
      else
        match ColumnIds(rt.value, fk.refColumns)
        case None => None
        case Some(refs) => Some(Constraint(ForeignKey, fk.name, ids.value, fk.refTable, refs, ""))
  }

  function WithForeignKey(c: Catalog, t: TableInfo, fk: ForeignKeySpec): Option<TableInfo> {
    match BuildForeignKey(c, t, fk)
    case None => None
    case Some(k) => Some(WithConstraint(t, k))
  }

  // ----- CREATE TABLE, constraint list by constraint list -----

  /** A UNIQUE without columns adds nothing. */
  function WithUniques(t: TableInfo, keys: seq<KeySpec>): Option<TableInfo> {
    if keys == [] then Some(t)
    else
      var last := keys[|keys| - 1];
      match WithUniques(t, keys[..|keys| - 1])
      case None => None
      case Some(u) => if last.columns == [] then Some(u) else WithUnique(u, last)
  }

  /** The referenced table may be the one being created. */
  function WithForeignKeys(c: Catalog, t: TableInfo, fks: seq<ForeignKeySpec>): Option<TableInfo> {
    if fks == [] then Some(t)
    else
      match WithForeignKeys(c, t, fks[..|fks| - 1])
      case None => None
      case Some(u) => WithForeignKey(WithTable(c, u), u, fks[|fks| - 1])
  }

  function WithChecks(t: TableInfo, checks: seq<CheckSpec>): Option<TableInfo> {
    if checks == [] then Some(t)
    else
      match WithChecks(t, checks[..|checks| - 1])
      case None => None
      case Some(u) => WithCheck(u, checks[|checks| - 1])
  }

  function Created(c: Catalog, cmd: Command): Option<TableInfo>
    requires cmd.CreateTable?
  {
    var t := TableInfo(cmd.table, c.nextTableId, Numbered(cmd.columns), []);
    match if cmd.primaryKey.columns == [] then Some(t) else WithPrimaryKey(t, cmd.primaryKey)
    case None => None
    case Some(keyed) =>
      match WithUniques(keyed, cmd.uniques)
      case None => None
      case Some(unique) =>
        match WithForeignKeys(c, unique, cmd.foreignKeys)
        case None => None
        case Some(linked) => WithChecks(linked, cmd.checks)
  }

  // ----- Dependents -----

  /** Some constraint of another table satisfies `refers`. */
  ghost predicate OthersRefer(c: Catalog, table: string, refers: Constraint -> bool) {
    exists key :: key in c.tables && !IEquals(c.tables[key].name, table) && exists k :: k in c.tables[key].constraints && refers(k)
  }

  function StripColumns(c: Catalog, table: string, ids: seq<nat>): Catalog {
    if ids == [] then c
    else
      var id := ids[|ids| - 1];
      MapTables(StripColumns(c, table, ids[..|ids| - 1]), (t: TableInfo) => StripColumnReferences(t, table, id))
  }

  // ----- ALTER TABLE -----

  function Bumped(c: Catalog): Catalog {
    c.(version := c.version + 1)
  }

  function Altered(c: Catalog, t: Option<TableInfo>): Outcome {
    match t
    case None => Refused
    case Some(u) => Changed(Bumped(WithTable(c, u)))
  }

  function MaxId(columns: seq<ColumnInfo>): (m: nat)
    ensures forall i :: 0 <= i < |columns| ==> columns[i].id <= m
  {
    if columns == [] then 0
    else
      var before, last := MaxId(columns[..|columns| - 1]), columns[|columns| - 1].id;
      if last > before then last else before
  }

  function WithoutColumn(columns: seq<ColumnInfo>, name: string): (r: seq<ColumnInfo>)
    ensures forall x :: x in r <==> x in columns && !IEquals(x.name, name)
  {
    if columns == [] then []
    else WithoutColumn(columns[..|columns| - 1], name)
         + if IEquals(columns[|columns| - 1].name, name) then [] else [columns[|columns| - 1]]
  }

  function Relaxed(columns: seq<ColumnInfo>, ids: seq<nat>): (r: seq<ColumnInfo>)
    ensures |r| == |columns|
    ensures forall i :: 0 <= i < |r| ==> r[i] == if columns[i].id in ids then columns[i].(nullable := true) else columns[i]
  {
    seq(|columns|, i requires 0 <= i < |columns| => if columns[i].id in ids then columns[i].(nullable := true) else columns[i])
  }

  function FindConstraint(cs: seq<Constraint>, cname: string): (r: Option<nat>)
    ensures r.Some? ==> r.value < |cs| && IEquals(cs[r.value].name, cname)
    ensures r.Some? ==> forall i :: 0 <= i < r.value ==> !IEquals(cs[i].name, cname)
    ensures r.None? ==> forall i :: 0 <= i < |cs| ==> !IEquals(cs[i].name, cname)
  {
    if cs == [] then None
    else
      var before := FindConstraint(cs[..|cs| - 1], cname);
      if before.Some? then before
      else if IEquals(cs[|cs| - 1].name, cname) then Some(|cs| - 1) else None
  }

  function WithColumn(t: TableInfo, i: nat, x: ColumnInfo): TableInfo
    requires i < |t.columns|
  {
    t.(columns := t.columns[i := x])
  }

  function ColumnDropped(t: TableInfo, name: string, id: nat): TableInfo {
    t.(columns := WithoutColumn(t.columns, name),
       constraints := Without(t.constraints, (k: Constraint) => id in k.columns))
  }

  function ConstraintDropped(t: TableInfo, cname: string, target: Constraint): TableInfo {
    t.(columns := if target.kind.PrimaryKey? then Relaxed(t.columns, target.columns) else t.columns,
       constraints := Without(t.constraints, (k: Constraint) => IEquals(k.name, cname)))
  }

  predicate ProvidesKey(k: Constraint) { k.kind.PrimaryKey? || k.kind.Unique? }

  ghost function AlterTable(c: Catalog, t: TableInfo, cmd: Command): Outcome
    requires cmd.AddColumn? || cmd.DropColumn? || cmd.SetColumnDefault? || cmd.SetColumnNullable? || cmd.DropColumnDefault?
             || cmd.AddPrimaryKey? || cmd.AddUnique? || cmd.AddCheck? || cmd.AddForeignKey? || cmd.DropConstraint?
  {
    match cmd
    case AddColumn(_, column) =>
      if t.FindColumn(column.name).Some? then Refused
      else Altered(c, Some(t.(columns := t.columns + [column.(id := MaxId(t.columns) + 1)])))
    case DropColumn(table, col, ifExists, cascade) =>
      var i := t.FindColumn(col);
      if i.None? then (if ifExists then Unchanged else Refused)
      else if |t.columns| == 1 then Refused
      else
        var id := t.columns[i.value].id;
        if !cascade && OthersRefer(c, table, (k: Constraint) => RefersToColumn(k, table, id)) then Refused
        else
          var detached := if cascade then MapTables(c, (u: TableInfo) => StripColumnReferences(u, table, id)) else c;
          var unindexed := DropIndexes(detached, (x: IndexInfo) => IEquals(x.table, table) && id in x.columns);
          Changed(Bumped(WithTable(unindexed, ColumnDropped(t, col, id))))
    case SetColumnDefault(_, col, expr) =>
      var i := t.FindColumn(col);
      if i.None? then Refused
      else Altered(c, Some(WithColumn(t, i.value, t.columns[i.value].(hasDefault := true, defaultExpr := expr))))
    case SetColumnNullable(_, col, nullable) =>
      var i := t.FindColumn(col);
      if i.None? then Refused
      else if nullable && exists k <- t.constraints :: k.kind.PrimaryKey? && t.columns[i.value].id in k.columns then Refused
      else if t.columns[i.value].nullable == nullable then Unchanged
      else Altered(c, Some(WithColumn(t, i.value, t.columns[i.value].(nullable := nullable))))
    case DropColumnDefault(_, col) =>
      var i := t.FindColumn(col);
      if i.None? then Refused
      else if !t.columns[i.value].hasDefault then Unchanged
      else Altered(c, Some(WithColumn(t, i.value, t.columns[i.value].(hasDefault := false, defaultExpr := ""))))
    case AddPrimaryKey(_, key) =>
      if HasPrimaryKey(t) || !NameIsFree(t, key.name) || key.columns == [] then Refused else Altered(c, WithPrimaryKey(t, key))
    case AddUnique(_, key) =>
      if !NameIsFree(t, key.name) || key.columns == [] then Refused else Altered(c, WithUnique(t, key))
    case AddCheck(_, check) =>
      if !NameIsFree(t, check.name) then Refused else Altered(c, WithCheck(t, check))
    case AddForeignKey(_, fk) =>
      if !NameIsFree(t, fk.name) then Refused else Altered(c, WithForeignKey(c, t, fk))
    case DropConstraint(table, cname, cascade) =>
      var i := FindConstraint(t.constraints, cname);
      if cname == "" || i.None? then Refused
      else
        var target := t.constraints[i.value];
        if ProvidesKey(target) && !cascade
           && OthersRefer(c, table, (k: Constraint) => RefersTo(k, table) && exists id <- target.columns :: id in k.refColumns)
        then Refused
        else
          var detached := if ProvidesKey(target) then StripColumns(c, table, target.columns) else c;
          Changed(Bumped(WithTable(detached, ConstraintDropped(t, cname, target))))
  }

  // ----- The command semantics -----

  /** The outcome of a command; a change bumps the version by one. */
  ghost function Apply(c: Catalog, cmd: Command): Outcome {
    match cmd
    case CreateTable(table, _, _, _, _, _) =>
      if Fold(table) in c.tables then Refused
      else
        (match Created(c, cmd)
         case None => Refused
         case Some(t) => Changed(Bumped(WithTable(c, t).(nextTableId := c.nextTableId + 1))))
    case DropTable(table, ifExists, cascade) =>
      if Fold(table) !in c.tables then (if ifExists then Unchanged else Refused)
      else if !cascade && OthersRefer(c, table, (k: Constraint) => RefersTo(k, table)) then Refused
      else
        var removed := c.(tables := c.tables - {Fold(table)});
        var unindexed := DropIndexes(removed, (x: IndexInfo) => IEquals(x.table, table));
        Changed(Bumped(if cascade then MapTables(unindexed, (t: TableInfo) => StripReferences(t, table)) else unindexed))
    case CreateIndex(index, table, names, unique, ifNotExists) =>
      if Fold(index) in c.indexes then (if ifNotExists then Unchanged else Refused)
      else if Fold(table) !in c.tables || names == [] then Refused
      else
        (match ColumnIds(c.tables[Fold(table)], names)
         case None => Refused
         case Some(ids) =>
           Changed(Bumped(c.(indexes := c.indexes[Fold(index) := IndexInfo(index, c.nextIndexId, table, ids, unique)],
                             nextIndexId := c.nextIndexId + 1))))
    case DropIndex(index, ifExists) =>
      if Fold(index) !in c.indexes then (if ifExists then Unchanged else Refused)
      else Changed(Bumped(c.(indexes := c.indexes - {Fold(index)})))
    case _ =>
      if Fold(cmd.table) !in c.tables then Refused else AlterTable(c, c.tables[Fold(cmd.table)], cmd)
  }
}
