/** The single writer of the schema: every command works on a copy, persists it, and only then
    swaps it in and tells the watchers. */
module Manager {
  import opened Wrappers
  import opened Identifier
  import opened Types
  import opened Catalogs
  import opened Ddl
  import opened CatalogInvariant
  import opened CatalogTheorems
  import opened Snapshot
  import opened SnapshotStore
  import opened SnapshotTheorems
  import opened SnapshotRoundTrip

  datatype DdlResult = DdlResult(ok: bool, version: nat)

  /** The file holds the catalog; with no file yet the catalog is empty. */
  ghost predicate InSync(c: Catalog, disk: Option<string>) {
    match disk
    case None => c == EMPTY
    case Some(text) => IsTextOf(c, text)
  }

  /** Opening the file again. */
  function Reloaded(disk: Option<string>): Option<Catalog> {
    match disk
    case None => Some(EMPTY)
    case Some(text) => Deserialized(text)
  }

  /** What the file holds is what memory holds, for every catalog that can be printed. */
  lemma ReloadGivesMemory(c: Catalog, disk: Option<string>)
    requires KeysMatch(c) && InSync(c, disk) && (disk.Some? ==> Printable(c))
    ensures Reloaded(disk) == Some(c)
  {
    hide SnapshotText, InIdOrder, Printable, KeysMatch, Deserialized;
    if disk.Some? {
      var ts, xs :| InIdOrder(c, ts, xs) && disk.value == SnapshotText(c, ts, xs);
      RoundTripIsExact(c, ts, xs);
    }
  }

  /** The three things a command can change. */
  datatype World = World(catalog: Catalog, disk: Option<string>, heard: seq<seq<nat>>)

  function Told(heard: seq<seq<nat>>, v: nat): (r: seq<seq<nat>>)
    ensures |r| == |heard| && forall i :: 0 <= i < |heard| ==> r[i] == heard[i] + [v]
  {
    seq(|heard|, i requires 0 <= i < |heard| => heard[i] + [v])
  }

  /** A committed change is in memory, on disk and with every watcher; anything else, a failed
      write included, leaves all three as they were. `io` is what the file system answers. */
  ghost predicate Accounts(before: World, after: World, cmd: Command, io: bool, r: DdlResult) {
    match Apply(before.catalog, cmd)
    case Refused => !r.ok && r.version == before.catalog.version && after == before
    case Unchanged => r.ok && r.version == before.catalog.version && after == before
    case Changed(next) =>
      if io && Writable(next) then
        && r.ok && r.version == next.version == before.catalog.version + 1
        && after.catalog == next && after.disk.Some? && IsTextOf(next, after.disk.value)
        && after.heard == Told(before.heard, next.version)
      else !r.ok && r.version == before.catalog.version && after == before
  }

  // ----- The loops the commands share -----

  method ResolveColumns(t: TableInfo, names: seq<string>) returns (ids: Option<seq<nat>>)
    ensures ids == ColumnIds(t, names)
  {
    var found: seq<nat> := [];
    for i := 0 to |names|
      invariant ColumnIds(t, names[..i]) == Some(found)
    {
      assert names[..i + 1][..i] == names[..i];
      var c := t.FindColumn(names[i]);
      if c.None? {
        MissingName(t, names, i);
        return None;
      }
      found := found + [t.columns[c.value].id];
    }
    assert names[..|names|] == names;
    return Some(found);
  }

  lemma {:induction false} MissingName(t: TableInfo, names: seq<string>, i: nat)
    requires i < |names| && t.FindColumn(names[i]).None?
    ensures ColumnIds(t, names).None?
  {
    if i < |names| - 1 {
      MissingName(t, names[..|names| - 1], i);
    }
  }

  lemma KeyStart(t: TableInfo)
    ensures ColumnIds(t, []) == Some([]) && ForceNotNull(t, []) == t
  {
  }

  lemma KeyStep(t: TableInfo, names: seq<string>, i: nat)
    requires i < |names| && ColumnIds(t, names[..i]).Some?
    ensures var c, ids, before := t.FindColumn(names[i]), ColumnIds(t, names[..i]).value, ForceNotNull(t, names[..i]);
            c.Some? ==>
              && ColumnIds(t, names[..i + 1]) == Some(ids + [t.columns[c.value].id])
              && ForceNotNull(t, names[..i + 1])
                 == before.(columns := before.columns[c.value := before.columns[c.value].(nullable := false)])
  {
    assert names[..i + 1][..i] == names[..i];
  }

  /** Column by column: collect the id, and make the column NOT NULL. */
  method AddKeyTo(t: TableInfo, key: KeySpec) returns (r: Option<TableInfo>)
    ensures r == WithPrimaryKey(t, key)
  {
    hide Fold, IEquals, WithConstraint, ColumnIds, ForceNotNull;
    var names := key.columns;
    var ids: seq<nat> := [];
    var copy := t;
    KeyStart(t);
    for i := 0 to |names|
      invariant ColumnIds(t, names[..i]) == Some(ids) && copy == ForceNotNull(t, names[..i])
    {
      KeyStep(t, names, i);
      var c := t.FindColumn(names[i]);
      if c.None? {
        MissingName(t, names, i);
        return None;
      }
      ids := ids + [t.columns[c.value].id];
      copy := copy.(columns := copy.columns[c.value := copy.columns[c.value].(nullable := false)]);
    }
    assert names[..|names|] == names;
    return Some(WithConstraint(copy, Constraint(PrimaryKey, key.name, ids, "", [], "")));
  }

  method AddUniqueTo(t: TableInfo, key: KeySpec) returns (r: Option<TableInfo>)
    ensures r == WithUnique(t, key)
  {
    var ids := ResolveColumns(t, key.columns);
    return if ids.None? then None else Some(WithConstraint(t, Constraint(Unique, key.name, ids.value, "", [], "")));
  }

  method AddCheckTo(t: TableInfo, check: CheckSpec) returns (r: Option<TableInfo>)
    ensures r == WithCheck(t, check)
  {
    var ids := ResolveColumns(t, check.columns);
    return if ids.None? then None else Some(WithConstraint(t, Constraint(Check, check.name, ids.value, "", [], check.expr)));
  }

  method BuildFkConstraint(cat: InMemoryCatalog, self: TableInfo, fk: ForeignKeySpec) returns (k: Option<Constraint>)
    ensures k == BuildForeignKey(cat.View(), self, fk)
  {
    if fk.columns == [] || fk.refColumns == [] || |fk.columns| != |fk.refColumns| {
      return None;
    }
    var ids := ResolveColumns(self, fk.columns);
    var rt := FindTable(cat.View(), fk.refTable);
    if ids.None? || rt.None? {
      return None;
    }
    var refs := ResolveColumns(rt.value, fk.refColumns);
    return if refs.None? then None else Some(Constraint(ForeignKey, fk.name, ids.value, fk.refTable, refs.value, ""));
  }

  method HasConstraint(t: TableInfo, refers: Constraint -> bool) returns (r: bool)
    ensures r <==> exists k :: k in t.constraints && refers(k)
  {
    for i := 0 to |t.constraints|
      invariant forall j :: 0 <= j < i ==> !refers(t.constraints[j])
    {
      if refers(t.constraints[i]) {
        return true;
      }
    }
    return false;
  }

  /** Does a constraint of some other table refer here? */
  method OtherRefers(cat: InMemoryCatalog, table: string, refers: Constraint -> bool) returns (r: bool)
    ensures r == OthersRefer(cat.View(), table, refers)
  {
    var tables := cat.tables;
    var rest := tables.Keys;
    while rest != {}
      invariant rest <= tables.Keys
      invariant forall key :: key in tables && key !in rest ==>
                  IEquals(tables[key].name, table) || !exists k :: k in tables[key].constraints && refers(k)
      decreases |rest|
    {
      var key :| key in rest;
      rest := rest - {key};
      if IEquals(tables[key].name, table) {
        continue;
      }
      var found := HasConstraint(tables[key], refers);
      if found {
        return true;
      }
    }
    return false;
  }

  method MaxColumnId(columns: seq<ColumnInfo>) returns (m: nat)
    ensures m == MaxId(columns)
  {
    m := 0;
    for i := 0 to |columns|
      invariant m == MaxId(columns[..i])
    {
      assert columns[..i + 1][..i] == columns[..i];
      if columns[i].id > m {
        m := columns[i].id;
      }
    }
    assert columns[..|columns|] == columns;
  }

  method EraseColumn(columns: seq<ColumnInfo>, name: string) returns (r: seq<ColumnInfo>)
    ensures r == WithoutColumn(columns, name)
  {
    r := [];
    for i := 0 to |columns|
      invariant r == WithoutColumn(columns[..i], name)
    {
      assert columns[..i + 1][..i] == columns[..i];
      if !IEquals(columns[i].name, name) {
        r := r + [columns[i]];
      }
    }
    assert columns[..|columns|] == columns;
  }

  method RelaxColumns(columns: seq<ColumnInfo>, ids: seq<nat>) returns (r: seq<ColumnInfo>)
    ensures r == Relaxed(columns, ids)
  {
    r := columns;
    for i := 0 to |columns|
      invariant |r| == |columns|
      invariant forall j :: 0 <= j < |columns| ==> r[j] == if j < i then Relaxed(columns, ids)[j] else columns[j]
    {
      if r[i].id in ids {
        r := r[i := r[i].(nullable := true)];
      }
    }
  }

  method FindNamedConstraint(cs: seq<Constraint>, cname: string) returns (r: Option<nat>)
    ensures r == FindConstraint(cs, cname)
  {
    for i := 0 to |cs|
      invariant forall j :: 0 <= j < i ==> !IEquals(cs[j].name, cname)
    {
      if IEquals(cs[i].name, cname) {
        return Some(i);
      }
    }
    return None;
  }

  method IsFreeName(t: TableInfo, cname: string) returns (r: bool)
    ensures r == NameIsFree(t, cname)
  {
    if cname == "" {
      return true;
    }
    for i := 0 to |t.constraints|
      invariant forall j :: 0 <= j < i ==> !IEquals(t.constraints[j].name, cname)
    {
      if IEquals(t.constraints[i].name, cname) {
        return false;
      }
    }
    return true;
  }

  lemma ChangeIsFit(c: Catalog, cmd: Command, next: Catalog)
    requires Inv(c, false) && Sensible(cmd) && Apply(c, cmd) == Changed(next)
    ensures Inv(next, false) && KeysMatch(next) && IdsDistinct(next) && next.version == c.version + 1
  {
    hide Apply, IdsBelow, TablesOk, ReferencesOk, IndexesOk, KeysMatch, IdsDistinct, Sensible;
    StepKeepsInv(c, cmd, false);
    VersionStep(c, cmd);
  }

  class CatalogManager {
    var catalog: InMemoryCatalog
    var disk: Option<string>
    var heard: seq<seq<nat>>

    ghost function Here(): World
      reads this, catalog
    {
      World(catalog.View(), disk, heard)
    }

    ghost predicate Valid()
      reads this, catalog
    {
      Inv(catalog.View(), false)
    }

    /** Open the file: its catalog if it reads, whatever it says, else an empty one. */
    constructor (disk: Option<string>)
      ensures this.disk == disk && heard == [] && fresh(catalog)
      ensures Valid() <==> Reloaded(disk).None? || Inv(Reloaded(disk).value, false)
      ensures catalog.View() == if Reloaded(disk).Some? then Reloaded(disk).value else EMPTY
    {
      this.disk, heard := disk, [];
      var loaded: InMemoryCatalog? := null;
      if disk.Some? {
        loaded := DeserializeCatalog(disk.value);
      }
      if loaded == null {
        loaded := new InMemoryCatalog();
        EmptyIsOk();
        StrictImplies(EMPTY);
      }
      catalog := loaded;
    }

    method AddWatcher()
      requires Valid()
      modifies this
      ensures Valid() && Here() == old(Here()).(heard := old(heard) + [[]])
    {
      heard := heard + [[]];
    }

    method Fail() returns (r: DdlResult)
      ensures r == DdlResult(false, catalog.version)
    {
      return DdlResult(false, catalog.version);
    }

    /** Persist, then swap, then notify. */
    method Commit(next: InMemoryCatalog, io: bool) returns (r: DdlResult)
      requires IdsDistinct(next.View())
      modifies this
      ensures if io && Writable(next.View()) then
                && r == DdlResult(true, next.View().version) && catalog == next
                && disk.Some? && IsTextOf(next.View(), disk.value) && heard == Told(old(heard), next.View().version)
              else r == DdlResult(false, old(catalog).version) && catalog == old(catalog) && disk == old(disk) && heard == old(heard)
    {
      hide Writable, IsTextOf, IdsDistinct;
      if !io || !Writable(next.View()) {
        return DdlResult(false, catalog.version);
      }
      ghost var c := next.View();
      var text := SerializeCatalog(next);
      disk := Some(text);
      catalog := next;
      var v := catalog.version;
      for i := 0 to |heard|
        invariant catalog == next && disk == Some(text) && next.View() == c && |heard| == |old(heard)|
        invariant forall j :: 0 <= j < |heard| ==> heard[j] == if j < i then Told(old(heard), v)[j] else old(heard)[j]
      {
        heard := heard[i := heard[i] + [v]];
      }
      assert heard == Told(old(heard), v);
      return DdlResult(true, v);
    }

    /** The last step of every command that changes something. */
    method Finish(ghost cmd: Command, next: InMemoryCatalog, io: bool) returns (r: DdlResult)
      requires Valid() && Sensible(cmd) && Apply(catalog.View(), cmd) == Changed(next.View())
      modifies this
      ensures Valid() && Accounts(old(Here()), Here(), cmd, io, r)
    {
      hide Inv, Sensible, Apply, Writable, KeysMatch, IdsDistinct, IsTextOf;
      ChangeIsFit(catalog.View(), cmd, next.View());
      r := Commit(next, io);
    }

    // ----- The commands -----

    method CreateTable(name: string, columns: seq<ColumnInfo>, foreignKeys: seq<ForeignKeySpec>, checks: seq<CheckSpec>,
                       primaryKey: KeySpec, uniques: seq<KeySpec>, io: bool) returns (r: DdlResult)
      requires Valid() && DistinctNames(columns)
      modifies this
      ensures Valid() && Accounts(old(Here()), Here(), Command.CreateTable(name, columns, foreignKeys, checks, primaryKey, uniques), io, r)
    {
      hide Inv, Writable, Fold, Created, IsTextOf, DistinctNames, Numbered;
      ghost var cmd := Command.CreateTable(name, columns, foreignKeys, checks, primaryKey, uniques);
      ghost var c := catalog.View();
      if Fold(name) in catalog.tables {
        r := Fail();
        return;
      }
      var next := new InMemoryCatalog.Copy(catalog);
      var self := next.AddTable(name, columns);
      var done := CompleteTable(next, self, Command.CreateTable(name, columns, foreignKeys, checks, primaryKey, uniques), c);
      if done.None? {
        r := Fail();
        return;
      }
      next.SetSchemaVersion(catalog.version + 1);
      r := Finish(cmd, next, io);
    }

    method DropTable(name: string, ifExists: bool, cascade: bool, io: bool) returns (r: DdlResult)
      requires Valid()
      modifies this
      ensures Valid() && Accounts(old(Here()), Here(), Command.DropTable(name, ifExists, cascade), io, r)
    {
      hide Inv, Writable, Fold, OthersRefer, MapTables, DropIndexes, IsTextOf;
      ghost var cmd := Command.DropTable(name, ifExists, cascade);
      if Fold(name) !in catalog.tables {
        return DdlResult(ifExists, catalog.version);
      }
      if !cascade {
        var refers := OtherRefers(catalog, name, (k: Constraint) => RefersTo(k, name));
        if refers {
          r := Fail();
          return;
        }
      }
      var next := new InMemoryCatalog.Copy(catalog);
      var _ := next.RemoveTable(name);
      var _ := next.DropIndexesOn(name);
      if cascade {
        next.DropForeignKeysReferencing(name);
      }
      next.SetSchemaVersion(catalog.version + 1);
      ghost var removed := catalog.View().(tables := catalog.tables - {Fold(name)});
      StripVersion(removed, name);
      StripVersion(DropIndexes(removed, (x: IndexInfo) => IEquals(x.table, name)), name);
      r := Finish(cmd, next, io);
    }

    method CreateIndex(name: string, table: string, columns: seq<string>, unique: bool, ifNotExists: bool, io: bool) returns (r: DdlResult)
      requires Valid()
      modifies this
      ensures Valid() && Accounts(old(Here()), Here(), Command.CreateIndex(name, table, columns, unique, ifNotExists), io, r)
    {
      hide Inv, Writable, Fold, ColumnIds, IsTextOf;
      ghost var cmd := Command.CreateIndex(name, table, columns, unique, ifNotExists);
      if Fold(name) in catalog.indexes {
        return DdlResult(ifNotExists, catalog.version);
      }
      if Fold(table) !in catalog.tables || columns == [] {
        r := Fail();
        return;
      }
      var ids := ResolveColumns(catalog.tables[Fold(table)], columns);
      if ids.None? {
        r := Fail();
        return;
      }
      var next := new InMemoryCatalog.Copy(catalog);
      next.AddIndex(name, table, ids.value, unique);
      next.SetSchemaVersion(catalog.version + 1);
      r := Finish(cmd, next, io);
    }

    method DropIndex(name: string, ifExists: bool, io: bool) returns (r: DdlResult)
      requires Valid()
      modifies this
      ensures Valid() && Accounts(old(Here()), Here(), Command.DropIndex(name, ifExists), io, r)
    {
      hide Inv, Writable, Fold, IsTextOf;
      ghost var cmd := Command.DropIndex(name, ifExists);
      if Fold(name) !in catalog.indexes {
        return DdlResult(ifExists, catalog.version);
      }
      var next := new InMemoryCatalog.Copy(catalog);
      var _ := next.RemoveIndex(name);
      next.SetSchemaVersion(catalog.version + 1);
      r := Finish(cmd, next, io);
    }

    /** Replace one table by `u`: the common ending of most alterations. */
    method Replace(ghost cmd: Command, u: TableInfo, io: bool) returns (r: DdlResult)
      requires Valid() && Sensible(cmd) && Apply(catalog.View(), cmd) == Changed(Bumped(WithTable(catalog.View(), u)))
      modifies this
      ensures Valid() && Accounts(old(Here()), Here(), cmd, io, r)
    {
      hide Inv, Sensible, Apply, Writable, Fold, IsTextOf;
      var next := new InMemoryCatalog.Copy(catalog);
      next.RestoreTable(u);
      next.SetSchemaVersion(catalog.version + 1);
      r := Finish(cmd, next, io);
    }

    method AddColumn(table: string, column: ColumnInfo, io: bool) returns (r: DdlResult)
      requires Valid()
      modifies this
      ensures Valid() && Accounts(old(Here()), Here(), Command.AddColumn(table, column), io, r)
    {
      hide Inv, Writable, Fold, MaxId, IsTextOf, IEquals;
      var t := FindTable(catalog.View(), table);
      if t.None? || t.value.FindColumn(column.name).Some? {
        r := Fail();
        return;
      }
      var max := MaxColumnId(t.value.columns);
      r := Replace(Command.AddColumn(table, column), t.value.(columns := t.value.columns + [column.(id := max + 1)]), io);
    }

    method DropColumn(table: string, col: string, ifExists: bool, cascade: bool, io: bool) returns (r: DdlResult)
      requires Valid()
      modifies this
      ensures Valid() && Accounts(old(Here()), Here(), Command.DropColumn(table, col, ifExists, cascade), io, r)
    {
      hide Inv, Writable, Fold, Apply, OthersRefer, Detached, ColumnDropped, IsTextOf, IEquals;
      ghost var cmd := Command.DropColumn(table, col, ifExists, cascade);
      ghost var c := catalog.View();
      DropColumnApplies(c, cmd);
      var t := FindTable(catalog.View(), table);
      if t.None? {
        r := Fail();
        return;
      }
      var i := t.value.FindColumn(col);
      if i.None? {
        return DdlResult(ifExists, catalog.version);
      }
      if |t.value.columns| == 1 {
        r := Fail();
        return;
      }
      var id := t.value.columns[i.value].id;
      if !cascade {
        var refers := OtherRefers(catalog, table, (k: Constraint) => RefersToColumn(k, table, id));
        if refers {
          r := Fail();
          return;
        }
      }
      var next := WithoutTableColumn(catalog, t.value, table, col, id, cascade);
      r := Finish(cmd, next, io);
    }

    method SetColumnDefault(table: string, col: string, expr: string, io: bool) returns (r: DdlResult)
      requires Valid()
      modifies this
      ensures Valid() && Accounts(old(Here()), Here(), Command.SetColumnDefault(table, col, expr), io, r)
    {
      hide Inv, Writable, Fold, IsTextOf, IEquals;
      var t := FindTable(catalog.View(), table);
      if t.None? || t.value.FindColumn(col).None? {
        r := Fail();
        return;
      }
      var i := t.value.FindColumn(col).value;
      r := Replace(Command.SetColumnDefault(table, col, expr),
                   WithColumn(t.value, i, t.value.columns[i].(hasDefault := true, defaultExpr := expr)), io);
    }

    method SetColumnNullable(table: string, col: string, nullable: bool, io: bool) returns (r: DdlResult)
      requires Valid()
      modifies this
      ensures Valid() && Accounts(old(Here()), Here(), Command.SetColumnNullable(table, col, nullable), io, r)
    {
      hide Inv, Writable, Fold, IsTextOf, IEquals;
      var t := FindTable(catalog.View(), table);
      if t.None? || t.value.FindColumn(col).None? {
        r := Fail();
        return;
      }
      var i := t.value.FindColumn(col).value;
      if nullable {
        var id := t.value.columns[i].id;
        var keyed := HasConstraint(t.value, (k: Constraint) => k.kind.PrimaryKey? && id in k.columns);
        if keyed {
          r := Fail();
          return;
        }
      }
      if t.value.columns[i].nullable == nullable {
        return DdlResult(true, catalog.version);
      }
      r := Replace(Command.SetColumnNullable(table, col, nullable),
                   WithColumn(t.value, i, t.value.columns[i].(nullable := nullable)), io);
    }

    method DropColumnDefault(table: string, col: string, io: bool) returns (r: DdlResult)
      requires Valid()
      modifies this
      ensures Valid() && Accounts(old(Here()), Here(), Command.DropColumnDefault(table, col), io, r)
    {
      hide Inv, Writable, Fold, IsTextOf, IEquals;
      var t := FindTable(catalog.View(), table);
      if t.None? || t.value.FindColumn(col).None? {
        r := Fail();
        return;
      }
      var i := t.value.FindColumn(col).value;
      if !t.value.columns[i].hasDefault {
        return DdlResult(true, catalog.version);
      }
      r := Replace(Command.DropColumnDefault(table, col),
                   WithColumn(t.value, i, t.value.columns[i].(hasDefault := false, defaultExpr := "")), io);
    }

    method AddPrimaryKey(table: string, key: KeySpec, io: bool) returns (r: DdlResult)
      requires Valid()
      modifies this
      ensures Valid() && Accounts(old(Here()), Here(), Command.AddPrimaryKey(table, key), io, r)
    {
      hide Inv, Writable, Fold, WithPrimaryKey, NameIsFree, IsTextOf, IEquals;
      var t := FindTable(catalog.View(), table);
      if t.None? {
        r := Fail();
        return;
      }
      var keyed := HasConstraint(t.value, (k: Constraint) => k.kind.PrimaryKey?);
      var free := IsFreeName(t.value, key.name);
      if keyed || !free {
        r := Fail();
        return;
      }
      var u := AddKeyTo(t.value, key);
      if u.None? || key.columns == [] {
        r := Fail();
        return;
      }
      r := Replace(Command.AddPrimaryKey(table, key), u.value, io);
    }

    method AddUnique(table: string, key: KeySpec, io: bool) returns (r: DdlResult)
      requires Valid()
      modifies this
      ensures Valid() && Accounts(old(Here()), Here(), Command.AddUnique(table, key), io, r)
    {
      hide Inv, Writable, Fold, WithUnique, NameIsFree, IsTextOf, IEquals;
      var t := FindTable(catalog.View(), table);
      if t.None? {
        r := Fail();
        return;
      }
      var free := IsFreeName(t.value, key.name);
      var u := AddUniqueTo(t.value, key);
      if !free || u.None? || key.columns == [] {
        r := Fail();
        return;
      }
      r := Replace(Command.AddUnique(table, key), u.value, io);
    }

    method AddCheck(table: string, check: CheckSpec, io: bool) returns (r: DdlResult)
      requires Valid()
      modifies this
      ensures Valid() && Accounts(old(Here()), Here(), Command.AddCheck(table, check), io, r)
    {
      hide Inv, Writable, Fold, WithCheck, NameIsFree, IsTextOf, IEquals;
      var t := FindTable(catalog.View(), table);
      if t.None? {
        r := Fail();
        return;
      }
      var free := IsFreeName(t.value, check.name);
      var u := AddCheckTo(t.value, check);
      if !free || u.None? {
        r := Fail();
        return;
      }
      r := Replace(Command.AddCheck(table, check), u.value, io);
    }

    method AddForeignKey(table: string, fk: ForeignKeySpec, io: bool) returns (r: DdlResult)
      requires Valid()
      modifies this
      ensures Valid() && Accounts(old(Here()), Here(), Command.AddForeignKey(table, fk), io, r)
    {
      hide Inv, Writable, Fold, BuildForeignKey, NameIsFree, IsTextOf, IEquals;
      var t := FindTable(catalog.View(), table);
      if t.None? {
        r := Fail();
        return;
      }
      var free := IsFreeName(t.value, fk.name);
      var k := BuildFkConstraint(catalog, t.value, fk);
      if !free || k.None? {
        r := Fail();
        return;
      }
      r := Replace(Command.AddForeignKey(table, fk), WithConstraint(t.value, k.value), io);
    }

    method DropConstraint(table: string, cname: string, cascade: bool, io: bool) returns (r: DdlResult)
      requires Valid()
      modifies this
      ensures Valid() && Accounts(old(Here()), Here(), Command.DropConstraint(table, cname, cascade), io, r)
    {
      hide Inv, Writable, Fold, OthersRefer, StripColumns, Without, IsTextOf, IEquals, RefersTo;
      ghost var cmd := Command.DropConstraint(table, cname, cascade);
      var t := FindTable(catalog.View(), table);
      if t.None? || cname == "" {
        r := Fail();
        return;
      }
      var i := FindNamedConstraint(t.value.constraints, cname);
      if i.None? {
        r := Fail();
        return;
      }
      var target := t.value.constraints[i.value];
      var next := new InMemoryCatalog.Copy(catalog);
      if ProvidesKey(target) {
        var refused := DetachReferrers(catalog, next, table, target.columns, cascade);
        if refused {
          r := Fail();
          return;
        }
      }
      var constraints := EraseConstraints(t.value.constraints, (k: Constraint) => IEquals(k.name, cname));
      var columns := t.value.columns;
      if target.kind.PrimaryKey? {
        columns := RelaxColumns(columns, target.columns);
      }
      next.RestoreTable(t.value.(columns := columns, constraints := constraints));
      next.SetSchemaVersion(catalog.version + 1);
      StripKeepsVersion(catalog.View(), table, target.columns);
      r := Finish(cmd, next, io);
    }
  }

  lemma DropColumnApplies(c: Catalog, cmd: Command)
    requires cmd.DropColumn?
    ensures Apply(c, cmd) ==
            if Fold(cmd.table) !in c.tables then Refused
            else
              var t := c.tables[Fold(cmd.table)];
              var i := t.FindColumn(cmd.col);
              if i.None? then (if cmd.ifExists then Unchanged else Refused)
              else if |t.columns| == 1 then Refused
              else
                var id := t.columns[i.value].id;
                if !cmd.cascade && OthersRefer(c, cmd.table, (k: Constraint) => RefersToColumn(k, cmd.table, id)) then Refused
                else Changed(Bumped(WithTable(Detached(c, cmd.table, id, cmd.cascade), ColumnDropped(t, cmd.col, id))))
  {
    hide Fold, OthersRefer, MapTables, DropIndexes, ColumnDropped, IEquals, RefersToColumn, StripColumnReferences;
  }

  /** A copy without what refers to the column from outside: foreign keys, if cascading, and
      its indexes. */
  method DetachedCopy(catalog: InMemoryCatalog, table: string, id: nat, cascade: bool) returns (next: InMemoryCatalog)
    ensures fresh(next) && next.View() == Detached(catalog.View(), table, id, cascade)
  {
    hide MapTables, DropIndexes, IEquals, StripColumnReferences;
    next := new InMemoryCatalog.Copy(catalog);
    if cascade {
      next.DropForeignKeysReferencingColumn(table, id);
    }
    var _ := next.DropIndexesOnColumn(table, id);
  }

  /** Then the table's own constraints over the column go, and the column. */
  method WithoutTableColumn(catalog: InMemoryCatalog, t: TableInfo, table: string, col: string, id: nat, cascade: bool) returns (next: InMemoryCatalog)
    ensures fresh(next) && next.View() == Bumped(WithTable(Detached(catalog.View(), table, id, cascade), ColumnDropped(t, col, id)))
  {
    hide Fold, Detached, Without, WithoutColumn, IEquals;
    next := DetachedCopy(catalog, table, id, cascade);
    var columns := EraseColumn(t.columns, col);
    var constraints := EraseConstraints(t.constraints, (k: Constraint) => id in k.columns);
    next.RestoreTable(t.(columns := columns, constraints := constraints));
    next.SetSchemaVersion(catalog.version + 1);
    DetachedVersion(catalog.View(), table, id, cascade);
  }

  lemma DetachedVersion(c: Catalog, table: string, id: nat, cascade: bool)
    ensures Detached(c, table, id, cascade).version == c.version
  {
  }

  lemma StripVersion(c: Catalog, table: string)
    ensures MapTables(c, (t: TableInfo) => StripReferences(t, table)).version == c.version
    ensures DropIndexes(c, (x: IndexInfo) => IEquals(x.table, table)).version == c.version
  {
  }

  method AddUniques(t: TableInfo, keys: seq<KeySpec>) returns (r: Option<TableInfo>)
    ensures r == WithUniques(t, keys)
  {
    hide WithUnique;
    var u := t;
    for i := 0 to |keys|
      invariant WithUniques(t, keys[..i]) == Some(u)
    {
      assert keys[..i + 1][..i] == keys[..i];
      if keys[i].columns != [] {
        var added := AddUniqueTo(u, keys[i]);
        if added.None? {
          UniquesStop(t, keys, i + 1);
          return None;
        }
        u := added.value;
      }
    }
    assert keys[..|keys|] == keys;
    return Some(u);
  }

  lemma {:induction false} UniquesStop(t: TableInfo, keys: seq<KeySpec>, n: nat)
    requires n <= |keys| && WithUniques(t, keys[..n]).None?
    ensures WithUniques(t, keys).None?
  {
    if n == |keys| {
      assert keys[..n] == keys;
    } else {
      assert keys[..|keys| - 1][..n] == keys[..n];
      UniquesStop(t, keys[..|keys| - 1], n);
    }
  }

  method AddChecks(t: TableInfo, checks: seq<CheckSpec>) returns (r: Option<TableInfo>)
    ensures r == WithChecks(t, checks)
  {
    hide WithCheck;
    var u := t;
    for i := 0 to |checks|
      invariant WithChecks(t, checks[..i]) == Some(u)
    {
      assert checks[..i + 1][..i] == checks[..i];
      var added := AddCheckTo(u, checks[i]);
      if added.None? {
        ChecksStop(t, checks, i + 1);
        return None;
      }
      u := added.value;
    }
    assert checks[..|checks|] == checks;
    return Some(u);
  }

  lemma {:induction false} ChecksStop(t: TableInfo, checks: seq<CheckSpec>, n: nat)
    requires n <= |checks| && WithChecks(t, checks[..n]).None?
    ensures WithChecks(t, checks).None?
  {
    if n == |checks| {
      assert checks[..n] == checks;
    } else {
      assert checks[..|checks| - 1][..n] == checks[..n];
      ChecksStop(t, checks[..|checks| - 1], n);
    }
  }

  lemma KeyByTables(c: Catalog, d: Catalog, self: TableInfo, fk: ForeignKeySpec)
    requires c.tables == d.tables
    ensures BuildForeignKey(c, self, fk) == BuildForeignKey(d, self, fk)
  {
  }

  predicate Grown(next: Catalog, c: Catalog, t: TableInfo) {
    next.tables == WithTable(c, t).tables
  }

  /** The copy holds the table as it grows, so a key may refer to the table itself. */
  method AddForeignKeys(next: InMemoryCatalog, t: TableInfo, fks: seq<ForeignKeySpec>, ghost c: Catalog) returns (r: Option<TableInfo>)
    requires Grown(next.View(), c, t)
    modifies next
    ensures r == WithForeignKeys(c, t, fks)
    ensures r.Some? ==> r.value.name == t.name && Grown(next.View(), c, r.value)
    ensures next.View() == old(next.View()).(tables := next.tables)
  {
    hide BuildForeignKey, Fold;
    var u := t;
    for i := 0 to |fks|
      invariant WithForeignKeys(c, t, fks[..i]) == Some(u) && u.name == t.name
      invariant Grown(next.View(), c, u) && next.View() == old(next.View()).(tables := next.tables)
    {
      assert fks[..i + 1][..i] == fks[..i];
      KeyByTables(next.View(), WithTable(c, u), u, fks[i]);
      var k := BuildFkConstraint(next, u, fks[i]);
      if k.None? {
        ForeignKeysStop(c, t, fks, i + 1);
        return None;
      }
      u := WithConstraint(u, k.value);
      next.RestoreTable(u);
    }
    assert fks[..|fks|] == fks;
    return Some(u);
  }

  lemma {:induction false} ForeignKeysStop(c: Catalog, t: TableInfo, fks: seq<ForeignKeySpec>, n: nat)
    requires n <= |fks| && WithForeignKeys(c, t, fks[..n]).None?
    ensures WithForeignKeys(c, t, fks).None?
  {
    if n == |fks| {
      assert fks[..n] == fks;
    } else {
      assert fks[..|fks| - 1][..n] == fks[..n];
      ForeignKeysStop(c, t, fks[..|fks| - 1], n);
    }
  }

  lemma UniquesKeepName(t: TableInfo, keys: seq<KeySpec>)
    ensures WithUniques(t, keys).Some? ==> WithUniques(t, keys).value.name == t.name
  {
  }

  lemma ChecksKeepName(t: TableInfo, checks: seq<CheckSpec>)
    ensures WithChecks(t, checks).Some? ==> WithChecks(t, checks).value.name == t.name
  {
  }

  /** The constraints of a new table: primary key, uniques, foreign keys, checks. */
  method CompleteTable(next: InMemoryCatalog, self: TableInfo, cmd: Command, ghost c: Catalog) returns (done: Option<TableInfo>)
    requires cmd.CreateTable? && self == TableInfo(cmd.table, c.nextTableId, Numbered(cmd.columns), []) && Grown(next.View(), c, self)
    modifies next
    ensures done == Created(c, cmd)
    ensures done.Some? ==> done.value.name == cmd.table && Grown(next.View(), c, done.value)
    ensures next.View() == old(next.View()).(tables := next.tables)
  {
    hide WithPrimaryKey, WithUniques, WithForeignKeys, WithChecks, Fold, Numbered;
    var keyed := Some(self);
    if cmd.primaryKey.columns != [] {
      keyed := AddKeyTo(self, cmd.primaryKey);
      KeyKeepsName(self, cmd.primaryKey);
    }
    if keyed.None? {
      return None;
    }
    var unique := AddUniques(keyed.value, cmd.uniques);
    UniquesKeepName(keyed.value, cmd.uniques);
    if unique.None? {
      return None;
    }
    next.RestoreTable(unique.value);
    var linked := AddForeignKeys(next, unique.value, cmd.foreignKeys, c);
    if linked.None? {
      return None;
    }
    done := AddChecks(linked.value, cmd.checks);
    ChecksKeepName(linked.value, cmd.checks);
    if done.Some? {
      next.RestoreTable(done.value);
    }
  }

  lemma KeyKeepsName(t: TableInfo, key: KeySpec)
    ensures WithPrimaryKey(t, key).Some? ==> WithPrimaryKey(t, key).value.name == t.name
  {
  }

  // ----- Dropping a key others rely on -----

  lemma {:induction false} WithoutNothing(cs: seq<Constraint>, drop: Constraint -> bool)
    requires forall k <- cs :: !drop(k)
    ensures Without(cs, drop) == cs
  {
    if cs != [] {
      WithoutNothing(cs[..|cs| - 1], drop);
      assert cs == cs[..|cs| - 1] + [cs[|cs| - 1]];
    }
  }

  lemma {:induction false} StripOnlyTrims(c: Catalog, table: string, ids: seq<nat>)
    ensures var d := StripColumns(c, table, ids); d.tables.Keys == c.tables.Keys
    ensures forall key, k :: key in c.tables && k in StripColumns(c, table, ids).tables[key].constraints ==> k in c.tables[key].constraints
    ensures forall key :: key in c.tables ==> StripColumns(c, table, ids).tables[key].name == c.tables[key].name
  {
    hide Fold;
    if ids != [] {
      StripOnlyTrims(c, table, ids[..|ids| - 1]);
    }
  }

  lemma NothingToStrip(c: Catalog, table: string, front: seq<nat>, id: nat)
    requires !OthersRefer(c, table, (k: Constraint) => RefersToColumn(k, table, id))
    ensures StripColumns(c, table, front + [id]) == StripColumns(c, table, front)
  {
    hide RefersToColumn, Fold;
    var refers := (k: Constraint) => RefersToColumn(k, table, id);
    var d := StripColumns(c, table, front);
    StripOnlyTrims(c, table, front);
    assert (front + [id])[..|front|] == front;
    forall key | key in d.tables ensures StripColumnReferences(d.tables[key], table, id) == d.tables[key] {
      if !IEquals(d.tables[key].name, table) {
        forall k | k in d.tables[key].constraints ensures !refers(k) {
          assert k in c.tables[key].constraints;
        }
        WithoutNothing(d.tables[key].constraints, refers);
      }
    }
    assert MapTables(d, (t: TableInfo) => StripColumnReferences(t, table, id)).tables == d.tables;
  }

  lemma ReferrerOf(c: Catalog, table: string, ids: seq<nat>, i: nat)
    requires i < |ids| && OthersRefer(c, table, (k: Constraint) => RefersToColumn(k, table, ids[i]))
    ensures OthersRefer(c, table, (k: Constraint) => RefersTo(k, table) && exists id <- ids :: id in k.refColumns)
  {
    hide RefersTo;
    var id := ids[i];
    var one := (k: Constraint) => RefersToColumn(k, table, id);
    var any := (k: Constraint) => RefersTo(k, table) && exists id <- ids :: id in k.refColumns;
    var key, k :| key in c.tables && !IEquals(c.tables[key].name, table) && k in c.tables[key].constraints && RefersToColumn(k, table, id);
    assert id in ids && any(k);
  }

  lemma NoReferrer(c: Catalog, table: string, ids: seq<nat>)
    requires forall i: nat :: i < |ids| ==> !OthersRefer(c, table, (k: Constraint) => RefersToColumn(k, table, ids[i]))
    ensures !OthersRefer(c, table, (k: Constraint) => RefersTo(k, table) && exists id <- ids :: id in k.refColumns)
  {
    hide RefersTo, OthersRefer;
    var any := (k: Constraint) => RefersTo(k, table) && exists id <- ids :: id in k.refColumns;
    forall key, k | key in c.tables && !IEquals(c.tables[key].name, table) && k in c.tables[key].constraints ensures !any(k) {
      forall i: nat | i < |ids| ensures !RefersToColumn(k, table, ids[i]) {
        NotOther(c, table, (x: Constraint) => RefersToColumn(x, table, ids[i]), key, k);
      }
    }
    NoneOther(c, table, any);
  }

  lemma NotOther(c: Catalog, table: string, refers: Constraint -> bool, key: string, k: Constraint)
    requires !OthersRefer(c, table, refers) && key in c.tables && !IEquals(c.tables[key].name, table) && k in c.tables[key].constraints
    ensures !refers(k)
  {
  }

  lemma NoneOther(c: Catalog, table: string, refers: Constraint -> bool)
    requires forall key, k :: key in c.tables && !IEquals(c.tables[key].name, table) && k in c.tables[key].constraints ==> !refers(k)
    ensures !OthersRefer(c, table, refers)
  {
  }

  /** Column by column of the dropped key: refuse, or cascade to the keys that refer to it. */
  method DetachReferrers(catalog: InMemoryCatalog, next: InMemoryCatalog, table: string, ids: seq<nat>, cascade: bool) returns (refused: bool)
    requires catalog != next && next.View() == catalog.View()
    modifies next
    ensures refused == (!cascade && OthersRefer(catalog.View(), table, (k: Constraint) => RefersTo(k, table) && exists id <- ids :: id in k.refColumns))
    ensures !refused ==> next.View() == StripColumns(catalog.View(), table, ids)
  {
    hide OthersRefer, StripColumnReferences, MapTables, RefersTo;
    ghost var c := catalog.View();
    assert ids[..0] == [];
    for i := 0 to |ids|
      invariant catalog.View() == c && next.View() == StripColumns(c, table, ids[..i])
      invariant !cascade ==> forall j: nat :: j < i ==> !OthersRefer(c, table, (k: Constraint) => RefersToColumn(k, table, ids[j]))
    {
      var id := ids[i];
      assert ids[..i + 1] == ids[..i] + [id] && ids[..i + 1][..i] == ids[..i];
      var found := OtherRefers(catalog, table, (k: Constraint) => RefersToColumn(k, table, id));
      if found {
        if !cascade {
          ReferrerOf(c, table, ids, i);
          return true;
        }
        next.DropForeignKeysReferencingColumn(table, id);
      } else {
        NothingToStrip(c, table, ids[..i], id);
      }
    }
    assert ids[..|ids|] == ids;
    if !cascade {
      NoReferrer(c, table, ids);
    }
    return false;
  }
}
