/** The meaning of a FROM clause as a tree of joined tables (ISO/IEC 9075-2:2003, section 7.7),
    written without reference to the scope's flat list and its index ranges. */
module JoinTree {
  import opened Wrappers
  import opened Identifier
  import opened Scopes
  import opened FromClause

  datatype Table =
    | Leaf(binding: Binding)
    | Product(left: Table, right: Table)
    | Joined(kind: JoinKind, left: Table, binding: Binding, cond: Condition)

  /** The relation instances of a table, in FROM order. */
  function Leaves(t: Table): (r: seq<Binding>)
    ensures |r| > 0
  {
    match t
    case Leaf(b) => [b]
    case Product(l, r) => Leaves(l) + Leaves(r)
    case Joined(_, l, b, _) => Leaves(l) + [b]
  }

  // ----- Reading the flat item list as a tree -----

  /** Every list opens with a relation or a group; only then can a join extend it. */
  predicate WellFormed(items: seq<FromItem>)
    decreases items, 1
  {
    && items != [] && StartsCommaGroup(items[0])
    && (items[0].Group? ==> WellFormed(items[0].items))
    && GroupsFormed(items[1..])
  }

  predicate GroupsFormed(items: seq<FromItem>)
    decreases items, 0
  {
    items == [] ||
    ((items[0].Group? ==> WellFormed(items[0].items)) && GroupsFormed(items[1..]))
  }

  function Beside(done: Option<Table>, cur: Table): Table {
    match done
    case None => cur
    case Some(d) => Product(d, cur)
  }

  function StartTable(item: FromItem): Table
    requires StartsCommaGroup(item) && (item.Group? ==> WellFormed(item.items))
    decreases item, 0
  {
    match item
    case Relation(b) => Leaf(b)
    case Group(items) => TableOf(items)
  }

  /** `done` is the product of the comma groups already closed, `cur` the group being built. */
  function Extend(rest: seq<FromItem>, done: Option<Table>, cur: Table): Table
    requires GroupsFormed(rest)
    decreases rest, 0
  {
    if rest == [] then Beside(done, cur)
    else if rest[0].Join? then
      Extend(rest[1..], done, Joined(rest[0].kind, cur, rest[0].right, rest[0].cond))
    else
      Extend(rest[1..], Some(Beside(done, cur)), StartTable(rest[0]))
  }

  function TableOf(items: seq<FromItem>): Table
    requires WellFormed(items)
    decreases items, 1
  {
    Extend(items[1..], None, StartTable(items[0]))
  }

  // ----- Rows -----

  datatype Value = Null | Val(v: int)
  type Tuple = seq<Value>

  /** One cell per relation instance; `None` is a null-extended instance. */
  type Row = seq<Option<Tuple>>

  /** Table contents and ON predicates, both by position of the (right) relation in FROM order. */
  datatype Instance = Instance(tables: nat -> iset<Tuple>, on: (nat, Row, Tuple) -> bool)

  ghost predicate WellTyped(b: Binding, tuple: Tuple) {
    && |tuple| == |b.columns|
    && forall j :: 0 <= j < |tuple| && !b.columns[j].nullable ==> tuple[j] != Null
  }

  /** Every stored tuple has the declared width and respects the NOT NULL columns. */
  ghost predicate Holds(b: Binding, table: iset<Tuple>) {
    forall tuple :: tuple in table ==> WellTyped(b, tuple)
  }

  ghost predicate Respects(leaves: seq<Binding>, inst: Instance, base: nat) {
    forall i :: 0 <= i < |leaves| ==> Holds(leaves[i], inst.tables(base + i))
  }

  function CellValue(row: Row, i: nat, j: nat): Value {
    if i < |row| && row[i].Some? && j < |row[i].value| then row[i].value[j] else Null
  }

  predicate AllNull(row: Row) {
    forall i :: 0 <= i < |row| ==> row[i].None?
  }

  function CoalesceValues(a: Value, b: Value): Value {
    if a != Null then a else b
  }

  function CommonColumns(cs: seq<Column>, right: Binding): seq<string> {
    if cs == [] then []
    else CommonColumns(cs[..|cs| - 1], right) +
         if right.FindColumn(cs[|cs| - 1].name).Some? then [cs[|cs| - 1].name] else []
  }

  /** The names both sides expose, in left column order. */
  function CommonNames(left: seq<Binding>, right: Binding): seq<string> {
    if left == [] then []
    else CommonNames(left[..|left| - 1], right) + CommonColumns(left[|left| - 1].columns, right)
  }

  /** The columns a join shares between its two sides. */
  function SharedNames(left: seq<Binding>, right: Binding, cond: Condition): seq<string> {
    match cond
    case On => []
    case Using(names) => names
    case Natural => CommonNames(left, right)
  }

  predicate Lists(names: seq<string>, name: string) {
    exists k :: 0 <= k < |names| && IEquals(names[k], name)
  }

  /** The value of column `j` of instance `i` when it is read unqualified: a column shared by
      USING or NATURAL reads as COALESCE of its two sides. */
  ghost function VisibleValue(t: Table, row: Row, i: nat, j: nat): Value
    requires |row| == |Leaves(t)| && i < |row|
  {
    match t
    case Leaf(_) => CellValue(row, i, j)
    case Product(l, r) =>
      var n := |Leaves(l)|;
      if i < n then VisibleValue(l, row[..n], i, j) else VisibleValue(r, row[n..], i - n, j)
    case Joined(_, l, b, cond) =>
      var n := |Leaves(l)|;
      if i == n then CellValue(row, i, j)
      else
        var left := VisibleValue(l, row[..n], i, j);
        var ls := Leaves(l);
        if j < |ls[i].columns| && Lists(SharedNames(ls, b, cond), ls[i].columns[j].name) then
          var rj := b.FindColumn(ls[i].columns[j].name);
          CoalesceValues(left, if rj.Some? then CellValue(row, n, rj.value) else Null)
        else left
  }

  /** A shared column matches on equal values that are not NULL. */
  ghost predicate Agrees(l: Table, b: Binding, name: string, lr: Row, tuple: Tuple)
    requires |lr| == |Leaves(l)|
  {
    var ls := LastHit(Leaves(l), 0, |Leaves(l)|, name);
    var rj := b.FindColumn(name);
    && ls.Some? && rj.Some? && rj.value < |tuple|
    && VisibleValue(l, lr, ls.value.rel, ls.value.col) == tuple[rj.value]
    && tuple[rj.value] != Null
  }

  ghost predicate Matches(t: Table, inst: Instance, base: nat, lr: Row, tuple: Tuple)
    requires t.Joined? && |lr| == |Leaves(t.left)|
  {
    if t.kind.Cross? then true
    else if t.cond.On? then inst.on(base + |Leaves(t.left)|, lr, tuple)
    else
      var names := SharedNames(Leaves(t.left), t.binding, t.cond);
      forall k :: 0 <= k < |names| ==> Agrees(t.left, t.binding, names[k], lr, tuple)
  }

  /** Is `row` a row of `t`, whose first relation sits at position `base`? */
  ghost predicate InRows(t: Table, row: Row, inst: Instance, base: nat)
    decreases t
  {
    match t
    case Leaf(_) => |row| == 1 && row[0].Some? && row[0].value in inst.tables(base)
    case Product(l, r) =>
      var n := |Leaves(l)|;
      && |row| == n + |Leaves(r)|
      && InRows(l, row[..n], inst, base) && InRows(r, row[n..], inst, base + n)
    case Joined(kind, l, b, _) =>
      var n := |Leaves(l)|;
      && |row| == n + 1
      && var lr, cell := row[..n], row[n];
         var right := inst.tables(base + n);
         || (&& InRows(l, lr, inst, base) && cell.Some? && cell.value in right
             && Matches(t, inst, base, lr, cell.value))
         || (&& kind.NullsRight() && InRows(l, lr, inst, base) && cell.None?
             && forall tuple :: tuple in right ==> !Matches(t, inst, base, lr, tuple))
         || (&& kind.NullsLeft() && AllNull(lr) && cell.Some? && cell.value in right
             && forall l0: Row :: |l0| == n && InRows(l, l0, inst, base) ==> !Matches(t, inst, base, l0, cell.value))
  }

  // ----- Null-supply marks, computed on the tree -----

  function AllTrue(n: nat): seq<bool> { seq(n, _ => true) }

  /** Which relation instances an outer join of `t` can null-extend. */
  function NullSupplied(t: Table): (r: seq<bool>)
    ensures |r| == |Leaves(t)|
  {
    match t
    case Leaf(_) => [false]
    case Product(l, r) => NullSupplied(l) + NullSupplied(r)
    case Joined(kind, l, _, _) =>
      (if kind.NullsLeft() then AllTrue(|Leaves(l)|) else NullSupplied(l)) + [kind.NullsRight()]
  }

  /** Soundness of the marks: an unmarked instance is present in every row. */
  lemma {:induction false} UnmarkedIsPresent(t: Table, row: Row, inst: Instance, base: nat, i: nat)
    requires InRows(t, row, inst, base) && i < |row| && |row| == |Leaves(t)| && !NullSupplied(t)[i]
    ensures row[i].Some?
  {
    match t {
      case Leaf(_) =>
      case Product(l, r) =>
        var n := |Leaves(l)|;
        if i < n {
          UnmarkedIsPresent(l, row[..n], inst, base, i);
        } else {
          UnmarkedIsPresent(r, row[n..], inst, base + n, i - n);
        }
      case Joined(kind, l, _, _) =>
        var n := |Leaves(l)|;
        if i < n {
          UnmarkedIsPresent(l, row[..n], inst, base, i);
        }
    }
  }

  // ----- Exactness: a marked instance is null-extended in some row -----

  /** No USING or NATURAL: every condition is an ON predicate the instance may choose. */
  predicate OnOnly(t: Table) {
    match t
    case Leaf(_) => true
    case Product(l, r) => OnOnly(l) && OnOnly(r)
    case Joined(_, l, _, cond) => cond.On? && OnOnly(l)
  }

  /** The tuple stored in the table at position `k`: all ones, but for a hole in one column. */
  function Stored(b: Binding, k: nat, hole: Option<Slot>): (r: Tuple)
    ensures |r| == |b.columns|
    ensures forall j: nat :: j < |r| ==> r[j] == if hole == Some(Slot(k, j)) then Null else Val(1)
  {
    seq(|b.columns|, j requires 0 <= j => if hole == Some(Slot(k, j)) then Null else Val(1))
  }

  /** One tuple per table, and every ON predicate true except the one at `spoiled`. */
  ghost function Witness(leaves: seq<Binding>, spoiled: nat, hole: Option<Slot>): Instance {
    Instance((k: nat) => if k < |leaves| then iset{Stored(leaves[k], k, hole)} else iset{},
             (k: nat, _: Row, _: Tuple) => k != spoiled)
  }

  /** A hole may sit in a nullable column only. */
  predicate HoleFits(leaves: seq<Binding>, hole: Option<Slot>) {
    hole.Some? ==> && hole.value.rel < |leaves| && hole.value.col < |leaves[hole.value.rel].columns|
                   && leaves[hole.value.rel].columns[hole.value.col].nullable
  }

  lemma WitnessRespects(leaves: seq<Binding>, spoiled: nat, hole: Option<Slot>)
    requires HoleFits(leaves, hole)
    ensures Respects(leaves, Witness(leaves, spoiled, hole), 0)
  {
  }

  /** The leaves of `t` are those of the whole clause from position `base` on. */
  predicate Within(t: Table, all: seq<Binding>, base: nat) {
    base + |Leaves(t)| <= |all| && all[base..base + |Leaves(t)|] == Leaves(t)
  }

  lemma WithinParts(t: Table, all: seq<Binding>, base: nat)
    requires Within(t, all, base) && !t.Leaf?
    ensures Within(t.left, all, base)
    ensures t.Product? ==> Within(t.right, all, base + |Leaves(t.left)|)
    ensures t.Joined? ==> all[base + |Leaves(t.left)|] == t.binding
  {
    var n := |Leaves(t.left)|;
    var mine := all[base..base + |Leaves(t)|];
    assert mine[..n] == Leaves(t.left) == all[base..base + n];
    if t.Product? {
      assert mine[n..] == Leaves(t.right) == all[base + n..base + |Leaves(t)|];
    } else {
      assert mine[n] == t.binding;
    }
  }

  lemma ProductRow(t: Table, a: Row, b: Row, inst: Instance, base: nat)
    requires t.Product? && |a| == |Leaves(t.left)| && |b| == |Leaves(t.right)|
    requires InRows(t.left, a, inst, base) && InRows(t.right, b, inst, base + |a|)
    ensures InRows(t, a + b, inst, base)
  {
    assert (a + b)[..|a|] == a && (a + b)[|a|..] == b;
  }

  lemma MatchedRow(t: Table, a: Row, tuple: Tuple, inst: Instance, base: nat)
    requires t.Joined? && |a| == |Leaves(t.left)| && InRows(t.left, a, inst, base)
    requires tuple in inst.tables(base + |a|) && Matches(t, inst, base, a, tuple)
    ensures InRows(t, a + [Some(tuple)], inst, base)
  {
    assert (a + [Some(tuple)])[..|a|] == a;
  }

  lemma RightExtendedRow(t: Table, a: Row, inst: Instance, base: nat)
    requires t.Joined? && |a| == |Leaves(t.left)| && InRows(t.left, a, inst, base) && t.kind.NullsRight()
    requires forall tuple :: tuple in inst.tables(base + |a|) ==> !Matches(t, inst, base, a, tuple)
    ensures InRows(t, a + [None], inst, base)
  {
    assert (a + [None])[..|a|] == a;
  }

  function Nulls(n: nat): (r: Row)
    ensures |r| == n && AllNull(r)
  {
    seq(n, _ => None)
  }

  lemma LeftExtendedRow(t: Table, tuple: Tuple, inst: Instance, base: nat)
    requires t.Joined? && t.kind.NullsLeft() && tuple in inst.tables(base + |Leaves(t.left)|)
    requires forall l0: Row :: |l0| == |Leaves(t.left)| && InRows(t.left, l0, inst, base) ==>
                               !Matches(t, inst, base, l0, tuple)
    ensures InRows(t, Nulls(|Leaves(t.left)|) + [Some(tuple)], inst, base)
  {
    var a := Nulls(|Leaves(t.left)|);
    assert (a + [Some(tuple)])[..|a|] == a;
  }

  lemma LeafRow(t: Table, all: seq<Binding>, base: nat, spoiled: nat, hole: Option<Slot>)
    requires t.Leaf? && Within(t, all, base)
    ensures InRows(t, [Some(Stored(t.binding, base, hole))], Witness(all, spoiled, hole), base)
  {
    assert all[base..base + 1][0] == all[base];
  }

  lemma OnlySpoiledFails(t: Table, all: seq<Binding>, base: nat, spoiled: nat, hole: Option<Slot>, a: Row, tuple: Tuple)
    requires t.Joined? && OnOnly(t) && Within(t, all, base) && |a| == |Leaves(t.left)|
    ensures Witness(all, spoiled, hole).tables(base + |a|) == iset{Stored(t.binding, base + |a|, hole)}
    ensures Matches(t, Witness(all, spoiled, hole), base, a, tuple) <==> t.kind.Cross? || base + |a| != spoiled
  {
    WithinParts(t, all, base);
  }

  /** Every instance is present, with the tuple stored for it. */
  predicate IsFull(row: Row, leaves: seq<Binding>, base: nat, hole: Option<Slot>) {
    |row| == |leaves| && forall k :: 0 <= k < |row| ==> row[k] == Some(Stored(leaves[k], base + k, hole))
  }

  lemma FullBeside(a: Row, b: Row, left: seq<Binding>, right: seq<Binding>, base: nat, hole: Option<Slot>)
    requires IsFull(a, left, base, hole) && IsFull(b, right, base + |a|, hole)
    ensures IsFull(a + b, left + right, base, hole)
  {
    hide Stored;
    forall k | 0 <= k < |a + b| ensures (a + b)[k] == Some(Stored((left + right)[k], base + k, hole)) {
      if k >= |a| {
        assert b[k - |a|] == Some(Stored(right[k - |a|], base + |a| + (k - |a|), hole));
      }
    }
  }

  /** With the spoiled predicate elsewhere every table has a row. */
  lemma {:induction false} RowExists(t: Table, all: seq<Binding>, base: nat, spoiled: nat, hole: Option<Slot>) returns (row: Row)
    requires OnOnly(t) && Within(t, all, base)
    requires spoiled <= base || base + |Leaves(t)| <= spoiled
    ensures InRows(t, row, Witness(all, spoiled, hole), base) && |row| == |Leaves(t)|
    ensures IsFull(row, Leaves(t), base, hole)
  {
    hide InRows, Matches, Witness, Within, IsFull, Stored;
    var inst := Witness(all, spoiled, hole);
    if t.Leaf? {
      LeafRow(t, all, base, spoiled, hole);
      FullOne(t.binding, base, hole);
      return [Some(Stored(t.binding, base, hole))];
    }
    WithinParts(t, all, base);
    var a := RowExists(t.left, all, base, spoiled, hole);
    if t.Product? {
      var b := RowExists(t.right, all, base + |a|, spoiled, hole);
      ProductRow(t, a, b, inst, base);
      FullBeside(a, b, Leaves(t.left), Leaves(t.right), base, hole);
      return a + b;
    }
    var one := Stored(t.binding, base + |a|, hole);
    OnlySpoiledFails(t, all, base, spoiled, hole, a, one);
    MatchedRow(t, a, one, inst, base);
    FullOne(t.binding, base + |a|, hole);
    FullBeside(a, [Some(one)], Leaves(t.left), [t.binding], base, hole);
    return a + [Some(one)];
  }

  lemma FullOne(b: Binding, base: nat, hole: Option<Slot>)
    ensures IsFull([Some(Stored(b, base, hole))], [b], base, hole)
  {
    hide Stored;
  }

  /** The outer join responsible for a mark, by the position of its right relation. */
  function Culprit(t: Table, i: nat): (r: nat)
    requires i < |Leaves(t)| && NullSupplied(t)[i]
    ensures 0 < r < |Leaves(t)|
  {
    match t
    case Product(l, r) =>
      if i < |Leaves(l)| then Culprit(l, i) else |Leaves(l)| + Culprit(r, i - |Leaves(l)|)
    case Joined(kind, l, _, _) =>
      if i == |Leaves(l)| || kind.NullsLeft() then |Leaves(l)| else Culprit(l, i)
  }

  /** Spoiling that join's predicate null-extends the marked instance in some row. */
  lemma {:induction false} MarkedIsExtended(t: Table, all: seq<Binding>, base: nat, i: nat, hole: Option<Slot>) returns (row: Row)
    requires OnOnly(t) && Within(t, all, base) && i < |Leaves(t)| && NullSupplied(t)[i]
    ensures InRows(t, row, Witness(all, base + Culprit(t, i), hole), base)
    ensures |row| == |Leaves(t)| && row[i].None?
    decreases t, 1
  {
    hide InRows, Matches, Witness, Within;
    WithinParts(t, all, base);
    if t.Product? {
      row := MarkedInProduct(t, all, base, i, hole);
    } else if i == |Leaves(t.left)| || t.kind.NullsLeft() {
      row := MarkedHere(t, all, base, i, hole);
    } else {
      var a := MarkedIsExtended(t.left, all, base, i, hole);
      var one := Stored(t.binding, base + |a|, hole);
      OnlySpoiledFails(t, all, base, base + Culprit(t, i), hole, a, one);
      MatchedRow(t, a, one, Witness(all, base + Culprit(t, i), hole), base);
      row := a + [Some(one)];
    }
  }

  lemma {:induction false} MarkedInProduct(t: Table, all: seq<Binding>, base: nat, i: nat, hole: Option<Slot>) returns (row: Row)
    requires OnOnly(t) && Within(t, all, base) && i < |Leaves(t)| && NullSupplied(t)[i] && t.Product?
    ensures InRows(t, row, Witness(all, base + Culprit(t, i), hole), base)
    ensures |row| == |Leaves(t)| && row[i].None?
    decreases t, 0
  {
    hide InRows, Matches, Witness, Within;
    WithinParts(t, all, base);
    var spoiled, n := base + Culprit(t, i), |Leaves(t.left)|;
    var a: Row, b: Row;
    if i < n {
      a := MarkedIsExtended(t.left, all, base, i, hole);
      b := RowExists(t.right, all, base + n, spoiled, hole);
    } else {
      a := RowExists(t.left, all, base, spoiled, hole);
      b := MarkedIsExtended(t.right, all, base + n, i - n, hole);
      assert spoiled == base + n + Culprit(t.right, i - n);
    }
    row := a + b;
    ProductRow(t, a, b, Witness(all, spoiled, hole), base);
  }

  /** The join itself extends the instance, once its predicate never holds. */
  lemma MarkedHere(t: Table, all: seq<Binding>, base: nat, i: nat, hole: Option<Slot>) returns (row: Row)
    requires OnOnly(t) && Within(t, all, base) && i < |Leaves(t)| && NullSupplied(t)[i] && t.Joined?
    requires i == |Leaves(t.left)| || t.kind.NullsLeft()
    ensures InRows(t, row, Witness(all, base + Culprit(t, i), hole), base)
    ensures |row| == |Leaves(t)| && row[i].None?
  {
    hide InRows, Matches, Witness, Within;
    WithinParts(t, all, base);
    var spoiled, n := base + Culprit(t, i), |Leaves(t.left)|;
    var inst, one := Witness(all, spoiled, hole), Stored(t.binding, base + n, hole);
    if i == n {
      var a := RowExists(t.left, all, base, spoiled, hole);
      OnlySpoiledFails(t, all, base, spoiled, hole, a, one);
      RightExtendedRow(t, a, inst, base);
      row := a + [None];
    } else {
      forall l0: Row | |l0| == n && InRows(t.left, l0, inst, base) ensures !Matches(t, inst, base, l0, one) {
        OnlySpoiledFails(t, all, base, spoiled, hole, l0, one);
      }
      OnlySpoiledFails(t, all, base, spoiled, hole, Nulls(n), one);
      LeftExtendedRow(t, one, inst, base);
      row := Nulls(n) + [Some(one)];
    }
  }

  ghost predicate CanBeNullExtended(t: Table, i: nat) {
    exists inst: Instance, row: Row :: NullExtends(t, i, inst, row)
  }

  ghost predicate NullExtends(t: Table, i: nat, inst: Instance, row: Row) {
    Respects(Leaves(t), inst, 0) && InRows(t, row, inst, 0) && i < |row| && row[i].None?
  }

  /** The marks are sound and exact: an instance is unmarked if and only if no choice of
      table contents and ON predicates yields a row in which it is null-extended. */
  lemma {:induction false} MarksAreExact(t: Table, i: nat)
    requires OnOnly(t) && i < |Leaves(t)|
    ensures NullSupplied(t)[i] <==> CanBeNullExtended(t, i)
  {
    var all := Leaves(t);
    if NullSupplied(t)[i] {
      assert all[0..|all|] == all;
      var row := MarkedIsExtended(t, all, 0, i, None);
      WitnessRespects(all, Culprit(t, i), None);
      assert NullExtends(t, i, Witness(all, Culprit(t, i), None), row);
    } else {
      forall inst: Instance, row: Row ensures !NullExtends(t, i, inst, row) {
        if NullExtends(t, i, inst, row) {
          UnmarkedIsPresent(t, row, inst, 0, i);
        }
      }
    }
  }
}
