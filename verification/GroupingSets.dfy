/** ROLLUP, CUBE and GROUPING SETS: their keys are NULL in the super-aggregate rows, so output that
    reads one is re-marked nullable. */
module GroupingSets {
  import opened Wrappers
  import opened Identifier
  import opened Types
  import opened Ast
  import opened Semantics
  import opened Infer
  import opened Congruence
  import opened Scopes
  import opened References
  import opened Grouping
  import opened GroupingTheorems
  import opened GroupingExact

  // ----- The GROUP BY clause -----

  /** A written key, or a wrapper around more of them: a grouping element (ROLLUP, CUBE,
      GROUPING SETS) or a mere parenthesis. */
  datatype GroupItem = Leaf(node: Node) | Wrapper(isElement: bool, items: seq<GroupItem>)

  datatype EffectiveKey = EffectiveKey(node: Node, inSet: bool)

  /** The keys of an item: its leaves, each marked when a grouping element encloses it. */
  function KeysUnder(item: GroupItem, inSet: bool): multiset<EffectiveKey>
    decreases item, 1
  {
    match item
    case Leaf(n) => multiset{EffectiveKey(n, inSet)}
    case Wrapper(isElement, items) => KeysOfItems(items, inSet || isElement)
  }

  function KeysOfItems(items: seq<GroupItem>, inSet: bool): multiset<EffectiveKey>
    decreases items, 0
  {
    if items == [] then multiset{} else KeysUnder(items[0], inSet) + KeysOfItems(items[1..], inSet)
  }

  datatype WorkItem = WorkItem(item: GroupItem, inSet: bool)

  function KeysOfWork(stack: seq<WorkItem>): multiset<EffectiveKey> {
    if stack == [] then multiset{}
    else
      var top := stack[|stack| - 1];
      KeysOfWork(stack[..|stack| - 1]) + KeysUnder(top.item, top.inSet)
  }

  function Size(item: GroupItem): nat
    decreases item, 1
  {
    match item
    case Leaf(_) => 1
    case Wrapper(_, items) => 1 + SizeOf(items)
  }

  function SizeOf(items: seq<GroupItem>): nat
    decreases items, 0
  {
    if items == [] then 0 else Size(items[0]) + SizeOf(items[1..])
  }

  function WorkSize(stack: seq<WorkItem>): nat {
    if stack == [] then 0 else WorkSize(stack[..|stack| - 1]) + Size(stack[|stack| - 1].item)
  }

  lemma PushWork(stack: seq<WorkItem>, w: WorkItem)
    ensures KeysOfWork(stack + [w]) == KeysOfWork(stack) + KeysUnder(w.item, w.inSet)
    ensures WorkSize(stack + [w]) == WorkSize(stack) + Size(w.item)
  {
    assert (stack + [w])[..|stack|] == stack;
  }

  /** Push every item, in order. */
  method PushAll(stack: seq<WorkItem>, items: seq<GroupItem>, inSet: bool) returns (r: seq<WorkItem>)
    ensures KeysOfWork(r) == KeysOfWork(stack) + KeysOfItems(items, inSet)
    ensures WorkSize(r) == WorkSize(stack) + SizeOf(items)
  {
    hide KeysUnder, Size, KeysOfWork, WorkSize;
    r := stack;
    for i := 0 to |items|
      invariant KeysOfWork(r) + KeysOfItems(items[i..], inSet) == KeysOfWork(stack) + KeysOfItems(items, inSet)
      invariant WorkSize(r) + SizeOf(items[i..]) == WorkSize(stack) + SizeOf(items)
    {
      assert items[i..][1..] == items[i + 1..];
      PushWork(r, WorkItem(items[i], inSet));
      r := r + [WorkItem(items[i], inSet)];
    }
    assert items[|items|..] == [];
  }

  /** The keys that lie in a grouping set, in order. */
  function MarkedNodes(keys: seq<EffectiveKey>): seq<Node> {
    if keys == [] then []
    else
      var last := keys[|keys| - 1];
      MarkedNodes(keys[..|keys| - 1]) + if last.inSet then [last.node] else []
  }

  /** The worklist that flattens the clause finds every leaf once, marked as it should be, and
      lists the marked ones apart. */
  method EffectiveKeys(clause: seq<GroupItem>) returns (keys: seq<EffectiveKey>, setKeys: seq<Node>)
    ensures multiset(keys) == KeysOfItems(clause, false)
    ensures setKeys == MarkedNodes(keys)
  {
    hide SizeOf, Size, KeysOfItems;
    keys, setKeys := [], [];
    var stack := PushAll([], clause, false);
    while stack != []
      invariant multiset(keys) + KeysOfWork(stack) == KeysOfItems(clause, false)
      invariant setKeys == MarkedNodes(keys)
      decreases WorkSize(stack)
    {
      var top := stack[|stack| - 1];
      PopWork(stack);
      stack := stack[..|stack| - 1];
      match top.item {
        case Wrapper(isElement, items) => stack := PushAll(stack, items, top.inSet || isElement);
        case Leaf(n) =>
          assert (keys + [EffectiveKey(n, top.inSet)])[..|keys|] == keys;
          keys := keys + [EffectiveKey(n, top.inSet)];
          if top.inSet {
            setKeys := setKeys + [n];
          }
      }
    }
  }

  lemma PopWork(stack: seq<WorkItem>)
    requires stack != []
    ensures var rest, top := stack[..|stack| - 1], stack[|stack| - 1];
            && KeysOfWork(stack) == KeysOfWork(rest) + KeysUnder(top.item, top.inSet)
            && WorkSize(stack) == WorkSize(rest) + Size(top.item)
            && (top.item.Wrapper? ==> Size(top.item) == 1 + SizeOf(top.item.items))
            && (top.item.Wrapper? ==> KeysUnder(top.item, top.inSet) == KeysOfItems(top.item.items, top.inSet || top.item.isElement))
            && (top.item.Leaf? ==> Size(top.item) == 1 && KeysUnder(top.item, top.inSet) == multiset{EffectiveKey(top.item.node, top.inSet)})
  {
  }

  // ----- Which output reads a key -----

  /** Does the expression read a column with one of these identities, outside aggregates and
      GROUPING? */
  predicate ReadsKey(n: Node, ids: seq<Identity>, chain: seq<seq<Binding>>, inAggregate: bool, d: nat)
    decreases n, 1
  {
    if ids == [] || d >= MAX_DEPTH || n.kind.Subquery? then false
    else if n.kind.FunctionCall? then
      Fold(n.text) != "grouping" && ReadsKeyFrom(n, 0, ids, chain, inAggregate || IsAggregate(n), d + 1)
    else if n.kind.ColumnRef? then !inAggregate && IdentityOf(chain, n.text) in ids
    else ReadsKeyFrom(n, 0, ids, chain, inAggregate, d + 1)
  }

  predicate ReadsKeyFrom(n: Node, i: nat, ids: seq<Identity>, chain: seq<seq<Binding>>, inAggregate: bool, d: nat)
    decreases n, 0, |n.children| - i
  {
    i < |n.children| && (ReadsKey(n.children[i], ids, chain, inAggregate, d) || ReadsKeyFrom(n, i + 1, ids, chain, inAggregate, d))
  }

  /** The walk, sharing the expression depth counter. */
  class KeyReader {
    const ids: seq<Identity>
    const chain: seq<seq<Binding>>
    var depth: nat

    constructor (ids: seq<Identity>, chain: seq<seq<Binding>>)
      ensures this.ids == ids && this.chain == chain && depth == 0
    {
      this.ids, this.chain, depth := ids, chain, 0;
    }

    method ExprReadsGroupingKey(n: Node, inAggregate: bool) returns (r: bool)
      modifies this
      ensures r == ReadsKey(n, ids, chain, inAggregate, old(depth)) && depth == old(depth)
      decreases n, 1
    {
      hide IsAggregate, Fold, IdentityOf;
      if ids == [] || depth >= MAX_DEPTH || n.kind.Subquery? {
        return false;
      }
      if n.kind.FunctionCall? {
        if Fold(n.text) == "grouping" {
          return false;
        }
        r := SomeChildReads(n, inAggregate || IsAggregate(n));
      } else if n.kind.ColumnRef? {
        r := !inAggregate && IdentityOf(chain, n.text) in ids;
      } else {
        r := SomeChildReads(n, inAggregate);
      }
    }

    method SomeChildReads(n: Node, inAggregate: bool) returns (r: bool)
      modifies this
      ensures r == ReadsKeyFrom(n, 0, ids, chain, inAggregate, old(depth) + 1) && depth == old(depth)
      decreases n, 0
    {
      hide ReadsKey;
      depth := depth + 1;
      r := false;
      var i := 0;
      while i < |n.children| && !r
        invariant i <= |n.children| && depth == old(depth) + 1
        invariant ReadsKeyFrom(n, 0, ids, chain, inAggregate, depth) == (r || ReadsKeyFrom(n, i, ids, chain, inAggregate, depth))
      {
        r := ExprReadsGroupingKey(n.children[i], inAggregate);
        i := i + 1;
      }
      depth := depth - 1;
    }
  }

  // ----- Re-marking the output -----

  /** An output column: the expression it comes from, or the star column it was expanded from. */
  datatype Output = FromExpr(node: Node, nullable: bool) | FromStar(rel: nat, col: nat, nullable: bool)

  predicate OutputInBlock(chain: seq<seq<Binding>>, o: Output) {
    o.FromStar? ==> chain != [] && o.rel < |chain[0]| && o.col < |chain[0][o.rel].columns|
  }

  function OutputIdentity(chain: seq<seq<Binding>>, o: Output): Identity
    requires OutputInBlock(chain, o)
  {
    match o
    case FromExpr(n, _) => NodeIdentity(chain, n)
    case FromStar(i, j, _) => Identity(chain[0][i].columns[j].tableId, chain[0][i].columns[j].columnId)
  }

  /** The identities of the keys that have one. */
  function SetIds(nodes: seq<Node>, chain: seq<seq<Binding>>): seq<Identity> {
    if nodes == [] then []
    else
      var id := NodeIdentity(chain, nodes[|nodes| - 1]);
      SetIds(nodes[..|nodes| - 1], chain) + if id == Identity(0, 0) then [] else [id]
  }

  function SetNullable(o: Output, nullable: bool): Output {
    match o
    case FromExpr(n, _) => FromExpr(n, nullable)
    case FromStar(i, j, _) => FromStar(i, j, nullable)
  }

  function Remark(o: Output, ids: seq<Identity>, chain: seq<seq<Binding>>): Output
    requires OutputInBlock(chain, o)
  {
    SetNullable(o, o.nullable || OutputIdentity(chain, o) in ids || (o.FromExpr? && ReadsKey(o.node, ids, chain, false, 0)))
  }

  /** The two re-marking passes: by identity, key by key, then by expression. */
  method RemarkOutput(output: seq<Output>, keys: seq<Node>, chain: seq<seq<Binding>>) returns (r: seq<Output>)
    requires forall o <- output :: OutputInBlock(chain, o)
    ensures |r| == |output|
    ensures forall k :: 0 <= k < |r| ==> r[k] == Remark(output[k], SetIds(keys, chain), chain)
  {
    hide ReadsKey, NodeIdentity, IdentityOf;
    r := output;
    var ids: seq<Identity> := [];
    for m := 0 to |keys|
      invariant |r| == |output| && ids == SetIds(keys[..m], chain)
      invariant forall k :: 0 <= k < |r| ==> OutputInBlock(chain, output[k])
      invariant forall k :: 0 <= k < |r| ==> r[k] == MarkById(output[k], ids, chain)
    {
      assert keys[..m + 1][..m] == keys[..m];
      var id := NodeIdentity(chain, keys[m]);
      if id != Identity(0, 0) {
        ids := ids + [id];
        r := seq(|r|, k requires 0 <= k < |r| && |r| == |output| && OutputInBlock(chain, output[k]) =>
          if OutputIdentity(chain, output[k]) == id then SetNullable(r[k], true) else r[k]);
      }
    }
    assert keys[..|keys|] == keys;
    var reader := new KeyReader(ids, chain);
    for k := 0 to |r|
      invariant |r| == |output| && reader.depth == 0
      invariant forall m :: 0 <= m < k ==> r[m] == Remark(output[m], ids, chain)
      invariant forall m :: k <= m < |r| ==> r[m] == MarkById(output[m], ids, chain)
    {
      if r[k].FromExpr? {
        var touched := reader.ExprReadsGroupingKey(r[k].node, false);
        if touched {
          r := r[k := SetNullable(r[k], true)];
        }
      }
    }
  }

  function MarkById(o: Output, ids: seq<Identity>, chain: seq<seq<Binding>>): Output
    requires OutputInBlock(chain, o)
  {
    SetNullable(o, o.nullable || OutputIdentity(chain, o) in ids)
  }

  // ----- Soundness -----

  /** The super-aggregate row: the columns of some grouping-set keys are NULL. */
  function Nulled(row: Row, slots: set<Slot>): Row {
    (s: Slot) => if s in slots then Null else row(s)
  }

  /** The slots are columns of the keys, each with a catalogue identity. */
  predicate SlotsOfKeys(slots: set<Slot>, keys: seq<Node>, chain: seq<seq<Binding>>) {
    forall s :: s in slots ==> IsKeySlot(s, keys, chain)
  }

  predicate IsKeySlot(s: Slot, keys: seq<Node>, chain: seq<seq<Binding>>) {
    exists k :: 0 <= k < |keys| && keys[k].kind.ColumnRef? && SlotOf(chain, keys[k].text) == Some(s)
                && IdentityOf(chain, keys[k].text) != Identity(0, 0)
  }

  lemma {:induction false} KeyIdIn(keys: seq<Node>, chain: seq<seq<Binding>>, k: nat)
    requires k < |keys| && NodeIdentity(chain, keys[k]) != Identity(0, 0)
    ensures NodeIdentity(chain, keys[k]) in SetIds(keys, chain)
  {
    hide NodeIdentity;
    if k < |keys| - 1 {
      KeyIdIn(keys[..|keys| - 1], chain, k);
    }
  }

  lemma {:induction false} SetIdsAreReal(keys: seq<Node>, chain: seq<seq<Binding>>)
    ensures Identity(0, 0) !in SetIds(keys, chain)
  {
    hide NodeIdentity;
    if keys != [] {
      SetIdsAreReal(keys[..|keys| - 1], chain);
    }
  }

  lemma SlotIdentity(chain: seq<seq<Binding>>, a: string, b: string)
    requires SlotOf(chain, a) == SlotOf(chain, b)
    ensures IdentityOf(chain, a) == IdentityOf(chain, b)
  {
  }

  lemma UnreadSlot(text: string, slots: set<Slot>, keys: seq<Node>, chain: seq<seq<Binding>>)
    requires SlotsOfKeys(slots, keys, chain) && IdentityOf(chain, text) !in SetIds(keys, chain)
    ensures SlotOf(chain, text).Some? ==> SlotOf(chain, text).value !in slots
  {
    hide SlotOf, IdentityOf;
    if SlotOf(chain, text).Some? && SlotOf(chain, text).value in slots {
      var s := SlotOf(chain, text).value;
      assert IsKeySlot(s, keys, chain);
      var k :| 0 <= k < |keys| && keys[k].kind.ColumnRef? && SlotOf(chain, keys[k].text) == Some(s) && IdentityOf(chain, keys[k].text) != Identity(0, 0);
      SlotIdentity(chain, text, keys[k].text);
      KeyIdIn(keys, chain, k);
    }
  }

  predicate NoSubqueries(n: Node) {
    !n.kind.Subquery? && !(n.kind.Unary? && n.kind.un.Exists?) && forall c <- n.children :: NoSubqueries(c)
  }

  lemma UnreadAt(n: Node, i: nat, j: nat, ids: seq<Identity>, chain: seq<seq<Binding>>, inAggregate: bool, d: nat)
    requires !ReadsKeyFrom(n, i, ids, chain, inAggregate, d) && i <= j < |n.children|
    ensures !ReadsKey(n.children[j], ids, chain, inAggregate, d)
    decreases j - i
  {
    hide ReadsKey;
    if i < j {
      UnreadAt(n, i + 1, j, ids, chain, inAggregate, d);
    }
  }

  lemma UnreadChild(n: Node, i: nat, ids: seq<Identity>, chain: seq<seq<Binding>>, d: nat)
    requires !ReadsKey(n, ids, chain, false, d) && NoSubqueries(n) && d < MAX_DEPTH && i < |n.children|
    requires !IsGroupCall(n) && !n.kind.ColumnRef?
    ensures !ReadsKey(n.children[i], ids, chain, false, d + 1) && NoSubqueries(n.children[i])
  {
    hide Fold, IsAggregateName;
    if ids != [] {
      UnreadAt(n, 0, i, ids, chain, false, d + 1);
    }
  }

  /** What reads no grouping-set key has its ordinary value in every super-aggregate row. */
  lemma {:induction false} UnreadIsUnchanged(n: Node, keys: seq<Node>, slots: set<Slot>, chain: seq<seq<Binding>>, d: nat, base: Env, row: Row)
    requires SlotsOfKeys(slots, keys, chain) && NoSubqueries(n) && d + Height(n) <= MAX_DEPTH
    requires !ReadsKey(n, SetIds(keys, chain), chain, false, d)
    ensures Eval(n, InRow(base, chain, Nulled(row, slots))) == Eval(n, InRow(base, chain, row))
    decreases n, 1
  {
    hide Eval, InRow, IsGroupCall, SameExecution, SlotOf, SlotsOfKeys, SetIds, IdentityOf, Read;
    var a, b := InRow(base, chain, Nulled(row, slots)), InRow(base, chain, row);
    SameExecutionOf(base, chain, Nulled(row, slots), row);
    if IsGroupCall(n) {
      GroupCallValue(n, a, b);
    } else if n.kind.ColumnRef? {
      ReadsColumn(n, base, chain, Nulled(row, slots));
      ReadsColumn(n, base, chain, row);
      UnreadColumn(n, keys, slots, chain, d);
      SlotReads(chain, Nulled(row, slots), n.text);
      SlotReads(chain, row, n.text);
    } else {
      forall i | 0 <= i < |n.children| ensures SamePart(n.children[i], n.children[i], a, b) {
        UnreadPart(n, i, keys, slots, chain, d, base, row);
      }
      SameValue(n, n, a, b);
    }
  }

  lemma UnreadColumn(n: Node, keys: seq<Node>, slots: set<Slot>, chain: seq<seq<Binding>>, d: nat)
    requires SlotsOfKeys(slots, keys, chain) && n.kind.ColumnRef? && d < MAX_DEPTH
    requires !ReadsKey(n, SetIds(keys, chain), chain, false, d)
    ensures SlotOf(chain, n.text).Some? ==> SlotOf(chain, n.text).value !in slots
  {
    hide SlotOf, SetIds, SlotsOfKeys, IdentityOf;
    UnreadSlot(n.text, slots, keys, chain);
  }

  lemma {:induction false} UnreadPart(n: Node, i: nat, keys: seq<Node>, slots: set<Slot>, chain: seq<seq<Binding>>, d: nat, base: Env, row: Row)
    requires SlotsOfKeys(slots, keys, chain) && NoSubqueries(n) && d + Height(n) <= MAX_DEPTH
    requires !ReadsKey(n, SetIds(keys, chain), chain, false, d) && i < |n.children|
    requires !IsGroupCall(n) && !n.kind.ColumnRef?
    ensures SamePart(n.children[i], n.children[i], InRow(base, chain, Nulled(row, slots)), InRow(base, chain, row))
    decreases n, 0
  {
    hide Eval, InRow, IsGroupCall, SlotsOfKeys, SetIds, ReadsKey, NoSubqueries, Height;
    var c, ids := n.children[i], SetIds(keys, chain);
    HeightStep(n, i);
    UnreadChild(n, i, ids, chain, d);
    UnreadIsUnchanged(c, keys, slots, chain, d + 1, base, row);
    if IsWhen(c) {
      WhenIsNoCall(c);
      forall j: nat | j < 2 ensures EvalChild(c, j, InRow(base, chain, Nulled(row, slots))) == EvalChild(c, j, InRow(base, chain, row)) {
        if j < |c.children| {
          HeightStep(c, j);
          UnreadChild(c, j, ids, chain, d + 1);
          UnreadIsUnchanged(c.children[j], keys, slots, chain, d + 2, base, row);
        }
      }
    }
  }

  /** The value of an output column. */
  function OutputValue(o: Output, chain: seq<seq<Binding>>, base: Env, row: Row): Value {
    match o
    case FromExpr(n, _) => Eval(n, InRow(base, chain, row))
    case FromStar(i, j, _) => row(Slot(0, i, j))
  }

  /** What inference claims of the output before re-marking. */
  ghost predicate Claimed(o: Output, f: Facts, row: Row) {
    !o.nullable ==>
      match o
      case FromExpr(n, _) => NullOf(n, 0, f) == NOT_NULL && Recognised(n, f) && NoSubqueries(n) && Height(n) <= MAX_DEPTH
      case FromStar(i, j, _) => row(Slot(0, i, j)) != Null
  }

  lemma StarUnread(chain: seq<seq<Binding>>, i: nat, j: nat, keys: seq<Node>, slots: set<Slot>)
    requires chain != [] && i < |chain[0]| && j < |chain[0][i].columns| && SlotsOfKeys(slots, keys, chain)
    requires OutputIdentity(chain, FromStar(i, j, false)) !in SetIds(keys, chain)
    ensures Slot(0, i, j) !in slots
  {
    hide SlotOf, SetIds;
    var s := Slot(0, i, j);
    if s in slots {
      assert IsKeySlot(s, keys, chain);
      var k :| 0 <= k < |keys| && keys[k].kind.ColumnRef? && SlotOf(chain, keys[k].text) == Some(s) && IdentityOf(chain, keys[k].text) != Identity(0, 0);
      KeyIdIn(keys, chain, k);
    }
  }

  /** An output column left NOT NULL is not NULL in any super-aggregate row, whichever of the
      identified keys are nulled there. */
  lemma NotNullSurvivesGroupingSets(o: Output, keys: seq<Node>, slots: set<Slot>, chain: seq<seq<Binding>>, f: Facts, base: Env, row: Row)
    requires OutputInBlock(chain, o) && Claimed(o, f, row) && SlotsOfKeys(slots, keys, chain)
    requires Respects(InRow(base, chain, row), f)
    requires !Remark(o, SetIds(keys, chain), chain).nullable
    ensures OutputValue(o, chain, base, Nulled(row, slots)) != Null
  {
    hide Respects, SlotsOfKeys, SetIds, ReadsKey, Eval, InRow, NullOf, Recognised, NoSubqueries, Height, NodeIdentity;
    if o.FromExpr? {
      UnreadIsUnchanged(o.node, keys, slots, chain, 0, base, row);
      NotNullIsSound(o.node, 0, f, InRow(base, chain, row));
    } else {
      StarUnread(chain, o.rel, o.col, keys, slots);
    }
  }

  /** A bare key left NOT NULL by inference is re-marked exactly when it has an identity; its
      value in the row that nulls it is NULL either way. */
  lemma KeyIsRemarkedIfIdentified(keys: seq<Node>, k: nat, chain: seq<seq<Binding>>, base: Env, row: Row)
    requires k < |keys| && keys[k].kind.ColumnRef? && SlotOf(chain, keys[k].text).Some?
    ensures Remark(FromExpr(keys[k], false), SetIds(keys, chain), chain).nullable <==> IdentityOf(chain, keys[k].text) != Identity(0, 0)
    ensures OutputValue(FromExpr(keys[k], false), chain, base, Nulled(row, {SlotOf(chain, keys[k].text).value})) == Null
  {
    hide SlotOf, SetIds, IdentityOf, InRow, Eval;
    var row' := Nulled(row, {SlotOf(chain, keys[k].text).value});
    ReadsColumn(keys[k], base, chain, row');
    SlotReads(chain, row', keys[k].text);
    SetIdsAreReal(keys, chain);
    if NodeIdentity(chain, keys[k]) != Identity(0, 0) {
      KeyIdIn(keys, chain, k);
    }
  }

  /** `SELECT id FROM (SELECT 1 AS id) s GROUP BY ROLLUP (id)`: the column has no identity and
      stays NOT NULL, though it is NULL in the grand total. */
  lemma UnidentifiedKeyExample(base: Env, row: Row)
    ensures var chain := [[Binding("s", "", [Column("id", false, 0, 0, false, false, false)], false)]];
            && !Remark(FromExpr(Ref("id"), false), SetIds([Ref("id")], chain), chain).nullable
            && OutputValue(FromExpr(Ref("id"), false), chain, base, Nulled(row, {Slot(0, 0, 0)})) == Null
  {
    hide SlotOf, SetIds, Remark, OutputValue, Nulled, BareAnswer;
    var s := Binding("s", "", [Column("id", false, 0, 0, false, false, false)], false);
    var chain := [[s]];
    OneColumn(s);
    DotFree();
    SingleRelation(chain, s, "id", 0);
    KeyIsRemarkedIfIdentified([Ref("id")], 0, chain, base, row);
  }
}
