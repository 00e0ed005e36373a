/** Grouping legality is sound: an expression the pass accepts has one value in each group. */
module GroupingTheorems {
  import opened Wrappers
  import opened Identifier
  import opened Types
  import opened Ast
  import opened Semantics
  import opened Infer
  import opened Congruence
  import opened Scopes
  import opened References
  import opened Grouping

  // ----- Rows -----

  /** A row of the block and of the blocks around it: a value for every column. */
  type Row = Slot -> Value

  function Read(chain: seq<seq<Binding>>, row: Row, text: string): Value {
    match SlotOf(chain, text)
    case Some(s) => row(s)
    case None => Null
  }

  /** The execution `base`, with columns read from `row`. */
  function InRow(base: Env, chain: seq<seq<Binding>>, row: Row): Env {
    base.(column := (text: string) => Read(chain, row, text))
  }

  function KeyValue(src: KeySource, chain: seq<seq<Binding>>, base: Env, row: Row): Value {
    match src
    case Written(n) => Eval(n, InRow(base, chain, row))
    case Item(n, _) => Eval(n, InRow(base, chain, row))
    case StarColumn(i, j) => row(Slot(0, i, j))
  }

  /** The two rows fall into one group. */
  predicate SameGroup(srcs: seq<KeySource>, chain: seq<seq<Binding>>, base: Env, r: Row, s: Row) {
    forall k :: 0 <= k < |srcs| ==> KeyValue(srcs[k], chain, base, r) == KeyValue(srcs[k], chain, base, s)
  }

  // ----- What the code relies on -----

  /** No reference reaches an enclosing block. */
  predicate IsLocal(chain: seq<seq<Binding>>, text: string) {
    var s := SlotOf(chain, text);
    s.Some? ==> s.value.level == 0
  }

  /** No subquery, and every column reference is local. */
  predicate Grounded(n: Node, chain: seq<seq<Binding>>) {
    && !n.kind.Subquery? && !(n.kind.Unary? && n.kind.un.Exists?)
    && (n.kind.ColumnRef? ==> IsLocal(chain, n.text))
    && forall c <- n.children :: Grounded(c, chain)
  }

  predicate GroupFree(n: Node) {
    !IsGroupCall(n) && forall c <- n.children :: GroupFree(c)
  }

  predicate SoundBlock(chain: seq<seq<Binding>>) {
    chain != [] && Unmerged(chain[0]) && DistinctlyNamed(chain[0])
  }

  predicate SoundSource(src: KeySource, chain: seq<seq<Binding>>) {
    && InBlock(chain, src)
    && match src
       case StarColumn(i, j) => LastDot(chain[0][i].columns[j].name).None?
       case Written(n) => Grounded(n, chain) && GroupFree(n) && !IsWhen(n)
       case Item(n, _) => Grounded(n, chain) && GroupFree(n) && !IsWhen(n)
  }

  predicate SoundSources(srcs: seq<KeySource>, chain: seq<seq<Binding>>) {
    forall k :: 0 <= k < |srcs| ==> SoundSource(srcs[k], chain)
  }

  predicate IsExpressionKey(src: KeySource) {
    !src.StarColumn? && !src.node.kind.ColumnRef?
  }

  /** The column a key is, if it is one. */
  function KeySlotOf(src: KeySource, chain: seq<seq<Binding>>): Option<Slot> {
    if IsExpressionKey(src) then None else KeySlot(src, chain)
  }

  function KeySlot(src: KeySource, chain: seq<seq<Binding>>): Option<Slot>
    requires !IsExpressionKey(src)
  {
    if src.StarColumn? then Some(Slot(0, src.rel, src.col)) else SlotOf(chain, src.node.text)
  }

  /** Some key is the very column the reference denotes. */
  predicate Keyed(text: string, srcs: seq<KeySource>, chain: seq<seq<Binding>>) {
    SlotOf(chain, text).Some? && exists k :: 0 <= k < |srcs| && KeySlotOf(srcs[k], chain) == SlotOf(chain, text)
  }

  /** A key that is not a column shares its text with the reference. */
  predicate Collides(text: string, srcs: seq<KeySource>, chain: seq<seq<Binding>>)
    requires SoundSources(srcs, chain)
  {
    exists k :: 0 <= k < |srcs| && IsExpressionKey(srcs[k]) && IEquals(text, KeyOf(chain, srcs[k]).text)
  }

  /** A column reference of `n` that collides with an expression key is a key itself. */
  predicate NoCollision(n: Node, srcs: seq<KeySource>, chain: seq<seq<Binding>>)
    requires SoundSources(srcs, chain)
  {
    && (n.kind.ColumnRef? && Collides(n.text, srcs, chain) ==> Keyed(n.text, srcs, chain))
    && forall c <- n.children :: NoCollision(c, srcs, chain)
  }

  function Height(n: Node): (h: nat)
    ensures forall c <- n.children :: Height(c) < h
    decreases n, 1
  {
    1 + HeightOf(n, |n.children|)
  }

  function HeightOf(n: Node, k: nat): (h: nat)
    requires k <= |n.children|
    ensures forall i :: 0 <= i < k ==> Height(n.children[i]) <= h
    decreases n, 0, k
  {
    if k == 0 then 0
    else
      var before, last := HeightOf(n, k - 1), Height(n.children[k - 1]);
      if before > last then before else last
  }

  // ----- One column -----

  lemma LocalSlot(chain: seq<seq<Binding>>, text: string)
    requires IsLocal(chain, text) && IdentityOf(chain, text).column != 0
    ensures SlotOf(chain, text).Some? && SlotOf(chain, text).value.level == 0
  {
  }

  lemma SameRefSameSlot(chain: seq<seq<Binding>>, a: string, b: string)
    requires SoundBlock(chain) && IsLocal(chain, a) && IsLocal(chain, b) && SameColumnRef(chain, a, b)
    ensures SlotOf(chain, a) == SlotOf(chain, b)
  {
    hide SlotOf, NameOf, QualifierOf, IsLocal;
    if IEquals(a, b) {
      SameTextSameSlot(chain, a, b);
    } else {
      LocalSlot(chain, a);
      LocalSlot(chain, b);
      SameNameSameSlot(chain, a, b, SlotOf(chain, a).value, SlotOf(chain, b).value);
    }
  }

  lemma UnqualifiedFolded(a: string, b: string)
    requires IEquals(a, b) && QualifierOf(b) == ""
    ensures QualifierOf(a) == ""
  {
    SplitFolded(a, b);
    assert |QualifierOf(a)| == |Fold(QualifierOf(a))| == |Fold(QualifierOf(b))|;
  }

  /** A reference matching a column key denotes the key's column. */
  lemma MatchedColumnIsKey(src: KeySource, chain: seq<seq<Binding>>, text: string)
    requires SoundBlock(chain) && SoundSource(src, chain) && !IsExpressionKey(src) && IsLocal(chain, text)
    requires KeyMatches(KeyOf(chain, src), chain, text)
    ensures SlotOf(chain, text).Some? ==> KeySlot(src, chain) == SlotOf(chain, text)
  {
    hide SlotOf, NameOf, QualifierOf, IsLocal, GroupFree;
    if src.StarColumn? {
      if SlotOf(chain, text).Some? {
        MatchedStarIsKey(src, chain, text);
      }
    } else {
      var t := src.node.text;
      assert IsLocal(chain, t);
      assert SameColumnRef(chain, text, t);
      SameRefSameSlot(chain, text, t);
    }
  }

  lemma NamedKeyQualifier(chain: seq<seq<Binding>>, src: KeySource)
    requires SoundBlock(chain) && SoundSource(src, chain) && src.StarColumn? && InBlock(chain, src)
    ensures var k := KeyOf(chain, src);
            && KeyQualifier(k) == chain[0][src.rel].Qualifier() && k.text == chain[0][src.rel].columns[src.col].name
            && QualifierOf(k.text) == "" && NameOf(k.text) == k.text
  {
  }

  lemma MatchedStarIsKey(src: KeySource, chain: seq<seq<Binding>>, text: string)
    requires SoundBlock(chain) && SoundSource(src, chain) && src.StarColumn? && InBlock(chain, src)
    requires IsLocal(chain, text) && SlotOf(chain, text).Some? && KeyMatches(KeyOf(chain, src), chain, text)
    ensures Some(Slot(0, src.rel, src.col)) == SlotOf(chain, text)
  {
    hide SlotOf, IdentityOf, Unmerged, NameOf, QualifierOf, Fold, KeyOf, SoundSource, DistinctlyNamed, KeyQualifier;
    NamedKeyQualifier(chain, src);
    var k := KeyOf(chain, src);
    if IEquals(text, k.text) {
      UnqualifiedFolded(text, k.text);
      SplitFolded(text, k.text);
    }
    StarColumnIsSlot(chain, src.rel, src.col, text, SlotOf(chain, text).value);
  }

  // ----- Whole keys -----

  lemma EqualFrom(e: Node, k: Node, i: nat, j: nat, chain: seq<seq<Binding>>, d: nat)
    requires |e.children| == |k.children| && GroupEqualFrom(e, k, i, chain, d) && i <= j < |e.children|
    ensures GroupEqual(e.children[j], k.children[j], chain, d)
    decreases j - i
  {
    hide GroupEqual;
    if i < j {
      EqualFrom(e, k, i + 1, j, chain, d);
    }
  }

  lemma EqualChild(e: Node, k: Node, j: nat, chain: seq<seq<Binding>>, d: nat)
    requires GroupEqual(e, k, chain, d) && !e.kind.ColumnRef? && j < |e.children|
    ensures |e.children| == |k.children| && GroupEqual(e.children[j], k.children[j], chain, d + 1)
  {
    EqualFrom(e, k, 0, j, chain, d + 1);
  }

  lemma EqualHead(e: Node, k: Node, chain: seq<seq<Binding>>, d: nat)
    requires GroupEqual(e, k, chain, d)
    ensures e.kind == k.kind && (e.kind.ColumnRef? || (SameHead(e, k) && |e.children| == |k.children|))
    ensures e.kind.ColumnRef? ==> SameColumnRef(chain, e.text, k.text)
  {
  }

  lemma GroundedChild(n: Node, i: nat, chain: seq<seq<Binding>>)
    requires Grounded(n, chain) && i < |n.children|
    ensures Grounded(n.children[i], chain)
  {
  }

  lemma GroupFreeChild(n: Node, i: nat)
    requires GroupFree(n) && i < |n.children|
    ensures GroupFree(n.children[i])
  {
  }

  lemma SameExecutionOf(base: Env, chain: seq<seq<Binding>>, r: Row, s: Row)
    ensures SameExecution(InRow(base, chain, r), InRow(base, chain, s))
  {
  }

  lemma ColumnValue(n: Node, env: Env)
    requires n.kind.ColumnRef?
    ensures Eval(n, env) == env.column(n.text)
  {
  }

  lemma ReadsColumn(n: Node, base: Env, chain: seq<seq<Binding>>, row: Row)
    requires n.kind.ColumnRef?
    ensures Eval(n, InRow(base, chain, row)) == Read(chain, row, n.text)
  {
    hide Eval, Read;
    ColumnValue(n, InRow(base, chain, row));
  }

  /** An expression recognised as a key has the key's value in every row. */
  lemma {:induction false} EqualIsSameValue(e: Node, k: Node, chain: seq<seq<Binding>>, d: nat, base: Env, row: Row)
    requires SoundBlock(chain) && Grounded(e, chain) && Grounded(k, chain) && GroupFree(k)
    requires GroupEqual(e, k, chain, d)
    ensures Eval(e, InRow(base, chain, row)) == Eval(k, InRow(base, chain, row))
    decreases e, 1
  {
    hide SoundBlock, GroupEqual, Eval, SameExecution, InRow, IsLocal, Read, SlotOf, IsGroupCall;
    EqualHead(e, k, chain, d);
    if e.kind.ColumnRef? {
      SameRefSameSlot(chain, e.text, k.text);
      SameReads(chain, row, e.text, k.text);
      ReadsColumn(e, base, chain, row);
      ReadsColumn(k, base, chain, row);
    } else {
      var env := InRow(base, chain, row);
      forall i | 0 <= i < |e.children| ensures SamePart(e.children[i], k.children[i], env, env) {
        EqualPart(e, k, i, chain, d, base, row);
      }
      SameExecutionOf(base, chain, row, row);
      SameGroupCall(e, k);
      SameValue(e, k, env, env);
    }
  }

  lemma SameReads(chain: seq<seq<Binding>>, row: Row, a: string, b: string)
    requires SlotOf(chain, a) == SlotOf(chain, b)
    ensures Read(chain, row, a) == Read(chain, row, b)
  {
  }

  lemma SameGroupCall(e: Node, k: Node)
    requires SameHead(e, k)
    ensures IsGroupCall(e) <==> IsGroupCall(k)
    ensures SameSpelling(e, k)
  {
    hide IsAggregateName;
  }

  lemma {:induction false} EqualPart(e: Node, k: Node, i: nat, chain: seq<seq<Binding>>, d: nat, base: Env, row: Row)
    requires SoundBlock(chain) && Grounded(e, chain) && Grounded(k, chain) && GroupFree(k)
    requires GroupEqual(e, k, chain, d) && !e.kind.ColumnRef? && i < |e.children|
    ensures |e.children| == |k.children|
    ensures SamePart(e.children[i], k.children[i], InRow(base, chain, row), InRow(base, chain, row))
    decreases e, 0
  {
    hide SoundBlock, GroupEqual, Eval, InRow, Grounded, GroupFree;
    var c, env := e.children[i], InRow(base, chain, row);
    EqualChild(e, k, i, chain, d);
    var kc := k.children[i];
    EqualHead(c, kc, chain, d + 1);
    GroundedChild(e, i, chain);
    GroundedChild(k, i, chain);
    GroupFreeChild(k, i);
    EqualIsSameValue(c, kc, chain, d + 1, base, row);
    if IsWhen(c) {
      forall j: nat | j < 2 ensures EvalChild(c, j, env) == EvalChild(kc, j, env) {
        if j < |c.children| {
          EqualChild(c, kc, j, chain, d + 1);
          GroundedChild(c, j, chain);
          GroundedChild(kc, j, chain);
          GroupFreeChild(kc, j);
          EqualIsSameValue(c.children[j], kc.children[j], chain, d + 2, base, row);
        }
      }
    }
  }

  // ----- The theorem -----

  lemma CollisionChild(n: Node, i: nat, srcs: seq<KeySource>, chain: seq<seq<Binding>>)
    requires SoundSources(srcs, chain) && NoCollision(n, srcs, chain) && i < |n.children|
    ensures NoCollision(n.children[i], srcs, chain)
  {
    hide SoundSources, Collides, Keyed;
  }

  lemma ViolationsAt(n: Node, i: nat, j: nat, keys: seq<GroupKey>, chain: seq<seq<Binding>>, exempt: bool, inAggregate: bool, d: nat)
    requires ViolationsFrom(n, i, keys, chain, exempt, inAggregate, d) == [] && i <= j < |n.children|
    ensures Violations(n.children[j], keys, chain, exempt, inAggregate, d) == []
    decreases j - i
  {
    hide Violations;
    if i < j {
      ViolationsAt(n, i + 1, j, keys, chain, exempt, inAggregate, d);
    }
  }

  /** A column that is a key is fixed within the group. */
  lemma KeyedIsFixed(text: string, srcs: seq<KeySource>, chain: seq<seq<Binding>>, base: Env, r: Row, s: Row)
    requires Keyed(text, srcs, chain) && SameGroup(srcs, chain, base, r, s)
    ensures Read(chain, r, text) == Read(chain, s, text)
  {
    hide SlotOf, KeyValue, KeySlot, IsExpressionKey, Read;
    var k :| 0 <= k < |srcs| && KeySlotOf(srcs[k], chain) == SlotOf(chain, text);
    ReadKey(srcs[k], chain, base, r);
    ReadKey(srcs[k], chain, base, s);
    SlotReads(chain, r, text);
    SlotReads(chain, s, text);
  }

  /** A local column reference that a key covers is that key, unless the key is an expression of
      the same spelling. */
  lemma CoveredIsKeyed(text: string, srcs: seq<KeySource>, chain: seq<seq<Binding>>)
    requires SoundBlock(chain) && SoundSources(srcs, chain) && IsLocal(chain, text)
    requires (forall s <- srcs :: InBlock(chain, s)) && Covered(text, KeysOf(chain, srcs), chain)
    ensures SlotOf(chain, text).Some? ==> Keyed(text, srcs, chain) || Collides(text, srcs, chain)
  {
    hide KeyMatches, SoundSource, SlotOf, SoundBlock, IsLocal, KeyOf;
    var keys := KeysOf(chain, srcs);
    var k :| 0 <= k < |keys| && KeyMatches(keys[k], chain, text);
    if IsExpressionKey(srcs[k]) {
      ExpressionKeyText(srcs[k], chain, text);
    } else {
      MatchedColumnIsKey(srcs[k], chain, text);
    }
  }

  lemma ExpressionKeyText(src: KeySource, chain: seq<seq<Binding>>, text: string)
    requires InBlock(chain, src) && IsExpressionKey(src) && KeyMatches(KeyOf(chain, src), chain, text)
    ensures IEquals(text, KeyOf(chain, src).text)
  {
  }

  /** A covered column reference is fixed within the group. */
  lemma CoveredIsFixed(n: Node, srcs: seq<KeySource>, chain: seq<seq<Binding>>, base: Env, r: Row, s: Row)
    requires SoundBlock(chain) && SoundSources(srcs, chain) && NoCollision(n, srcs, chain)
    requires n.kind.ColumnRef? && Grounded(n, chain) && SameGroup(srcs, chain, base, r, s)
    requires (forall s <- srcs :: InBlock(chain, s)) && Covered(n.text, KeysOf(chain, srcs), chain)
    ensures Read(chain, r, n.text) == Read(chain, s, n.text)
  {
    hide SoundSources, SlotOf, SoundBlock, IsLocal, Covered, SameGroup, Collides, Keyed, Read;
    CoveredIsKeyed(n.text, srcs, chain);
    if Keyed(n.text, srcs, chain) {
      KeyedIsFixed(n.text, srcs, chain, base, r, s);
    } else {
      SlotReads(chain, r, n.text);
      SlotReads(chain, s, n.text);
    }
  }

  lemma ReadKey(src: KeySource, chain: seq<seq<Binding>>, base: Env, row: Row)
    requires !IsExpressionKey(src)
    ensures KeySlot(src, chain).Some? ==> KeyValue(src, chain, base, row) == row(KeySlot(src, chain).value)
  {
    hide Eval, InRow, SlotOf;
    if !src.StarColumn? {
      ReadsColumn(src.node, base, chain, row);
    }
  }

  lemma SlotReads(chain: seq<seq<Binding>>, row: Row, text: string)
    ensures Read(chain, row, text) == if SlotOf(chain, text).Some? then row(SlotOf(chain, text).value) else Null
  {
  }

  /** An expression the pass accepts has one value within each group, whatever the rows, the
      functions and the aggregates are. */
  lemma {:induction false} AcceptedIsDetermined(n: Node, srcs: seq<KeySource>, chain: seq<seq<Binding>>, inAggregate: bool, d: nat, base: Env, r: Row, s: Row)
    requires SoundBlock(chain) && SoundSources(srcs, chain) && NoCollision(n, srcs, chain)
    requires Grounded(n, chain) && d + Height(n) <= MAX_DEPTH
    requires SameGroup(srcs, chain, base, r, s)
    requires (forall s <- srcs :: InBlock(chain, s)) && Violations(n, KeysOf(chain, srcs), chain, false, inAggregate, d) == []
    ensures Eval(n, InRow(base, chain, r)) == Eval(n, InRow(base, chain, s))
    decreases n, 2
  {
    hide SoundBlock, SoundSources, NoCollision, Eval, InRow, SameGroup, IsKey, Covered, IsGroupCall, SameExecution, IsLocal, IsAggregate, Read;
    var keys := KeysOf(chain, srcs);
    SameExecutionOf(base, chain, r, s);
    if IsKey(n, keys, chain) {
      KeyIsFixed(n, srcs, chain, base, r, s);
    } else if IsGroupCall(n) {
      GroupCallValue(n, InRow(base, chain, r), InRow(base, chain, s));
    } else if n.kind.ColumnRef? {
      CoveredIsFixed(n, srcs, chain, base, r, s);
      ReadsColumn(n, base, chain, r);
      ReadsColumn(n, base, chain, s);
    } else {
      forall i | 0 <= i < |n.children| ensures SamePart(n.children[i], n.children[i], InRow(base, chain, r), InRow(base, chain, s)) {
        AcceptedPart(n, i, srcs, chain, inAggregate, d, base, r, s);
      }
      SameValue(n, n, InRow(base, chain, r), InRow(base, chain, s));
    }
  }

  lemma GroupCallValue(n: Node, a: Env, b: Env)
    requires IsGroupCall(n) && SameExecution(a, b)
    ensures Eval(n, a) == Eval(n, b)
  {
  }

  lemma KeyIsFixed(n: Node, srcs: seq<KeySource>, chain: seq<seq<Binding>>, base: Env, r: Row, s: Row)
    requires SoundBlock(chain) && SoundSources(srcs, chain) && Grounded(n, chain) && SameGroup(srcs, chain, base, r, s)
    requires (forall s <- srcs :: InBlock(chain, s)) && IsKey(n, KeysOf(chain, srcs), chain)
    ensures Eval(n, InRow(base, chain, r)) == Eval(n, InRow(base, chain, s))
  {
    hide GroupEqual, SoundBlock, Eval, InRow, Grounded, GroupFree;
    var keys := KeysOf(chain, srcs);
    var k :| 0 <= k < |keys| && keys[k].node.Some? && GroupEqual(n, keys[k].node.value, chain, 0);
    var node := srcs[k].node;
    assert SoundSource(srcs[k], chain);
    EqualIsSameValue(n, node, chain, 0, base, r);
    EqualIsSameValue(n, node, chain, 0, base, s);
    assert KeyValue(srcs[k], chain, base, r) == KeyValue(srcs[k], chain, base, s);
  }

  lemma NotWholeKey(n: Node, srcs: seq<KeySource>, chain: seq<seq<Binding>>)
    requires IsWhen(n) && SoundSources(srcs, chain) && forall s <- srcs :: InBlock(chain, s)
    ensures !IsKey(n, KeysOf(chain, srcs), chain)
  {
    hide Grounded, GroupFree, GroupEqual;
    var keys := KeysOf(chain, srcs);
    forall k | 0 <= k < |keys| && keys[k].node.Some? ensures !GroupEqual(n, keys[k].node.value, chain, 0) {
      assert SoundSource(srcs[k], chain);
      if GroupEqual(n, keys[k].node.value, chain, 0) {
        EqualHead(n, keys[k].node.value, chain, 0);
      }
    }
  }

  lemma AcceptedChild(n: Node, i: nat, keys: seq<GroupKey>, chain: seq<seq<Binding>>, inAggregate: bool, d: nat)
    requires Violations(n, keys, chain, false, inAggregate, d) == [] && d < MAX_DEPTH && i < |n.children|
    requires !IsKey(n, keys, chain) && !IsGroupCall(n) && !n.kind.Subquery? && !n.kind.ColumnRef?
    ensures Violations(n.children[i], keys, chain, false, inAggregate, d + 1) == []
  {
    hide IsKey, IsAggregateName, Covered;
    ViolationsAt(n, 0, i, keys, chain, false, inAggregate, d + 1);
  }

  lemma {:induction false} AcceptedPart(n: Node, i: nat, srcs: seq<KeySource>, chain: seq<seq<Binding>>, inAggregate: bool, d: nat, base: Env, r: Row, s: Row)
    requires SoundBlock(chain) && SoundSources(srcs, chain) && NoCollision(n, srcs, chain)
    requires Grounded(n, chain) && d + Height(n) <= MAX_DEPTH && i < |n.children|
    requires SameGroup(srcs, chain, base, r, s)
    requires (forall s <- srcs :: InBlock(chain, s)) && Violations(n, KeysOf(chain, srcs), chain, false, inAggregate, d) == []
    requires !IsKey(n, KeysOf(chain, srcs), chain) && !IsGroupCall(n) && !n.kind.ColumnRef?
    ensures SamePart(n.children[i], n.children[i], InRow(base, chain, r), InRow(base, chain, s))
    decreases n, 1
  {
    hide SoundBlock, SoundSources, NoCollision, Eval, InRow, SameGroup, IsKey, Violations, Height, IsGroupCall, SlotOf, IsLocal;
    var keys, c := KeysOf(chain, srcs), n.children[i];
    HeightStep(n, i);
    AcceptedChild(n, i, keys, chain, inAggregate, d);
    GroundedChild(n, i, chain);
    CollisionChild(n, i, srcs, chain);
    AcceptedIsDetermined(c, srcs, chain, inAggregate, d + 1, base, r, s);
    if IsWhen(c) {
      NotWholeKey(c, srcs, chain);
      WhenIsNoCall(c);
      forall j: nat | j < 2 ensures EvalChild(c, j, InRow(base, chain, r)) == EvalChild(c, j, InRow(base, chain, s)) {
        if j < |c.children| {
          HeightStep(c, j);
          AcceptedChild(c, j, keys, chain, inAggregate, d + 1);
          GroundedChild(c, j, chain);
          CollisionChild(c, j, srcs, chain);
          AcceptedIsDetermined(c.children[j], srcs, chain, inAggregate, d + 2, base, r, s);
        }
      }
    }
  }

  lemma WhenIsNoCall(n: Node)
    requires IsWhen(n)
    ensures !IsGroupCall(n)
  {
  }

  lemma HeightStep(n: Node, i: nat)
    requires i < |n.children|
    ensures Height(n.children[i]) < Height(n)
  {
  }
}
