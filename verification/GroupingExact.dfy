/** Where grouping legality is exact, stars, and the inputs on which it accepts too much. */
module GroupingExact {
  import opened Wrappers
  import opened Identifier
  import opened Types
  import opened Ast
  import opened Semantics
  import opened Infer
  import opened Congruence
  import opened Scopes
  import opened References
  import opened Grouping
  import opened GroupingTheorems

  // ----- Which columns are fixed -----

  /** Rows of one group always agree on the expression. */
  ghost predicate Determined(n: Node, srcs: seq<KeySource>, chain: seq<seq<Binding>>, base: Env) {
    forall r: Row, s: Row :: SameGroup(srcs, chain, base, r, s) ==> Eval(n, InRow(base, chain, r)) == Eval(n, InRow(base, chain, s))
  }

  /** Two rows that differ in one column only. */
  function Marked(slot: Slot, v: Value): Row {
    (s: Slot) => if s == slot then v else Null
  }

  /** The expression does not read the column. */
  predicate Skips(n: Node, chain: seq<seq<Binding>>, slot: Slot) {
    && !n.kind.Subquery? && !(n.kind.Unary? && n.kind.un.Exists?)
    && (n.kind.ColumnRef? ==> SlotOf(chain, n.text) != Some(slot))
    && forall c <- n.children :: Skips(c, chain, slot)
  }

  ghost predicate AlikeBut(slot: Slot, r: Row, s: Row) {
    forall t: Slot :: t != slot ==> r(t) == s(t)
  }

  lemma {:induction false} SkippedIsUnmoved(n: Node, chain: seq<seq<Binding>>, slot: Slot, base: Env, r: Row, s: Row)
    requires Skips(n, chain, slot) && AlikeBut(slot, r, s)
    ensures Eval(n, InRow(base, chain, r)) == Eval(n, InRow(base, chain, s))
    decreases n, 1
  {
    hide Eval, InRow, SlotOf, SameExecution, Read, IsGroupCall;
    var a, b := InRow(base, chain, r), InRow(base, chain, s);
    SameExecutionOf(base, chain, r, s);
    if n.kind.ColumnRef? {
      ReadsColumn(n, base, chain, r);
      ReadsColumn(n, base, chain, s);
      SlotReads(chain, r, n.text);
      SlotReads(chain, s, n.text);
    } else if IsGroupCall(n) {
      GroupCallValue(n, a, b);
    } else {
      forall i | 0 <= i < |n.children| ensures SamePart(n.children[i], n.children[i], a, b) {
        SkippedPart(n.children[i], chain, slot, base, r, s);
      }
      SameValue(n, n, a, b);
    }
  }

  lemma {:induction false} SkippedPart(c: Node, chain: seq<seq<Binding>>, slot: Slot, base: Env, r: Row, s: Row)
    requires Skips(c, chain, slot) && AlikeBut(slot, r, s)
    ensures SamePart(c, c, InRow(base, chain, r), InRow(base, chain, s))
    decreases c, 2
  {
    hide Eval, InRow, SlotOf, AlikeBut;
    SkippedIsUnmoved(c, chain, slot, base, r, s);
    if IsWhen(c) {
      forall j: nat | j < 2 ensures EvalChild(c, j, InRow(base, chain, r)) == EvalChild(c, j, InRow(base, chain, s)) {
        if j < |c.children| {
          SkippedIsUnmoved(c.children[j], chain, slot, base, r, s);
        }
      }
    }
  }

  /** Every key is a column, in any block, or an expression that does not read this one. */
  predicate KeysApart(srcs: seq<KeySource>, chain: seq<seq<Binding>>, slot: Slot) {
    forall k :: 0 <= k < |srcs| && IsExpressionKey(srcs[k]) ==> Skips(srcs[k].node, chain, slot)
  }

  lemma KeyUnmoved(src: KeySource, chain: seq<seq<Binding>>, base: Env, slot: Slot, r: Row, s: Row)
    requires KeySlotOf(src, chain) != Some(slot) && AlikeBut(slot, r, s)
    requires IsExpressionKey(src) ==> Skips(src.node, chain, slot)
    ensures KeyValue(src, chain, base, r) == KeyValue(src, chain, base, s)
  {
    hide Eval, InRow, SlotOf, Read;
    if !src.StarColumn? {
      if IsExpressionKey(src) {
        SkippedIsUnmoved(src.node, chain, slot, base, r, s);
      } else {
        ReadsColumn(src.node, base, chain, r);
        ReadsColumn(src.node, base, chain, s);
        SlotReads(chain, r, src.node.text);
        SlotReads(chain, s, src.node.text);
      }
    }
  }

  /** With such keys a column is fixed within the groups exactly when some key is that column. */
  lemma DeterminedIffKeyed(n: Node, srcs: seq<KeySource>, chain: seq<seq<Binding>>, base: Env, slot: Slot)
    requires n.kind.ColumnRef? && SlotOf(chain, n.text) == Some(slot) && KeysApart(srcs, chain, slot)
    ensures Determined(n, srcs, chain, base) <==> Keyed(n.text, srcs, chain)
  {
    hide SlotOf, KeyValue, Eval, InRow, KeySlotOf, IsExpressionKey, Skips, Read;
    if Keyed(n.text, srcs, chain) {
      forall r: Row, s: Row | SameGroup(srcs, chain, base, r, s) ensures Eval(n, InRow(base, chain, r)) == Eval(n, InRow(base, chain, s)) {
        KeyedIsFixed(n.text, srcs, chain, base, r, s);
        ReadsColumn(n, base, chain, r);
        ReadsColumn(n, base, chain, s);
      }
    } else {
      var r, s := Marked(slot, Int(0)), Marked(slot, Int(1));
      forall k | 0 <= k < |srcs| ensures KeyValue(srcs[k], chain, base, r) == KeyValue(srcs[k], chain, base, s) {
        KeyUnmoved(srcs[k], chain, base, slot, r, s);
      }
      assert SameGroup(srcs, chain, base, r, s);
      ReadsColumn(n, base, chain, r);
      ReadsColumn(n, base, chain, s);
      SlotReads(chain, r, n.text);
      SlotReads(chain, s, n.text);
    }
  }

  // ----- What the pass makes of them -----

  /** A star-expanded column has a name without a dot. */
  predicate Placed(src: KeySource, chain: seq<seq<Binding>>)
    requires InBlock(chain, src)
  {
    src.StarColumn? ==> LastDot(chain[0][src.rel].columns[src.col].name).None?
  }

  /** A key that is the reference's column matches it, if the column has an identity. */
  lemma KeyedIsMatched(src: KeySource, chain: seq<seq<Binding>>, text: string)
    requires InBlock(chain, src) && Placed(src, chain) && IdentityOf(chain, text).column != 0
    requires SlotOf(chain, text).Some? && KeySlotOf(src, chain) == SlotOf(chain, text)
    ensures KeyMatches(KeyOf(chain, src), chain, text)
  {
    hide SlotOf, NameOf, QualifierOf;
    if src.StarColumn? {
      StarKeyText(src, chain);
      SlotNames(chain, text, SlotOf(chain, text).value);
    } else {
      SameSlotSameName(chain, text, src.node.text, SlotOf(chain, text).value);
    }
  }

  lemma StarKeyText(src: KeySource, chain: seq<seq<Binding>>)
    requires InBlock(chain, src) && Placed(src, chain) && src.StarColumn?
    ensures var k := KeyOf(chain, src); KeyQualifier(k) == chain[0][src.rel].Qualifier() && NameOf(k.text) == k.text
  {
  }

  lemma ColumnVerdict(n: Node, srcs: seq<KeySource>, chain: seq<seq<Binding>>, inAggregate: bool, d: nat)
    requires n.kind.ColumnRef? && d < MAX_DEPTH && forall s <- srcs :: InBlock(chain, s)
    ensures var keys := KeysOf(chain, srcs);
            Violations(n, keys, chain, false, inAggregate, d) == [] <==> IsKey(n, keys, chain) || Covered(n.text, keys, chain)
  {
  }

  /** Keys at any level, expression keys that do not read the column: what the pass rejects is
      never fixed, and what it accepts is fixed if and only if some key is that very column. */
  lemma VerdictIsExact(n: Node, srcs: seq<KeySource>, chain: seq<seq<Binding>>, base: Env, inAggregate: bool, d: nat, slot: Slot)
    requires n.kind.ColumnRef? && SlotOf(chain, n.text) == Some(slot) && IdentityOf(chain, n.text).column != 0 && d < MAX_DEPTH
    requires KeysApart(srcs, chain, slot) && forall s <- srcs :: InBlock(chain, s)
    requires forall s <- srcs :: Placed(s, chain)
    ensures var accepted := Violations(n, KeysOf(chain, srcs), chain, false, inAggregate, d) == [];
            if accepted then Determined(n, srcs, chain, base) <==> Keyed(n.text, srcs, chain)
            else !Determined(n, srcs, chain, base)
  {
    hide SlotOf, IdentityOf, Violations, IsKey, KeyMatches, KeyOf, KeySlotOf, KeysApart, Determined;
    var keys := KeysOf(chain, srcs);
    DeterminedIffKeyed(n, srcs, chain, base, slot);
    ColumnVerdict(n, srcs, chain, inAggregate, d);
    if Keyed(n.text, srcs, chain) {
      var k :| 0 <= k < |srcs| && KeySlotOf(srcs[k], chain) == SlotOf(chain, n.text);
      KeyedIsMatched(srcs[k], chain, n.text);
      assert KeyMatches(keys[k], chain, n.text);
    }
  }

  // ----- Column keys of the block: always right -----

  /** A column of this block with a catalogue identity. */
  predicate Identified(chain: seq<seq<Binding>>, text: string) {
    IsLocal(chain, text) && IdentityOf(chain, text).column != 0
  }

  predicate IdentifiedKey(src: KeySource, chain: seq<seq<Binding>>) {
    && SoundSource(src, chain) && !IsExpressionKey(src)
    && if src.StarColumn? then chain[0][src.rel].columns[src.col].columnId != 0 else Identified(chain, src.node.text)
  }

  /** Among columns with an identity, a reference matches a key exactly when it denotes the
      key's column. */
  lemma MatchIsExact(src: KeySource, chain: seq<seq<Binding>>, text: string)
    requires InBlock(chain, src) && SoundBlock(chain) && IdentifiedKey(src, chain) && Identified(chain, text)
    ensures KeyMatches(KeyOf(chain, src), chain, text) <==> KeySlot(src, chain) == SlotOf(chain, text)
  {
    hide SlotOf, KeyMatches, KeyOf, SoundBlock, KeySlot, Grounded, GroupFree;
    LocalSlot(chain, text);
    if KeyMatches(KeyOf(chain, src), chain, text) {
      MatchedColumnIsKey(src, chain, text);
    }
    if KeySlot(src, chain) == SlotOf(chain, text) {
      KeyedIsMatched(src, chain, text);
    }
  }

  /** With such keys only, a column is reported as ungrouped exactly when two rows of one group
      can differ in it. */
  lemma ColumnCheckIsExact(n: Node, srcs: seq<KeySource>, chain: seq<seq<Binding>>, base: Env, inAggregate: bool, d: nat)
    requires SoundBlock(chain) && n.kind.ColumnRef? && Identified(chain, n.text) && d < MAX_DEPTH
    requires forall k :: 0 <= k < |srcs| ==> IdentifiedKey(srcs[k], chain)
    requires forall s <- srcs :: InBlock(chain, s)
    ensures Violations(n, KeysOf(chain, srcs), chain, false, inAggregate, d) == [] <==> Determined(n, srcs, chain, base)
  {
    hide SlotOf, IsKey, KeyMatches, KeyOf, SoundBlock, KeySlot, Determined, IdentifiedKey, Identified, Violations, Skips;
    var keys := KeysOf(chain, srcs);
    WholeColumnKey(n, srcs, chain);
    IdentifiedSlot(chain, n.text);
    forall k | 0 <= k < |srcs| ensures !IsExpressionKey(srcs[k]) && (KeyMatches(keys[k], chain, n.text) <==> KeySlotOf(srcs[k], chain) == SlotOf(chain, n.text)) {
      MatchIsExact(srcs[k], chain, n.text);
      ColumnKey(srcs[k], chain);
    }
    ColumnVerdict(n, srcs, chain, inAggregate, d);
    DeterminedIffKeyed(n, srcs, chain, base, SlotOf(chain, n.text).value);
  }

  lemma WholeColumnKey(n: Node, srcs: seq<KeySource>, chain: seq<seq<Binding>>)
    requires n.kind.ColumnRef? && forall k :: 0 <= k < |srcs| ==> IdentifiedKey(srcs[k], chain)
    requires forall s <- srcs :: InBlock(chain, s)
    ensures IsKey(n, KeysOf(chain, srcs), chain) ==> Covered(n.text, KeysOf(chain, srcs), chain)
  {
    hide SlotOf, GroupEqual, SoundSource, IdentityOf;
    var keys := KeysOf(chain, srcs);
    if k :| 0 <= k < |keys| && keys[k].node.Some? && GroupEqual(n, keys[k].node.value, chain, 0) {
      assert IdentifiedKey(srcs[k], chain);
      EqualHead(n, keys[k].node.value, chain, 0);
      assert KeyMatches(keys[k], chain, n.text);
    }
  }

  lemma ColumnKey(src: KeySource, chain: seq<seq<Binding>>)
    requires IdentifiedKey(src, chain)
    ensures !IsExpressionKey(src) && KeySlotOf(src, chain) == KeySlot(src, chain)
  {
  }

  lemma IdentifiedSlot(chain: seq<seq<Binding>>, text: string)
    requires Identified(chain, text)
    ensures SlotOf(chain, text).Some?
  {
  }

  // ----- Stars -----

  predicate DistinctColumns(b: Binding) {
    forall i, j :: 0 <= i < j < |b.columns| ==> !IEquals(b.columns[i].name, b.columns[j].name)
  }

  /** A key a star column can rely on: a resolved column, or one that does not share its name. */
  predicate SoundForStar(src: KeySource, chain: seq<seq<Binding>>, c: Column)
    requires InBlock(chain, src)
  {
    && SoundSource(src, chain)
    && (if IsExpressionKey(src) then !IEquals(NameOf(c.name), NameOf(KeyOf(chain, src).text))
        else KeySlot(src, chain).Some?)
  }

  lemma StarMatchIsKey(src: KeySource, chain: seq<seq<Binding>>, i: nat, j: nat)
    requires SoundBlock(chain) && i < |chain[0]| && j < |chain[0][i].columns| && InBlock(chain, src)
    requires DistinctColumns(chain[0][i]) && LastDot(chain[0][i].columns[j].name).None?
    requires SoundForStar(src, chain, chain[0][i].columns[j])
    requires CoversStarColumn(KeyOf(chain, src), chain[0][i], chain[0][i].columns[j])
    ensures !IsExpressionKey(src) && KeySlot(src, chain) == Some(Slot(0, i, j))
  {
    hide SlotOf, GroupFree, Fold, Unmerged;
    var name := chain[0][i].columns[j].name;
    assert NameOf(name) == name;
    if src.StarColumn? {
      NamedKeyQualifier(chain, src);
      assert IEquals(chain[0][i].Qualifier(), chain[0][src.rel].Qualifier());
    } else {
      StarColumnIsSlot(chain, i, j, src.node.text, SlotOf(chain, src.node.text).value);
    }
  }

  /** Every star column the pass accepts is fixed within the group. */
  lemma AcceptedStarIsDetermined(srcs: seq<KeySource>, chain: seq<seq<Binding>>, i: nat, j: nat, base: Env, r: Row, s: Row)
    requires chain != [] && SoundBlock(chain) && i < |chain[0]| && j < |chain[0][i].columns|
    requires DistinctColumns(chain[0][i]) && LastDot(chain[0][i].columns[j].name).None?
    requires forall s <- srcs :: InBlock(chain, s)
    requires forall k :: 0 <= k < |srcs| ==> SoundForStar(srcs[k], chain, chain[0][i].columns[j])
    requires StarColumnCovered(chain[0], KeysOf(chain, srcs), i, j) && SameGroup(srcs, chain, base, r, s)
    ensures r(Slot(0, i, j)) == s(Slot(0, i, j))
  {
    hide SoundForStar, CoversStarColumn, KeyOf, SoundBlock, DistinctColumns, KeyValue, KeySlot;
    var keys := KeysOf(chain, srcs);
    var k :| 0 <= k < |keys| && CoversStarColumn(keys[k], chain[0][i], chain[0][i].columns[j]);
    StarMatchIsKey(srcs[k], chain, i, j);
    ReadKey(srcs[k], chain, base, r);
    ReadKey(srcs[k], chain, base, s);
  }

  lemma KeyedStarIsCovered(src: KeySource, chain: seq<seq<Binding>>, i: nat, j: nat)
    requires chain != [] && i < |chain[0]| && j < |chain[0][i].columns| && InBlock(chain, src) && Placed(src, chain)
    requires LastDot(chain[0][i].columns[j].name).None? && chain[0][i].columns[j].columnId != 0
    requires KeySlotOf(src, chain) == Some(Slot(0, i, j))
    ensures CoversStarColumn(KeyOf(chain, src), chain[0][i], chain[0][i].columns[j])
  {
    hide SlotOf, QualifierOf, LastDot;
    assert NameOf(chain[0][i].columns[j].name) == chain[0][i].columns[j].name;
    if src.StarColumn? {
      StarKeyText(src, chain);
    } else {
      SlotNames(chain, src.node.text, Slot(0, i, j));
    }
  }

  /** A star column with an identity is accepted exactly when some key is that column. */
  lemma StarCheckIsExact(srcs: seq<KeySource>, chain: seq<seq<Binding>>, i: nat, j: nat)
    requires chain != [] && SoundBlock(chain) && i < |chain[0]| && j < |chain[0][i].columns|
    requires DistinctColumns(chain[0][i]) && LastDot(chain[0][i].columns[j].name).None? && chain[0][i].columns[j].columnId != 0
    requires forall s <- srcs :: InBlock(chain, s)
    requires forall k :: 0 <= k < |srcs| ==> SoundForStar(srcs[k], chain, chain[0][i].columns[j])
    ensures StarColumnCovered(chain[0], KeysOf(chain, srcs), i, j) <==>
            exists k :: 0 <= k < |srcs| && KeySlotOf(srcs[k], chain) == Some(Slot(0, i, j))
  {
    hide SoundForStar, CoversStarColumn, KeyOf, SoundBlock, DistinctColumns, KeySlotOf, LastDot;
    var keys := KeysOf(chain, srcs);
    forall k | 0 <= k < |srcs|
      ensures CoversStarColumn(keys[k], chain[0][i], chain[0][i].columns[j]) <==> KeySlotOf(srcs[k], chain) == Some(Slot(0, i, j))
    {
      SoundIsPlaced(srcs[k], chain, chain[0][i].columns[j]);
      if CoversStarColumn(keys[k], chain[0][i], chain[0][i].columns[j]) {
        StarMatchIsKey(srcs[k], chain, i, j);
        StarSlot(srcs[k], chain);
      } else if KeySlotOf(srcs[k], chain) == Some(Slot(0, i, j)) {
        KeyedStarIsCovered(srcs[k], chain, i, j);
      }
    }
  }

  lemma SoundIsPlaced(src: KeySource, chain: seq<seq<Binding>>, c: Column)
    requires InBlock(chain, src) && SoundForStar(src, chain, c)
    ensures Placed(src, chain)
  {
  }

  lemma StarSlot(src: KeySource, chain: seq<seq<Binding>>)
    requires !IsExpressionKey(src)
    ensures KeySlotOf(src, chain) == KeySlot(src, chain)
  {
  }

  // ----- Where the pass accepts too much -----

  function PlainColumn(name: string, id: nat): Column {
    Column(name, false, 1, id, false, false, false)
  }

  function Ref(text: string): Node {
    Node(ColumnRef, text, [])
  }

  /** `SELECT upper(n) AS age, age FROM t GROUP BY 1`: the key has no identity, so the column
      is compared with the alias text and accepted, though rows of one group differ in it. */
  lemma AliasCollisionExample(base: Env)
    ensures var chain := [[Binding("t", "", [PlainColumn("n", 1), PlainColumn("age", 2)], false)]];
            var key := Item(Node(FunctionCall, "upper", [Ref("n")]), "age");
            && Violations(Ref("age"), KeysOf(chain, [key]), chain, false, false, 0) == []
            && exists r: Row, s: Row :: SameGroup([key], chain, base, r, s)
                 && Eval(Ref("age"), InRow(base, chain, r)) != Eval(Ref("age"), InRow(base, chain, s))
  {
    hide Eval, InRow, GroupEqual;
    var t := Binding("t", "", [PlainColumn("n", 1), PlainColumn("age", 2)], false);
    var chain := [[t]];
    var arg := Ref("n");
    var call := Node(FunctionCall, "upper", [arg]);
    var key := Item(call, "age");
    assert KeyMatches(KeyOf(chain, key), chain, "age");
    assert KeysOf(chain, [key])[0] == KeyOf(chain, key);
    assert Covered("age", KeysOf(chain, [key]), chain);
    var slot := Slot(0, 0, 1);
    TwoColumns(t);
    var r, s := Marked(slot, Int(0)), Marked(slot, Int(1));
    ReadsColumn(Ref("age"), base, chain, r);
    ReadsColumn(Ref("age"), base, chain, s);
    SlotReads(chain, r, "age");
    SlotReads(chain, s, "age");
    CallOfOne(call, base, chain, r, s);
    assert SameGroup([key], chain, base, r, s);
  }

  lemma SingleRelation(chain: seq<seq<Binding>>, t: Binding, name: string, j: nat)
    requires chain != [] && chain[0] == [t] && LastDot(name).None? && BareAnswer(t, name) == Once(j)
    ensures SlotOf(chain, name) == Some(Slot(0, 0, j))
  {
    hide BareAnswer;
    var answers := BareAnswers(chain[0], name);
    assert OneSpeaks(answers, 0);
    OnlyAnswerFound(answers, 0);
  }

  lemma TwoColumns(t: Binding)
    requires t == Binding("t", "", [PlainColumn("n", 1), PlainColumn("age", 2)], false)
    ensures SlotOf([[t]], "n") == Some(Slot(0, 0, 0)) && SlotOf([[t]], "age") == Some(Slot(0, 0, 1))
  {
    hide SlotOf;
    var names := t.ColumnNames();
    assert names == ["n", "age"];
    assert |Fold("n")| != |Fold("age")|;
    assert names[0] == "n" && names[1] == "age";
    FirstMatchUnique(names, "n", 0);
    FirstMatchUnique(names, "age", 1);
    assert t.columns[..1] == [t.columns[0]] && t.columns[..1][..0] == [];
    assert CountColumn(t.columns[..1], "n") == 1 && CountColumn(t.columns[..1], "age") == 0;
    SingleRelation([[t]], t, "n", 0);
    SingleRelation([[t]], t, "age", 1);
  }

  lemma CallOfOne(call: Node, base: Env, chain: seq<seq<Binding>>, r: Row, s: Row)
    requires |call.children| == 1 && call.children[0].kind.ColumnRef? && call.kind.FunctionCall?
    requires Read(chain, r, call.children[0].text) == Read(chain, s, call.children[0].text)
    ensures Eval(call, InRow(base, chain, r)) == Eval(call, InRow(base, chain, s))
  {
    hide Eval, InRow, Read, SlotOf;
    var a, b := InRow(base, chain, r), InRow(base, chain, s);
    ReadsColumn(call.children[0], base, chain, r);
    ReadsColumn(call.children[0], base, chain, s);
    SameExecutionOf(base, chain, r, s);
    assert SamePart(call.children[0], call.children[0], a, b);
    SameValue(call, call, a, b);
  }

  /** In a correlated subquery `... GROUP BY o.id`, with `o` outside and a table with the same
      identity inside: the inner bare `id` is accepted though the key says nothing about it. */
  lemma OuterKeyExample(base: Env)
    ensures var chain := [[Binding("t", "", [PlainColumn("id", 1)], false)], [Binding("t", "o", [PlainColumn("id", 1)], false)]];
            && Violations(Ref("id"), KeysOf(chain, [Written(Ref("o.id"))]), chain, false, false, 0) == []
            && exists r: Row, s: Row :: SameGroup([Written(Ref("o.id"))], chain, base, r, s)
                 && Eval(Ref("id"), InRow(base, chain, r)) != Eval(Ref("id"), InRow(base, chain, s))
  {
    hide Eval, InRow, GroupEqual, SlotOf, Resolve, QualifierOf, NameOf, LastDot, Read, Fold;
    var inner, outer := Binding("t", "", [PlainColumn("id", 1)], false), Binding("t", "o", [PlainColumn("id", 1)], false);
    var chain := [[inner], [outer]];
    var key := Written(Ref("o.id"));
    OuterSlots(inner, outer);
    OuterNames();
    assert KeyMatches(KeyOf(chain, key), chain, "id");
    assert KeysOf(chain, [key])[0] == KeyOf(chain, key);
    assert Covered("id", KeysOf(chain, [key]), chain);
    var slot := Slot(0, 0, 0);
    var r, s := Marked(slot, Int(0)), Marked(slot, Int(1));
    ReadsColumn(Ref("id"), base, chain, r);
    ReadsColumn(Ref("id"), base, chain, s);
    ReadsColumn(Ref("o.id"), base, chain, r);
    ReadsColumn(Ref("o.id"), base, chain, s);
    SlotReads(chain, r, "id");
    SlotReads(chain, s, "id");
    SlotReads(chain, r, "o.id");
    SlotReads(chain, s, "o.id");
    assert SameGroup([key], chain, base, r, s);
  }

  lemma OuterNames()
    ensures QualifierOf("o.id") == "o" && NameOf("o.id") == "id" && QualifierOf("id") == "" && NameOf("id") == "id"
  {
    assert "o.id"[..1] == "o" && "o.id"[2..] == "id";
    assert "o.id"[1] == '.';
    assert LastDot("o.id") == Some(1);
  }

  lemma OneColumn(b: Binding)
    requires |b.columns| == 1 && b.columns[0].name == "id" && !b.columns[0].coalesced
    ensures BareAnswer(b, "id") == Once(0)
    ensures b.MatchesQualifier("o") ==> QualifiedAnswer(b, "o", "id") == Once(0)
  {
    hide Fold;
    assert b.ColumnNames() == ["id"];
    FirstMatchUnique(["id"], "id", 0);
    assert b.FindColumn("id") == Some(0);
    assert b.columns[..0] == [];
    assert CountColumn(b.columns, "id") == 1;
  }

  lemma FoundOutside(chain: seq<seq<Binding>>, q: string, name: string, seen: bool)
    requires |chain| > 1 && QualifiedInBlock(chain[0], q, name).Miss? && QualifiedInBlock(chain[1], q, name).Hit?
    ensures var r := ResolveQualified(chain, q, name, seen);
            r.Found? && r.level == 1 && Hit(r.rel, r.col) == QualifiedInBlock(chain[1], q, name)
  {
    hide QualifiedInBlock, QualifierSeen;
    assert chain[1..][0] == chain[1];
  }

  lemma OuterSlots(inner: Binding, outer: Binding)
    requires inner == Binding("t", "", [PlainColumn("id", 1)], false) && outer == Binding("t", "o", [PlainColumn("id", 1)], false)
    ensures SlotOf([[inner], [outer]], "id") == Some(Slot(0, 0, 0)) && SlotOf([[inner], [outer]], "o.id") == Some(Slot(1, 0, 0))
  {
    hide BareAnswer, QualifiedAnswer, BareInBlock, ResolveQualified, ResolveBare, LastDot, QualifierOf, NameOf, FirstAnswer;
    OneColumn(inner);
    OneColumn(outer);
    OuterNames();
    DotFree();
    var chain := [[inner], [outer]];
    SingleRelation(chain, inner, "id", 0);
    assert Fold("t")[0] != Fold("o")[0];
    assert !inner.MatchesQualifier("o") && outer.MatchesQualifier("o");
    NotNamed(inner, "o", "id");
    assert QualifiedAnswers(chain[0], "o", "id") == [Silent];
    assert QualifiedAnswers(chain[1], "o", "id") == [Once(0)];
    FirstOfOne(Silent);
    FirstOfOne(Once(0));
    FoundOutside(chain, "o", "id", false);
  }

  lemma DotFree()
    ensures LastDot("id").None?
  {
  }

  lemma NotNamed(b: Binding, q: string, name: string)
    requires !b.MatchesQualifier(q)
    ensures QualifiedAnswer(b, q, name) == Silent
  {
  }

  lemma FirstOfOne(a: Answer)
    ensures FirstAnswer([a]) == match a case Silent => Miss case Twice => Many case Once(c) => Hit(0, c)
  {
    assert [a][..0] == [];
  }

  // ----- The depth limit -----

  /** `k` nested `CASE WHEN TRUE THEN ... END` around an expression. */
  function Nest(k: nat, inner: Node): Node {
    if k == 0 then inner
    else Node(Case, "", [Node(Binary(When), "WHEN", [Node(BooleanLiteral(true), "TRUE", []), Nest(k - 1, inner)])])
  }

  /** No whole key is anything but a column. */
  predicate ColumnKeys(keys: seq<GroupKey>) {
    forall i :: 0 <= i < |keys| && keys[i].node.Some? ==> keys[i].node.value.kind.ColumnRef?
  }

  lemma OnlyColumnsAreKeys(n: Node, keys: seq<GroupKey>, chain: seq<seq<Binding>>)
    requires ColumnKeys(keys) && !n.kind.ColumnRef?
    ensures !IsKey(n, keys, chain)
  {
  }

  /** The legality pass counts the CASE and the WHEN as a level each. */
  lemma {:induction false} NestFindings(k: nat, inner: Node, keys: seq<GroupKey>, chain: seq<seq<Binding>>, inAggregate: bool, d: nat)
    requires ColumnKeys(keys)
    ensures Violations(Nest(k, inner), keys, chain, false, inAggregate, d) == Violations(inner, keys, chain, false, inAggregate, d + 2 * k)
  {
    hide IsKey, Covered, ColumnKeys, Violations;
    if k > 0 {
      NestFindings(k - 1, inner, keys, chain, inAggregate, d + 2);
      NestStep(k, inner, keys, chain, inAggregate, d);
    }
  }

  lemma NestStep(k: nat, inner: Node, keys: seq<GroupKey>, chain: seq<seq<Binding>>, inAggregate: bool, d: nat)
    requires k > 0 && ColumnKeys(keys)
    ensures Violations(Nest(k, inner), keys, chain, false, inAggregate, d) == Violations(Nest(k - 1, inner), keys, chain, false, inAggregate, d + 2)
  {
    hide IsKey, Covered, Nest, ColumnKeys;
    var literal := Node(BooleanLiteral(true), "TRUE", []);
    var arm := Node(Binary(When), "WHEN", [literal, Nest(k - 1, inner)]);
    var n := Node(Case, "", [arm]);
    NestIs(k, inner);
    OnlyColumnsAreKeys(n, keys, chain);
    OnlyColumnsAreKeys(arm, keys, chain);
    OnlyColumnsAreKeys(literal, keys, chain);
    var below := Violations(Nest(k - 1, inner), keys, chain, false, inAggregate, d + 2);
    assert Violations(literal, keys, chain, false, inAggregate, d + 2) == [];
    assert ViolationsFrom(arm, 2, keys, chain, false, inAggregate, d + 2) == [];
    assert ViolationsFrom(arm, 1, keys, chain, false, inAggregate, d + 2) == below;
    assert ViolationsFrom(arm, 0, keys, chain, false, inAggregate, d + 2) == below;
    assert Violations(arm, keys, chain, false, inAggregate, d + 1) == below;
    assert ViolationsFrom(n, 1, keys, chain, false, inAggregate, d + 1) == [];
    assert ViolationsFrom(n, 0, keys, chain, false, inAggregate, d + 1) == below;
  }

  /** Every CASE takes its only arm. */
  lemma {:induction false} NestValue(k: nat, inner: Node, env: Env)
    ensures Eval(Nest(k, inner), env) == Eval(inner, env)
  {
    hide Eval;
    if k > 0 {
      NestValue(k - 1, inner, env);
      NestArm(k, inner, env);
    }
  }

  lemma NestArm(k: nat, inner: Node, env: Env)
    requires k > 0
    ensures Eval(Nest(k, inner), env) == Eval(Nest(k - 1, inner), env)
  {
    hide Nest;
    NestIs(k, inner);
    var arm := Nest(k, inner).children[0];
    assert Eval(arm.children[0], env) == Bool(true);
    assert EvalChild(arm, 1, env) == Eval(Nest(k - 1, inner), env);
    assert EvalArms([arm], None, env) == EvalChild(arm, 1, env);
  }

  lemma NestDetermined(k: nat, n: Node, srcs: seq<KeySource>, chain: seq<seq<Binding>>, base: Env)
    ensures Determined(Nest(k, n), srcs, chain, base) <==> Determined(n, srcs, chain, base)
  {
    hide Eval, SameGroup, Nest, InRow;
    forall r: Row
      ensures Eval(Nest(k, n), InRow(base, chain, r)) == Eval(n, InRow(base, chain, r))
    {
      NestValue(k, n, InRow(base, chain, r));
    }
  }

  /** A column under `k` CASEs is accepted exactly when the nesting reaches the limit or the
      column is fixed within the groups; past the limit nothing is looked at. */
  lemma NestedVerdictIsExact(k: nat, n: Node, srcs: seq<KeySource>, chain: seq<seq<Binding>>, base: Env, inAggregate: bool, d: nat)
    requires SoundBlock(chain) && n.kind.ColumnRef? && Identified(chain, n.text)
    requires forall k :: 0 <= k < |srcs| ==> IdentifiedKey(srcs[k], chain)
    requires forall s <- srcs :: InBlock(chain, s)
    ensures Violations(Nest(k, n), KeysOf(chain, srcs), chain, false, inAggregate, d) == []
            <==> d + 2 * k >= MAX_DEPTH || Determined(Nest(k, n), srcs, chain, base)
  {
    hide SlotOf, SoundBlock, Determined, Identified, IsKey, Covered, Nest;
    forall i | 0 <= i < |srcs| ensures !IsExpressionKey(srcs[i]) {
      ColumnKey(srcs[i], chain);
    }
    NestFindings(k, n, KeysOf(chain, srcs), chain, inAggregate, d);
    NestDetermined(k, n, srcs, chain, base);
    if d + 2 * k < MAX_DEPTH {
      ColumnCheckIsExact(n, srcs, chain, base, inAggregate, d + 2 * k);
    }
  }

  /** Inference counts one level for both, so it still reaches and types the innermost node. */
  lemma {:induction false} NestIsTyped(k: nat, inner: Node, e: nat, f: Facts)
    requires e + k < MAX_DEPTH
    ensures TypeOf(Nest(k, inner), e, f) == TypeOf(inner, e + k, f)
  {
    hide ReconcileAll;
    if k > 0 {
      NestIsTyped(k - 1, inner, e + 1, f);
      NestType(k, inner, e, f);
    }
  }

  lemma RefType(text: string, d: nat, f: Facts)
    requires d < MAX_DEPTH
    ensures TypeOf(Ref(text), d, f) == f.column(text).type_
  {
  }

  /** `SELECT <age under 200 CASEs> FROM t HAVING ...`: no key at all, no finding, a type, and
      two rows of the one group that differ. */
  lemma NestedCaseIsUnchecked(base: Env, f: Facts)
    ensures var chain := [[Binding("t", "", [PlainColumn("n", 1), PlainColumn("age", 2)], false)]];
            && Violations(Nest(200, Ref("age")), KeysOf(chain, []), chain, false, false, 0) == []
            && TypeOf(Nest(200, Ref("age")), 0, f) == f.column("age").type_
            && exists r: Row, s: Row :: SameGroup([], chain, base, r, s)
                 && Eval(Nest(200, Ref("age")), InRow(base, chain, r)) != Eval(Nest(200, Ref("age")), InRow(base, chain, s))
  {
    hide Eval, InRow, Nest, IsKey, Covered, SlotOf, ViolationsFrom, TypeOf, IdentityOf, SameGroup;
    var t := Binding("t", "", [PlainColumn("n", 1), PlainColumn("age", 2)], false);
    var chain, n := [[t]], Ref("age");
    TwoColumns(t);
    NestFindings(200, n, KeysOf(chain, []), chain, false, 0);
    NestIsTyped(200, n, 0, f);
    RefType("age", 200, f);
    DeterminedIffKeyed(n, [], chain, base, Slot(0, 0, 1));
    NestDetermined(200, n, [], chain, base);
    assert !Determined(Nest(200, n), [], chain, base);
  }

  lemma NestIs(k: nat, inner: Node)
    requires k > 0
    ensures Nest(k, inner) == Node(Case, "", [Node(Binary(When), "WHEN", [Node(BooleanLiteral(true), "TRUE", []), Nest(k - 1, inner)])])
  {
  }

  lemma NestType(k: nat, inner: Node, e: nat, f: Facts)
    requires k > 0 && e < MAX_DEPTH
    ensures TypeOf(Nest(k, inner), e, f) == TypeOf(Nest(k - 1, inner), e + 1, f)
  {
    hide Nest, ReconcileAll;
    NestIs(k, inner);
    var n := Nest(k, inner);
    var t := TypeOf(Nest(k - 1, inner), e + 1, f);
    assert ArmTypes(n.children[1..], e + 1, f) == [];
    assert ArmTypes(n.children, e + 1, f) == [t];
    ReconcileOne(t);
  }

  lemma ReconcileOne(t: DataType)
    ensures ReconcileAll([t]).type_ == t
  {
    assert [t][..0] == [];
    CoerceIsJoin(Unknown, t);
  }
}
