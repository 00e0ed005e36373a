/** The inference walk as it runs, with its depth counter, its suppression counter and the
    warnings it collects. */
module InferWalk {
  import opened Wrappers
  import opened Identifier
  import opened Numerals
  import opened Types
  import opened Ast
  import opened Semantics
  import opened Infer

  datatype Code = DivisionByZero | IntegerOverflow

  /** A warning and the position of its node: the child indices leading to it from the root. */
  datatype Warning = Warning(code: Code, path: seq<nat>)

  predicate DividesByZero(n: Node) {
    && n.kind.Binary? && n.kind.bin.Arith? && (n.kind.bin.arith.Div? || n.kind.bin.arith.Mod?)
    && ConstIntChild(n, 1) == Some(0)
  }

  predicate Overflows(n: Node, d: nat, f: Facts) {
    n.kind.Binary? && n.kind.bin.Arith? && ConstOverflows(n, n.kind.bin.arith, TypeOf(n, d, f))
  }

  /** The warnings a node raises itself. */
  function OwnCodes(n: Node, d: nat, suppressed: bool, f: Facts): seq<Code> {
    if suppressed then []
    else (if DividesByZero(n) then [DivisionByZero] else []) + (if Overflows(n, d, f) then [IntegerOverflow] else [])
  }

  function At(codes: seq<Code>, path: seq<nat>): seq<Warning> {
    seq(|codes|, i requires 0 <= i < |codes| => Warning(codes[i], path))
  }

  // ----- Which children the walk infers, and how -----

  /** The operands of a node that is not a CASE are its children `OperandsFrom .. OperandsTo`. */
  function OperandsFrom(n: Node): nat {
    if n.kind.FunctionCall? && HasDatePart(n) then 1 else 0
  }

  function OperandsTo(n: Node): nat {
    match n.kind
    case FunctionCall | In(_) | ArrayConstructor | RowConstructor | Other | Star | TypeName => |n.children|
    case Between(_) => 3
    case Binary(_) | Like(_) => 2
    case Unary(op) => if op.Exists? then 0 else 1
    case IsNull(_) | BooleanTest(_, _) | Cast | Collate => 1
    case _ => 0
  }

  function FirstArm(n: Node): nat {
    if IsSimpleCase(n) then 1 else 0
  }

  function Operand(n: Node): Option<Node> {
    if IsSimpleCase(n) then Some(n.children[0]) else None
  }

  /** An arm is dead once an earlier guard is constant TRUE, or when its own is constant FALSE. */
  predicate ArmDead(arm: Node, operand: Option<Node>, taken: bool) {
    taken || ConstGuard(arm, operand) == Some(false)
  }

  predicate TakenBy(arm: Node, operand: Option<Node>) {
    IsWhen(arm) && ConstGuard(arm, operand) == Some(true)
  }

  // ----- The warnings of a subtree, in the order they are raised -----

  function Warnings(n: Node, path: seq<nat>, d: nat, suppressed: bool, f: Facts): seq<Warning>
    decreases n, 2
  {
    if d >= MAX_DEPTH then []
    else if n.kind.Case? then CaseWarnings(n, path, d + 1, suppressed, f)
    else
      ListWarnings(n, OperandsFrom(n), OperandsTo(n), path, d + 1, suppressed, f)
      + At(OwnCodes(n, d, suppressed, f), path)
  }

  function CaseWarnings(n: Node, path: seq<nat>, d: nat, suppressed: bool, f: Facts): seq<Warning>
    decreases n, 1
  {
    ListWarnings(n, 0, FirstArm(n), path, d, suppressed, f) + ArmWarnings(n, FirstArm(n), false, path, d, suppressed, f)
  }

  function ListWarnings(n: Node, k: nat, to: nat, path: seq<nat>, d: nat, suppressed: bool, f: Facts): seq<Warning>
    decreases n, 0, to - k
  {
    if k >= to then []
    else ChildWarnings(n, k, path, d, suppressed, f) + ListWarnings(n, k + 1, to, path, d, suppressed, f)
  }

  function ChildWarnings(n: Node, k: nat, path: seq<nat>, d: nat, suppressed: bool, f: Facts): seq<Warning>
    decreases n, 0, 0
  {
    if k < |n.children| then Warnings(n.children[k], path + [k], d, suppressed, f) else []
  }

  /** The arms of a CASE from the k-th child on; `taken` when an earlier guard is constant TRUE. */
  function ArmWarnings(n: Node, k: nat, taken: bool, path: seq<nat>, d: nat, suppressed: bool, f: Facts): seq<Warning>
    decreases n, 0, |n.children| - k
  {
    if k >= |n.children| then []
    else
      ArmOwn(n, k, taken, path, d, suppressed, f)
      + ArmWarnings(n, k + 1, taken || TakenBy(n.children[k], Operand(n)), path, d, suppressed, f)
  }

  /** The warnings of one arm: a WHEN's guard is always live, its result only if the arm is. */
  function ArmOwn(n: Node, k: nat, taken: bool, path: seq<nat>, d: nat, suppressed: bool, f: Facts): seq<Warning>
    requires k < |n.children|
    decreases n, 0, 0
  {
    var arm := n.children[k];
    if IsWhen(arm) then
      ChildWarnings(arm, 0, path + [k], d, suppressed, f)
      + ChildWarnings(arm, 1, path + [k], d, suppressed || ArmDead(arm, Operand(n), taken), f)
    else Warnings(arm, path + [k], d, suppressed || taken, f)
  }

  // ----- One step of each recursion -----

  lemma NullsSnoc(ns: seq<Node>, k: nat, d: nat, f: Facts)
    requires k < |ns|
    ensures NullsOf(ns[k..], d, f) == [NullOf(ns[k], d, f)] + NullsOf(ns[k + 1..], d, f)
  {
    hide NullOf;
    assert ns[k..][1..] == ns[k + 1..];
  }

  lemma ArgsSnoc(ns: seq<Node>, k: nat, d: nat, f: Facts)
    requires k < |ns|
    ensures ArgTypes(ns[k..], d, f) == (if ns[k].kind.Star? then [] else [TypeOf(ns[k], d, f)]) + ArgTypes(ns[k + 1..], d, f)
    ensures ArgNulls(ns[k..], d, f) == (if ns[k].kind.Star? then [] else [NullOf(ns[k], d, f)]) + ArgNulls(ns[k + 1..], d, f)
  {
    hide NullOf, TypeOf;
    assert ns[k..][1..] == ns[k + 1..];
  }

  lemma ArmsSnoc(ns: seq<Node>, k: nat, d: nat, f: Facts)
    requires k < |ns|
    ensures ArmTypes(ns[k..], d, f)
            == [if IsWhen(ns[k]) then ChildType(ns[k], 1, d, f) else TypeOf(ns[k], d, f)] + ArmTypes(ns[k + 1..], d, f)
    ensures ArmNulls(ns[k..], d, f)
            == [if IsWhen(ns[k]) then ChildNull(ns[k], 1, d, f) else NullOf(ns[k], d, f)] + ArmNulls(ns[k + 1..], d, f)
  {
    hide NullOf, TypeOf, ChildNull, ChildType;
    assert ns[k..][1..] == ns[k + 1..];
  }

  lemma ListSnoc(n: Node, k: nat, to: nat, path: seq<nat>, d: nat, suppressed: bool, f: Facts)
    requires k < to
    ensures ListWarnings(n, k, to, path, d, suppressed, f)
            == ChildWarnings(n, k, path, d, suppressed, f) + ListWarnings(n, k + 1, to, path, d, suppressed, f)
  {
    hide ChildWarnings;
  }

  lemma ListDone(n: Node, to: nat, path: seq<nat>, d: nat, suppressed: bool, f: Facts)
    ensures ListWarnings(n, to, to, path, d, suppressed, f) == []
  {
  }

  lemma ArmsStep(n: Node, k: nat, taken: bool, path: seq<nat>, d: nat, suppressed: bool, f: Facts)
    requires k < |n.children|
    ensures ArmWarnings(n, k, taken, path, d, suppressed, f)
            == ArmOwn(n, k, taken, path, d, suppressed, f)
               + ArmWarnings(n, k + 1, taken || TakenBy(n.children[k], Operand(n)), path, d, suppressed, f)
  {
    hide ArmOwn, TakenBy;
  }

  lemma TooDeep(n: Node, path: seq<nat>, d: nat, suppressed: bool, f: Facts)
    requires d >= MAX_DEPTH
    ensures TypeOf(n, d, f) == Unknown && NullOf(n, d, f) == UNKNOWN_NULL && Warnings(n, path, d, suppressed, f) == []
  {
  }

  /** A node that is neither CASE nor arithmetic only passes its operands' warnings on. */
  lemma PlainWarnings(n: Node, path: seq<nat>, d: nat, suppressed: bool, f: Facts)
    requires d < MAX_DEPTH && !n.kind.Case? && !n.kind.Binary?
    ensures Warnings(n, path, d, suppressed, f) == ListWarnings(n, OperandsFrom(n), OperandsTo(n), path, d + 1, suppressed, f)
  {
    hide ListWarnings, OperandsFrom, OperandsTo;
    assert At([], path) == [];
  }

  lemma TwoOperands(n: Node, path: seq<nat>, d: nat, suppressed: bool, f: Facts)
    ensures ListWarnings(n, 0, 2, path, d, suppressed, f)
            == ChildWarnings(n, 0, path, d, suppressed, f) + ChildWarnings(n, 1, path, d, suppressed, f)
  {
    hide ChildWarnings;
    ListSnoc(n, 0, 2, path, d, suppressed, f);
    ListSnoc(n, 1, 2, path, d, suppressed, f);
    ListDone(n, 2, path, d, suppressed, f);
  }

  lemma ThreeOperands(n: Node, path: seq<nat>, d: nat, suppressed: bool, f: Facts)
    ensures ListWarnings(n, 0, 3, path, d, suppressed, f)
            == ChildWarnings(n, 0, path, d, suppressed, f) + ChildWarnings(n, 1, path, d, suppressed, f)
               + ChildWarnings(n, 2, path, d, suppressed, f)
  {
    hide ChildWarnings;
    ListSnoc(n, 0, 3, path, d, suppressed, f);
    ListSnoc(n, 1, 3, path, d, suppressed, f);
    ListSnoc(n, 2, 3, path, d, suppressed, f);
    ListDone(n, 3, path, d, suppressed, f);
  }

  lemma OneOperand(n: Node, path: seq<nat>, d: nat, suppressed: bool, f: Facts)
    ensures ListWarnings(n, 0, 1, path, d, suppressed, f) == ChildWarnings(n, 0, path, d, suppressed, f)
  {
    hide ChildWarnings;
    ListSnoc(n, 0, 1, path, d, suppressed, f);
    ListDone(n, 1, path, d, suppressed, f);
  }

  // ----- The walk -----

  class Inference {
    const facts: Facts
    var depth: nat
    var suppress: nat
    var warnings: seq<Warning>

    constructor (facts: Facts)
      ensures this.facts == facts && depth == 0 && suppress == 0 && warnings == []
    {
      this.facts := facts;
      depth, suppress, warnings := 0, 0, [];
    }

    /** Type and nullability of `n`; both counters come back to where they were on every path. */
    method InferExpr(n: Node, path: seq<nat>) returns (t: DataType, nul: int)
      modifies this
      ensures t == TypeOf(n, old(depth), facts) && nul == NullOf(n, old(depth), facts)
      ensures depth == old(depth) && suppress == old(suppress)
      ensures warnings == old(warnings) + Warnings(n, path, old(depth), old(suppress) > 0, facts)
      decreases n, 4
    {
      hide *;
      if depth >= MAX_DEPTH {
        TooDeep(n, path, depth, suppress > 0, facts);
        return Unknown, UNKNOWN_NULL;
      }
      depth := depth + 1;
      match n.kind {
        case FunctionCall => t, nul := InferCall(n, path);
        case Binary(_) => t, nul := InferBinary(n, path);
        case Case => t, nul := InferCase(n, path);
        case Unary(_) | IsNull(_) | BooleanTest(_, _) | Cast | Collate => t, nul := InferUnary(n, path);
        case Between(_) | Like(_) => t, nul := InferCompared(n, path);
        case In(_) | ArrayConstructor | RowConstructor | Other | Star | TypeName => t, nul := InferListed(n, path);
        case _ => t, nul := InferLeaf(n, path);
      }
      depth := depth - 1;
    }

    method InferChild(n: Node, idx: nat, path: seq<nat>) returns (t: DataType, nul: int)
      modifies this
      ensures t == ChildType(n, idx, old(depth), facts) && nul == ChildNull(n, idx, old(depth), facts)
      ensures depth == old(depth) && suppress == old(suppress)
      ensures warnings == old(warnings) + ChildWarnings(n, idx, path, old(depth), old(suppress) > 0, facts)
      decreases n, 0
    {
      hide TypeOf, NullOf, Warnings;
      if idx < |n.children| {
        t, nul := InferExpr(n.children[idx], path + [idx]);
      } else {
        t, nul := Unknown, UNKNOWN_NULL;
      }
    }

    method InferLeaf(n: Node, path: seq<nat>) returns (t: DataType, nul: int)
      requires n.kind.IntegerLiteral? || n.kind.FloatLiteral? || n.kind.StringLiteral? || n.kind.BooleanLiteral?
               || n.kind.NullLiteral? || n.kind.IntervalLiteral? || n.kind.DateTimeLiteral? || n.kind.ColumnRef?
               || n.kind.Parameter? || n.kind.Subquery?
      requires 0 < depth <= MAX_DEPTH
      ensures t == TypeOf(n, depth - 1, facts) && nul == NullOf(n, depth - 1, facts)
      ensures Warnings(n, path, depth - 1, suppress > 0, facts) == []
    {
      PlainWarnings(n, path, depth - 1, suppress > 0, facts);
      match n.kind {
        case IntegerLiteral => return LiteralType(n.text), NOT_NULL;
        case FloatLiteral => return Double, NOT_NULL;
        case StringLiteral => return Text, NOT_NULL;
        case BooleanLiteral(_) => return Boolean, NOT_NULL;
        case NullLiteral => return NullType, NULLABLE;
        case IntervalLiteral => return Interval, NOT_NULL;
        case DateTimeLiteral(t) => return if t.Date? || t.Time? || t.Timestamp? then t else Timestamp, NOT_NULL;
        case ColumnRef => return facts.column(n.text).type_, facts.column(n.text).nullability;
        case Subquery => return facts.projected(n), NULLABLE;
        case _ => return Unknown, NULLABLE;
      }
    }

    method InferUnary(n: Node, path: seq<nat>) returns (t: DataType, nul: int)
      requires n.kind.Unary? || n.kind.IsNull? || n.kind.BooleanTest? || n.kind.Cast? || n.kind.Collate?
      requires 0 < depth <= MAX_DEPTH
      modifies this
      ensures t == TypeOf(n, old(depth) - 1, facts) && nul == NullOf(n, old(depth) - 1, facts)
      ensures depth == old(depth) && suppress == old(suppress)
      ensures warnings == old(warnings) + Warnings(n, path, old(depth) - 1, old(suppress) > 0, facts)
      decreases n, 3
    {
      hide Warnings, ChildType, ChildNull, ChildWarnings;
      PlainWarnings(n, path, depth - 1, suppress > 0, facts);
      if n.kind.Unary? && n.kind.un.Exists? {
        ListDone(n, 0, path, depth, suppress > 0, facts);
        return Boolean, NOT_NULL;
      }
      OneOperand(n, path, depth, suppress > 0, facts);
      t, nul := InferChild(n, 0, path);
      match n.kind {
        case Unary(op) => t := if op.Not? then Boolean else t;
        case IsNull(_) | BooleanTest(_, _) => t, nul := Boolean, NOT_NULL;
        case Cast => t := if |n.children| > 1 then facts.typeNamed(n.children[1].text) else Unknown;
        case Collate =>
      }
    }

    /** BETWEEN and LIKE. */
    method InferCompared(n: Node, path: seq<nat>) returns (t: DataType, nul: int)
      requires n.kind.Between? || n.kind.Like?
      requires 0 < depth <= MAX_DEPTH
      modifies this
      ensures t == TypeOf(n, old(depth) - 1, facts) && nul == NullOf(n, old(depth) - 1, facts)
      ensures depth == old(depth) && suppress == old(suppress)
      ensures warnings == old(warnings) + Warnings(n, path, old(depth) - 1, old(suppress) > 0, facts)
      decreases n, 3
    {
      hide Warnings, ChildType, ChildNull, ChildWarnings, ListWarnings, Combine;
      PlainWarnings(n, path, depth - 1, suppress > 0, facts);
      ghost var s, d := suppress > 0, depth;
      var _, first := InferChild(n, 0, path);
      var _, second := InferChild(n, 1, path);
      Regrouped(old(warnings), ChildWarnings(n, 0, path, d, s, facts), ChildWarnings(n, 1, path, d, s, facts));
      if n.kind.Like? {
        TwoOperands(n, path, d, s, facts);
        nul := CombineNullableAny([first, second]);
      } else {
        ThreeOperands(n, path, d, s, facts);
        var _, third := InferChild(n, 2, path);
        Regrouped(old(warnings), ChildWarnings(n, 0, path, d, s, facts) + ChildWarnings(n, 1, path, d, s, facts),
                ChildWarnings(n, 2, path, d, s, facts));
        nul := CombineNullableAny([first, second, third]);
      }
      t := Boolean;
    }

    /** The children from the `from`-th on; a star contributes neither type nor nullability to
        `types` and `argNulls`. */
    method InferList(n: Node, from: nat, path: seq<nat>)
      returns (types: seq<DataType>, argNulls: seq<int>, nulls: seq<int>)
      requires from <= |n.children|
      modifies this
      ensures types == ArgTypes(n.children[from..], old(depth), facts)
      ensures argNulls == ArgNulls(n.children[from..], old(depth), facts)
      ensures nulls == NullsOf(n.children[from..], old(depth), facts)
      ensures depth == old(depth) && suppress == old(suppress)
      ensures warnings == old(warnings) + ListWarnings(n, from, |n.children|, path, old(depth), old(suppress) > 0, facts)
      decreases n, 1
    {
      hide ArgTypes, ArgNulls, NullsOf, ListWarnings, Warnings, TypeOf, NullOf;
      types, argNulls, nulls := [], [], [];
      ghost var all := n.children;
      for k := from to |n.children|
        invariant depth == old(depth) && suppress == old(suppress)
        invariant types + ArgTypes(all[k..], depth, facts) == ArgTypes(all[from..], depth, facts)
        invariant argNulls + ArgNulls(all[k..], depth, facts) == ArgNulls(all[from..], depth, facts)
        invariant nulls + NullsOf(all[k..], depth, facts) == NullsOf(all[from..], depth, facts)
        invariant warnings + ListWarnings(n, k, |all|, path, depth, suppress > 0, facts)
                  == old(warnings) + ListWarnings(n, from, |all|, path, depth, suppress > 0, facts)
      {
        NullsSnoc(all, k, depth, facts);
        ArgsSnoc(all, k, depth, facts);
        ListSnoc(n, k, |all|, path, depth, suppress > 0, facts);
        ghost var w := warnings;
        var t, nul := InferExpr(n.children[k], path + [k]);
        Regrouped(w, ChildWarnings(n, k, path, depth, suppress > 0, facts),
                ListWarnings(n, k + 1, |all|, path, depth, suppress > 0, facts));
        if !n.children[k].kind.Star? {
          types, argNulls := types + [t], argNulls + [nul];
        }
        nulls := nulls + [nul];
      }
      NoneLeft(n, path, depth, suppress > 0, facts);
    }

    method InferListed(n: Node, path: seq<nat>) returns (t: DataType, nul: int)
      requires n.kind.In? || n.kind.ArrayConstructor? || n.kind.RowConstructor? || n.kind.Other? || n.kind.Star? || n.kind.TypeName?
      requires 0 < depth <= MAX_DEPTH
      modifies this
      ensures t == TypeOf(n, old(depth) - 1, facts) && nul == NullOf(n, old(depth) - 1, facts)
      ensures depth == old(depth) && suppress == old(suppress)
      ensures warnings == old(warnings) + Warnings(n, path, old(depth) - 1, old(suppress) > 0, facts)
      decreases n, 3
    {
      hide Warnings, ListWarnings, NullsOf, ArgTypes, ArgNulls;
      PlainWarnings(n, path, depth - 1, suppress > 0, facts);
      assert n.children[0..] == n.children;
      var _, _, nulls := InferList(n, 0, path);
      match n.kind {
        case In(_) =>
          nul := CombineNullableAny(if n.children == [] then [UNKNOWN_NULL] else nulls);
          t := Boolean;
        case ArrayConstructor => return DataType.Array, NOT_NULL;
        case RowConstructor => return Unknown, NULLABLE;
        case _ => return Unknown, UNKNOWN_NULL;
      }
    }

    method InferCall(n: Node, path: seq<nat>) returns (t: DataType, nul: int)
      requires n.kind.FunctionCall? && 0 < depth <= MAX_DEPTH
      modifies this
      ensures t == TypeOf(n, old(depth) - 1, facts) && nul == NullOf(n, old(depth) - 1, facts)
      ensures depth == old(depth) && suppress == old(suppress)
      ensures warnings == old(warnings) + Warnings(n, path, old(depth) - 1, old(suppress) > 0, facts)
      decreases n, 3
    {
      hide Warnings, ListWarnings, ArgTypes, ArgNulls, CallNullability, Fold;
      PlainWarnings(n, path, depth - 1, suppress > 0, facts);
      var from := OperandsFrom(n);
      assert n.children[0..] == n.children;
      var types, nulls, _ := InferList(n, from, path);
      var name := Fold(n.text);
      if name == "grouping" {
        return BigInt, NOT_NULL;
      }
      var sig := facts.signature(name, types);
      return sig.type_, if sig.known then CallNullability(name, nulls) else NULLABLE;
    }

    method InferBinary(n: Node, path: seq<nat>) returns (t: DataType, nul: int)
      requires n.kind.Binary? && 0 < depth <= MAX_DEPTH
      modifies this
      ensures t == TypeOf(n, old(depth) - 1, facts) && nul == NullOf(n, old(depth) - 1, facts)
      ensures depth == old(depth) && suppress == old(suppress)
      ensures warnings == old(warnings) + Warnings(n, path, old(depth) - 1, old(suppress) > 0, facts)
      decreases n, 3
    {
      hide ConstOverflows, ConstIntChild, ArithmeticType, Combine, ListWarnings, ChildWarnings, ChildType, ChildNull;
      ghost var s, d := suppress > 0, depth;
      var lt, ln := InferChild(n, 0, path);
      var rt, rn := InferChild(n, 1, path);
      TwoOperands(n, path, d, s, facts);
      ghost var operands := ListWarnings(n, 0, 2, path, d, s, facts);
      Regrouped(old(warnings), ChildWarnings(n, 0, path, d, s, facts), ChildWarnings(n, 1, path, d, s, facts));
      ghost var own: seq<Warning> := [];
      match n.kind.bin {
        case Arith(op) =>
          t := ArithmeticType(lt, rt, op);
          if suppress == 0 && DividesByZero(n) {
            warnings := warnings + [Warning(DivisionByZero, path)];
            own := own + [Warning(DivisionByZero, path)];
          }
          if suppress == 0 && ConstOverflows(n, op, t) {
            warnings := warnings + [Warning(IntegerOverflow, path)];
            own := own + [Warning(IntegerOverflow, path)];
          }
        case Concat => t := if lt.Array? || rt.Array? then DataType.Array else Text;
        case When | OtherBinary => t := Unknown;
        case _ => t := Boolean;
      }
      assert warnings == old(warnings) + (operands + own);
      BinaryOwn(n, path, d - 1, s, facts, t, own);
      nul := CombineNullableAny([ln, rn]);
      if n.kind.bin.DistinctFrom? {
        nul := NOT_NULL;
      }
    }

    /** The arms of a CASE. The suppression counter is raised around a dead arm's result only. */
    method InferCase(n: Node, path: seq<nat>) returns (t: DataType, nul: int)
      requires n.kind.Case? && 0 < depth <= MAX_DEPTH
      modifies this
      ensures t == TypeOf(n, old(depth) - 1, facts) && nul == NullOf(n, old(depth) - 1, facts)
      ensures depth == old(depth) && suppress == old(suppress)
      ensures warnings == old(warnings) + Warnings(n, path, old(depth) - 1, old(suppress) > 0, facts)
      decreases n, 3
    {
      hide Combine, ReconcileAll, Warnings, ListWarnings, ArmWarnings, IsSimpleCase, ArmTypes, ArmNulls, HasElse;
      CaseStep(n, path, depth - 1, suppress > 0, facts);
      ghost var s, d := suppress > 0, depth;
      if IsSimpleCase(n) {
        var _, _ := InferOperand(n, path);
      }
      var types, nulls, hasElse := InferArms(n, path);
      Regrouped(old(warnings), ListWarnings(n, 0, FirstArm(n), path, d, s, facts),
              ArmWarnings(n, FirstArm(n), false, path, d, s, facts));
      var common, _ := ReconcileBranches(types);
      t := common;
      nul := CombineNullableAny(nulls);
      if !hasElse {
        nul := NULLABLE;
      }
    }

    method InferOperand(n: Node, path: seq<nat>) returns (t: DataType, nul: int)
      requires n.kind.Case? && IsSimpleCase(n)
      modifies this
      ensures depth == old(depth) && suppress == old(suppress)
      ensures warnings == old(warnings) + ListWarnings(n, 0, FirstArm(n), path, old(depth), old(suppress) > 0, facts)
      decreases n, 2
    {
      hide Warnings, ListWarnings;
      OneOperand(n, path, depth, suppress > 0, facts);
      t, nul := InferChild(n, 0, path);
    }

    method InferArms(n: Node, path: seq<nat>) returns (types: seq<DataType>, nulls: seq<int>, hasElse: bool)
      requires n.kind.Case?
      modifies this
      ensures types == ArmTypes(n.children[FirstArm(n)..], old(depth), facts)
      ensures nulls == ArmNulls(n.children[FirstArm(n)..], old(depth), facts)
      ensures hasElse == HasElse(n.children[FirstArm(n)..])
      ensures depth == old(depth) && suppress == old(suppress)
      ensures warnings == old(warnings) + ArmWarnings(n, FirstArm(n), false, path, old(depth), old(suppress) > 0, facts)
      decreases n, 2
    {
      hide ArmTypes, ArmNulls, ArmWarnings, ArmOwn, IsWhen, ConstGuard, FirstArm, Operand, ChildNull, ChildType, TypeOf, NullOf;
      FirstArmFits(n);
      types, nulls, hasElse := [], [], false;
      var taken := false;
      ghost var all, from := n.children, FirstArm(n);
      for k := FirstArm(n) to |n.children|
        invariant depth == old(depth) && suppress == old(suppress)
        invariant types + ArmTypes(all[k..], depth, facts) == ArmTypes(all[from..], depth, facts)
        invariant nulls + ArmNulls(all[k..], depth, facts) == ArmNulls(all[from..], depth, facts)
        invariant hasElse <==> exists i :: from <= i < k && !IsWhen(all[i])
        invariant warnings + ArmWarnings(n, k, taken, path, depth, suppress > 0, facts)
                  == old(warnings) + ArmWarnings(n, from, false, path, depth, suppress > 0, facts)
      {
        ArmsSnoc(all, k, depth, facts);
        ArmsStep(n, k, taken, path, depth, suppress > 0, facts);
        ghost var w := warnings;
        var t, nul := InferArm(n, k, taken, path);
        ghost var after := taken || TakenBy(all[k], Operand(n));
        Regrouped(w, ArmOwn(n, k, taken, path, depth, suppress > 0, facts),
                ArmWarnings(n, k + 1, after, path, depth, suppress > 0, facts));
        if !IsWhen(n.children[k]) {
          hasElse := true;
        } else if ConstGuard(n.children[k], Operand(n)) == Some(true) {
          taken := true;
        }
        assert taken == after;
        types, nulls := types + [t], nulls + [nul];
      }
      NoArmLeft(n, taken, path, depth, suppress > 0, facts);
      assert forall i :: 0 <= i < |all[from..]| ==> all[from..][i] == all[from + i];
      assert forall i :: from <= i < |all| ==> all[i] == all[from..][i - from];
    }

    method InferArm(n: Node, k: nat, taken: bool, path: seq<nat>) returns (t: DataType, nul: int)
      requires k < |n.children|
      modifies this
      ensures t == if IsWhen(n.children[k]) then ChildType(n.children[k], 1, old(depth), facts) else TypeOf(n.children[k], old(depth), facts)
      ensures nul == if IsWhen(n.children[k]) then ChildNull(n.children[k], 1, old(depth), facts) else NullOf(n.children[k], old(depth), facts)
      ensures depth == old(depth) && suppress == old(suppress)
      ensures warnings == old(warnings) + ArmOwn(n, k, taken, path, old(depth), old(suppress) > 0, facts)
      decreases n, 1
    {
      hide ConstGuard, ChildNull, ChildType, ChildWarnings, TypeOf, NullOf, Warnings, IsWhen, Operand;
      var arm := n.children[k];
      ghost var s, d := suppress > 0, depth;
      if IsWhen(arm) {
        var _, _ := InferChild(arm, 0, path + [k]);
        var dead := ArmDead(arm, Operand(n), taken);
        if dead { suppress := suppress + 1; }
        t, nul := InferChild(arm, 1, path + [k]);
        if dead { suppress := suppress - 1; }
        Regrouped(old(warnings), ChildWarnings(arm, 0, path + [k], d, s, facts), ChildWarnings(arm, 1, path + [k], d, s || dead, facts));
      } else {
        if taken { suppress := suppress + 1; }
        t, nul := InferExpr(arm, path + [k]);
        if taken { suppress := suppress - 1; }
      }
    }
  }

  lemma NoneLeft(n: Node, path: seq<nat>, d: nat, suppressed: bool, f: Facts)
    ensures var none := n.children[|n.children|..];
            ArgTypes(none, d, f) == [] && ArgNulls(none, d, f) == [] && NullsOf(none, d, f) == []
    ensures ListWarnings(n, |n.children|, |n.children|, path, d, suppressed, f) == []
  {
    assert n.children[|n.children|..] == [];
  }

  lemma NoArmLeft(n: Node, taken: bool, path: seq<nat>, d: nat, suppressed: bool, f: Facts)
    ensures ArmTypes(n.children[|n.children|..], d, f) == [] && ArmNulls(n.children[|n.children|..], d, f) == []
    ensures ArmWarnings(n, |n.children|, taken, path, d, suppressed, f) == []
  {
    assert n.children[|n.children|..] == [];
  }

  lemma FirstArmFits(n: Node)
    ensures FirstArm(n) <= |n.children|
  {
  }

  lemma CaseStep(n: Node, path: seq<nat>, d: nat, suppressed: bool, f: Facts)
    requires n.kind.Case? && d < MAX_DEPTH
    ensures FirstArm(n) <= |n.children|
    ensures var arms := n.children[FirstArm(n)..];
            && TypeOf(n, d, f) == ReconcileAll(ArmTypes(arms, d + 1, f)).type_
            && NullOf(n, d, f) == (if HasElse(arms) then Combine(ArmNulls(arms, d + 1, f)) else NULLABLE)
    ensures Warnings(n, path, d, suppressed, f)
            == ListWarnings(n, 0, FirstArm(n), path, d + 1, suppressed, f)
               + ArmWarnings(n, FirstArm(n), false, path, d + 1, suppressed, f)
    ensures !IsSimpleCase(n) ==> ListWarnings(n, 0, FirstArm(n), path, d + 1, suppressed, f) == []
  {
    hide ReconcileAll, ArmTypes, ArmNulls, HasElse, Combine, ArmWarnings;
    assert n.children[0..] == n.children;
  }

  lemma BinaryOwn(n: Node, path: seq<nat>, d: nat, suppressed: bool, f: Facts, t: DataType, own: seq<Warning>)
    requires n.kind.Binary? && d < MAX_DEPTH
    requires n.kind.bin.Arith? ==> t == ArithmeticType(ChildType(n, 0, d + 1, f), ChildType(n, 1, d + 1, f), n.kind.bin.arith)
    requires own == (if !suppressed && DividesByZero(n) then [Warning(DivisionByZero, path)] else [])
                  + (if !suppressed && n.kind.bin.Arith? && ConstOverflows(n, n.kind.bin.arith, t)
                     then [Warning(IntegerOverflow, path)] else [])
    ensures Warnings(n, path, d, suppressed, f) == ListWarnings(n, 0, 2, path, d + 1, suppressed, f) + own
  {
    hide ListWarnings, ChildType, ArithmeticType, ConstOverflows, ConstIntChild;
    assert At(OwnCodes(n, d, suppressed, f), path) == own;
  }
}
