/** Constant folding agrees with evaluation, a dead CASE arm is one no row evaluates, and what the
    warnings about constant arithmetic therefore promise. */
module ConstantFolding {
  import opened Wrappers
  import opened Numerals
  import opened Types
  import opened Ast
  import opened Semantics
  import opened Infer
  import opened InferWalk
  import opened InferWarnings
  import opened NodePaths

  // ----- Folding is exact -----

  /** A folded integer is the exact value of the expression, in every row. */
  lemma {:induction false} FoldedIntIsExact(n: Node, env: Env)
    ensures ConstInt(n).Some? ==> Eval(n, env) == Int(ConstInt(n).value)
    decreases n, 1
  {
    hide Integral, StripQuotes;
    match n.kind {
      case Unary(op) => FoldedChildIsExact(n, 0, env);
      case Binary(op) =>
        FoldedChildIsExact(n, 0, env);
        FoldedChildIsExact(n, 1, env);
      case _ =>
    }
  }

  lemma {:induction false} FoldedChildIsExact(n: Node, idx: nat, env: Env)
    ensures ConstIntChild(n, idx).Some? ==> EvalChild(n, idx, env) == Int(ConstIntChild(n, idx).value)
    decreases n, 0
  {
    hide ConstInt, Eval;
    if idx < |n.children| {
      FoldedIntIsExact(n.children[idx], env);
    }
  }

  lemma FoldedBoolIsExact(n: Node, env: Env)
    ensures ConstBool(n).Some? ==> Eval(n, env) == Bool(ConstBool(n).value)
  {
    hide ConstIntChild, EvalChild;
    if n.kind.Binary? {
      FoldedChildIsExact(n, 0, env);
      FoldedChildIsExact(n, 1, env);
    }
  }

  // ----- What folds -----

  /** A tree of decimal literals, signs and + - * whose every intermediate result fits 64 bits;
      `env` only carries the evaluation. */
  ghost predicate Computable(n: Node, env: Env)
    decreases n, 1
  {
    match n.kind
    case IntegerLiteral => Integral(n.text).Some? && !("+" <= n.text) && FitsInt64(Integral(n.text).value)
    case Unary(op) => ComputableChild(n, 0, env) && ((op.Minus? && EvalChild(n, 0, env) != Int(INT64_MIN)) || op.Plus?)
    case Binary(op) =>
      && ComputableChild(n, 0, env) && ComputableChild(n, 1, env)
      && op.Arith? && IsCheckedOp(op.arith) && Eval(n, env).Int? && FitsInt64(Eval(n, env).i)
    case _ => false
  }

  ghost predicate ComputableChild(n: Node, idx: nat, env: Env)
    decreases n, 0
  {
    idx < |n.children| && Computable(n.children[idx], env)
  }

  /** Exactly these trees fold. */
  lemma {:induction false} FoldsIffComputable(n: Node, env: Env)
    ensures ConstInt(n).Some? <==> Computable(n, env)
    decreases n, 1
  {
    hide Integral, StripQuotes, Int64Of;
    match n.kind {
      case IntegerLiteral => LiteralFolds(n.text);
      case Unary(op) =>
        ChildFolds(n, 0, env);
        FoldedChildIsExact(n, 0, env);
      case Binary(op) =>
        ChildFolds(n, 0, env);
        ChildFolds(n, 1, env);
        FoldedChildIsExact(n, 0, env);
        FoldedChildIsExact(n, 1, env);
      case _ =>
    }
  }

  lemma LiteralFolds(text: string)
    ensures Int64Of(text).Some? <==> Integral(text).Some? && !("+" <= text) && FitsInt64(Integral(text).value)
  {
  }

  lemma {:induction false} ChildFolds(n: Node, idx: nat, env: Env)
    ensures ConstIntChild(n, idx).Some? <==> ComputableChild(n, idx, env)
    decreases n, 0
  {
    hide ConstInt, Eval, Computable;
    if idx < |n.children| {
      FoldsIffComputable(n.children[idx], env);
    }
  }

  /** A guard folds exactly when it is a Boolean literal or compares two such trees. */
  lemma GuardFolds(n: Node, env: Env)
    ensures ConstBool(n).Some? == (n.kind.BooleanLiteral? ||
              (n.kind.Binary? && n.kind.bin.Compare? && ComputableChild(n, 0, env) && ComputableChild(n, 1, env)))
  {
    hide ConstIntChild, ComputableChild;
    if n.kind.Binary? {
      ChildFolds(n, 0, env);
      ChildFolds(n, 1, env);
    }
  }

  /** The guard of an arm is constant exactly when it folds; in a simple CASE, when the operand
      and the value do. */
  lemma ArmGuardFolds(n: Node, k: nat, env: Env)
    requires k < |n.children| && IsWhen(n.children[k])
    ensures ConstGuard(n.children[k], Operand(n)).Some? ==
            (if IsSimpleCase(n) then Computable(n.children[0], env) && ComputableChild(n.children[k], 0, env)
             else n.children[k].children != [] && ConstBool(n.children[k].children[0]).Some?)
  {
    hide ConstInt, ConstBool, Computable;
    ChildFolds(n.children[k], 0, env);
    if IsSimpleCase(n) {
      FoldsIffComputable(n.children[0], env);
    }
  }

  /** An integer literal takes the narrowest of INTEGER, BIGINT and DECIMAL that holds it. */
  lemma LiteralTypeIsNarrowest(text: string)
    requires Integral(text).Some?
    ensures var v := Integral(text).value; var t := LiteralType(text);
            && InRange(t, v) && (t.Integer? || t.BigInt? || t.Decimal?)
            && (!t.Integer? ==> !InRange(Integer, v)) && (t.Decimal? ==> !InRange(BigInt, v))
  {
    hide Integral;
  }

  // ----- Which positions a row evaluates -----

  function CaseOperand(n: Node, env: Env): Option<Value> {
    if IsSimpleCase(n) then Some(Eval(n.children[0], env)) else None
  }

  /** Does the arm at `k` end the search: a WHEN whose guard is true, or the ELSE? */
  predicate ArmTaken(n: Node, k: nat, env: Env) {
    k < |n.children| && (IsWhen(n.children[k]) ==> GuardHolds(CaseOperand(n, env), EvalChild(n.children[k], 0, env), env))
  }

  predicate ArmReached(n: Node, k: nat, env: Env) {
    forall j: nat :: FirstArm(n) <= j < k ==> !ArmTaken(n, j, env)
  }

  /** Does evaluating `n` in this row evaluate the node at `p`? A CASE evaluates its guards in
      order up to the first true one, and then only that arm's result. */
  predicate Evaluated(n: Node, p: seq<nat>, env: Env)
    decreases |p|
  {
    if p == [] then true
    else
      var k := p[0];
      && IsOperand(n, k)
      && (n.kind.Case? && FirstArm(n) <= k ==> ArmReached(n, k, env))
      && if IsArmStep(n, k) then
           && |p| > 1 && p[1] < 2 && p[1] < |n.children[k].children|
           && (p[1] == 1 ==> ArmTaken(n, k, env))
           && Evaluated(n.children[k].children[p[1]], p[2..], env)
         else Evaluated(n.children[k], p[1..], env)
  }

  function ArmResult(n: Node, k: nat, env: Env): Value
    requires k < |n.children|
  {
    if IsWhen(n.children[k]) then EvalChild(n.children[k], 1, env) else Eval(n.children[k], env)
  }

  lemma {:induction false} SearchEnds(n: Node, from: nat, k: nat, env: Env)
    requires FirstArm(n) <= from <= k && ArmTaken(n, k, env)
    requires forall j: nat :: from <= j < k ==> !ArmTaken(n, j, env)
    ensures EvalArms(n.children[from..], CaseOperand(n, env), env) == ArmResult(n, k, env)
    decreases k - from
  {
    hide Eval, EvalChild, GuardHolds, IsWhen, CaseOperand;
    assert n.children[from..][0] == n.children[from] && n.children[from..][1..] == n.children[from + 1..];
    if from < k {
      assert !ArmTaken(n, from, env);
      SearchEnds(n, from + 1, k, env);
    }
  }

  lemma CaseValue(n: Node, env: Env)
    requires n.kind.Case?
    ensures FirstArm(n) <= |n.children|
    ensures Eval(n, env) == EvalArms(n.children[FirstArm(n)..], CaseOperand(n, env), env)
  {
    hide EvalArms;
    assert n.children[0..] == n.children;
  }

  /** The arm a row reaches and takes is the one whose result the CASE yields. */
  lemma TakenArmDecides(n: Node, k: nat, env: Env)
    requires n.kind.Case? && FirstArm(n) <= k && ArmReached(n, k, env) && ArmTaken(n, k, env)
    ensures Eval(n, env) == ArmResult(n, k, env)
  {
    hide Eval, EvalArms, CaseOperand, ArmTaken, ArmResult;
    CaseValue(n, env);
    SearchEnds(n, FirstArm(n), k, env);
  }

  // ----- Dead arms -----

  lemma ConstGuardIsExact(n: Node, k: nat, env: Env)
    requires k < |n.children| && IsWhen(n.children[k])
    ensures var g := ConstGuard(n.children[k], Operand(n)); g.Some? ==> (g.value <==> ArmTaken(n, k, env))
  {
    hide Eval, ConstInt, ConstBool;
    var arm := n.children[k];
    FoldedChildIsExact(arm, 0, env);
    if IsSimpleCase(n) {
      FoldedIntIsExact(n.children[0], env);
    } else if arm.children != [] {
      FoldedBoolIsExact(arm.children[0], env);
    }
  }

  lemma {:induction false} TakenBeforeIsExact(n: Node, k: nat, env: Env)
    requires k <= |n.children| && TakenBefore(n, k)
    ensures !ArmReached(n, k, env)
  {
    hide ArmTaken, ConstGuard;
    if TakenBefore(n, k - 1) {
      TakenBeforeIsExact(n, k - 1, env);
    } else {
      ConstGuardIsExact(n, k - 1, env);
    }
  }

  /** No row evaluates the result of an arm the walk takes for dead. */
  lemma DeadArmIsNeverTaken(n: Node, k: nat, env: Env)
    requires DeadArm(n, k)
    ensures !(ArmReached(n, k, env) && ArmTaken(n, k, env))
  {
    hide ArmTaken, ArmReached, ConstGuard;
    if TakenBefore(n, k) {
      TakenBeforeIsExact(n, k, env);
    } else {
      ConstGuardIsExact(n, k, env);
    }
  }

  lemma ElseIsTaken(n: Node, k: nat, env: Env)
    requires k < |n.children| && !IsWhen(n.children[k])
    ensures ArmTaken(n, k, env)
  {
  }

  /** Warnings are suppressed only where no row ever evaluates. */
  lemma {:induction false} SuppressedIsNeverEvaluated(n: Node, p: seq<nat>, d: nat, env: Env)
    requires Reach(n, p, d, false).Some? && Reach(n, p, d, false).value.suppressed
    ensures !Evaluated(n, p, env)
    decreases |p|
  {
    hide DeadArm, ArmReached, ArmTaken, OperandsFrom, OperandsTo, IsSimpleCase, IsWhen;
    var k := p[0];
    if DeadArm(n, k) {
      DeadStep(n, p, d, env);
    } else if IsArmStep(n, k) {
      SuppressedIsNeverEvaluated(n.children[k].children[p[1]], p[2..], d + 1, env);
    } else {
      SuppressedIsNeverEvaluated(n.children[k], p[1..], d + 1, env);
    }
  }

  lemma {:induction false} DeadStep(n: Node, p: seq<nat>, d: nat, env: Env)
    requires p != [] && DeadArm(n, p[0])
    requires Reach(n, p, d, false).Some? && Reach(n, p, d, false).value.suppressed
    ensures !Evaluated(n, p, env)
    decreases |p|, 0
  {
    hide ArmReached, ArmTaken, ArmDead, TakenBefore, OperandsFrom, OperandsTo, IsSimpleCase, IsWhen;
    var k := p[0];
    DeadArmIsNeverTaken(n, k, env);
    if !IsArmStep(n, k) {
      ElseIsTaken(n, k, env);
    } else if p[1] == 0 {
      SuppressedIsNeverEvaluated(n.children[k].children[0], p[2..], d + 1, env);
    }
  }

  // ----- What is evaluated is warned about -----

  lemma {:induction false} EvaluatedIsReached(n: Node, p: seq<nat>, d: nat, suppressed: bool, env: Env)
    requires Evaluated(n, p, env) && d + |p| < MAX_DEPTH
    ensures Reach(n, p, d, suppressed).Some? && Some(Reach(n, p, d, suppressed).value.node) == NodeAt(n, p)
    decreases |p|
  {
    hide DeadArm, ArmReached, ArmTaken, OperandsFrom, OperandsTo, IsSimpleCase, IsWhen;
    if p != [] {
      var k := p[0];
      if IsArmStep(n, k) {
        assert p[1..][1..] == p[2..];
        EvaluatedIsReached(n.children[k].children[p[1]], p[2..], d + 1, suppressed || (p[1] == 1 && DeadArm(n, k)), env);
      } else {
        EvaluatedIsReached(n.children[k], p[1..], d + 1, suppressed || DeadArm(n, k), env);
      }
    }
  }

  /** Every constant division by zero that some row evaluates is warned about. */
  lemma ZeroDivisionIsWarned(n: Node, p: seq<nat>, f: Facts, env: Env)
    requires Evaluated(n, p, env) && |p| < MAX_DEPTH
    requires NodeAt(n, p).Some? && DividesByZero(NodeAt(n, p).value)
    ensures Warning(DivisionByZero, p) in Warnings(n, [], 0, false, f)
  {
    hide Warnings, DividesByZero, Evaluated, Reach, Overflows;
    EvaluatedIsReached(n, p, 0, false, env);
    if Reach(n, p, 0, false).value.suppressed {
      SuppressedIsNeverEvaluated(n, p, 0, env);
    }
    WarningsAreRaised(Warning(DivisionByZero, p), n, [], 0, false, f);
    assert p[0..] == p;
  }

  /** And a warning is raised only for a constant zero divisor, outside dead arms. */
  lemma WarnedIsZeroDivision(n: Node, p: seq<nat>, f: Facts)
    requires Warning(DivisionByZero, p) in Warnings(n, [], 0, false, f)
    ensures var v := Reach(n, p, 0, false); v.Some? && DividesByZero(v.value.node) && !v.value.suppressed
  {
    hide Warnings, DividesByZero, Reach, Overflows;
    WarningsAreRaised(Warning(DivisionByZero, p), n, [], 0, false, f);
    assert p[0..] == p;
  }

  // ----- Overflow -----

  function Exact(op: ArithOp, x: int, y: int): int
    requires IsCheckedOp(op)
  {
    match op case Add => x + y case Sub => x - y case Mul => x * y
  }

  /** IntegerOverflow means: both operands fold, and the exact result leaves the range of the
      inferred integer type. */
  lemma OverflowIsExact(n: Node, d: nat, f: Facts)
    ensures Overflows(n, d, f) <==>
            && n.kind.Binary? && n.kind.bin.Arith? && IsCheckedOp(n.kind.bin.arith) && IsIntegerType(TypeOf(n, d, f))
            && ConstIntChild(n, 0).Some? && ConstIntChild(n, 1).Some?
            && !InRange(TypeOf(n, d, f), Exact(n.kind.bin.arith, ConstIntChild(n, 0).value, ConstIntChild(n, 1).value))
  {
    hide TypeOf, ConstIntChild, InRange, IsIntegerType;
    if n.kind.Binary? && n.kind.bin.Arith? && IsCheckedOp(n.kind.bin.arith) && ConstIntChild(n, 0).Some? && ConstIntChild(n, 1).Some? {
      IntegersFitInt64(TypeOf(n, d, f), Exact(n.kind.bin.arith, ConstIntChild(n, 0).value, ConstIntChild(n, 1).value));
    }
  }

  lemma IntegersFitInt64(t: DataType, v: int)
    ensures IsIntegerType(t) && InRange(t, v) ==> FitsInt64(v)
  {
  }

  /** A tree of decimal literals, signs and + - *. */
  predicate Foldable(n: Node) {
    match n.kind
    case IntegerLiteral => n.children == []
    case Unary(op) => (op.Minus? || op.Plus?) && |n.children| == 1 && Foldable(n.children[0])
    case Binary(op) =>
      op.Arith? && IsCheckedOp(op.arith) && |n.children| == 2 && Foldable(n.children[0]) && Foldable(n.children[1])
    case _ => false
  }

  predicate Quiet(n: Node, d: nat, f: Facts) {
    !Overflows(n, d, f) && forall k: nat :: k < |n.children| ==> Quiet(n.children[k], d + 1, f)
  }

  /** Does the folded value, if any, fit the type inferred for the node? */
  predicate Fits(n: Node, d: nat, f: Facts) {
    ConstInt(n).Some? ==> InRange(TypeOf(n, d, f), ConstInt(n).value)
  }

  predicate AllFit(n: Node, d: nat, f: Facts) {
    Fits(n, d, f) && forall k: nat :: k < |n.children| ==> AllFit(n.children[k], d + 1, f)
  }

  function Minimum(t: DataType): Option<int> {
    match t
    case TinyInt => Some(-128)
    case SmallInt => Some(-32768)
    case Integer => Some(-0x8000_0000)
    case _ => None
  }

  /** A minus on an operand that folds to the least value of its type. */
  predicate NegatesMinimum(n: Node, d: nat, f: Facts) {
    && n.kind == Unary(Minus) && ConstIntChild(n, 0).Some?
    && Some(ConstIntChild(n, 0).value) == Minimum(TypeOf(n, d, f))
  }

  predicate NegatesNoMinimum(n: Node, d: nat, f: Facts) {
    !NegatesMinimum(n, d, f) && forall k: nat :: k < |n.children| ==> NegatesNoMinimum(n.children[k], d + 1, f)
  }

  lemma LiteralFits(text: string)
    ensures Int64Of(text).Some? ==> InRange(LiteralType(text), Int64Of(text).value)
  {
  }

  lemma NegationFits(t: DataType, v: int)
    requires FitsInt64(v) && InRange(t, v)
    ensures v != INT64_MIN ==> (InRange(t, -v) <==> Some(v) != Minimum(t))
    ensures v == INT64_MIN ==> Some(v) != Minimum(t)
  {
  }

  lemma NonIntegerFits(t: DataType, v: int)
    requires !IsIntegerType(t)
    ensures InRange(t, v)
  {
  }

  /** Given fitting operands and no overflow here, only negating a minimum can misfit. */
  lemma FitsUnlessMinimumNegated(n: Node, d: nat, f: Facts)
    requires Foldable(n) && d < MAX_DEPTH && !Overflows(n, d, f)
    requires forall k: nat :: k < |n.children| ==> Fits(n.children[k], d + 1, f)
    ensures Fits(n, d, f) <==> !NegatesMinimum(n, d, f)
  {
    hide Foldable, InRange, Minimum, LiteralType, ArithmeticType, FitsInt64, Overflows, IsIntegerType;
    FoldableShape(n);
    match n.kind {
      case IntegerLiteral => LiteralFits(n.text);
      case Unary(op) =>
        assert Fits(n.children[0], d + 1, f);
        assert TypeOf(n, d, f) == TypeOf(n.children[0], d + 1, f);
        assert ConstIntChild(n, 0) == ConstInt(n.children[0]);
        if ConstIntChild(n, 0).Some? {
          NegationFits(TypeOf(n, d, f), ConstIntChild(n, 0).value);
        }
      case Binary(op) =>
        OverflowIsExact(n, d, f);
        if ConstInt(n).Some? && !IsIntegerType(TypeOf(n, d, f)) {
          NonIntegerFits(TypeOf(n, d, f), ConstInt(n).value);
        }
      case _ =>
    }
  }

  lemma FoldableShape(n: Node)
    requires Foldable(n)
    ensures n.kind.IntegerLiteral? || n.kind.Unary? || n.kind.Binary?
    ensures n.kind.Unary? ==> |n.children| == 1 && (n.kind.un.Minus? || n.kind.un.Plus?)
  {
  }

  lemma DeepFits(n: Node, d: nat, f: Facts)
    requires d >= MAX_DEPTH
    ensures Fits(n, d, f) && !NegatesMinimum(n, d, f) && !Overflows(n, d, f)
  {
  }

  lemma FoldableChild(n: Node, k: nat)
    requires Foldable(n) && k < |n.children|
    ensures Foldable(n.children[k])
  {
  }

  /** In a constant tree with no overflow, every folded value fits its type exactly when no
      minus is applied to the minimum of a type. */
  lemma {:induction false} QuietTreeFits(n: Node, d: nat, f: Facts)
    requires Foldable(n) && Quiet(n, d, f)
    ensures AllFit(n, d, f) <==> NegatesNoMinimum(n, d, f)
  {
    hide Foldable, Fits, NegatesMinimum, Overflows;
    forall k: nat | k < |n.children| ensures AllFit(n.children[k], d + 1, f) <==> NegatesNoMinimum(n.children[k], d + 1, f) {
      FoldableChild(n, k);
      QuietTreeFits(n.children[k], d + 1, f);
    }
    if d >= MAX_DEPTH {
      DeepFits(n, d, f);
    } else if forall k: nat :: k < |n.children| ==> AllFit(n.children[k], d + 1, f) {
      FitsUnlessMinimumNegated(n, d, f);
    }
  }

  predicate WarnsOverflow(ws: seq<Warning>) {
    exists i :: 0 <= i < |ws| && ws[i].code == IntegerOverflow
  }

  lemma WarnsSplit(a: seq<Warning>, b: seq<Warning>)
    ensures WarnsOverflow(a + b) <==> WarnsOverflow(a) || WarnsOverflow(b)
  {
    assert forall i :: 0 <= i < |a| ==> (a + b)[i] == a[i];
    assert forall i :: 0 <= i < |b| ==> (a + b)[|a| + i] == b[i];
  }

  lemma {:induction false} DeepQuiet(n: Node, d: nat, f: Facts)
    requires d >= MAX_DEPTH
    ensures Quiet(n, d, f)
  {
    hide Overflows;
    DeepFits(n, d, f);
    forall k: nat | k < |n.children| ensures Quiet(n.children[k], d + 1, f) {
      DeepQuiet(n.children[k], d + 1, f);
    }
  }

  lemma OwnOverflow(n: Node, path: seq<nat>, d: nat, f: Facts)
    ensures WarnsOverflow(At(OwnCodes(n, d, false, f), path)) <==> Overflows(n, d, f)
  {
    hide DividesByZero, Overflows;
    var codes := OwnCodes(n, d, false, f);
    if Overflows(n, d, f) {
      assert At(codes, path)[|codes| - 1].code == IntegerOverflow;
    }
  }

  /** The walk warns of no overflow exactly when no node of the constant tree overflows. */
  lemma {:induction false} QuietIsUnwarned(n: Node, path: seq<nat>, d: nat, f: Facts)
    requires Foldable(n)
    ensures Quiet(n, d, f) <==> !WarnsOverflow(Warnings(n, path, d, false, f))
    decreases n, 1
  {
    hide ListWarnings, OwnCodes, Overflows, WarnsOverflow, At, ChildWarnings;
    if d >= MAX_DEPTH {
      DeepQuiet(n, d, f);
      NothingWarns();
    } else {
      OwnOverflow(n, path, d, f);
      WarnsSplit(ListWarnings(n, OperandsFrom(n), OperandsTo(n), path, d + 1, false, f), At(OwnCodes(n, d, false, f), path));
      OperandsQuiet(n, path, d + 1, f);
    }
  }

  lemma NothingWarns()
    ensures !WarnsOverflow([])
  {
  }

  lemma {:induction false} OperandsQuiet(n: Node, path: seq<nat>, d: nat, f: Facts)
    requires Foldable(n)
    ensures (forall k: nat :: k < |n.children| ==> Quiet(n.children[k], d, f))
            <==> !WarnsOverflow(ListWarnings(n, OperandsFrom(n), OperandsTo(n), path, d, false, f))
    decreases n, 0
  {
    hide Warnings, Quiet, WarnsOverflow, ListWarnings, ChildWarnings;
    match n.kind {
      case IntegerLiteral =>
        ListDone(n, 0, path, d, false, f);
        NothingWarns();
      case Unary(_) =>
        OneOperand(n, path, d, false, f);
        ChildQuiet(n, 0, path, d, f);
      case Binary(_) =>
        TwoOperands(n, path, d, false, f);
        WarnsSplit(ChildWarnings(n, 0, path, d, false, f), ChildWarnings(n, 1, path, d, false, f));
        ChildQuiet(n, 0, path, d, f);
        ChildQuiet(n, 1, path, d, f);
        assert |n.children| == 2;
    }
  }

  lemma {:induction false} ChildQuiet(n: Node, k: nat, path: seq<nat>, d: nat, f: Facts)
    requires k < |n.children| && Foldable(n.children[k])
    ensures Quiet(n.children[k], d, f) <==> !WarnsOverflow(ChildWarnings(n, k, path, d, false, f))
    decreases n, 0, 0
  {
    hide Warnings, Quiet, WarnsOverflow;
    QuietIsUnwarned(n.children[k], path + [k], d, f);
  }

  lemma WarnedSomewhere(ws: seq<Warning>)
    ensures WarnsOverflow(ws) ==> exists p :: Warning(IntegerOverflow, p) in ws
  {
    if WarnsOverflow(ws) {
      var i :| 0 <= i < |ws| && ws[i].code == IntegerOverflow;
      assert Warning(IntegerOverflow, ws[i].path) in ws;
    }
  }

  /** No overflow warning on a constant tree: every folded value fits its inferred type if and
      only if no minus is applied to the least value of a type. */
  lemma UnwarnedConstantsFit(n: Node, f: Facts)
    requires Foldable(n) && forall p :: Warning(IntegerOverflow, p) !in Warnings(n, [], 0, false, f)
    ensures AllFit(n, 0, f) <==> NegatesNoMinimum(n, 0, f)
  {
    hide Warnings, Quiet, AllFit, NegatesNoMinimum, Foldable;
    WarnedSomewhere(Warnings(n, [], 0, false, f));
    QuietIsUnwarned(n, [], 0, f);
    QuietTreeFits(n, 0, f);
  }

  lemma NegativeText(v: nat)
    requires FitsInt64(v)
    ensures Int64Of("-" + Numeral(v)) == Some(0 - v) && Integral("-" + Numeral(v)) == Some(0 - v)
  {
    DecimalOfNumeral(v);
    assert ("-" + Numeral(v))[1..] == Numeral(v);
  }

  /** `-(-2147483648)` folds to 2147483648 and is typed INTEGER, with no warning. */
  lemma NegatedMinimumExample(f: Facts)
    ensures var n := Node(Unary(Minus), "-", [Node(IntegerLiteral, "-" + Numeral(2147483648), [])]);
            && ConstInt(n) == Some(2147483648) && TypeOf(n, 0, f) == Integer && !InRange(Integer, 2147483648)
            && Warnings(n, [], 0, false, f) == []
  {
    hide Integral, Int64Of, Numeral;
    NegativeText(2147483648);
    var operand := Node(IntegerLiteral, "-" + Numeral(2147483648), []);
    var n := Node(Unary(Minus), "-", [operand]);
    assert ConstInt(operand) == Some(-2147483648);
    assert TypeOf(operand, 1, f) == Integer;
    OneOperand(n, [], 1, false, f);
    PlainWarnings(n, [], 0, false, f);
    PlainWarnings(operand, [] + [0], 1, false, f);
    ListDone(operand, 0, [] + [0], 2, false, f);
  }
}
