/** What a row does not evaluate does not matter to it, and which constant arithmetic is warned
    about, both without reference to the walk. */
module EvaluatedPositions {
  import opened Wrappers
  import opened Identifier
  import opened Types
  import opened Ast
  import opened Semantics
  import opened Congruence
  import opened Infer
  import opened InferWalk
  import opened InferWarnings
  import opened NodePaths
  import opened ConstantFolding

  // ----- Replacing the node at a position -----

  function Put(n: Node, p: Path, m: Node): Node
    decreases |p|
  {
    if p == [] then m
    else if p[0] < |n.children| then n.(children := n.children[p[0] := Put(n.children[p[0]], p[1..], m)])
    else n
  }

  /** Does the k-th child matter only through its value? Subqueries and calls over the group are
      answered as a whole, and a type name or a date-part keyword is not an expression. */
  predicate OnlyValueCounts(n: Node, k: nat) {
    && !n.kind.Subquery? && !(n.kind.Unary? && n.kind.un.Exists?) && !IsGroupCall(n)
    && !(n.kind.Cast? && k == 1) && !(n.kind.FunctionCall? && HasDatePart(n) && k == 0)
  }

  /** The position of an expression: not of a WHEN, whose guard and result are the expressions. */
  predicate Site(n: Node, p: Path)
    decreases |p|
  {
    p != [] ==>
      && p[0] < |n.children| && OnlyValueCounts(n, p[0])
      && if IsArmStep(n, p[0]) then |p| > 1 && p[1] < |n.children[p[0]].children| && Site(n.children[p[0]].children[p[1]], p[2..])
         else Site(n.children[p[0]], p[1..])
  }

  // ----- CASE -----

  /** The arms a row reaches are taken alike and give the same results. */
  ghost predicate ArmsAgree(n: Node, o: Node, env: Env) {
    && n.kind.Case? && o.kind.Case? && |n.children| == |o.children|
    && FirstArm(n) == FirstArm(o) && CaseOperand(n, env) == CaseOperand(o, env)
    && forall i: nat :: FirstArm(n) <= i < |n.children| && ArmReached(n, i, env) ==>
         ArmTaken(n, i, env) == ArmTaken(o, i, env) && (ArmTaken(n, i, env) ==> ArmResult(n, i, env) == ArmResult(o, i, env))
  }

  lemma {:induction false} ReachedAlike(n: Node, o: Node, k: nat, env: Env)
    requires ArmsAgree(n, o, env) && k <= |n.children| && ArmReached(n, k, env)
    ensures ArmReached(o, k, env)
  {
    hide ArmTaken, ArmResult, CaseOperand, FirstArm;
    forall j: nat | FirstArm(o) <= j < k ensures !ArmTaken(o, j, env) {
      assert !ArmTaken(n, j, env);
      assert ArmReached(n, j, env);
    }
  }

  lemma {:induction false} SearchFails(n: Node, from: nat, env: Env)
    requires FirstArm(n) <= from <= |n.children|
    requires forall j: nat :: from <= j < |n.children| ==> !ArmTaken(n, j, env)
    ensures EvalArms(n.children[from..], CaseOperand(n, env), env) == Null
    decreases |n.children| - from
  {
    hide Eval, EvalChild, GuardHolds, IsWhen, CaseOperand;
    if from < |n.children| {
      assert n.children[from..][0] == n.children[from] && n.children[from..][1..] == n.children[from + 1..];
      assert !ArmTaken(n, from, env);
      SearchFails(n, from + 1, env);
    }
  }

  lemma NoArmTaken(n: Node, env: Env)
    requires n.kind.Case? && ArmReached(n, |n.children|, env)
    ensures Eval(n, env) == Null
  {
    hide Eval, EvalArms, CaseOperand, ArmTaken;
    CaseValue(n, env);
    SearchFails(n, FirstArm(n), env);
  }

  lemma {:induction false} FirstTaken(n: Node, k: nat, env: Env) returns (j: nat)
    requires FirstArm(n) <= k && !ArmReached(n, k, env)
    ensures FirstArm(n) <= j < k && ArmReached(n, j, env) && ArmTaken(n, j, env)
  {
    hide ArmTaken;
    if ArmReached(n, k - 1, env) {
      j := k - 1;
    } else {
      j := FirstTaken(n, k - 1, env);
    }
  }

  lemma CaseAgrees(n: Node, o: Node, env: Env)
    requires ArmsAgree(n, o, env)
    ensures Eval(n, env) == Eval(o, env)
  {
    hide Eval, ArmTaken, ArmResult, CaseOperand;
    var end := |n.children|;
    if ArmReached(n, end, env) {
      ReachedAlike(n, o, end, env);
      NoArmTaken(n, env);
      NoArmTaken(o, env);
    } else {
      var j := FirstTaken(n, end, env);
      ReachedAlike(n, o, j, env);
      TakenArmDecides(n, j, env);
      TakenArmDecides(o, j, env);
    }
  }

  // ----- What is not evaluated does not matter -----

  /** A child that is no operand is not read. */
  lemma IgnoredChild(n: Node, k: nat, x: Node, env: Env)
    requires k < |n.children| && OnlyValueCounts(n, k) && !IsOperand(n, k)
    ensures Eval(n.(children := n.children[k := x]), env) == Eval(n, env)
  {
    hide Fold, BinaryValue, UnaryValue, BetweenValue, StrictApply, TestTruth, StripQuotes;
  }

  lemma SameRow(env: Env)
    ensures SameExecution(env, env)
  {
  }

  lemma UnchangedPart(c: Node, env: Env)
    ensures SamePart(c, c, env, env)
  {
  }

  /** Expressions but for one part, which has the same value, are equal. */
  lemma OnePart(n: Node, k: nat, x: Node, env: Env)
    requires k < |n.children| && IsCompound(n) && !IsGroupCall(n) && SamePart(x, n.children[k], env, env)
    ensures Eval(n.(children := n.children[k := x]), env) == Eval(n, env)
  {
    hide SamePart, Eval, Fold;
    var o := n.(children := n.children[k := x]);
    SameRow(env);
    forall i | 0 <= i < |n.children| ensures SamePart(o.children[i], n.children[i], env, env) {
      UnchangedPart(n.children[i], env);
    }
    NotGroup(n, k, x);
    SameValue(o, n, env, env);
  }

  lemma NotGroup(n: Node, k: nat, x: Node)
    requires k < |n.children|
    ensures IsGroupCall(n.(children := n.children[k := x])) == IsGroupCall(n)
  {
  }

  /** Replacing an expression the row does not evaluate leaves the value as it is. */
  lemma {:induction false} UnevaluatedIsIrrelevant(n: Node, p: Path, m: Node, env: Env)
    requires Site(n, p) && !Evaluated(n, p, env)
    ensures Eval(Put(n, p, m), env) == Eval(n, env)
    decreases |p|
  {
    hide Eval, ArmReached, ArmTaken, OperandsFrom, OperandsTo, OnlyValueCounts, IsArmStep, Fold;
    var k := p[0];
    if !IsOperand(n, k) {
      IgnoredChild(n, k, Put(n.children[k], p[1..], m), env);
    } else if n.kind.Case? && FirstArm(n) <= k {
      ArmIrrelevant(n, p, m, env);
    } else {
      NoArmHere(n, k);
      UnevaluatedIsIrrelevant(n.children[k], p[1..], m, env);
      PartIsSame(n.children[k], p[1..], m, env);
      OperandCounts(n, k);
      OnePart(n, k, Put(n.children[k], p[1..], m), env);
    }
  }

  lemma OperandCounts(n: Node, k: nat)
    requires OnlyValueCounts(n, k) && IsOperand(n, k)
    ensures IsCompound(n) && !IsGroupCall(n)
  {
    hide IsGroupCall, HasDatePart;
  }

  lemma NoArmHere(n: Node, k: nat)
    requires !(n.kind.Case? && FirstArm(n) <= k)
    ensures !IsArmStep(n, k)
  {
  }

  lemma {:induction false} PartIsSame(c: Node, p: Path, m: Node, env: Env)
    requires p != [] && Site(c, p) && !Evaluated(c, p, env) && Eval(Put(c, p, m), env) == Eval(c, env)
    ensures SamePart(Put(c, p, m), c, env, env)
    decreases |p|, 0
  {
    hide Eval, OnlyValueCounts, ArmReached, ArmTaken, HasDatePart;
    if IsWhen(c) && p[0] < 2 {
      UnevaluatedIsIrrelevant(c.children[p[0]], p[1..], m, env);
    }
  }

  /** Cases that differ in one arm only. */
  lemma ArmsAgreeBut(n: Node, k: nat, x: Node, env: Env)
    requires n.kind.Case? && FirstArm(n) <= k < |n.children| && IsWhen(x) == IsWhen(n.children[k])
    requires var o := n.(children := n.children[k := x]);
             ArmReached(n, k, env) ==> ArmTaken(n, k, env) == ArmTaken(o, k, env) && (ArmTaken(n, k, env) ==> ArmResult(n, k, env) == ArmResult(o, k, env))
    ensures Eval(n.(children := n.children[k := x]), env) == Eval(n, env)
  {
    hide Eval, EvalChild, GuardHolds, IsWhen;
    var o := n.(children := n.children[k := x]);
    assert IsSimpleCase(o) == IsSimpleCase(n);
    forall i: nat | FirstArm(n) <= i < |n.children| && i != k
      ensures ArmTaken(n, i, env) == ArmTaken(o, i, env) && ArmResult(n, i, env) == ArmResult(o, i, env)
    {
      assert o.children[i] == n.children[i];
    }
    CaseAgrees(n, o, env);
  }

  /** Replacing something in a WHEN, in the guard or the result, that the row does not evaluate. */
  lemma WhenAgrees(n: Node, k: nat, x: Node, env: Env)
    requires n.kind.Case? && FirstArm(n) <= k < |n.children| && IsWhen(n.children[k]) && IsWhen(x)
    requires ArmReached(n, k, env) ==> EvalChild(x, 0, env) == EvalChild(n.children[k], 0, env)
    requires ArmReached(n, k, env) && ArmTaken(n, k, env) ==> EvalChild(x, 1, env) == EvalChild(n.children[k], 1, env)
    ensures Eval(n.(children := n.children[k := x]), env) == Eval(n, env)
  {
    hide Eval, EvalChild, GuardHolds, ArmReached, IsWhen;
    var o := n.(children := n.children[k := x]);
    assert IsSimpleCase(o) == IsSimpleCase(n);
    ArmsAgreeBut(n, k, x, env);
  }

  lemma ElseAgrees(n: Node, k: nat, x: Node, env: Env)
    requires n.kind.Case? && FirstArm(n) <= k < |n.children| && !IsWhen(n.children[k]) && !IsWhen(x)
    requires ArmReached(n, k, env) ==> Eval(x, env) == Eval(n.children[k], env)
    ensures Eval(n.(children := n.children[k := x]), env) == Eval(n, env)
  {
    hide Eval, EvalChild, GuardHolds, ArmReached, IsWhen;
    ArmsAgreeBut(n, k, x, env);
  }

  lemma {:induction false} ArmIrrelevant(n: Node, p: Path, m: Node, env: Env)
    requires p != [] && Site(n, p) && !Evaluated(n, p, env) && n.kind.Case? && FirstArm(n) <= p[0]
    ensures Eval(Put(n, p, m), env) == Eval(n, env)
    decreases |p|, 0
  {
    hide Eval, OnlyValueCounts, OperandsFrom, OperandsTo, GuardHolds, ArmTaken, ArmReached, ArmResult;
    var k := p[0];
    var arm := n.children[k];
    if IsWhen(arm) {
      if ArmReached(n, k, env) && p[1] < 2 && (p[1] == 1 ==> ArmTaken(n, k, env)) {
        UnevaluatedIsIrrelevant(arm.children[p[1]], p[2..], m, env);
      }
      WhenAgrees(n, k, Put(arm, p[1..], m), env);
    } else {
      if ArmReached(n, k, env) {
        UnevaluatedIsIrrelevant(arm, p[1..], m, env);
      }
      ElseIrrelevant(n, p, m, env);
    }
  }

  lemma ElseIrrelevant(n: Node, p: Path, m: Node, env: Env)
    requires p != [] && Site(n, p) && !Evaluated(n, p, env) && n.kind.Case? && FirstArm(n) <= p[0] && !IsWhen(n.children[p[0]])
    requires ArmReached(n, p[0], env) ==> Eval(Put(n.children[p[0]], p[1..], m), env) == Eval(n.children[p[0]], env)
    ensures Eval(Put(n, p, m), env) == Eval(n, env)
  {
    hide Eval, OnlyValueCounts, OperandsFrom, OperandsTo, GuardHolds, ArmTaken, ArmResult;
    var k := p[0];
    var x := Put(n.children[k], p[1..], m);
    if ArmReached(n, k, env) {
      ElseAgrees(n, k, x, env);
    } else {
      var j := FirstTaken(n, k, env);
      ReplacedBehind(n, k, x, j, env);
    }
  }

  lemma ReplacedBehind(n: Node, k: nat, x: Node, j: nat, env: Env)
    requires n.kind.Case? && FirstArm(n) <= j < k < |n.children| && ArmReached(n, j, env) && ArmTaken(n, j, env)
    ensures Eval(n.(children := n.children[k := x]), env) == Eval(n, env)
  {
    hide Eval, EvalChild, GuardHolds, IsWhen;
    var o := n.(children := n.children[k := x]);
    assert IsSimpleCase(o) == IsSimpleCase(n);
    forall i: nat | i <= j ensures ArmTaken(n, i, env) == ArmTaken(o, i, env) && ArmResult(n, i, env) == ArmResult(o, i, env) {
      assert o.children[i] == n.children[i];
    }
    TakenArmDecides(n, j, env);
    TakenArmDecides(o, j, env);
  }

  /** Where warnings are suppressed the expression may as well be any other. */
  lemma SuppressedIsIrrelevant(n: Node, p: Path, m: Node, env: Env)
    requires Site(n, p) && Reach(n, p, 0, false).Some? && Reach(n, p, 0, false).value.suppressed
    ensures Eval(Put(n, p, m), env) == Eval(n, env)
  {
    hide Eval, Evaluated, Reach, Site;
    SuppressedIsNeverEvaluated(n, p, 0, env);
    UnevaluatedIsIrrelevant(n, p, m, env);
  }

  // ----- The two warnings about constant arithmetic -----

  predicate IsArithmetic(n: Node, ops: set<ArithOp>) {
    n.kind.Binary? && n.kind.bin.Arith? && n.kind.bin.arith in ops
  }

  lemma RaisedExactly(c: Code, n: Node, p: Path, f: Facts)
    ensures Warning(c, p) in Warnings(n, [], 0, false, f) <==>
            (var v := Reach(n, p, 0, false); v.Some? && c in OwnCodes(v.value.node, v.value.depth, v.value.suppressed, f))
  {
    hide Warnings, OwnCodes, Reach;
    WarningsAreRaised(Warning(c, p), n, [], 0, false, f);
    assert p[0..] == p;
  }

  /** Division by zero is warned about at the quotients and remainders outside dead arms whose
      divisor is computable and zero, and nowhere else. */
  lemma DivisionWarningIsExact(n: Node, p: Path, f: Facts, env: Env)
    ensures Warning(DivisionByZero, p) in Warnings(n, [], 0, false, f) <==>
            (var v := Reach(n, p, 0, false);
             && v.Some? && !v.value.suppressed && IsArithmetic(v.value.node, {Div, Mod})
             && ComputableChild(v.value.node, 1, env) && EvalChild(v.value.node, 1, env) == Int(0))
  {
    hide Warnings, Reach, Overflows, ComputableChild, EvalChild, ConstIntChild;
    RaisedExactly(DivisionByZero, n, p, f);
    var v := Reach(n, p, 0, false);
    if v.Some? {
      ChildFolds(v.value.node, 1, env);
      FoldedChildIsExact(v.value.node, 1, env);
    }
  }

  /** Overflow is warned about at the sums, differences and products outside dead arms whose
      operands are computable and whose value leaves their integer type, and nowhere else. */
  lemma OverflowWarningIsExact(n: Node, p: Path, f: Facts, env: Env)
    ensures Warning(IntegerOverflow, p) in Warnings(n, [], 0, false, f) <==>
            (var v := Reach(n, p, 0, false);
             && v.Some? && !v.value.suppressed && IsArithmetic(v.value.node, {Add, Sub, Mul})
             && ComputableChild(v.value.node, 0, env) && ComputableChild(v.value.node, 1, env)
             && var t := TypeOf(v.value.node, v.value.depth, f); var x := Eval(v.value.node, env);
                IsIntegerType(t) && x.Int? && !InRange(t, x.i))
  {
    hide Warnings, Reach, DividesByZero, Overflows, TypeOf, ComputableChild, EvalChild, ConstIntChild, InRange, IsIntegerType;
    RaisedExactly(IntegerOverflow, n, p, f);
    var v := Reach(n, p, 0, false);
    if v.Some? {
      var m := v.value.node;
      OverflowIsExact(m, v.value.depth, f);
      ChildFolds(m, 0, env);
      ChildFolds(m, 1, env);
      FoldedChildIsExact(m, 0, env);
      FoldedChildIsExact(m, 1, env);
    }
  }
}
