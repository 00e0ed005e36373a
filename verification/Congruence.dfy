/** An expression's value depends on its parts only: two expressions of one shape whose parts have
    equal values have equal values, even in two different rows. */
module Congruence {
  import opened Wrappers
  import opened Identifier
  import opened Numerals
  import opened Types
  import opened Ast
  import opened Semantics

  /** The two environments are two rows of one execution. */
  ghost predicate SameExecution(a: Env, b: Env) {
    && a.literal == b.literal && a.parameter == b.parameter && a.apply == b.apply
    && a.group == b.group && a.query == b.query
  }

  predicate SameSpelling(e: Node, k: Node) {
    e.kind == k.kind && if e.kind.FunctionCall? then IEquals(e.text, k.text) else e.text == k.text
  }

  /** A part contributes its value; a WHEN contributes the values of its guard and its result. */
  predicate SamePart(c: Node, d: Node, a: Env, b: Env) {
    && c.kind == d.kind && (c.kind.TypeName? ==> c.text == d.text)
    && Eval(c, a) == Eval(d, b)
    && (IsWhen(c) ==> EvalChild(c, 0, a) == EvalChild(d, 0, b) && EvalChild(c, 1, a) == EvalChild(d, 1, b))
  }

  predicate SameParts(cs: seq<Node>, ds: seq<Node>, a: Env, b: Env) {
    |cs| == |ds| && forall i :: 0 <= i < |cs| ==> SamePart(cs[i], ds[i], a, b)
  }

  predicate IsCompound(n: Node) {
    !n.kind.ColumnRef? && !n.kind.Subquery? && !(n.kind.Unary? && n.kind.un.Exists?)
  }

  lemma PartsTail(cs: seq<Node>, ds: seq<Node>, a: Env, b: Env)
    requires SameParts(cs, ds, a, b) && cs != []
    ensures SamePart(cs[0], ds[0], a, b) && SameParts(cs[1..], ds[1..], a, b)
  {
    hide SamePart;
  }

  lemma {:induction false} SameAll(cs: seq<Node>, ds: seq<Node>, a: Env, b: Env)
    requires SameParts(cs, ds, a, b)
    ensures EvalAll(cs, a) == EvalAll(ds, b)
  {
    hide SameParts, Eval;
    PartsCount(cs, ds, a, b);
    if cs != [] {
      PartsTail(cs, ds, a, b);
      SameAll(cs[1..], ds[1..], a, b);
    }
  }

  lemma PartsCount(cs: seq<Node>, ds: seq<Node>, a: Env, b: Env)
    requires SameParts(cs, ds, a, b)
    ensures |cs| == |ds|
  {
  }

  lemma {:induction false} SameArgs(cs: seq<Node>, ds: seq<Node>, a: Env, b: Env)
    requires SameParts(cs, ds, a, b)
    ensures EvalArgs(cs, a) == EvalArgs(ds, b)
  {
    hide SameParts, Eval;
    PartsCount(cs, ds, a, b);
    if cs != [] {
      PartsTail(cs, ds, a, b);
      SameArgs(cs[1..], ds[1..], a, b);
    }
  }

  lemma SameGuards(operand: Option<Value>, cond: Value, a: Env, b: Env)
    requires SameExecution(a, b)
    ensures GuardHolds(operand, cond, a) == GuardHolds(operand, cond, b)
  {
  }

  lemma {:induction false} SameArms(cs: seq<Node>, ds: seq<Node>, operand: Option<Value>, a: Env, b: Env)
    requires SameExecution(a, b) && SameParts(cs, ds, a, b)
    ensures EvalArms(cs, operand, a) == EvalArms(ds, operand, b)
  {
    hide SameParts, Eval, EvalChild, SameExecution, GuardHolds;
    PartsCount(cs, ds, a, b);
    if cs != [] {
      PartsTail(cs, ds, a, b);
      SameGuards(operand, EvalChild(cs[0], 0, a), a, b);
      SameArms(cs[1..], ds[1..], operand, a, b);
    }
  }

  // ----- Operators read nothing of the row -----

  lemma {:induction false} SameIn(x: Value, elems: seq<Value>, a: Env, b: Env)
    requires SameExecution(a, b)
    ensures InValue(x, elems, a) == InValue(x, elems, b)
  {
    if elems != [] {
      SameIn(x, elems[1..], a, b);
    }
  }

  lemma {:induction false} SameQuantified(op: CompareOp, all: bool, x: Value, elems: seq<Value>, a: Env, b: Env)
    requires SameExecution(a, b)
    ensures QuantifiedValue(op, all, x, elems, a) == QuantifiedValue(op, all, x, elems, b)
  {
    if elems != [] {
      SameQuantified(op, all, x, elems[1..], a, b);
    }
  }

  lemma SameBinary(op: BinaryOp, text: string, x: Value, y: Value, a: Env, b: Env)
    requires SameExecution(a, b)
    ensures BinaryValue(op, text, x, y, a) == BinaryValue(op, text, x, y, b)
  {
    hide QuantifiedValue;
    if op.Quantified? && y.Arr? {
      SameQuantified(op.op, op.all, x, y.elems, a, b);
    }
  }

  lemma SameStrict(kind: Kind, text: string, vs: seq<Value>, a: Env, b: Env)
    requires SameExecution(a, b)
    ensures StrictApply(kind, text, vs, a) == StrictApply(kind, text, vs, b)
  {
  }

  lemma SameCall(name: string, args: seq<Value>, a: Env, b: Env)
    requires SameExecution(a, b)
    ensures CallValue(name, args, a) == CallValue(name, args, b)
  {
  }

  lemma SameNegated(negated: bool, x: Value, a: Env, b: Env)
    requires SameExecution(a, b)
    ensures Negated(negated, x, a) == Negated(negated, x, b)
  {
  }

  lemma SameBetween(x: Value, lo: Value, hi: Value, a: Env, b: Env)
    requires SameExecution(a, b)
    ensures BetweenValue(x, lo, hi, a) == BetweenValue(x, lo, hi, b)
  {
  }

  lemma SameUnary(op: UnaryOp, text: string, x: Value, a: Env, b: Env)
    requires SameExecution(a, b)
    ensures UnaryValue(op, text, x, a) == UnaryValue(op, text, x, b)
  {
  }

  // ----- The congruence -----

  lemma PartAt(e: Node, k: Node, i: nat, a: Env, b: Env)
    requires SameParts(e.children, k.children, a, b)
    ensures EvalChild(e, i, a) == EvalChild(k, i, b)
  {
    hide Eval;
    if i < |e.children| {
      assert SamePart(e.children[i], k.children[i], a, b);
    }
  }

  lemma SameCase(e: Node, k: Node, a: Env, b: Env)
    requires SameExecution(a, b) && SameParts(e.children, k.children, a, b) && e.kind.Case? && k.kind.Case?
    ensures Eval(e, a) == Eval(k, b)
  {
    hide SameExecution, SameParts, SamePart, EvalArms;
    PartsCount(e.children, k.children, a, b);
    if e.children != [] {
      FirstPart(e.children, k.children, a, b);
      PartsTail(e.children, k.children, a, b);
    }
    if IsSimpleCase(e) {
      SameArms(e.children[1..], k.children[1..], Some(Eval(e.children[0], a)), a, b);
    } else {
      SameArms(e.children, k.children, None, a, b);
    }
  }

  lemma FirstPart(cs: seq<Node>, ds: seq<Node>, a: Env, b: Env)
    requires SameParts(cs, ds, a, b) && cs != []
    ensures cs[0].kind == ds[0].kind && Eval(cs[0], a) == Eval(ds[0], b)
  {
    assert SamePart(cs[0], ds[0], a, b);
  }

  lemma SameFunction(e: Node, k: Node, a: Env, b: Env)
    requires SameExecution(a, b) && SameParts(e.children, k.children, a, b)
    requires e.kind.FunctionCall? && k.kind.FunctionCall? && IEquals(e.text, k.text) && (IsGroupCall(e) ==> e == k)
    ensures Eval(e, a) == Eval(k, b)
  {
    hide SameParts, SamePart, EvalArgs, CallValue, IsAggregateName, Fold, SameExecution;
    if IsGroupCall(e) {
      SameAggregate(e, a, b);
    } else {
      PartsCount(e.children, k.children, a, b);
      if e.children != [] {
        FirstPart(e.children, k.children, a, b);
        PartsTail(e.children, k.children, a, b);
      }
      assert HasDatePart(e) == HasDatePart(k);
      if HasDatePart(e) {
        SameArgs(e.children[1..], k.children[1..], a, b);
        SameCall(Fold(e.text), EvalArgs(e.children[1..], a), a, b);
      } else {
        SameArgs(e.children, k.children, a, b);
        SameCall(Fold(e.text), EvalArgs(e.children, a), a, b);
      }
    }
  }

  lemma SameAggregate(e: Node, a: Env, b: Env)
    requires SameExecution(a, b)
    ensures a.group(e) == b.group(e)
  {
  }

  lemma SameOracles(k: Kind, t: string, vs: seq<Value>, a: Env, b: Env)
    requires SameExecution(a, b)
    ensures a.apply(k, t, vs) == b.apply(k, t, vs) && a.literal(k, t) == b.literal(k, t) && a.parameter(t) == b.parameter(t)
  {
  }

  lemma SameCast(e: Node, k: Node, a: Env, b: Env)
    requires SameParts(e.children, k.children, a, b)
    ensures CastTarget(e) == CastTarget(k)
  {
    hide Eval;
    if |e.children| > 1 {
      assert SamePart(e.children[1], k.children[1], a, b);
    }
  }

  /** Two compound expressions of one shape, with parts of equal value, have equal values. */
  lemma SameValue(e: Node, k: Node, a: Env, b: Env)
    requires SameExecution(a, b) && SameSpelling(e, k) && SameParts(e.children, k.children, a, b)
    requires IsCompound(e) && (IsGroupCall(e) ==> e == k)
    ensures Eval(e, a) == Eval(k, b)
  {
    hide SameExecution, SameParts, EvalAll, EvalArgs, EvalArms, EvalChild, BinaryValue, UnaryValue, BetweenValue, InValue, Negated, StrictApply, CallValue, TestTruth, Integral, StripQuotes, CastTarget, IsGroupCall, IsSimpleCase, HasDatePart, Fold;
    PartAt(e, k, 0, a, b);
    PartAt(e, k, 1, a, b);
    PartAt(e, k, 2, a, b);
    match e.kind {
      case FunctionCall => SameFunction(e, k, a, b);
      case Case => SameCase(e, k, a, b);
      case Binary(op) => SameBinary(op, e.text, EvalChild(e, 0, a), EvalChild(e, 1, a), a, b);
      case Unary(op) => SameUnary(op, e.text, EvalChild(e, 0, a), a, b);
      case In(negated) => SameInList(e, k, a, b);
      case Between(negated) =>
        SameBetween(EvalChild(e, 0, a), EvalChild(e, 1, a), EvalChild(e, 2, a), a, b);
        SameNegated(negated, BetweenValue(EvalChild(e, 0, a), EvalChild(e, 1, a), EvalChild(e, 2, a), a), a, b);
      case Like(_) => SameStrict(e.kind, e.text, [EvalChild(e, 0, a), EvalChild(e, 1, a)], a, b);
      case Cast =>
        SameCast(e, k, a, b);
        SameStrict(e.kind, CastTarget(e), [EvalChild(e, 0, a)], a, b);
      case ArrayConstructor => SameAll(e.children, k.children, a, b);
      case RowConstructor | Other =>
        SameAll(e.children, k.children, a, b);
        SameOracles(e.kind, e.text, EvalAll(e.children, a), a, b);
      case _ => SameOracles(e.kind, e.text, [], a, b);
    }
  }

  lemma SameInList(e: Node, k: Node, a: Env, b: Env)
    requires SameExecution(a, b) && SameParts(e.children, k.children, a, b) && e.kind.In? && e.kind == k.kind
    ensures Eval(e, a) == Eval(k, b)
  {
    hide SameExecution, SameParts, SamePart, EvalAll, InValue, Negated;
    PartsCount(e.children, k.children, a, b);
    if e.children != [] {
      FirstPart(e.children, k.children, a, b);
      PartsTail(e.children, k.children, a, b);
      SameAll(e.children[1..], k.children[1..], a, b);
      var x, elems := Eval(e.children[0], a), EvalAll(e.children[1..], a);
      SameIn(x, elems, a, b);
      SameNegated(e.kind.negated, InValue(x, elems, a), a, b);
    }
  }
}
