/** When the CHECK evaluator reaches a value, said of the values themselves. */
module CheckExact {
  import opened Wrappers
  import opened Identifier
  import opened Numerals
  import opened Types
  import opened Ast
  import opened Semantics
  import opened CheckEval
  import opened CheckSound

  /** In this row the expression can be folded: literals fit 64 bits, columns are bound, operands
      can be compared or computed with, exact results fit 64 bits, and the nesting stays within the
      limit. FALSE beside AND and TRUE beside OR need no other operand. */
  ghost predicate Foldable(n: Node, b: Bindings, d: nat, env: Env)
    decreases MAX_CHECK_DEPTH + 1 - d, 1
  {
    d <= MAX_CHECK_DEPTH &&
    match n.kind
    case IntegerLiteral => WritesInt64(n.text)
    case StringLiteral | BooleanLiteral(_) | NullLiteral => true
    case ColumnRef => Fold(n.text) in b && Foldable(b[Fold(n.text)], b, d + 1, env)
    case Unary(op) =>
      && FoldableChild(n, 0, b, d + 1, env)
      && var x := EvalChild(n, 0, env);
         (op.Not? && IsTruth(x)) || (op.Minus? && (x.Null? || (x.Int? && x.i != INT64_MIN)))
    case Binary(op) =>
      var a, c := EvalChild(n, 0, env), EvalChild(n, 1, env);
      var fa, fc := FoldableChild(n, 0, b, d + 1, env), FoldableChild(n, 1, b, d + 1, env);
      if op.And? then (fa && a == Bool(false)) || (fc && c == Bool(false)) || (fa && fc && IsTruth(a) && IsTruth(c))
      else if op.Or? then (fa && a == Bool(true)) || (fc && c == Bool(true)) || (fa && fc && IsTruth(a) && IsTruth(c))
      else if op.Compare? then fa && fc && (a.Null? || c.Null? || Order(a, c).Some?)
      else if op.Arith? then fa && fc && (a.Null? || c.Null? || ComputesInt64(op.arith, a, c))
      else false
    case IsNull(_) => FoldableChild(n, 0, b, d + 1, env)
    case Between(_) =>
      && FoldableChild(n, 0, b, d + 1, env) && FoldableChild(n, 1, b, d + 1, env) && FoldableChild(n, 2, b, d + 1, env)
      && var x, lo, hi := EvalChild(n, 0, env), EvalChild(n, 1, env), EvalChild(n, 2, env);
         x.Null? || lo.Null? || hi.Null? || (Order(x, lo).Some? && Order(x, hi).Some?)
    case _ => false
  }

  ghost predicate FoldableChild(n: Node, idx: nat, b: Bindings, d: nat, env: Env)
    decreases MAX_CHECK_DEPTH + 2 - d, 0
  {
    idx < |n.children| && d <= MAX_CHECK_DEPTH && Foldable(n.children[idx], b, d, env)
  }

  /** A decimal numeral within 64 bits, written without a plus. */
  predicate WritesInt64(text: string) {
    Integral(text).Some? && FitsInt64(Integral(text).value) && !("+" <= text)
  }

  /** Both are integers and the exact result exists and fits. */
  predicate ComputesInt64(op: ArithOp, a: Value, c: Value) {
    a.Int? && c.Int? && ArithInts(op, a.i, c.i).Some? && FitsInt64(ArithInts(op, a.i, c.i).value)
  }

  /** The folded value is the real one; NULL for NULL. */
  predicate Stands(v: V, value: Value) {
    !v.Fail? ==> Agrees(v, value) && (v.NullV? <==> value == Null)
  }

  lemma StandsOf(v: V, value: Value)
    requires Agrees(v, value) && NullExact(v, value)
    ensures Stands(v, value)
  {
  }

  lemma LiteralFolds(text: string)
    ensures !ParseInt(text).Fail? <==> WritesInt64(text)
  {
  }

  lemma OrdersMeet(l: V, r: V, a: Value, c: Value)
    requires Stands(l, a) && Stands(r, c) && !l.Fail? && !r.Fail? && !l.NullV? && !r.NullV?
    ensures OrderV(l, r).Some? <==> Order(a, c).Some?
  {
    hide StrLess;
  }

  lemma CompareFolds(op: CompareOp, l: V, r: V, a: Value, c: Value)
    requires Stands(l, a) && Stands(r, c)
    ensures !BinaryV(Compare(op), l, r).Fail? <==> !l.Fail? && !r.Fail? && (a.Null? || c.Null? || Order(a, c).Some?)
  {
    hide OrderV, Order, Semantics.Holds;
    if !l.Fail? && !r.Fail? && !l.NullV? && !r.NullV? {
      OrdersMeet(l, r, a, c);
    }
  }

  lemma ConnectiveFolds(l: V, r: V, a: Value, c: Value)
    requires Stands(l, a) && Stands(r, c)
    ensures !AndV(l, r).Fail? <==> (!l.Fail? && a == Bool(false)) || (!r.Fail? && c == Bool(false)) || (!l.Fail? && !r.Fail? && IsTruth(a) && IsTruth(c))
    ensures !OrV(l, r).Fail? <==> (!l.Fail? && a == Bool(true)) || (!r.Fail? && c == Bool(true)) || (!l.Fail? && !r.Fail? && IsTruth(a) && IsTruth(c))
  {
  }

  lemma QuotientOfMinimum(x: int, y: int)
    requires FitsInt64(x) && FitsInt64(y) && y != 0
    ensures FitsInt64(Quotient(x, y)) <==> !(x == INT64_MIN && y == -1)
    ensures FitsInt64(Remainder(x, y))
  {
    RemainderFits(x, y);
    if x == INT64_MIN && y == -1 {
      var a: nat := -x;
      assert a / 1 == a;
      assert Quotient(x, y) == -x;
    } else {
      QuotientFits(x, y);
    }
  }

  lemma ArithFolds(op: ArithOp, l: V, r: V, a: Value, c: Value)
    requires Stands(l, a) && Stands(r, c) && Fits(l) && Fits(r)
    ensures !BinaryV(Arith(op), l, r).Fail? <==> !l.Fail? && !r.Fail? && (a.Null? || c.Null? || ComputesInt64(op, a, c))
  {
    hide Quotient, Remainder;
    if l.IntV? && r.IntV? && r.i != 0 {
      QuotientOfMinimum(l.i, r.i);
    }
  }

  lemma BetweenFolds(negated: bool, x: V, lo: V, hi: V, a: Value, l: Value, h: Value)
    requires Stands(x, a) && Stands(lo, l) && Stands(hi, h)
    ensures !BetweenV(negated, x, lo, hi).Fail? <==>
            !x.Fail? && !lo.Fail? && !hi.Fail? && (a.Null? || l.Null? || h.Null? || (Order(a, l).Some? && Order(a, h).Some?))
  {
    hide OrderV, Order, Semantics.Holds;
    if !x.Fail? && !lo.Fail? && !hi.Fail? && !x.NullV? && !lo.NullV? && !hi.NullV? {
      OrdersMeet(x, lo, a, l);
      OrdersMeet(x, hi, a, h);
    }
  }

  lemma UnaryFolds(op: UnaryOp, x: V, a: Value)
    requires Stands(x, a)
    ensures !NotV(x).Fail? <==> !x.Fail? && IsTruth(a)
    ensures !MinusV(x).Fail? <==> !x.Fail? && (a.Null? || (a.Int? && a.i != INT64_MIN))
  {
  }

  lemma {:induction false} ChildFolds(n: Node, idx: nat, b: Bindings, d: nat, env: Env)
    requires Completes(env, b) && idx < 3
    requires idx < |n.children| ==> Careful(n.children[idx], b, d) && Precise(n.children[idx], b, d)
    ensures !CheckChild(n, idx, b, d).Fail? <==> FoldableChild(n, idx, b, d, env)
    ensures Stands(CheckChild(n, idx, b, d), EvalChild(n, idx, env)) && Fits(CheckChild(n, idx, b, d))
    decreases MAX_CHECK_DEPTH + 2 - d, 0
  {
    hide Careful, Precise, CheckValue, Eval, Completes, Foldable;
    ChildAgrees(n, idx, b, d, env);
    StandsOf(CheckChild(n, idx, b, d), EvalChild(n, idx, env));
    if idx < |n.children| && d <= MAX_CHECK_DEPTH {
      FoldsExactly(n.children[idx], b, d, env);
    }
  }

  lemma PartsPrecise(n: Node, b: Bindings, d: nat)
    requires Careful(n, b, d) && Precise(n, b, d) && d <= MAX_CHECK_DEPTH
    ensures forall i: nat :: i < 3 && i < |n.children| ==> Careful(n.children[i], b, d + 1) && Precise(n.children[i], b, d + 1)
    ensures n.kind.ColumnRef? && Fold(n.text) in b ==> Careful(b[Fold(n.text)], b, d + 1) && Precise(b[Fold(n.text)], b, d + 1)
  {
    hide CoarseAt, Fold;
  }

  /** The evaluator reaches a value exactly for what can be folded, and a machine integer never
      leaves 64 bits. */
  lemma {:induction false} FoldsExactly(n: Node, b: Bindings, d: nat, env: Env)
    requires Completes(env, b) && Careful(n, b, d) && Precise(n, b, d)
    ensures !CheckValue(n, b, d).Fail? <==> Foldable(n, b, d, env)
    ensures Fits(CheckValue(n, b, d))
    decreases MAX_CHECK_DEPTH + 1 - d, 2
  {
    hide Completes, Careful, Precise, BinaryV, BetweenV, NotV, MinusV, CheckChild, EvalChild, Fold, StripQuotes, WritesInt64, ComputesInt64, Order, FoldableChild, ParseInt, IsTruth;
    if d <= MAX_CHECK_DEPTH {
      PartsPrecise(n, b, d);
      match n.kind {
        case IntegerLiteral =>
          LiteralFolds(n.text);
          LiteralFits(n.text);
        case ColumnRef =>
          if Fold(n.text) in b {
            FoldsExactly(b[Fold(n.text)], b, d + 1, env);
          }
        case Unary(op) =>
          ChildFolds(n, 0, b, d + 1, env);
          UnaryFolds(op, CheckChild(n, 0, b, d + 1), EvalChild(n, 0, env));
          UnaryFits(CheckChild(n, 0, b, d + 1));
        case Binary(op) =>
          BinaryFolds(n, b, d, env);
        case IsNull(negated) =>
          ChildFolds(n, 0, b, d + 1, env);
        case Between(negated) =>
          ChildFolds(n, 0, b, d + 1, env);
          ChildFolds(n, 1, b, d + 1, env);
          ChildFolds(n, 2, b, d + 1, env);
          BetweenFolds(negated, CheckChild(n, 0, b, d + 1), CheckChild(n, 1, b, d + 1), CheckChild(n, 2, b, d + 1),
                       EvalChild(n, 0, env), EvalChild(n, 1, env), EvalChild(n, 2, env));
          TestFits(negated, CheckChild(n, 0, b, d + 1), CheckChild(n, 1, b, d + 1), CheckChild(n, 2, b, d + 1));
        case _ =>
      }
    }
  }

  lemma LiteralFits(text: string)
    ensures Fits(ParseInt(text))
  {
  }

  lemma {:induction false} BinaryFolds(n: Node, b: Bindings, d: nat, env: Env)
    requires Completes(env, b) && Careful(n, b, d) && Precise(n, b, d) && n.kind.Binary? && d <= MAX_CHECK_DEPTH
    ensures !CheckValue(n, b, d).Fail? <==> Foldable(n, b, d, env)
    ensures Fits(CheckValue(n, b, d))
    decreases MAX_CHECK_DEPTH + 1 - d, 1
  {
    hide Completes, Careful, Precise, CheckChild, EvalChild, ComputesInt64, Order, FoldableChild, IsTruth, AndV, OrV, ArithV, CompareV;
    PartsPrecise(n, b, d);
    ChildFolds(n, 0, b, d + 1, env);
    ChildFolds(n, 1, b, d + 1, env);
    var l, r := CheckChild(n, 0, b, d + 1), CheckChild(n, 1, b, d + 1);
    var a, c := EvalChild(n, 0, env), EvalChild(n, 1, env);
    BinaryFits(n.kind.bin, l, r);
    ConnectiveFolds(l, r, a, c);
    match n.kind.bin {
      case Compare(op) => CompareFolds(op, l, r, a, c);
      case Arith(op) => ArithFolds(op, l, r, a, c);
      case _ =>
    }
  }

  /** The verdict is True exactly when the predicate can be folded and is TRUE, False exactly when
      it can be folded and is FALSE. */
  lemma VerdictIsExact(n: Node, b: Bindings, env: Env)
    requires Completes(env, b) && Careful(n, b, 0) && Precise(n, b, 0)
    ensures Verdict(CheckValue(n, b, 0)) == True <==> Foldable(n, b, 0, env) && Eval(n, env) == Bool(true)
    ensures Verdict(CheckValue(n, b, 0)) == False <==> Foldable(n, b, 0, env) && Eval(n, env) == Bool(false)
  {
    hide Completes, Careful, Precise, CheckValue, Eval, Foldable;
    VerdictAgrees(n, b, 0, env);
    FoldsExactly(n, b, 0, env);
  }
}
