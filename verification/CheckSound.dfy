/** A True or False verdict of the CHECK evaluator is the predicate's value in every row that
    completes the bindings; and exactly when its coarse BETWEEN breaks that. */
module CheckSound {
  import opened Wrappers
  import opened Identifier
  import opened Numerals
  import opened Types
  import opened Ast
  import opened Semantics
  import opened CheckEval

  /** The row gives each bound column the value of its expression; the others are free. */
  ghost predicate Completes(env: Env, b: Bindings) {
    forall text: string :: Fold(text) in b ==> env.column(text) == Eval(b[Fold(text)], env)
  }

  /** What a folded value says of the real one. NULL says nothing yet: see `NullExact`. */
  predicate Agrees(v: V, value: Value) {
    match v
    case Fail | NullV => true
    case IntV(i) => value == Int(i)
    case StrV(s) => value == Str(s)
    case BoolV(b) => value == Bool(b)
  }

  predicate NullExact(v: V, value: Value) {
    v.NullV? ==> value == Null
  }

  // ----- BETWEEN -----

  /** One bound is NULL, and the comparison with the other does not come out TRUE: the
      conjunction may be FALSE where the evaluator says NULL. */
  predicate Coarse(x: V, lo: V, hi: V) {
    && !x.NullV? && lo.NullV? != hi.NullV?
    && (if lo.NullV? then CompareV(Le, x, hi) else CompareV(Ge, x, lo)) != BoolV(true)
  }

  predicate CoarseAt(n: Node, b: Bindings, d: nat) {
    n.kind.Between? && Coarse(CheckChild(n, 0, b, d + 1), CheckChild(n, 1, b, d + 1), CheckChild(n, 2, b, d + 1))
  }

  /** No BETWEEN evaluated for `n` is coarse. */
  predicate Precise(n: Node, b: Bindings, d: nat)
    decreases MAX_CHECK_DEPTH + 1 - d
  {
    d > MAX_CHECK_DEPTH ||
    (&& !CoarseAt(n, b, d)
     && (n.kind.ColumnRef? && Fold(n.text) in b ==> Precise(b[Fold(n.text)], b, d + 1))
     && forall i: nat :: i < 3 && i < |n.children| ==> Precise(n.children[i], b, d + 1))
  }

  /** IS NULL is asked only of what is precise. */
  predicate Careful(n: Node, b: Bindings, d: nat)
    decreases MAX_CHECK_DEPTH + 1 - d
  {
    d > MAX_CHECK_DEPTH ||
    (&& (n.kind.IsNull? && n.children != [] ==> Precise(n.children[0], b, d + 1))
     && (n.kind.ColumnRef? && Fold(n.text) in b ==> Careful(b[Fold(n.text)], b, d + 1))
     && forall i: nat :: i < 3 && i < |n.children| ==> Careful(n.children[i], b, d + 1))
  }

  // ----- One operator at a time -----

  lemma {:induction false} StrTotal(x: string, y: string)
    ensures x == y ==> !StrLess(x, y) && !StrLess(y, x)
    ensures x != y ==> StrLess(x, y) != StrLess(y, x)
  {
    if x != [] && y != [] && x[0] == y[0] {
      assert x == [x[0]] + x[1..] && y == [y[0]] + y[1..];
      StrTotal(x[1..], y[1..]);
    }
  }

  lemma OrdersAgree(l: V, r: V, a: Value, c: Value)
    requires Agrees(l, a) && Agrees(r, c) && OrderV(l, r).Some?
    ensures Order(a, c) == OrderV(l, r)
  {
    if l.StrV? {
      StrTotal(l.s, r.s);
    }
  }

  lemma CompareAgrees(op: CompareOp, l: V, r: V, a: Value, c: Value, env: Env)
    requires Agrees(l, a) && Agrees(r, c) && CompareV(op, l, r).BoolV?
    ensures CompareValues(op, a, c, env) == Bool(CompareV(op, l, r).b)
  {
    hide Order, OrderV;
    OrdersAgree(l, r, a, c);
    OrderedIsPresent(l, r);
  }

  lemma OrderedIsPresent(l: V, r: V)
    ensures OrderV(l, r).Some? ==> !l.NullV? && !l.Fail? && !r.NullV? && !r.Fail?
  {
  }

  lemma TruthAgrees(l: V, r: V, a: Value, c: Value, env: Env)
    requires Agrees(l, a) && Agrees(r, c)
    ensures Agrees(AndV(l, r), AndValues(a, c, env)) && Agrees(OrV(l, r), OrValues(a, c, env))
    ensures NullExact(l, a) && NullExact(r, c) ==>
              NullExact(AndV(l, r), AndValues(a, c, env)) && NullExact(OrV(l, r), OrValues(a, c, env))
  {
  }

  lemma ArithAgrees(op: ArithOp, x: int, y: int, env: Env)
    ensures Agrees(ArithV(op, x, y), ArithValues(op, Int(x), Int(y), env))
    ensures !ArithV(op, x, y).NullV?
  {
    hide Quotient;
    if x == INT64_MIN && y == -1 {
      MinusOneDivides(x);
    }
  }

  lemma MinusOneDivides(x: int)
    ensures Remainder(x, -1) == 0
  {
    var a: nat := if x < 0 then -x else x;
    assert a / 1 == a;
  }

  lemma BinaryAgrees(op: BinaryOp, text: string, l: V, r: V, a: Value, c: Value, env: Env)
    requires Agrees(l, a) && Agrees(r, c)
    ensures Agrees(BinaryV(op, l, r), BinaryValue(op, text, a, c, env))
    ensures NullExact(l, a) && NullExact(r, c) ==> NullExact(BinaryV(op, l, r), BinaryValue(op, text, a, c, env))
  {
    hide AndV, OrV, AndValues, OrValues, ArithV, ArithValues, CompareV, CompareValues, QuantifiedValue, StrictApply;
    TruthAgrees(l, r, a, c, env);
    if op.Compare? {
      CompareCase(op.op, l, r, a, c, env);
    } else if op.Arith? {
      ArithCase(op.arith, l, r, a, c, env);
    }
  }

  lemma CompareCase(op: CompareOp, l: V, r: V, a: Value, c: Value, env: Env)
    requires Agrees(l, a) && Agrees(r, c)
    ensures Agrees(BinaryV(Compare(op), l, r), CompareValues(op, a, c, env))
    ensures NullExact(l, a) && NullExact(r, c) ==> NullExact(BinaryV(Compare(op), l, r), CompareValues(op, a, c, env))
  {
    hide Order, OrderV;
    if CompareV(op, l, r).BoolV? {
      CompareAgrees(op, l, r, a, c, env);
    }
  }

  lemma ArithCase(op: ArithOp, l: V, r: V, a: Value, c: Value, env: Env)
    requires Agrees(l, a) && Agrees(r, c)
    ensures Agrees(BinaryV(Arith(op), l, r), ArithValues(op, a, c, env))
    ensures NullExact(l, a) && NullExact(r, c) ==> NullExact(BinaryV(Arith(op), l, r), ArithValues(op, a, c, env))
  {
    hide ArithV, ArithInts;
    if l.IntV? && r.IntV? {
      ArithAgrees(op, l.i, r.i, env);
    }
  }

  lemma UnaryAgrees(op: UnaryOp, text: string, x: V, a: Value, env: Env)
    requires Agrees(x, a) && (op.Not? || op.Minus?)
    ensures var v := if op.Not? then NotV(x) else MinusV(x);
            && Agrees(v, UnaryValue(op, text, a, env))
            && (NullExact(x, a) ==> NullExact(v, UnaryValue(op, text, a, env)))
  {
    assert [a][0] == a;
  }

  lemma BetweenAgrees(negated: bool, x: V, lo: V, hi: V, a: Value, l: Value, h: Value, env: Env)
    requires Agrees(x, a) && Agrees(lo, l) && Agrees(hi, h)
    ensures Agrees(BetweenV(negated, x, lo, hi), Negated(negated, BetweenValue(a, l, h, env), env))
  {
    hide CompareV, CompareValues;
    if BetweenV(negated, x, lo, hi).BoolV? {
      CompareAgrees(Ge, x, lo, a, l, env);
      CompareAgrees(Le, x, hi, a, h, env);
    }
  }

  lemma NullCompares(op: CompareOp, a: Value, c: Value, env: Env)
    requires a == Null || c == Null
    ensures CompareValues(op, a, c, env) == Null
  {
  }

  /** BETWEEN with a NULL operand is NULL unless it is coarse. */
  lemma BetweenNullExact(negated: bool, x: V, lo: V, hi: V, a: Value, l: Value, h: Value, env: Env)
    requires Agrees(x, a) && Agrees(lo, l) && Agrees(hi, h)
    requires NullExact(x, a) && NullExact(lo, l) && NullExact(hi, h) && !Coarse(x, lo, hi)
    ensures NullExact(BetweenV(negated, x, lo, hi), Negated(negated, BetweenValue(a, l, h, env), env))
  {
    hide CompareV, CompareValues;
    if BetweenV(negated, x, lo, hi).NullV? {
      if x.NullV? {
        NullCompares(Ge, a, l, env);
        NullCompares(Le, a, h, env);
      } else if lo.NullV? && hi.NullV? {
        NullCompares(Ge, a, l, env);
        NullCompares(Le, a, h, env);
      } else if lo.NullV? {
        NullCompares(Ge, a, l, env);
        CompareAgrees(Le, x, hi, a, h, env);
      } else {
        NullCompares(Le, a, h, env);
        CompareAgrees(Ge, x, lo, a, l, env);
      }
    }
  }

  // ----- The theorem -----

  lemma BoundColumn(env: Env, b: Bindings, text: string)
    requires Completes(env, b) && Fold(text) in b
    ensures env.column(text) == Eval(b[Fold(text)], env)
  {
  }

  lemma {:induction false} ChildAgrees(n: Node, idx: nat, b: Bindings, d: nat, env: Env)
    requires Completes(env, b) && idx < 3
    requires idx < |n.children| ==> Careful(n.children[idx], b, d)
    ensures Agrees(CheckChild(n, idx, b, d), EvalChild(n, idx, env))
    ensures (idx < |n.children| ==> Precise(n.children[idx], b, d)) ==> NullExact(CheckChild(n, idx, b, d), EvalChild(n, idx, env))
    decreases MAX_CHECK_DEPTH + 2 - d, 0
  {
    hide Careful, Precise, CheckValue, Eval, Completes;
    if idx < |n.children| && d <= MAX_CHECK_DEPTH {
      VerdictAgrees(n.children[idx], b, d, env);
    }
  }

  /** A folded value is the value of the expression in every row completing the bindings. */
  lemma {:induction false} VerdictAgrees(n: Node, b: Bindings, d: nat, env: Env)
    requires Completes(env, b) && Careful(n, b, d)
    ensures Agrees(CheckValue(n, b, d), Eval(n, env))
    ensures Precise(n, b, d) ==> NullExact(CheckValue(n, b, d), Eval(n, env))
    decreases MAX_CHECK_DEPTH + 1 - d, 2
  {
    hide Completes, BinaryV, BinaryValue, BetweenV, BetweenValue, UnaryValue, NotV, MinusV, Negated, CheckChild, EvalChild, Fold, StripQuotes, Integral, Coarse;
    if d <= MAX_CHECK_DEPTH {
      match n.kind {
        case ColumnRef =>
          if Fold(n.text) in b {
            BoundColumn(env, b, n.text);
            VerdictAgrees(b[Fold(n.text)], b, d + 1, env);
          }
        case Unary(op) =>
          ChildAgrees(n, 0, b, d + 1, env);
          if op.Not? || op.Minus? {
            UnaryAgrees(op, n.text, CheckChild(n, 0, b, d + 1), EvalChild(n, 0, env), env);
          }
        case Binary(op) =>
          ChildAgrees(n, 0, b, d + 1, env);
          ChildAgrees(n, 1, b, d + 1, env);
          BinaryAgrees(op, n.text, CheckChild(n, 0, b, d + 1), CheckChild(n, 1, b, d + 1), EvalChild(n, 0, env), EvalChild(n, 1, env), env);
        case IsNull(negated) =>
          NullTestAgrees(n, b, d, env);
        case Between(negated) =>
          BetweenCase(n, b, d, env);
        case _ =>
      }
    }
  }

  lemma PresentIsNotNull(v: V, value: Value)
    requires Agrees(v, value) && NullExact(v, value) && !v.Fail?
    ensures v.NullV? <==> value == Null
  {
  }

  lemma {:induction false} NullTestAgrees(n: Node, b: Bindings, d: nat, env: Env)
    requires Completes(env, b) && Careful(n, b, d) && n.kind.IsNull? && d <= MAX_CHECK_DEPTH
    ensures Agrees(CheckValue(n, b, d), Eval(n, env)) && !CheckValue(n, b, d).NullV?
    decreases MAX_CHECK_DEPTH + 1 - d, 1
  {
    hide Completes, CheckChild, EvalChild;
    ChildAgrees(n, 0, b, d + 1, env);
    var x, a := CheckChild(n, 0, b, d + 1), EvalChild(n, 0, env);
    if !x.Fail? {
      PresentIsNotNull(x, a);
    }
  }

  lemma {:induction false} BetweenCase(n: Node, b: Bindings, d: nat, env: Env)
    requires Completes(env, b) && Careful(n, b, d) && n.kind.Between? && d <= MAX_CHECK_DEPTH
    ensures Agrees(CheckValue(n, b, d), Eval(n, env))
    ensures Precise(n, b, d) ==> NullExact(CheckValue(n, b, d), Eval(n, env))
    decreases MAX_CHECK_DEPTH + 1 - d, 1
  {
    hide Completes, CheckChild, EvalChild, BetweenV, BetweenValue, Negated, Coarse;
    forall i: nat | i < 3
      ensures Agrees(CheckChild(n, i, b, d + 1), EvalChild(n, i, env))
      ensures Precise(n, b, d) ==> NullExact(CheckChild(n, i, b, d + 1), EvalChild(n, i, env))
    {
      ChildAgrees(n, i, b, d + 1, env);
    }
    var x, lo, hi := CheckChild(n, 0, b, d + 1), CheckChild(n, 1, b, d + 1), CheckChild(n, 2, b, d + 1);
    BetweenAgrees(n.kind.negated, x, lo, hi, EvalChild(n, 0, env), EvalChild(n, 1, env), EvalChild(n, 2, env), env);
    if Precise(n, b, d) {
      BetweenNullExact(n.kind.negated, x, lo, hi, EvalChild(n, 0, env), EvalChild(n, 1, env), EvalChild(n, 2, env), env);
    }
  }

  /** No false verdict: whatever the unbound columns, functions and cross-type operators are. */
  lemma NoFalseVerdict(n: Node, b: Bindings, env: Env)
    requires Completes(env, b) && Careful(n, b, 0)
    ensures Verdict(CheckValue(n, b, 0)) == True ==> Eval(n, env) == Bool(true)
    ensures Verdict(CheckValue(n, b, 0)) == False ==> Eval(n, env) == Bool(false)
  {
    hide Completes, Careful, CheckValue, Eval;
    VerdictAgrees(n, b, 0, env);
  }

  // ----- Exactly when BETWEEN breaks IS NULL -----

  lemma CoarseIsNotNull(negated: bool, x: V, lo: V, hi: V, a: Value, l: Value, h: Value, env: Env)
    requires Agrees(x, a) && Agrees(lo, l) && Agrees(hi, h) && NullExact(lo, l) && NullExact(hi, h)
    requires Coarse(x, lo, hi) && (if lo.NullV? then OrderV(x, hi) else OrderV(x, lo)).Some?
    ensures Negated(negated, BetweenValue(a, l, h, env), env) == Bool(negated)
  {
    hide CompareValues, OrderV, Order;
    if lo.NullV? {
      NullCompares(Ge, a, l, env);
      CompareAgrees(Le, x, hi, a, h, env);
    } else {
      NullCompares(Le, a, h, env);
      CompareAgrees(Ge, x, lo, a, l, env);
    }
  }

  /** `(x BETWEEN lo AND hi) IS [NOT] NULL` over folded operands that can be compared: the
      verdict is right exactly when the BETWEEN is not coarse. */
  lemma NullTestOfBetweenIsExact(n: Node, b: Bindings, d: nat, env: Env)
    requires Completes(env, b) && d + 2 <= MAX_CHECK_DEPTH
    requires n.kind.IsNull? && n.children != [] && n.children[0].kind.Between?
    requires forall i: nat :: i < 3 && i < |n.children[0].children| ==>
               Careful(n.children[0].children[i], b, d + 2) && Precise(n.children[0].children[i], b, d + 2)
    requires var m := n.children[0]; var x, lo, hi := CheckChild(m, 0, b, d + 2), CheckChild(m, 1, b, d + 2), CheckChild(m, 2, b, d + 2);
             && !BetweenV(m.kind.negated, x, lo, hi).Fail?
             && (Coarse(x, lo, hi) ==> (if lo.NullV? then OrderV(x, hi) else OrderV(x, lo)).Some?)
    ensures CheckValue(n, b, d).BoolV?
    ensures Eval(n, env) == Bool(CheckValue(n, b, d).b) <==> !CoarseAt(n.children[0], b, d + 1)
  {
    hide Completes, CheckChild, EvalChild, BetweenV, BetweenValue, Negated, Coarse, Careful, Precise, OrderV;
    var m := n.children[0];
    forall i: nat | i < 3
      ensures Agrees(CheckChild(m, i, b, d + 2), EvalChild(m, i, env)) && NullExact(CheckChild(m, i, b, d + 2), EvalChild(m, i, env))
    {
      ChildAgrees(m, i, b, d + 2, env);
    }
    var x, lo, hi := CheckChild(m, 0, b, d + 2), CheckChild(m, 1, b, d + 2), CheckChild(m, 2, b, d + 2);
    var a, l, h := EvalChild(m, 0, env), EvalChild(m, 1, env), EvalChild(m, 2, env);
    NullTestUnfolds(n, b, d, env);
    BetweenAgrees(m.kind.negated, x, lo, hi, a, l, h, env);
    if Coarse(x, lo, hi) {
      CoarseFoldsToNull(m.kind.negated, x, lo, hi);
      CoarseIsNotNull(m.kind.negated, x, lo, hi, a, l, h, env);
    } else {
      BetweenNullExact(m.kind.negated, x, lo, hi, a, l, h, env);
      PresentIsNotNull(BetweenV(m.kind.negated, x, lo, hi), Negated(m.kind.negated, BetweenValue(a, l, h, env), env));
    }
  }

  lemma CoarseFoldsToNull(negated: bool, x: V, lo: V, hi: V)
    requires Coarse(x, lo, hi) && !BetweenV(negated, x, lo, hi).Fail?
    ensures BetweenV(negated, x, lo, hi).NullV?
  {
  }

  lemma NullTestUnfolds(n: Node, b: Bindings, d: nat, env: Env)
    requires n.kind.IsNull? && n.children != [] && n.children[0].kind.Between? && d + 2 <= MAX_CHECK_DEPTH
    ensures var m := n.children[0];
            && CheckValue(n, b, d) == IsNullV(n.kind.negated,
                 BetweenV(m.kind.negated, CheckChild(m, 0, b, d + 2), CheckChild(m, 1, b, d + 2), CheckChild(m, 2, b, d + 2)))
            && Eval(n, env) == Bool((Negated(m.kind.negated, BetweenValue(EvalChild(m, 0, env), EvalChild(m, 1, env), EvalChild(m, 2, env), env), env) == Null)
                                    != n.kind.negated)
  {
    hide BetweenV, BetweenValue, Negated;
    var m := n.children[0];
    assert CheckChild(n, 0, b, d + 1) == CheckValue(m, b, d + 1);
    assert EvalChild(n, 0, env) == Eval(m, env);
  }

  /** `(5 BETWEEN 10 AND NULL) IS NULL` folds to TRUE, and is FALSE. */
  lemma CoarseBetweenExample(env: Env)
    ensures var between := Node(Between(false), "BETWEEN",
                             [Node(IntegerLiteral, "5", []), Node(IntegerLiteral, "10", []), Node(NullLiteral, "NULL", [])]);
            var n := Node(IsNull(false), "IS NULL", [between]);
            Verdict(CheckValue(n, map[], 0)) == True && Eval(n, env) == Bool(false)
  {
    hide Integral, Int64Of, Numeral;
    var five, ten, missing := Node(IntegerLiteral, "5", []), Node(IntegerLiteral, "10", []), Node(NullLiteral, "NULL", []);
    var between := Node(Between(false), "BETWEEN", [five, ten, missing]);
    var n := Node(IsNull(false), "IS NULL", [between]);
    SmallNumerals();
    NullTestUnfolds(n, map[], 0, env);
    assert CheckChild(between, 0, map[], 2) == IntV(5);
    assert CheckChild(between, 1, map[], 2) == IntV(10);
    assert CheckChild(between, 2, map[], 2) == NullV;
    assert EvalChild(between, 0, env) == Int(5) && EvalChild(between, 1, env) == Int(10) && EvalChild(between, 2, env) == Null;
  }

  lemma SmallNumerals()
    ensures Int64Of("5") == Some(5) && Integral("5") == Some(5) && Int64Of("10") == Some(10) && Integral("10") == Some(10)
  {
    DecimalOfNumeral(5);
    DecimalOfNumeral(10);
    assert Numeral(5) == "5" && Numeral(1) == "1" && Numeral(10) == "10";
  }
}
