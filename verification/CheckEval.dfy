/** Constant evaluation of CHECK predicates: a partial evaluator that gives up rather than guess. */
module CheckEval {
  import opened Wrappers
  import opened Identifier
  import opened Numerals
  import opened Types
  import opened Ast
  import opened Semantics

  /** A folded constant, or the news that there is none. */
  datatype V = Fail | NullV | IntV(i: int) | StrV(s: string) | BoolV(b: bool)

  /** The columns given a value, by folded name. */
  type Bindings = map<string, Node>

  const MAX_CHECK_DEPTH: nat := 200

  // ----- Operators on folded values -----

  function NotV(x: V): V {
    match x
    case BoolV(b) => BoolV(!b)
    case NullV => NullV
    case _ => Fail
  }

  function MinusV(x: V): V {
    match x
    case IntV(i) => if i == INT64_MIN then Fail else IntV(-i)
    case NullV => NullV
    case _ => Fail
  }

  predicate IsTruthV(x: V) { x.BoolV? || x.NullV? }

  /** FALSE decides a conjunction even beside an operand that did not fold. */
  function AndV(l: V, r: V): V {
    if l == BoolV(false) || r == BoolV(false) then BoolV(false)
    else if !IsTruthV(l) || !IsTruthV(r) then Fail
    else if l.NullV? || r.NullV? then NullV
    else BoolV(true)
  }

  function OrV(l: V, r: V): V {
    if l == BoolV(true) || r == BoolV(true) then BoolV(true)
    else if !IsTruthV(l) || !IsTruthV(r) then Fail
    else if l.NullV? || r.NullV? then NullV
    else BoolV(false)
  }

  /** -1, 0 or 1 for two values of one type; nothing across types. */
  function OrderV(l: V, r: V): Option<int> {
    match (l, r)
    case (IntV(x), IntV(y)) => Some(if x < y then -1 else if x > y then 1 else 0)
    case (StrV(x), StrV(y)) => Some(if StrLess(x, y) then -1 else if StrLess(y, x) then 1 else 0)
    case (BoolV(x), BoolV(y)) => Some(if x == y then 0 else if y then -1 else 1)
    case _ => None
  }

  function CompareV(op: CompareOp, l: V, r: V): V {
    match OrderV(l, r)
    case Some(cmp) => BoolV(Semantics.Holds(op, cmp))
    case None => Fail
  }

  function ArithV(op: ArithOp, x: int, y: int): V {
    match op
    case Add => if FitsInt64(x + y) then IntV(x + y) else Fail
    case Sub => if FitsInt64(x - y) then IntV(x - y) else Fail
    case Mul => if FitsInt64(x * y) then IntV(x * y) else Fail
    case Div => if y == 0 || (x == INT64_MIN && y == -1) then Fail else IntV(Quotient(x, y))
    case Mod => if y == 0 then Fail else if x == INT64_MIN && y == -1 then IntV(0) else IntV(Remainder(x, y))
  }

  function BinaryV(op: BinaryOp, l: V, r: V): V {
    if op.And? then AndV(l, r)
    else if op.Or? then OrV(l, r)
    else if l.Fail? || r.Fail? then Fail
    else if op.Compare? then (if l.NullV? || r.NullV? then NullV else CompareV(op.op, l, r))
    else if op.Arith? then
      (if l.NullV? || r.NullV? then NullV else if l.IntV? && r.IntV? then ArithV(op.arith, l.i, r.i) else Fail)
    else Fail
  }

  /** Any NULL operand makes the answer NULL: coarser than the conjunction it stands for. */
  function BetweenV(negated: bool, x: V, lo: V, hi: V): V {
    if x.Fail? || lo.Fail? || hi.Fail? then Fail
    else if x.NullV? || lo.NullV? || hi.NullV? then NullV
    else
      var ge, le := CompareV(Ge, x, lo), CompareV(Le, x, hi);
      if !ge.BoolV? || !le.BoolV? then Fail else BoolV((ge.b && le.b) != negated)
  }

  function IsNullV(negated: bool, x: V): V {
    if x.Fail? then Fail else BoolV(x.NullV? != negated)
  }

  function ParseInt(text: string): V {
    match Int64Of(text)
    case Some(v) => IntV(v)
    case None => Fail
  }

  // ----- The evaluator as a function -----

  function CheckValue(n: Node, b: Bindings, d: nat): V
    decreases MAX_CHECK_DEPTH + 1 - d, 1
  {
    if d > MAX_CHECK_DEPTH then Fail
    else
      match n.kind
      case IntegerLiteral => ParseInt(n.text)
      case StringLiteral => StrV(StripQuotes(n.text))
      case BooleanLiteral(v) => BoolV(v)
      case NullLiteral => NullV
      case ColumnRef => if Fold(n.text) in b then CheckValue(b[Fold(n.text)], b, d + 1) else Fail
      case Unary(op) =>
        var x := CheckChild(n, 0, b, d + 1);
        if op.Not? then NotV(x) else if op.Minus? then MinusV(x) else Fail
      case Binary(op) => BinaryV(op, CheckChild(n, 0, b, d + 1), CheckChild(n, 1, b, d + 1))
      case IsNull(negated) => IsNullV(negated, CheckChild(n, 0, b, d + 1))
      case Between(negated) =>
        BetweenV(negated, CheckChild(n, 0, b, d + 1), CheckChild(n, 1, b, d + 1), CheckChild(n, 2, b, d + 1))
      case _ => Fail
  }

  function CheckChild(n: Node, idx: nat, b: Bindings, d: nat): V
    decreases MAX_CHECK_DEPTH + 2 - d, 0
  {
    if idx < |n.children| && d <= MAX_CHECK_DEPTH then CheckValue(n.children[idx], b, d) else Fail
  }

  datatype CheckResult = True | False | Unknown

  function Verdict(v: V): CheckResult {
    match v
    case BoolV(b) => if b then True else False
    case _ => CheckResult.Unknown
  }

  // ----- The evaluator as it runs -----

  lemma TimesAtLeast(q: nat, b: nat, k: nat)
    requires b >= k
    ensures q * b >= q * k
  {
    assert q * b - q * k == q * (b - k);
  }

  lemma QuotientFits(x: int, y: int)
    requires FitsInt64(x) && FitsInt64(y) && y != 0 && !(x == INT64_MIN && y == -1)
    ensures FitsInt64(Quotient(x, y))
  {
    var a: nat, b: nat := if x < 0 then -x else x, if y < 0 then -y else y;
    var q: nat := a / b;
    assert q * b <= a;
    TimesAtLeast(q, b, 1);
    if b > 1 {
      TimesAtLeast(q, b, 2);
    }
  }

  lemma SignedTimes(negative: bool, y: int, q: int, b: int)
    requires b == if y < 0 then -y else y
    ensures (if negative == (y < 0) then q else -q) * y == if negative then -(q * b) else q * b
  {
    assert q * -b == -(q * b) && -q * -b == q * b && -q * b == -(q * b);
  }

  lemma EuclideanBounds(a: nat, b: nat)
    requires b > 0
    ensures 0 <= a - a / b * b <= a
  {
  }

  /** The remainder is as large as the Euclidean one, with the sign of the dividend. */
  lemma RemainderFits(x: int, y: int)
    requires FitsInt64(x) && y != 0
    ensures FitsInt64(Remainder(x, y))
  {
    var a: nat, b: nat := if x < 0 then -x else x, if y < 0 then -y else y;
    EuclideanBounds(a, b);
    SignedTimes(x < 0, y, a / b, b);
  }

  /** No machine operation overflows: every folded integer fits 64 bits. */
  predicate Fits(v: V) {
    v.IntV? ==> FitsInt64(v.i)
  }

  lemma ArithFits(op: ArithOp, x: int, y: int)
    requires FitsInt64(x) && FitsInt64(y)
    ensures Fits(ArithV(op, x, y))
  {
    if y != 0 && !(x == INT64_MIN && y == -1) {
      QuotientFits(x, y);
      RemainderFits(x, y);
    }
  }

  lemma BinaryFits(op: BinaryOp, l: V, r: V)
    requires Fits(l) && Fits(r)
    ensures Fits(BinaryV(op, l, r))
  {
    hide ArithV, AndV, OrV;
    if op.Arith? && l.IntV? && r.IntV? {
      ArithFits(op.arith, l.i, r.i);
    }
    assert Fits(AndV(l, r)) && Fits(OrV(l, r)) by { TruthFits(l, r); }
  }

  lemma TruthFits(l: V, r: V)
    ensures Fits(AndV(l, r)) && Fits(OrV(l, r))
  {
  }

  class Evaluator {
    const bindings: Bindings
    var depth: nat

    constructor (bindings: Bindings)
      ensures this.bindings == bindings && depth == 0
    {
      this.bindings, depth := bindings, 0;
    }

    /** The value of the tree; the depth counter comes back on every path. */
    method Evaluate(n: Node) returns (v: V)
      modifies this
      ensures v == CheckValue(n, bindings, old(depth)) && Fits(v) && depth == old(depth)
      decreases MAX_CHECK_DEPTH + 1 - depth, 1
    {
      hide BinaryV, BetweenV, NotV, MinusV, IsNullV, CheckChild, Fold, StripQuotes;
      if depth > MAX_CHECK_DEPTH {
        return Fail;
      }
      depth := depth + 1;
      match n.kind {
        case IntegerLiteral => v := ParseInt(n.text);
        case StringLiteral => v := StrV(StripQuotes(n.text));
        case BooleanLiteral(b) => v := BoolV(b);
        case NullLiteral => v := NullV;
        case ColumnRef =>
          if Fold(n.text) in bindings {
            v := Evaluate(bindings[Fold(n.text)]);
          } else {
            v := Fail;
          }
        case Unary(op) =>
          var x := EvaluateChild(n, 0);
          UnaryFits(x);
          v := if op.Not? then NotV(x) else if op.Minus? then MinusV(x) else Fail;
        case Binary(op) =>
          var l := EvaluateChild(n, 0);
          var r := EvaluateChild(n, 1);
          BinaryFits(op, l, r);
          v := BinaryV(op, l, r);
        case IsNull(negated) =>
          var x := EvaluateChild(n, 0);
          TestFits(negated, x, NullV, NullV);
          v := IsNullV(negated, x);
        case Between(negated) =>
          var x := EvaluateChild(n, 0);
          var lo := EvaluateChild(n, 1);
          var hi := EvaluateChild(n, 2);
          TestFits(negated, x, lo, hi);
          v := BetweenV(negated, x, lo, hi);
        case _ => v := Fail;
      }
      depth := depth - 1;
    }

    method EvaluateChild(n: Node, idx: nat) returns (v: V)
      modifies this
      ensures v == CheckChild(n, idx, bindings, old(depth)) && Fits(v) && depth == old(depth)
      decreases MAX_CHECK_DEPTH + 2 - depth, 0
    {
      hide CheckValue;
      if idx < |n.children| && depth <= MAX_CHECK_DEPTH {
        v := Evaluate(n.children[idx]);
      } else {
        v := Fail;
      }
    }
  }

  lemma UnaryFits(x: V)
    requires Fits(x)
    ensures Fits(NotV(x)) && Fits(MinusV(x))
  {
  }

  lemma TestFits(negated: bool, x: V, lo: V, hi: V)
    ensures Fits(IsNullV(negated, x)) && Fits(BetweenV(negated, x, lo, hi))
  {
  }
}
