/** The value of an expression in a row: SQL's three-valued logic over exact integers. What the
    analyzer takes as given about the rest of the engine is an oracle in the environment, so a
    result proved for every environment holds whatever the oracle answers. */
module Semantics {
  import opened Wrappers
  import opened Identifier
  import opened Numerals
  import opened Types
  import opened Ast

  datatype Value = Null | Bool(b: bool) | Int(i: int) | Str(s: string) | Arr(elems: seq<Value>) | Opaque(id: int)

  /** `column` is the row; `group` answers aggregates and GROUPING; `query` answers subqueries;
      `apply` stands for every operator and function that is not spelled out below. */
  datatype Env = Env(
    column: string -> Value,
    literal: (Kind, string) -> Value,
    parameter: string -> Value,
    apply: (Kind, string, seq<Value>) -> Value,
    group: Node -> Value,
    query: Node -> Value)

  predicate NoNulls(vs: seq<Value>) {
    forall i :: 0 <= i < |vs| ==> vs[i] != Null
  }

  // ----- Comparison and logic -----

  /** Byte-wise lexicographic order. */
  predicate StrLess(a: string, b: string) {
    if b == [] then false
    else if a == [] then true
    else if a[0] != b[0] then a[0] < b[0]
    else StrLess(a[1..], b[1..])
  }

  /** -1, 0 or 1 where the two values are of one comparable kind. */
  function Order(a: Value, b: Value): Option<int> {
    match (a, b)
    case (Int(x), Int(y)) => Some(if x < y then -1 else if x > y then 1 else 0)
    case (Str(x), Str(y)) => Some(if x == y then 0 else if StrLess(x, y) then -1 else 1)
    case (Bool(x), Bool(y)) => Some(if x == y then 0 else if y then -1 else 1)
    case _ => None
  }

  predicate Holds(op: CompareOp, cmp: int) {
    match op
    case Eq => cmp == 0
    case Ne => cmp != 0
    case Lt => cmp < 0
    case Gt => cmp > 0
    case Le => cmp <= 0
    case Ge => cmp >= 0
  }

  function CompareValues(op: CompareOp, a: Value, b: Value, env: Env): Value {
    if a == Null || b == Null then Null
    else
      match Order(a, b)
      case Some(cmp) => Bool(Holds(op, cmp))
      case None => env.apply(Binary(Compare(op)), "", [a, b])
  }

  function NotValue(a: Value, env: Env): Value {
    match a
    case Bool(b) => Bool(!b)
    case Null => Null
    case _ => env.apply(Unary(Not), "", [a])
  }

  predicate IsTruth(a: Value) { a.Bool? || a.Null? }

  /** FALSE decides a conjunction whatever the other side is. */
  function AndValues(a: Value, b: Value, env: Env): Value {
    if a == Bool(false) || b == Bool(false) then Bool(false)
    else if !IsTruth(a) || !IsTruth(b) then env.apply(Binary(And), "", [a, b])
    else if a == Null || b == Null then Null
    else Bool(true)
  }

  function OrValues(a: Value, b: Value, env: Env): Value {
    if a == Bool(true) || b == Bool(true) then Bool(true)
    else if !IsTruth(a) || !IsTruth(b) then env.apply(Binary(Or), "", [a, b])
    else if a == Null || b == Null then Null
    else Bool(false)
  }

  // ----- Arithmetic -----

  /** Division truncates toward zero. */
  function Quotient(x: int, y: int): int
    requires y != 0
  {
    var q := (if x < 0 then -x else x) / (if y < 0 then -y else y);
    if (x < 0) == (y < 0) then q else -q
  }

  function Remainder(x: int, y: int): int
    requires y != 0
  {
    x - Quotient(x, y) * y
  }

  function ArithInts(op: ArithOp, x: int, y: int): Option<int> {
    match op
    case Add => Some(x + y)
    case Sub => Some(x - y)
    case Mul => Some(x * y)
    case Div => if y == 0 then None else Some(Quotient(x, y))
    case Mod => if y == 0 then None else Some(Remainder(x, y))
  }

  function ArithValues(op: ArithOp, a: Value, b: Value, env: Env): Value {
    if a == Null || b == Null then Null
    else
      var exact := if a.Int? && b.Int? then ArithInts(op, a.i, b.i) else None;
      if exact.Some? then Int(exact.value) else env.apply(Binary(Arith(op)), "", [a, b])
  }

  // ----- Functions and operators with their own NULL rules -----

  function FirstNonNull(vs: seq<Value>): Value {
    if vs == [] then Null else if vs[0] != Null then vs[0] else FirstNonNull(vs[1..])
  }

  function DropNulls(vs: seq<Value>): (r: seq<Value>)
    ensures NoNulls(r)
  {
    if vs == [] then [] else (if vs[0] == Null then [] else [vs[0]]) + DropNulls(vs[1..])
  }

  /** The niladic current-time functions. */
  predicate IsCurrentTime(name: string) {
    name == "now" || name == "current_timestamp" || name == "current_date" || name == "current_time"
  }

  function CallValue(name: string, args: seq<Value>, env: Env): Value {
    if IsCurrentTime(name) then env.apply(FunctionCall, name, [])
    else if name == "coalesce" then FirstNonNull(args)
    else if name == "greatest" || name == "least" then
      (if DropNulls(args) == [] then Null else env.apply(FunctionCall, name, DropNulls(args)))
    else if name == "nullif" && |args| == 2 then
      (if CompareValues(Eq, args[0], args[1], env) == Bool(true) then Null else args[0])
    else env.apply(FunctionCall, name, args)
  }

  /** `x IN (e1, ..., en)`: the disjunction of `x = ei`. */
  function InValue(x: Value, elems: seq<Value>, env: Env): Value {
    if elems == [] then Bool(false)
    else OrValues(CompareValues(Eq, x, elems[0], env), InValue(x, elems[1..], env), env)
  }

  function QuantifiedValue(op: CompareOp, all: bool, x: Value, elems: seq<Value>, env: Env): Value {
    if elems == [] then Bool(all)
    else
      var first := CompareValues(op, x, elems[0], env);
      var rest := QuantifiedValue(op, all, x, elems[1..], env);
      if all then AndValues(first, rest, env) else OrValues(first, rest, env)
  }

  /** `x BETWEEN lo AND hi` is `x >= lo AND x <= hi`. */
  function BetweenValue(x: Value, lo: Value, hi: Value, env: Env): Value {
    AndValues(CompareValues(Ge, x, lo, env), CompareValues(Le, x, hi, env), env)
  }

  function StrictApply(kind: Kind, text: string, args: seq<Value>, env: Env): Value {
    if NoNulls(args) then env.apply(kind, text, args) else Null
  }

  function BinaryValue(op: BinaryOp, text: string, a: Value, b: Value, env: Env): Value {
    match op
    case And => AndValues(a, b, env)
    case Or => OrValues(a, b, env)
    case Compare(c) => CompareValues(c, a, b, env)
    case DistinctFrom(negated) =>
      var same := if a == Null || b == Null then a == b else CompareValues(Eq, a, b, env) == Bool(true);
      Bool(same == negated)
    case Quantified(c, all) =>
      if b.Arr? then QuantifiedValue(c, all, a, b.elems, env) else StrictApply(Binary(op), text, [a, b], env)
    case Arith(o) => ArithValues(o, a, b, env)
    case Concat | When | OtherBinary => StrictApply(Binary(op), text, [a, b], env)
  }

  function UnaryValue(op: UnaryOp, text: string, a: Value, env: Env): Value {
    match op
    case Not => NotValue(a, env)
    case Minus => if a.Int? then Int(-a.i) else StrictApply(Unary(op), text, [a], env)
    case Plus => if a.Int? then a else StrictApply(Unary(op), text, [a], env)
    case _ => StrictApply(Unary(op), text, [a], env)
  }

  function TestTruth(a: Value, truth: Truth): bool {
    match truth
    case IsTrue => a == Bool(true)
    case IsFalse => a == Bool(false)
    case IsUnknown => a == Null
  }

  function StripQuotes(t: string): string {
    if |t| >= 2 && (t[0] == '\'' || t[0] == '"') && t[|t| - 1] == t[0] then t[1..|t| - 1] else t
  }

  function Negated(negated: bool, v: Value, env: Env): Value {
    if negated then NotValue(v, env) else v
  }

  // ----- Evaluation -----

  /** Is this WHEN's guard true? In a simple CASE the guard is `operand = value`. */
  predicate GuardHolds(operand: Option<Value>, cond: Value, env: Env) {
    match operand
    case None => cond == Bool(true)
    case Some(v) => CompareValues(Eq, v, cond, env) == Bool(true)
  }

  function Eval(n: Node, env: Env): Value
    decreases n, 1
  {
    match n.kind
    case IntegerLiteral =>
      var v := Integral(n.text);
      if v.Some? then Int(v.value) else env.literal(n.kind, n.text)
    case FloatLiteral | IntervalLiteral | DateTimeLiteral(_) => env.literal(n.kind, n.text)
    case StringLiteral => Str(StripQuotes(n.text))
    case BooleanLiteral(b) => Bool(b)
    case NullLiteral | Star | TypeName => Null
    case ColumnRef => env.column(n.text)
    case Parameter => env.parameter(n.text)
    case Subquery => env.query(n)
    case FunctionCall =>
      if IsGroupCall(n) then env.group(n)
      else CallValue(Fold(n.text), if HasDatePart(n) then EvalArgs(n.children[1..], env) else EvalArgs(n.children, env), env)
    case Binary(op) => BinaryValue(op, n.text, EvalChild(n, 0, env), EvalChild(n, 1, env), env)
    case Unary(op) =>
      if op.Exists? then Bool(env.query(n) == Bool(true))
      else UnaryValue(op, n.text, EvalChild(n, 0, env), env)
    case Case =>
      if IsSimpleCase(n) then EvalArms(n.children[1..], Some(Eval(n.children[0], env)), env)
      else EvalArms(n.children, None, env)
    case In(negated) =>
      if n.children == [] then Null
      else Negated(negated, InValue(Eval(n.children[0], env), EvalAll(n.children[1..], env), env), env)
    case Between(negated) =>
      Negated(negated, BetweenValue(EvalChild(n, 0, env), EvalChild(n, 1, env), EvalChild(n, 2, env), env), env)
    case Like(_) => StrictApply(n.kind, n.text, [EvalChild(n, 0, env), EvalChild(n, 1, env)], env)
    case IsNull(negated) => Bool((EvalChild(n, 0, env) == Null) != negated)
    case BooleanTest(truth, negated) => Bool(TestTruth(EvalChild(n, 0, env), truth) != negated)
    case Cast =>
      StrictApply(n.kind, CastTarget(n), [EvalChild(n, 0, env)], env)
    case ArrayConstructor => Arr(EvalAll(n.children, env))
    case Collate => EvalChild(n, 0, env)
    case RowConstructor | Other => env.apply(n.kind, n.text, EvalAll(n.children, env))
  }

  function EvalChild(n: Node, idx: nat, env: Env): Value
    decreases n, 0
  {
    if idx < |n.children| then Eval(n.children[idx], env) else Null
  }

  function EvalAll(ns: seq<Node>, env: Env): (r: seq<Value>)
    ensures |r| == |ns|
    decreases ns, 0
  {
    if ns == [] then [] else [Eval(ns[0], env)] + EvalAll(ns[1..], env)
  }

  /** Argument values; the star of COUNT(*) is not one. */
  function EvalArgs(ns: seq<Node>, env: Env): seq<Value>
    decreases ns, 0
  {
    if ns == [] then []
    else (if ns[0].kind.Star? then [] else [Eval(ns[0], env)]) + EvalArgs(ns[1..], env)
  }

  /** The first arm whose guard is true, else the ELSE expression, else NULL. */
  function EvalArms(arms: seq<Node>, operand: Option<Value>, env: Env): Value
    decreases arms, 0
  {
    if arms == [] then Null
    else if !IsWhen(arms[0]) then Eval(arms[0], env)
    else if GuardHolds(operand, EvalChild(arms[0], 0, env), env) then EvalChild(arms[0], 1, env)
    else EvalArms(arms[1..], operand, env)
  }
}
