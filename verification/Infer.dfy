/** Expression inference: the type and nullability of every expression, and the advisory
    warnings about constant arithmetic. */
module Infer {
  import opened Wrappers
  import opened Identifier
  import opened Numerals
  import opened Types
  import opened Ast
  import opened Semantics

  /** Recorded nullability. */
  const UNKNOWN_NULL: int := 0
  const NOT_NULL: int := 1
  const NULLABLE: int := 2

  const MAX_DEPTH: nat := 400

  /** What name resolution says of a column reference. */
  datatype ColumnFact = ColumnFact(type_: DataType, nullability: int)

  datatype Signature = Signature(known: bool, type_: DataType)

  /** The catalogue-dependent tables the walk consults. */
  datatype Facts = Facts(
    column: string -> ColumnFact,
    signature: (string, seq<DataType>) -> Signature,
    typeNamed: string -> DataType,
    projected: Node -> DataType)

  // ----- Nullability of a combination -----

  /** Nullable if any part is; not-null if there are parts and all are known not-null. */
  function Combine(parts: seq<int>): int {
    if NULLABLE in parts then NULLABLE
    else if parts != [] && forall i :: 0 <= i < |parts| ==> parts[i] == NOT_NULL then NOT_NULL
    else UNKNOWN_NULL
  }

  method CombineNullableAny(parts: seq<int>) returns (r: int)
    ensures r == Combine(parts)
  {
    var allNotNull := parts != [];
    for i := 0 to |parts|
      invariant NULLABLE !in parts[..i]
      invariant allNotNull <==> parts != [] && forall k :: 0 <= k < i ==> parts[k] == NOT_NULL
    {
      if parts[i] == NULLABLE {
        return NULLABLE;
      }
      if parts[i] != NOT_NULL {
        allNotNull := false;
      }
    }
    return if allNotNull then NOT_NULL else UNKNOWN_NULL;
  }

  predicate SkipsNulls(name: string) {
    name == "coalesce" || name == "greatest" || name == "least"
  }

  function CallNullability(name: string, args: seq<int>): int {
    if name == "count" then NOT_NULL
    else if IsAggregateName(name) then NULLABLE
    else if IsCurrentTime(name) then NOT_NULL
    else if name == "nullif" then NULLABLE
    else if SkipsNulls(name) then
      (if NOT_NULL in args then NOT_NULL else if NULLABLE in args then NULLABLE else UNKNOWN_NULL)
    else Combine(args)
  }

  // ----- Constant folding -----

  function ArithInt64(op: ArithOp, x: int, y: int): Option<int> {
    if op.Add? && FitsInt64(x + y) then Some(x + y)
    else if op.Sub? && FitsInt64(x - y) then Some(x - y)
    else if op.Mul? && FitsInt64(x * y) then Some(x * y)
    else None
  }

  /** Fold literals, unary signs and + - * in 64-bit arithmetic, giving up on overflow. */
  function ConstInt(n: Node): (r: Option<int>)
    ensures r.Some? ==> FitsInt64(r.value)
    decreases n, 1
  {
    match n.kind
    case IntegerLiteral => Int64Of(n.text)
    case Unary(op) =>
      var v := ConstIntChild(n, 0);
      if v.None? then None
      else if op.Minus? then (if v.value == INT64_MIN then None else Some(-v.value))
      else if op.Plus? then v
      else None
    case Binary(op) =>
      var l, r := ConstIntChild(n, 0), ConstIntChild(n, 1);
      if l.Some? && r.Some? && op.Arith? then ArithInt64(op.arith, l.value, r.value) else None
    case _ => None
  }

  function ConstIntChild(n: Node, idx: nat): (r: Option<int>)
    ensures r.Some? ==> FitsInt64(r.value)
    decreases n, 0
  {
    if idx < |n.children| then ConstInt(n.children[idx]) else None
  }

  function CompareInts(x: int, y: int): int {
    if x < y then -1 else if x > y then 1 else 0
  }

  function ConstBool(n: Node): Option<bool> {
    match n.kind
    case BooleanLiteral(b) => Some(b)
    case Binary(op) =>
      var l, r := ConstIntChild(n, 0), ConstIntChild(n, 1);
      if l.Some? && r.Some? && op.Compare? then Some(Semantics.Holds(op.op, CompareInts(l.value, r.value))) else None
    case _ => None
  }

  predicate InRange(t: DataType, v: int) {
    match t
    case TinyInt => -128 <= v <= 127
    case SmallInt => -32768 <= v <= 32767
    case Integer => -0x8000_0000 <= v <= 0x7FFF_FFFF
    case BigInt => FitsInt64(v)
    case _ => true
  }

  predicate IsCheckedOp(op: ArithOp) { op.Add? || op.Sub? || op.Mul? }

  /** Does `l op r` leave its integer result type, both operands being constants? */
  predicate ConstOverflows(n: Node, op: ArithOp, result: DataType) {
    && IsIntegerType(result) && IsCheckedOp(op)
    && var l, r := ConstIntChild(n, 0), ConstIntChild(n, 1);
       l.Some? && r.Some? &&
       match ArithInt64(op, l.value, r.value)
       case None => true
       case Some(v) => !InRange(result, v)
  }

  /** An integer literal is typed by its magnitude; a spelling that is not decimal stays INTEGER. */
  function LiteralType(text: string): DataType {
    match Integral(text)
    case None => Integer
    case Some(v) => if InRange(Integer, v) then Integer else if FitsInt64(v) then BigInt else Decimal
  }

  // ----- Dead CASE arms -----

  /** The guard of a WHEN, when it is a compile-time constant. */
  function ConstGuard(arm: Node, operand: Option<Node>): Option<bool> {
    match operand
    case None => if arm.children == [] then None else ConstBool(arm.children[0])
    case Some(o) =>
      var x, v := ConstInt(o), ConstIntChild(arm, 0);
      if x.Some? && v.Some? then Some(x.value == v.value) else None
  }

  // ----- Types and nullability, by recursion on the tree -----

  function TypeOf(n: Node, d: nat, f: Facts): DataType
    decreases n, 1
  {
    if d >= MAX_DEPTH then Unknown
    else
      match n.kind
      case IntegerLiteral => LiteralType(n.text)
      case FloatLiteral => Double
      case StringLiteral => Text
      case BooleanLiteral(_) => Boolean
      case NullLiteral => NullType
      case IntervalLiteral => Interval
      case DateTimeLiteral(t) => if t.Date? || t.Time? || t.Timestamp? then t else Timestamp
      case ColumnRef => f.column(n.text).type_
      case FunctionCall =>
        if Fold(n.text) == "grouping" then BigInt
        else f.signature(Fold(n.text), ArgTypes(if HasDatePart(n) then n.children[1..] else n.children, d + 1, f)).type_
      case Binary(op) =>
        var lt, rt := ChildType(n, 0, d + 1, f), ChildType(n, 1, d + 1, f);
        (match op
         case Arith(a) => ArithmeticType(lt, rt, a)
         case Concat => if lt.Array? || rt.Array? then DataType.Array else Text
         case When | OtherBinary => Unknown
         case _ => Boolean)
      case Unary(op) => if op.Exists? || op.Not? then Boolean else ChildType(n, 0, d + 1, f)
      case Case => ReconcileAll(ArmTypes(if IsSimpleCase(n) then n.children[1..] else n.children, d + 1, f)).type_
      case In(_) | Between(_) | Like(_) | IsNull(_) | BooleanTest(_, _) => Boolean
      case Cast => if |n.children| > 1 then f.typeNamed(n.children[1].text) else Unknown
      case ArrayConstructor => DataType.Array
      case Collate => ChildType(n, 0, d + 1, f)
      case Subquery => f.projected(n)
      case _ => Unknown
  }

  function ChildType(n: Node, idx: nat, d: nat, f: Facts): DataType
    decreases n, 0
  {
    if idx < |n.children| then TypeOf(n.children[idx], d, f) else Unknown
  }

  function ArgTypes(ns: seq<Node>, d: nat, f: Facts): seq<DataType>
    decreases ns, 0
  {
    if ns == [] then [] else (if ns[0].kind.Star? then [] else [TypeOf(ns[0], d, f)]) + ArgTypes(ns[1..], d, f)
  }

  /** The results of a CASE: what each WHEN yields, and the ELSE expression. */
  function ArmTypes(arms: seq<Node>, d: nat, f: Facts): seq<DataType>
    decreases arms, 0
  {
    if arms == [] then []
    else [if IsWhen(arms[0]) then ChildType(arms[0], 1, d, f) else TypeOf(arms[0], d, f)] + ArmTypes(arms[1..], d, f)
  }

  function NullOf(n: Node, d: nat, f: Facts): int
    decreases n, 1
  {
    if d >= MAX_DEPTH then UNKNOWN_NULL
    else
      match n.kind
      case IntegerLiteral | FloatLiteral | StringLiteral | BooleanLiteral(_) | IntervalLiteral | DateTimeLiteral(_) => NOT_NULL
      case NullLiteral | Parameter | RowConstructor | Subquery => NULLABLE
      case ColumnRef => f.column(n.text).nullability
      case FunctionCall =>
        if Fold(n.text) == "grouping" then NOT_NULL
        else
          var args := if HasDatePart(n) then n.children[1..] else n.children;
          if f.signature(Fold(n.text), ArgTypes(args, d + 1, f)).known
          then CallNullability(Fold(n.text), ArgNulls(args, d + 1, f))
          else NULLABLE
      case Binary(op) =>
        if op.DistinctFrom? then NOT_NULL else Combine([ChildNull(n, 0, d + 1, f), ChildNull(n, 1, d + 1, f)])
      case Unary(op) => if op.Exists? then NOT_NULL else ChildNull(n, 0, d + 1, f)
      case Case =>
        var arms := if IsSimpleCase(n) then n.children[1..] else n.children;
        if HasElse(arms) then Combine(ArmNulls(arms, d + 1, f)) else NULLABLE
      case In(_) => Combine(if n.children == [] then [UNKNOWN_NULL] else NullsOf(n.children, d + 1, f))
      case Between(_) => Combine([ChildNull(n, 0, d + 1, f), ChildNull(n, 1, d + 1, f), ChildNull(n, 2, d + 1, f)])
      case Like(_) => Combine([ChildNull(n, 0, d + 1, f), ChildNull(n, 1, d + 1, f)])
      case IsNull(_) | BooleanTest(_, _) | ArrayConstructor => NOT_NULL
      case Cast | Collate => ChildNull(n, 0, d + 1, f)
      case Star | TypeName | Other => UNKNOWN_NULL
  }

  function ChildNull(n: Node, idx: nat, d: nat, f: Facts): int
    decreases n, 0
  {
    if idx < |n.children| then NullOf(n.children[idx], d, f) else UNKNOWN_NULL
  }

  function NullsOf(ns: seq<Node>, d: nat, f: Facts): seq<int>
    decreases ns, 0
  {
    if ns == [] then [] else [NullOf(ns[0], d, f)] + NullsOf(ns[1..], d, f)
  }

  function ArgNulls(ns: seq<Node>, d: nat, f: Facts): seq<int>
    decreases ns, 0
  {
    if ns == [] then [] else (if ns[0].kind.Star? then [] else [NullOf(ns[0], d, f)]) + ArgNulls(ns[1..], d, f)
  }

  function ArmNulls(arms: seq<Node>, d: nat, f: Facts): seq<int>
    decreases arms, 0
  {
    if arms == [] then []
    else [if IsWhen(arms[0]) then ChildNull(arms[0], 1, d, f) else NullOf(arms[0], d, f)] + ArmNulls(arms[1..], d, f)
  }

  predicate HasElse(arms: seq<Node>) {
    exists i :: 0 <= i < |arms| && !IsWhen(arms[i])
  }

  // ----- Soundness of nullability -----

  /** The walk can record NOT NULL for the expression. */
  ghost predicate RecordedPresent(n: Node, f: Facts) {
    exists d: nat :: NullOf(n, d, f) == NOT_NULL
  }

  /** What a quantified comparison may range over: a subquery, or an array whose elements are
      recorded NOT NULL. An array is never NULL itself, but it may hold elements that are. */
  ghost predicate IsRange(n: Node, f: Facts) {
    n.kind.Subquery? || (n.kind.ArrayConstructor? && forall c <- n.children :: RecordedPresent(c, f))
  }

  /** The operators the typer recognises. */
  ghost predicate Recognised(n: Node, f: Facts) {
    && (n.kind.Binary? ==> !n.kind.bin.OtherBinary?)
    && (n.kind.Binary? && n.kind.bin.Quantified? ==> |n.children| > 1 && IsRange(n.children[1], f))
    && (n.kind.Unary? ==> !n.kind.un.OtherUnary?)
    && forall c <- n.children :: Recognised(c, f)
  }

  ghost predicate AllRecognised(ns: seq<Node>, f: Facts) {
    forall c <- ns :: Recognised(c, f)
  }

  predicate OperatorKind(kind: Kind) {
    kind.Binary? || kind.Unary? || kind.Like? || kind.Cast?
  }

  /** The row respects the NOT NULL columns, and what the typer recognises is total: given
      values that are not NULL it yields a value that is not NULL. */
  ghost predicate Respects(env: Env, f: Facts) {
    && (forall c :: f.column(c).nullability == NOT_NULL ==> env.column(c) != Value.Null)
    && (forall k, t :: env.literal(k, t) != Null)
    && (forall k, t, vs :: OperatorKind(k) && NoNulls(vs) ==> env.apply(k, t, vs) != Null)
    && (forall name, ts, vs :: f.signature(name, ts).known && NoNulls(vs) ==> env.apply(FunctionCall, name, vs) != Null)
    && (forall n: Node :: Fold(n.text) == "count" || Fold(n.text) == "grouping" ==> env.group(n) != Null)
  }

  lemma {:induction false} FirstNonNullPresent(vs: seq<Value>, i: nat)
    requires i < |vs| && vs[i] != Value.Null
    ensures FirstNonNull(vs) != Null && DropNulls(vs) != []
  {
    if vs[0] == Null {
      FirstNonNullPresent(vs[1..], i - 1);
    }
  }

  lemma {:induction false} InPresent(x: Value, elems: seq<Value>, env: Env, f: Facts)
    requires Respects(env, f) && x != Value.Null && NoNulls(elems)
    ensures InValue(x, elems, env) != Null
  {
    if elems != [] {
      InPresent(x, elems[1..], env, f);
      assert NoNulls([x, elems[0]]);
      var first, rest := CompareValues(Eq, x, elems[0], env), InValue(x, elems[1..], env);
      assert NoNulls([first, rest]);
    }
  }

  lemma BinaryPresent(op: BinaryOp, text: string, a: Value, b: Value, env: Env, f: Facts)
    requires Respects(env, f) && !op.Quantified?
    requires op.DistinctFrom? || (a != Value.Null && b != Value.Null)
    ensures BinaryValue(op, text, a, b, env) != Null
  {
    if !op.DistinctFrom? {
      assert NoNulls([a, b]);
    }
  }

  lemma {:induction false} QuantifiedPresent(op: CompareOp, all: bool, x: Value, elems: seq<Value>, env: Env, f: Facts)
    requires Respects(env, f) && x != Value.Null && NoNulls(elems)
    ensures QuantifiedValue(op, all, x, elems, env) != Null
  {
    if elems != [] {
      QuantifiedPresent(op, all, x, elems[1..], env, f);
      assert NoNulls([x, elems[0]]);
      var first, rest := CompareValues(op, x, elems[0], env), QuantifiedValue(op, all, x, elems[1..], env);
      assert NoNulls([first, rest]);
    }
  }

  lemma UnaryPresent(op: UnaryOp, text: string, a: Value, env: Env, f: Facts)
    requires Respects(env, f) && a != Value.Null
    ensures UnaryValue(op, text, a, env) != Null
  {
    assert NoNulls([a]);
  }

  lemma NegatedPresent(negated: bool, v: Value, env: Env, f: Facts)
    requires Respects(env, f) && v != Value.Null
    ensures Negated(negated, v, env) != Null
  {
    assert NoNulls([v]);
  }

  lemma BetweenPresent(x: Value, lo: Value, hi: Value, env: Env, f: Facts)
    requires Respects(env, f) && x != Value.Null && lo != Value.Null && hi != Value.Null
    ensures BetweenValue(x, lo, hi, env) != Null
  {
    assert NoNulls([x, lo]) && NoNulls([x, hi]);
    assert NoNulls([CompareValues(Ge, x, lo, env), CompareValues(Le, x, hi, env)]);
  }

  lemma CombineNotNull(parts: seq<int>, i: nat)
    requires Combine(parts) == NOT_NULL && i < |parts|
    ensures parts[i] == NOT_NULL
  {
  }

  /** Whenever NOT NULL is recorded for an expression it evaluates to NULL in no row. */
  lemma {:induction false} NotNullIsSound(n: Node, d: nat, f: Facts, env: Env)
    requires Recognised(n, f) && Respects(env, f) && NullOf(n, d, f) == NOT_NULL
    ensures Eval(n, env) != Null
    decreases n, 2
  {
    hide Respects, BinaryValue, UnaryValue, InValue, BetweenValue, Negated, StrictApply, CallValue, CallNullability, TestTruth, HasDatePart, IsAggregateName, Fold, Integral, StripQuotes;
    match n.kind {
      case ColumnRef => RespectsColumn(n.text, env, f);
      case FunctionCall => CallIsSound(n, d, f, env);
      case Binary(op) =>
        if op.Quantified? {
          QuantifiedIsSound(n, d, f, env);
        } else if !op.DistinctFrom? {
          CombineNotNull([ChildNull(n, 0, d + 1, f), ChildNull(n, 1, d + 1, f)], 0);
          CombineNotNull([ChildNull(n, 0, d + 1, f), ChildNull(n, 1, d + 1, f)], 1);
          ChildIsSound(n, 0, d + 1, f, env);
          ChildIsSound(n, 1, d + 1, f, env);
        }
        if !op.Quantified? {
          BinaryPresent(op, n.text, EvalChild(n, 0, env), EvalChild(n, 1, env), env, f);
        }
      case Unary(op) =>
        if !op.Exists? {
          ChildIsSound(n, 0, d + 1, f, env);
          UnaryPresent(op, n.text, EvalChild(n, 0, env), env, f);
        }
      case Case => CaseIsSound(n, d, f, env);
      case In(negated) => InIsSound(n, d, f, env);
      case Between(negated) => BetweenIsSound(n, d, f, env);
      case Like(_) =>
        CombineNotNull([ChildNull(n, 0, d + 1, f), ChildNull(n, 1, d + 1, f)], 0);
        CombineNotNull([ChildNull(n, 0, d + 1, f), ChildNull(n, 1, d + 1, f)], 1);
        ChildIsSound(n, 0, d + 1, f, env);
        ChildIsSound(n, 1, d + 1, f, env);
        StrictPresent(n.kind, n.text, [EvalChild(n, 0, env), EvalChild(n, 1, env)], env, f);
      case Cast =>
        ChildIsSound(n, 0, d + 1, f, env);
        StrictPresent(n.kind, CastTarget(n), [EvalChild(n, 0, env)], env, f);
      case Collate => ChildIsSound(n, 0, d + 1, f, env);
      case _ => LiteralPresent(n.kind, n.text, env, f);
    }
  }

  lemma RespectsColumn(c: string, env: Env, f: Facts)
    requires Respects(env, f) && f.column(c).nullability == NOT_NULL
    ensures env.column(c) != Null
  {
  }

  lemma LiteralPresent(k: Kind, t: string, env: Env, f: Facts)
    requires Respects(env, f)
    ensures env.literal(k, t) != Null
  {
  }

  lemma StrictPresent(k: Kind, t: string, vs: seq<Value>, env: Env, f: Facts)
    requires Respects(env, f) && OperatorKind(k) && NoNulls(vs)
    ensures StrictApply(k, t, vs, env) != Null
  {
  }

  lemma {:induction false} ChildIsSound(n: Node, idx: nat, d: nat, f: Facts, env: Env)
    requires Recognised(n, f) && Respects(env, f) && ChildNull(n, idx, d, f) == NOT_NULL
    ensures EvalChild(n, idx, env) != Null
    decreases n, 0
  {
    hide Respects;
    NotNullIsSound(n.children[idx], d, f, env);
  }

  /** A quantified comparison recorded NOT NULL ranges over an array without NULL elements. */
  lemma {:induction false} QuantifiedIsSound(n: Node, d: nat, f: Facts, env: Env)
    requires Recognised(n, f) && Respects(env, f) && n.kind.Binary? && n.kind.bin.Quantified? && NullOf(n, d, f) == NOT_NULL
    ensures Eval(n, env) != Null
    decreases n, 1
  {
    hide Respects, Recognised, QuantifiedValue, RecordedPresent;
    RecognisedChildren(n, f);
    var parts := [ChildNull(n, 0, d + 1, f), ChildNull(n, 1, d + 1, f)];
    assert NullOf(n, d, f) == Combine(parts);
    CombineNotNull(parts, 0);
    CombineNotNull(parts, 1);
    ChildIsSound(n, 0, d + 1, f, env);
    RangeOf(n, f);
    var range := n.children[1];
    assert parts[1] == NullOf(range, d + 1, f);
    assert !range.kind.Subquery?;
    assert IsRange(range, f);
    ArrayValue(range, env);
    ElementsAreSound(range.children, f, env);
    QuantifiedPresent(n.kind.bin.op, n.kind.bin.all, EvalChild(n, 0, env), EvalAll(range.children, env), env, f);
  }

  lemma ArrayValue(n: Node, env: Env)
    requires n.kind.ArrayConstructor?
    ensures Eval(n, env) == Arr(EvalAll(n.children, env))
  {
  }

  lemma RangeOf(n: Node, f: Facts)
    requires Recognised(n, f) && n.kind.Binary? && n.kind.bin.Quantified?
    ensures |n.children| > 1 && IsRange(n.children[1], f) && AllRecognised(n.children[1].children, f)
  {
    assert Recognised(n.children[1], f);
  }

  lemma {:induction false} ElementsAreSound(ns: seq<Node>, f: Facts, env: Env)
    requires AllRecognised(ns, f) && Respects(env, f) && forall c <- ns :: RecordedPresent(c, f)
    ensures NoNulls(EvalAll(ns, env))
    decreases ns, 0
  {
    hide Respects, Recognised;
    if ns != [] {
      assert ns[0] in ns;
      var d: nat :| NullOf(ns[0], d, f) == NOT_NULL;
      NotNullIsSound(ns[0], d, f, env);
      ElementsAreSound(ns[1..], f, env);
    }
  }

  lemma {:induction false} BetweenIsSound(n: Node, d: nat, f: Facts, env: Env)
    requires Recognised(n, f) && Respects(env, f) && n.kind.Between? && NullOf(n, d, f) == NOT_NULL
    ensures Eval(n, env) != Null
    decreases n, 1
  {
    hide Respects, BetweenValue, Negated;
    var parts := [ChildNull(n, 0, d + 1, f), ChildNull(n, 1, d + 1, f), ChildNull(n, 2, d + 1, f)];
    forall i | 0 <= i < 3 ensures EvalChild(n, i, env) != Null {
      CombineNotNull(parts, i);
      ChildIsSound(n, i, d + 1, f, env);
    }
    BetweenPresent(EvalChild(n, 0, env), EvalChild(n, 1, env), EvalChild(n, 2, env), env, f);
    NegatedPresent(n.kind.negated, BetweenValue(EvalChild(n, 0, env), EvalChild(n, 1, env), EvalChild(n, 2, env), env), env, f);
  }

  lemma {:induction false} AllAreSound(ns: seq<Node>, d: nat, f: Facts, env: Env)
    requires AllRecognised(ns, f) && Respects(env, f)
    requires forall i :: 0 <= i < |NullsOf(ns, d, f)| ==> NullsOf(ns, d, f)[i] == NOT_NULL
    ensures NoNulls(EvalAll(ns, env))
    decreases ns, 0
  {
    hide Respects, Recognised;
    if ns != [] {
      var nulls := NullsOf(ns, d, f);
      assert nulls[0] == NullOf(ns[0], d, f) && nulls[1..] == NullsOf(ns[1..], d, f);
      NotNullIsSound(ns[0], d, f, env);
      AllAreSound(ns[1..], d, f, env);
    }
  }

  lemma RecognisedChildren(n: Node, f: Facts)
    requires Recognised(n, f)
    ensures AllRecognised(n.children, f)
  {
  }

  lemma {:induction false} InIsSound(n: Node, d: nat, f: Facts, env: Env)
    requires Recognised(n, f) && Respects(env, f) && n.kind.In? && NullOf(n, d, f) == NOT_NULL
    ensures Eval(n, env) != Null
    decreases n, 1
  {
    hide Respects, InValue, Negated, Recognised;
    RecognisedChildren(n, f);
    var unknown, nulls := [UNKNOWN_NULL], NullsOf(n.children, d + 1, f);
    assert unknown[0] != NOT_NULL && Combine(unknown) != NOT_NULL;
    assert NullOf(n, d, f) == Combine(if n.children == [] then unknown else nulls);
    assert n.children != [] && Combine(nulls) == NOT_NULL;
    forall i | 0 <= i < |nulls| ensures nulls[i] == NOT_NULL {
      CombineNotNull(nulls, i);
    }
    AllAreSound(n.children, d + 1, f, env);
    var vs := EvalAll(n.children, env);
    assert vs[0] == Eval(n.children[0], env) && vs[1..] == EvalAll(n.children[1..], env);
    InPresent(vs[0], vs[1..], env, f);
    NegatedPresent(n.kind.negated, InValue(vs[0], vs[1..], env), env, f);
  }

  lemma {:induction false} ArmsAreSound(arms: seq<Node>, operand: Option<Value>, d: nat, f: Facts, env: Env)
    requires AllRecognised(arms, f) && Respects(env, f) && HasElse(arms)
    requires forall i :: 0 <= i < |ArmNulls(arms, d, f)| ==> ArmNulls(arms, d, f)[i] == NOT_NULL
    ensures EvalArms(arms, operand, env) != Null
    decreases arms, 0
  {
    hide Respects, Recognised, GuardHolds;
    var nulls := ArmNulls(arms, d, f);
    assert nulls[0] == NOT_NULL && nulls[1..] == ArmNulls(arms[1..], d, f);
    if !IsWhen(arms[0]) {
      NotNullIsSound(arms[0], d, f, env);
    } else {
      ChildIsSound(arms[0], 1, d, f, env);
      var i :| 0 <= i < |arms| && !IsWhen(arms[i]);
      assert arms[1..][i - 1] == arms[i];
      ArmsAreSound(arms[1..], operand, d, f, env);
    }
  }

  lemma {:induction false} CaseIsSound(n: Node, d: nat, f: Facts, env: Env)
    requires Recognised(n, f) && Respects(env, f) && n.kind.Case? && NullOf(n, d, f) == NOT_NULL
    ensures Eval(n, env) != Null
    decreases n, 1
  {
    hide Respects, Recognised, EvalArms;
    RecognisedChildren(n, f);
    var arms := if IsSimpleCase(n) then n.children[1..] else n.children;
    var nulls := ArmNulls(arms, d + 1, f);
    forall i | 0 <= i < |nulls| ensures nulls[i] == NOT_NULL {
      CombineNotNull(nulls, i);
    }
    ArmsAreSound(arms, if IsSimpleCase(n) then Some(Eval(n.children[0], env)) else None, d + 1, f, env);
  }

  /** Argument by argument: where NOT NULL is recorded the value is not NULL. */
  lemma {:induction false} ArgsAreSound(ns: seq<Node>, d: nat, f: Facts, env: Env)
    requires AllRecognised(ns, f) && Respects(env, f)
    ensures |EvalArgs(ns, env)| == |ArgNulls(ns, d, f)|
    ensures forall i :: 0 <= i < |ArgNulls(ns, d, f)| && ArgNulls(ns, d, f)[i] == NOT_NULL ==> EvalArgs(ns, env)[i] != Null
    decreases ns, 0
  {
    hide Respects, Recognised;
    if ns != [] {
      if !ns[0].kind.Star? && NullOf(ns[0], d, f) == NOT_NULL {
        NotNullIsSound(ns[0], d, f, env);
      }
      ArgsAreSound(ns[1..], d, f, env);
    }
  }

  lemma KnownPresent(name: string, ts: seq<DataType>, vs: seq<Value>, env: Env, f: Facts)
    requires Respects(env, f) && f.signature(name, ts).known && NoNulls(vs)
    ensures env.apply(FunctionCall, name, vs) != Null
  {
  }

  lemma CallPresent(name: string, args: seq<Value>, nulls: seq<int>, ts: seq<DataType>, env: Env, f: Facts)
    requires Respects(env, f) && f.signature(name, ts).known
    requires |args| == |nulls| && forall i :: 0 <= i < |nulls| && nulls[i] == NOT_NULL ==> args[i] != Value.Null
    requires CallNullability(name, nulls) == NOT_NULL && name != "count"
    ensures CallValue(name, args, env) != Null
  {
    if SkipsNulls(name) {
      var i :| 0 <= i < |nulls| && nulls[i] == NOT_NULL;
      FirstNonNullPresent(args, i);
    } else if IsCurrentTime(name) {
      KnownPresent(name, ts, [], env, f);
    } else {
      forall i | 0 <= i < |args| ensures args[i] != Null {
        CombineNotNull(nulls, i);
      }
      KnownPresent(name, ts, args, env, f);
    }
  }

  lemma {:induction false} CallIsSound(n: Node, d: nat, f: Facts, env: Env)
    requires Recognised(n, f) && Respects(env, f) && n.kind.FunctionCall? && NullOf(n, d, f) == NOT_NULL
    ensures Eval(n, env) != Null
    decreases n, 1
  {
    hide Recognised, CallValue, EvalArgs, ArgNulls, ArgTypes;
    RecognisedChildren(n, f);
    var name := Fold(n.text);
    var args := if HasDatePart(n) then n.children[1..] else n.children;
    if name != "grouping" && name != "count" && !IsAggregateName(name) {
      ArgsAreSound(args, d + 1, f, env);
      CallPresent(name, EvalArgs(args, env), ArgNulls(args, d + 1, f), ArgTypes(args, d + 1, f), env, f);
    }
  }

  // ----- Quantified comparisons with an array -----

  /** An integer literal, or a column recorded NOT NULL. */
  predicate IsPresentOperand(a: Node, f: Facts) {
    && a.children == []
    && ((a.kind.IntegerLiteral? && Integral(a.text).Some?) || (a.kind.ColumnRef? && f.column(a.text).nullability == NOT_NULL))
  }

  /** NULL, or a column other than the operand. */
  predicate IsFreeElement(c: Node, a: Node) {
    c.children == [] && (c.kind.NullLiteral? || (c.kind.ColumnRef? && !(a.kind.ColumnRef? && c.text == a.text)))
  }

  predicate IsArrayComparison(n: Node, f: Facts) {
    && n.kind.Binary? && n.kind.bin.Quantified? && |n.children| == 2 && n.children[1].kind.ArrayConstructor?
    && IsPresentOperand(n.children[0], f) && forall c <- n.children[1].children :: IsFreeElement(c, n.children[0])
  }

  /** A value that leaves `x <op> ANY` false or `x <op> ALL` true. */
  function Neutral(op: CompareOp, all: bool, x: int): (v: int)
    ensures Semantics.Holds(op, CompareInts(x, v)) == all
  {
    match op
    case Eq => if all then x else x + 1
    case Ne => if all then x + 1 else x
    case Lt => if all then x + 1 else x
    case Gt => if all then x - 1 else x
    case Le => if all then x else x - 1
    case Ge => if all then x else x + 1
  }

  function OperandValue(a: Node): int {
    if a.kind.IntegerLiteral? && Integral(a.text).Some? then Integral(a.text).value else 0
  }

  /** A row in which no element decides the comparison and every column that may be NULL is. */
  function Undecided(n: Node, f: Facts): Env
    requires IsArrayComparison(n, f)
  {
    var a := n.children[0];
    var x := OperandValue(a);
    Env((t: string) => if a.kind.ColumnRef? && t == a.text then Int(x)
                       else if f.column(t).nullability == NOT_NULL then Int(Neutral(n.kind.bin.op, n.kind.bin.all, x)) else Null,
        (_, _) => Int(0), (_) => Null, (_, _, _) => Int(0), (_) => Int(0), (_) => Null)
  }

  lemma {:induction false} NullLeavesNull(op: CompareOp, all: bool, x: int, elems: seq<Value>, env: Env)
    requires forall i :: 0 <= i < |elems| ==> elems[i] == Null || elems[i] == Int(Neutral(op, all, x))
    ensures QuantifiedValue(op, all, Int(x), elems, env) == if Null in elems then Null else Bool(all)
  {
    hide Semantics.Holds, Neutral;
    if elems != [] {
      NullLeavesNull(op, all, x, elems[1..], env);
      assert elems == [elems[0]] + elems[1..];
    }
  }

  lemma {:induction false} ElementValues(elems: seq<Node>, n: Node, f: Facts)
    requires IsArrayComparison(n, f) && forall c <- elems :: IsFreeElement(c, n.children[0])
    ensures var v := Int(Neutral(n.kind.bin.op, n.kind.bin.all, OperandValue(n.children[0])));
            var vs := EvalAll(elems, Undecided(n, f));
            && (forall i :: 0 <= i < |vs| ==> vs[i] == Null || vs[i] == v)
            && (Null in vs || forall c <- elems :: RecordedPresent(c, f))
  {
    hide IsArrayComparison, Neutral, RecordedPresent;
    if elems != [] {
      ElementValues(elems[1..], n, f);
      assert elems[0] in elems && elems == [elems[0]] + elems[1..];
      ElementValue(elems[0], n, f);
      var vs := EvalAll(elems, Undecided(n, f));
      assert vs[0] == Eval(elems[0], Undecided(n, f)) && vs[1..] == EvalAll(elems[1..], Undecided(n, f));
    }
  }

  lemma ElementValue(c: Node, n: Node, f: Facts)
    requires IsArrayComparison(n, f) && IsFreeElement(c, n.children[0])
    ensures var v := Eval(c, Undecided(n, f));
            if v == Null then true else v == Int(Neutral(n.kind.bin.op, n.kind.bin.all, OperandValue(n.children[0]))) && RecordedPresent(c, f)
  {
    hide Neutral;
    if c.kind.ColumnRef? && f.column(c.text).nullability == NOT_NULL {
      assert NullOf(c, 0, f) == NOT_NULL;
    }
  }

  lemma UndecidedRespects(n: Node, f: Facts)
    requires IsArrayComparison(n, f)
    ensures Respects(Undecided(n, f), f)
  {
    hide Neutral;
  }

  lemma ArrayComparisonValue(n: Node, f: Facts)
    requires IsArrayComparison(n, f)
    ensures var env := Undecided(n, f);
            Eval(n, env) == QuantifiedValue(n.kind.bin.op, n.kind.bin.all, Int(OperandValue(n.children[0])), EvalAll(n.children[1].children, env), env)
  {
    hide QuantifiedValue, EvalAll, Neutral;
    ArrayValue(n.children[1], Undecided(n, f));
    assert Eval(n.children[0], Undecided(n, f)) == Int(OperandValue(n.children[0]));
  }

  lemma ComparisonRecognised(n: Node, f: Facts)
    requires IsArrayComparison(n, f) && forall c <- n.children[1].children :: RecordedPresent(c, f)
    ensures Recognised(n, f)
  {
    hide RecordedPresent;
    forall c | c in n.children[1].children ensures Recognised(c, f) {
      assert IsFreeElement(c, n.children[0]);
    }
    assert Recognised(n.children[0], f) && Recognised(n.children[1], f);
  }

  lemma ComparisonRecorded(n: Node, f: Facts, d: nat)
    requires IsArrayComparison(n, f) && d + 1 < MAX_DEPTH
    ensures NullOf(n, d, f) == NOT_NULL
  {
    assert ChildNull(n, 0, d + 1, f) == NOT_NULL && ChildNull(n, 1, d + 1, f) == NOT_NULL;
  }

  /** `x <op> ANY|ALL (ARRAY[...])` is always recorded NOT NULL. Over columns and NULLs that is
      right if and only if every element is recorded NOT NULL. */
  lemma QuantifiedIsExact(n: Node, d: nat, f: Facts)
    requires IsArrayComparison(n, f) && d + 1 < MAX_DEPTH
    ensures NullOf(n, d, f) == NOT_NULL
    ensures (forall env :: Respects(env, f) ==> Eval(n, env) != Null) <==> forall c <- n.children[1].children :: RecordedPresent(c, f)
  {
    hide Respects, Eval, NullOf, RecordedPresent, Recognised, QuantifiedValue, IsPresentOperand, IsFreeElement, Neutral;
    ComparisonRecorded(n, f, d);
    if forall c <- n.children[1].children :: RecordedPresent(c, f) {
      ComparisonRecognised(n, f);
      forall env | Respects(env, f) ensures Eval(n, env) != Null {
        NotNullIsSound(n, d, f, env);
      }
    } else {
      var env, elems := Undecided(n, f), n.children[1].children;
      UndecidedRespects(n, f);
      ElementValues(elems, n, f);
      NullLeavesNull(n.kind.bin.op, n.kind.bin.all, OperandValue(n.children[0]), EvalAll(elems, env), env);
      ArrayComparisonValue(n, f);
    }
  }

  /** `1 = ANY (ARRAY[NULL])` is NULL, yet recorded NOT NULL. */
  lemma QuantifiedExample(f: Facts, env: Env)
    ensures var one := Node(IntegerLiteral, "1", []);
            var nullArray := Node(ArrayConstructor, "", [Node(NullLiteral, "NULL", [])]);
            var n := Node(Binary(Quantified(Eq, false)), "= ANY", [one, nullArray]);
            NullOf(n, 0, f) == NOT_NULL && Eval(n, env) == Null
  {
    var missing := Node(NullLiteral, "NULL", []);
    var one := Node(IntegerLiteral, "1", []);
    var nullArray := Node(ArrayConstructor, "", [missing]);
    assert NullOf(one, 1, f) == NOT_NULL && NullOf(nullArray, 1, f) == NOT_NULL;
    assert Eval(missing, env) == Null && EvalAll([], env) == [];
    assert [missing][1..] == [];
    var elems := EvalAll([missing], env);
    assert elems == [Value.Null] && elems[1..] == [];
    assert Eval(nullArray, env) == Arr(elems);
    assert QuantifiedValue(Eq, false, Eval(one, env), elems, env) == Null;
  }
}
