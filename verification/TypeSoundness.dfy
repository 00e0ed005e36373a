/** Inferred types mean something: in every row that keeps the declared types, an expression's value
    belongs to the type inferred for it. */
module TypeSoundness {
  import opened Wrappers
  import opened Identifier
  import opened Numerals
  import opened Types
  import opened Ast
  import opened Semantics
  import opened Infer

  // ----- Values of a type -----

  /** What an opaque value is. */
  type Sort = int -> DataType

  predicate IsFraction(t: DataType) { t.Decimal? || t.Real? || t.Double? }

  /** The value is NULL or belongs to the type; nothing is claimed of an unknown type. Integers
      are numbers of every numeric type. */
  predicate HasType(v: Value, t: DataType, sort: Sort) {
    v.Null? ||
    match t
    case Boolean => v.Bool?
    case TinyInt | SmallInt | Integer | BigInt => v.Int?
    case Decimal | Real | Double => v.Int? || (v.Opaque? && IsFraction(sort(v.id)))
    case Char | VarChar | Text => v.Str?
    case Array => v.Arr?
    case NullType => false
    case Unknown | Any => true
    case _ => v.Opaque? && sort(v.id) == t
  }

  predicate Known(t: DataType) { !t.Unknown? && !t.Any? }

  predicate AllKnown(types: seq<DataType>) {
    forall i :: 0 <= i < |types| ==> Known(types[i])
  }

  // ----- Rows that keep the declared types -----

  function LiteralSort(k: Kind): DataType {
    match k
    case IntegerLiteral => Integer
    case FloatLiteral => Double
    case IntervalLiteral => Interval
    case DateTimeLiteral(t) => if t.Date? || t.Time? || t.Timestamp? then t else Timestamp
    case _ => Unknown
  }

  /** Operators that answer a truth value. */
  predicate IsTruthOperator(k: Kind) {
    || (k.Binary? && (k.bin.And? || k.bin.Or? || k.bin.Compare? || k.bin.Quantified?))
    || (k.Unary? && k.un.Not?) || k.Like?
  }

  ghost predicate TypedLeaves(env: Env, f: Facts, sort: Sort) {
    && (forall c :: HasType(env.column(c), f.column(c).type_, sort))
    && (forall k, t :: HasType(env.literal(k, t), LiteralSort(k), sort))
    && (forall n: Node :: HasType(env.query(n), f.projected(n), sort))
  }

  ghost predicate TypedOperators(env: Env, f: Facts, sort: Sort) {
    && (forall k, t, vs :: IsTruthOperator(k) ==> HasType(env.apply(k, t, vs), Boolean, sort))
    && (forall t, a, b :: HasType(env.apply(Binary(Concat), t, [a, b]), if a.Arr? || b.Arr? then DataType.Array else Text, sort))
    && (forall t, vs :: HasType(env.apply(Cast, t, vs), f.typeNamed(t), sort))
    && (forall op: UnaryOp, t, a, ty :: (op.Minus? || op.Plus?) && !IsWild(ty) && HasType(a, ty, sort) ==> HasType(env.apply(Unary(op), t, [a]), ty, sort))
  }

  /** Arithmetic on numbers gives a number, on integers an integer. */
  ghost predicate TypedArithmetic(env: Env, sort: Sort) {
    && (forall op, a, b :: HasType(a, Double, sort) && HasType(b, Double, sort) ==> HasType(env.apply(Binary(Arith(op)), "", [a, b]), Double, sort))
    && (forall op, a: Value, b: Value :: a.Int? && b.Int? ==> HasType(env.apply(Binary(Arith(op)), "", [a, b]), Integer, sort))
  }

  /** Arithmetic on dates and times answers as the table of temporal operators says. */
  ghost predicate TypedTemporals(env: Env, sort: Sort) {
    && (forall op, a, b, s, t :: HasType(a, s, sort) && HasType(b, t, sort) && !IsWild(s) && !IsWild(t) && TemporalArithmetic(s, t, op).TemporalOk? ==>
          HasType(env.apply(Binary(Arith(op)), "", [a, b]), TemporalArithmetic(s, t, op).type_, sort))
  }

  /** The arguments of a call, EXTRACT's leading keyword aside. */
  function Arguments(n: Node): seq<Node> {
    if HasDatePart(n) then n.children[1..] else n.children
  }

  ghost predicate AllHaveTypes(vs: seq<Value>, ts: seq<DataType>, sort: Sort) {
    |vs| == |ts| && forall i :: 0 <= i < |vs| ==> HasType(vs[i], ts[i], sort)
  }

  /** Calls answer in their signature's type; COALESCE, GREATEST, LEAST and NULLIF answer one of
      their arguments, whose types the signature covers. */
  ghost predicate TypedCalls(env: Env, f: Facts, sort: Sort) {
    && (forall name, ts, vs :: AllHaveTypes(vs, ts, sort) ==> HasType(env.apply(FunctionCall, name, vs), f.signature(name, ts).type_, sort))
    && (forall name, ts :: IsCurrentTime(name) ==> HasType(env.apply(FunctionCall, name, []), f.signature(name, ts).type_, sort))
    && (forall name, vs :: (name == "greatest" || name == "least") && vs != [] ==> env.apply(FunctionCall, name, vs) in vs)
    && (forall name, ts, i, v :: SkipsNulls(name) && 0 <= i < |ts| && HasType(v, ts[i], sort) ==> HasType(v, f.signature(name, ts).type_, sort))
    && (forall ts, v :: |ts| == 2 && HasType(v, ts[0], sort) ==> HasType(v, f.signature("nullif", ts).type_, sort))
  }

  ghost predicate TypedGroups(env: Env, f: Facts, sort: Sort) {
    && (forall n: Node :: Fold(n.text) == "grouping" ==> HasType(env.group(n), BigInt, sort))
    && (forall n: Node, d: nat :: Fold(n.text) != "grouping" ==> HasType(env.group(n), f.signature(Fold(n.text), ArgTypes(Arguments(n), d, f)).type_, sort))
  }

  ghost predicate Typed(env: Env, f: Facts, sort: Sort) {
    TypedLeaves(env, f, sort) && TypedOperators(env, f, sort) && TypedArithmetic(env, sort) && TypedTemporals(env, sort)
    && TypedCalls(env, f, sort) && TypedGroups(env, f, sort)
  }

  // ----- Expressions whose type is settled -----

  /** Where a type flows into the result nothing is untyped: the operands of arithmetic and `||`
      and the branches of a CASE have known types, and the branches go together. */
  ghost predicate Settled(n: Node, d: nat, f: Facts)
    decreases n, 1
  {
    d < MAX_DEPTH ==>
      match n.kind
      case FunctionCall => SettledAll(Arguments(n), d + 1, f)
      case Binary(op) =>
        op.Arith? || op.Concat? ==>
          && SettledChild(n, 0, d + 1, f) && SettledChild(n, 1, d + 1, f)
          && Known(ChildType(n, 0, d + 1, f)) && Known(ChildType(n, 1, d + 1, f))
      case Unary(op) => !op.OtherUnary? && (op.Minus? || op.Plus? ==> SettledChild(n, 0, d + 1, f))
      case Case =>
        var arms := if IsSimpleCase(n) then n.children[1..] else n.children;
        var types := ArmTypes(arms, d + 1, f);
        SettledArms(arms, d + 1, f) && !HasClash(types) && AllKnown(types)
      case Collate => SettledChild(n, 0, d + 1, f)
      case Cast => |n.children| > 1 ==> n.children[1].kind.TypeName?
      case _ => true
  }

  ghost predicate SettledChild(n: Node, idx: nat, d: nat, f: Facts)
    decreases n, 0
  {
    idx < |n.children| ==> Settled(n.children[idx], d, f)
  }

  ghost predicate SettledAll(ns: seq<Node>, d: nat, f: Facts)
    decreases ns, 0
  {
    ns == [] || (Settled(ns[0], d, f) && SettledAll(ns[1..], d, f))
  }

  ghost predicate SettledArms(arms: seq<Node>, d: nat, f: Facts)
    decreases arms, 0
  {
    arms == [] ||
    ((if IsWhen(arms[0]) then SettledChild(arms[0], 1, d, f) else Settled(arms[0], d, f)) && SettledArms(arms[1..], d, f))
  }

  // ----- Operators -----

  lemma TruthOf(k: Kind, t: string, vs: seq<Value>, env: Env, f: Facts, sort: Sort)
    requires TypedOperators(env, f, sort) && IsTruthOperator(k)
    ensures HasType(env.apply(k, t, vs), Boolean, sort)
  {
  }

  lemma {:induction false} InTruth(x: Value, elems: seq<Value>, env: Env, f: Facts, sort: Sort)
    requires TypedOperators(env, f, sort)
    ensures HasType(InValue(x, elems, env), Boolean, sort)
  {
    hide TypedOperators;
    if elems != [] {
      InTruth(x, elems[1..], env, f, sort);
      CompareTruth(Eq, x, elems[0], env, f, sort);
    }
  }

  lemma CompareTruth(op: CompareOp, a: Value, b: Value, env: Env, f: Facts, sort: Sort)
    requires TypedOperators(env, f, sort)
    ensures HasType(CompareValues(op, a, b, env), Boolean, sort)
  {
    hide TypedOperators, Semantics.Holds;
    TruthOf(Binary(Compare(op)), "", [a, b], env, f, sort);
  }

  lemma {:induction false} QuantifiedTruth(op: CompareOp, all: bool, x: Value, elems: seq<Value>, env: Env, f: Facts, sort: Sort)
    requires TypedOperators(env, f, sort)
    ensures HasType(QuantifiedValue(op, all, x, elems, env), Boolean, sort)
  {
    hide TypedOperators;
    if elems != [] {
      QuantifiedTruth(op, all, x, elems[1..], env, f, sort);
      CompareTruth(op, x, elems[0], env, f, sort);
    }
  }

  lemma ConnectiveTruth(a: Value, b: Value, env: Env, f: Facts, sort: Sort)
    requires TypedOperators(env, f, sort)
    ensures HasType(AndValues(a, b, env), Boolean, sort) && HasType(OrValues(a, b, env), Boolean, sort)
  {
    hide TypedOperators;
    TruthOf(Binary(And), "", [a, b], env, f, sort);
    TruthOf(Binary(Or), "", [a, b], env, f, sort);
  }

  lemma NotTruth(a: Value, env: Env, f: Facts, sort: Sort)
    requires TypedOperators(env, f, sort)
    ensures HasType(NotValue(a, env), Boolean, sort)
  {
    hide TypedOperators;
    TruthOf(Unary(Not), "", [a], env, f, sort);
  }

  lemma NegatedTruth(negated: bool, a: Value, env: Env, f: Facts, sort: Sort)
    requires TypedOperators(env, f, sort) && HasType(a, Boolean, sort)
    ensures HasType(Negated(negated, a, env), Boolean, sort)
  {
    NotTruth(a, env, f, sort);
  }

  lemma PromotedIntegers(a: DataType, b: DataType)
    requires IsNumeric(a) && IsNumeric(b)
    ensures IsNumeric(PromoteNumeric(a, b))
    ensures IsIntegerType(PromoteNumeric(a, b)) ==> IsIntegerType(a) && IsIntegerType(b)
  {
  }

  lemma NumbersWiden(v: Value, t: DataType, sort: Sort)
    requires IsNumeric(t) && HasType(v, t, sort)
    ensures HasType(v, Double, sort) && (IsIntegerType(t) && !v.Null? ==> v.Int?)
  {
  }

  /** Arithmetic on typed operands answers in the inferred type. */
  lemma ArithTyped(op: ArithOp, a: Value, b: Value, s: DataType, t: DataType, env: Env, sort: Sort)
    requires TypedArithmetic(env, sort) && TypedTemporals(env, sort) && HasType(a, s, sort) && HasType(b, t, sort) && Known(s) && Known(t)
    ensures HasType(ArithValues(op, a, b, env), ArithmeticType(s, t, op), sort)
  {
    hide TypedArithmetic, TypedTemporals, TemporalArithmetic, ArithInts, Coerce;
    if !a.Null? && !b.Null? {
      if TemporalArithmetic(s, t, op).TemporalOk? {
        TemporalTyped(op, a, b, s, t, env, sort);
      } else if TemporalArithmetic(s, t, op).NotTemporal? {
        NumericTyped(op, a, b, s, t, env, sort);
      }
    }
  }

  lemma TemporalTyped(op: ArithOp, a: Value, b: Value, s: DataType, t: DataType, env: Env, sort: Sort)
    requires TypedTemporals(env, sort) && HasType(a, s, sort) && HasType(b, t, sort) && Known(s) && Known(t) && !a.Null? && !b.Null?
    requires TemporalArithmetic(s, t, op).TemporalOk?
    ensures HasType(ArithValues(op, a, b, env), TemporalArithmetic(s, t, op).type_, sort)
  {
    hide TemporalArithmetic, ArithInts, TypedTemporals;
    TemporalSide(s, t, op);
    NotBothInts(a, b, s, t, sort);
    TemporalAnswer(op, a, b, s, t, env, sort);
  }

  lemma NotBothInts(a: Value, b: Value, s: DataType, t: DataType, sort: Sort)
    requires HasType(a, s, sort) && HasType(b, t, sort) && (CategoryOf(s) == Temporal || CategoryOf(t) == Temporal)
    ensures !(a.Int? && b.Int?)
  {
  }

  lemma TemporalAnswer(op: ArithOp, a: Value, b: Value, s: DataType, t: DataType, env: Env, sort: Sort)
    requires TypedTemporals(env, sort) && HasType(a, s, sort) && HasType(b, t, sort) && Known(s) && Known(t) && !a.Null? && !b.Null?
    requires TemporalArithmetic(s, t, op).TemporalOk?
    ensures HasType(env.apply(Binary(Arith(op)), "", [a, b]), TemporalArithmetic(s, t, op).type_, sort)
  {
    hide TemporalArithmetic;
    NotWild(a, s, sort);
    NotWild(b, t, sort);
    hide HasType;
  }

  lemma NotWild(v: Value, t: DataType, sort: Sort)
    requires HasType(v, t, sort) && Known(t) && !v.Null?
    ensures !IsWild(t)
  {
  }

  lemma TemporalSide(s: DataType, t: DataType, op: ArithOp)
    requires !TemporalArithmetic(s, t, op).NotTemporal?
    ensures CategoryOf(s) == Temporal || CategoryOf(t) == Temporal
  {
  }

  lemma NumericTyped(op: ArithOp, a: Value, b: Value, s: DataType, t: DataType, env: Env, sort: Sort)
    requires TypedArithmetic(env, sort) && HasType(a, s, sort) && HasType(b, t, sort) && Known(s) && Known(t) && !a.Null? && !b.Null?
    ensures HasType(ArithValues(op, a, b, env), Coerce(s, t, Arithmetic).type_, sort)
  {
    hide ArithInts, PromoteNumeric, TypedArithmetic;
    if IsNumeric(s) && IsNumeric(t) {
      PromotedIntegers(s, t);
      NumbersWiden(a, s, sort);
      NumbersWiden(b, t, sort);
      NumberAnswer(op, a, b, env, sort);
      CoercedNumbers(s, t);
    }
  }

  lemma CoercedNumbers(s: DataType, t: DataType)
    requires IsNumeric(s) && IsNumeric(t)
    ensures var r := Coerce(s, t, Arithmetic).type_; IsNumeric(r) && (IsIntegerType(r) ==> IsIntegerType(s) && IsIntegerType(t))
  {
  }

  lemma NumberAnswer(op: ArithOp, a: Value, b: Value, env: Env, sort: Sort)
    requires TypedArithmetic(env, sort) && HasType(a, Double, sort) && HasType(b, Double, sort)
    ensures HasType(ArithValues(op, a, b, env), Double, sort)
    ensures a.Int? && b.Int? ==> HasType(ArithValues(op, a, b, env), Integer, sort)
  {
    hide ArithInts;
  }

  lemma ConcatTyped(text: string, a: Value, b: Value, s: DataType, t: DataType, env: Env, f: Facts, sort: Sort)
    requires TypedOperators(env, f, sort) && HasType(a, s, sort) && HasType(b, t, sort) && Known(s) && Known(t)
    ensures HasType(StrictApply(Binary(Concat), text, [a, b], env), if s.Array? || t.Array? then DataType.Array else Text, sort)
  {
    assert NoNulls([a, b]) ==> [a, b][0] != Null && [a, b][1] != Null;
  }

  lemma SignTyped(op: UnaryOp, text: string, a: Value, t: DataType, env: Env, f: Facts, sort: Sort)
    requires TypedOperators(env, f, sort) && HasType(a, t, sort) && (op.Minus? || op.Plus?)
    ensures HasType(UnaryValue(op, text, a, env), t, sort)
  {
    assert NoNulls([a]) ==> [a][0] != Null;
    if !IsWild(t) && !a.Null? {
      assert HasType(env.apply(Unary(op), text, [a]), t, sort);
    }
  }

  // ----- Branches -----

  lemma WiderHasType(v: Value, a: DataType, b: DataType, sort: Sort)
    requires HasType(v, a, sort) && Widens(a, b) && Known(a)
    ensures HasType(v, b, sort)
  {
  }

  /** A value of some branch belongs to the reconciled type. */
  lemma BranchHasType(v: Value, types: seq<DataType>, i: nat, sort: Sort)
    requires i < |types| && HasType(v, types[i], sort) && !HasClash(types) && AllKnown(types)
    ensures HasType(v, ReconcileAll(types).type_, sort)
  {
    hide HasType, HasClash, ReconcileAll, Widens;
    ReconcileIsLeast(types);
    if IsWild(types[i]) {
      NullHasType(v, types[i], ReconcileAll(types).type_, sort);
    } else {
      assert HasSolid(types);
      WiderHasType(v, types[i], ReconcileAll(types).type_, sort);
    }
  }

  lemma NullHasType(v: Value, t: DataType, u: DataType, sort: Sort)
    requires HasType(v, t, sort) && IsWild(t) && Known(t)
    ensures v.Null? && HasType(v, u, sort)
  {
  }

  lemma {:induction false} ArmTypesCount(arms: seq<Node>, d: nat, f: Facts)
    ensures |ArmTypes(arms, d, f)| == |arms|
  {
    if arms != [] {
      ArmTypesCount(arms[1..], d, f);
    }
  }

  // ----- The theorem -----

  /** The value of a settled expression belongs to the inferred type. */
  lemma {:induction false} TypeIsSound(n: Node, d: nat, f: Facts, env: Env, sort: Sort)
    requires Settled(n, d, f) && Typed(env, f, sort)
    ensures HasType(Eval(n, env), TypeOf(n, d, f), sort)
    decreases n, 2
  {
    hide HasType, TypedLeaves, TypedOperators, TypedArithmetic, TypedTemporals, TypedCalls, TypedGroups, BinaryValue, UnaryValue, InValue, BetweenValue, Negated,
         StrictApply, CallValue, TestTruth, HasDatePart, IsAggregateName, Fold, Integral, StripQuotes, LiteralType, ArithmeticType, ReconcileAll;
    if d < MAX_DEPTH {
      match n.kind {
        case FunctionCall => CallTyped(n, d, f, env, sort);
        case Binary(op) => BinaryTyped(n, d, f, env, sort);
        case Unary(op) => UnaryTyped(n, d, f, env, sort);
        case Case => CaseTyped(n, d, f, env, sort);
        case Collate => ChildTyped(n, 0, d + 1, f, env, sort);
        case In(_) | Between(_) | Like(_) | IsNull(_) | BooleanTest(_, _) => TestTyped(n, d, f, env, sort);
        case _ => LeafTyped(n, d, f, env, sort);
      }
    } else {
      UnknownTyped(Eval(n, env), sort);
    }
  }

  lemma UnknownTyped(v: Value, sort: Sort)
    ensures HasType(v, Unknown, sort)
  {
  }

  lemma {:induction false} ChildTyped(n: Node, idx: nat, d: nat, f: Facts, env: Env, sort: Sort)
    requires SettledChild(n, idx, d, f) && Typed(env, f, sort)
    ensures HasType(EvalChild(n, idx, env), ChildType(n, idx, d, f), sort)
    decreases n, 0
  {
    hide Typed, Settled, TypeOf, Eval;
    if idx < |n.children| {
      TypeIsSound(n.children[idx], d, f, env, sort);
    }
  }

  lemma LeafTyped(n: Node, d: nat, f: Facts, env: Env, sort: Sort)
    requires Settled(n, d, f) && Typed(env, f, sort) && d < MAX_DEPTH
    requires !n.kind.FunctionCall? && !n.kind.Binary? && !n.kind.Unary? && !n.kind.Case? && !n.kind.Collate?
    requires !n.kind.In? && !n.kind.Between? && !n.kind.Like? && !n.kind.IsNull? && !n.kind.BooleanTest?
    ensures HasType(Eval(n, env), TypeOf(n, d, f), sort)
  {
    hide TypedArithmetic, TypedTemporals, TypedCalls, TypedGroups, EvalAll, StripQuotes;
    if n.kind.IntegerLiteral? {
      LiteralTyped(n, d, f, env, sort);
    } else if n.kind.FloatLiteral? || n.kind.IntervalLiteral? || n.kind.DateTimeLiteral? {
      assert HasType(env.literal(n.kind, n.text), LiteralSort(n.kind), sort);
    }
  }

  lemma LiteralTyped(n: Node, d: nat, f: Facts, env: Env, sort: Sort)
    requires TypedLeaves(env, f, sort) && n.kind.IntegerLiteral? && d < MAX_DEPTH
    ensures HasType(Eval(n, env), TypeOf(n, d, f), sort)
  {
    hide Integral;
    assert HasType(env.literal(n.kind, n.text), LiteralSort(n.kind), sort);
  }

  lemma {:induction false} TestTyped(n: Node, d: nat, f: Facts, env: Env, sort: Sort)
    requires Typed(env, f, sort) && d < MAX_DEPTH
    requires n.kind.In? || n.kind.Between? || n.kind.Like? || n.kind.IsNull? || n.kind.BooleanTest?
    ensures HasType(Eval(n, env), TypeOf(n, d, f), sort)
  {
    hide TypedLeaves, TypedOperators, TypedArithmetic, TypedTemporals, TypedCalls, TypedGroups, InValue, Negated, AndValues, CompareValues, TestTruth;
    match n.kind {
      case In(negated) =>
        if n.children != [] {
          var v := InValue(Eval(n.children[0], env), EvalAll(n.children[1..], env), env);
          InTruth(Eval(n.children[0], env), EvalAll(n.children[1..], env), env, f, sort);
          NegatedTruth(negated, v, env, f, sort);
        }
      case Between(negated) =>
        var v := BetweenValue(EvalChild(n, 0, env), EvalChild(n, 1, env), EvalChild(n, 2, env), env);
        ConnectiveTruth(CompareValues(Ge, EvalChild(n, 0, env), EvalChild(n, 1, env), env),
                        CompareValues(Le, EvalChild(n, 0, env), EvalChild(n, 2, env), env), env, f, sort);
        NegatedTruth(negated, v, env, f, sort);
      case Like(_) => TruthOf(n.kind, n.text, [EvalChild(n, 0, env), EvalChild(n, 1, env)], env, f, sort);
      case _ =>
    }
  }

  lemma {:induction false} BinaryTyped(n: Node, d: nat, f: Facts, env: Env, sort: Sort)
    requires Settled(n, d, f) && Typed(env, f, sort) && n.kind.Binary? && d < MAX_DEPTH
    ensures HasType(Eval(n, env), TypeOf(n, d, f), sort)
    decreases n, 1
  {
    hide TypedLeaves, TypedOperators, TypedArithmetic, TypedTemporals, TypedCalls, TypedGroups, HasType, CompareValues, AndValues, OrValues, ArithValues, QuantifiedValue,
         ArithmeticType;
    var a, b := EvalChild(n, 0, env), EvalChild(n, 1, env);
    match n.kind.bin {
      case Arith(op) =>
        ChildTyped(n, 0, d + 1, f, env, sort);
        ChildTyped(n, 1, d + 1, f, env, sort);
        ArithTyped(op, a, b, ChildType(n, 0, d + 1, f), ChildType(n, 1, d + 1, f), env, sort);
      case Concat =>
        ChildTyped(n, 0, d + 1, f, env, sort);
        ChildTyped(n, 1, d + 1, f, env, sort);
        ConcatTyped(n.text, a, b, ChildType(n, 0, d + 1, f), ChildType(n, 1, d + 1, f), env, f, sort);
      case When | OtherBinary => UnknownTyped(Eval(n, env), sort);
      case _ => TruthTyped(n, env, f, sort);
    }
  }

  lemma TruthTyped(n: Node, env: Env, f: Facts, sort: Sort)
    requires TypedOperators(env, f, sort) && n.kind.Binary?
    requires !n.kind.bin.Arith? && !n.kind.bin.Concat? && !n.kind.bin.When? && !n.kind.bin.OtherBinary?
    ensures HasType(Eval(n, env), Boolean, sort)
  {
    hide TypedOperators, CompareValues, AndValues, OrValues, QuantifiedValue;
    var a, b := EvalChild(n, 0, env), EvalChild(n, 1, env);
    ConnectiveTruth(a, b, env, f, sort);
    match n.kind.bin {
      case Compare(op) => CompareTruth(op, a, b, env, f, sort);
      case Quantified(op, all) =>
        if b.Arr? {
          QuantifiedTruth(op, all, a, b.elems, env, f, sort);
        } else {
          TruthOf(n.kind, n.text, [a, b], env, f, sort);
        }
      case _ =>
    }
  }

  lemma {:induction false} UnaryTyped(n: Node, d: nat, f: Facts, env: Env, sort: Sort)
    requires Settled(n, d, f) && Typed(env, f, sort) && n.kind.Unary? && d < MAX_DEPTH
    ensures HasType(Eval(n, env), TypeOf(n, d, f), sort)
    decreases n, 1
  {
    hide TypedLeaves, TypedOperators, TypedArithmetic, TypedTemporals, TypedCalls, TypedGroups, NotValue;
    var op := n.kind.un;
    if op.Not? {
      NotTruth(EvalChild(n, 0, env), env, f, sort);
    } else if op.Minus? || op.Plus? {
      ChildTyped(n, 0, d + 1, f, env, sort);
      SignTyped(op, n.text, EvalChild(n, 0, env), ChildType(n, 0, d + 1, f), env, f, sort);
    }
  }

  /** The value of a CASE belongs to the type of one of its branches. */
  lemma {:induction false} ArmsTyped(arms: seq<Node>, operand: Option<Value>, d: nat, f: Facts, env: Env, sort: Sort) returns (i: nat)
    requires SettledArms(arms, d, f) && Typed(env, f, sort)
    ensures EvalArms(arms, operand, env) == Null || (i < |ArmTypes(arms, d, f)| && HasType(EvalArms(arms, operand, env), ArmTypes(arms, d, f)[i], sort))
    decreases arms, 0
  {
    hide Typed, GuardHolds, Settled;
    i := 0;
    if arms != [] {
      if !IsWhen(arms[0]) {
        TypeIsSound(arms[0], d, f, env, sort);
      } else if GuardHolds(operand, EvalChild(arms[0], 0, env), env) {
        ChildTyped(arms[0], 1, d, f, env, sort);
      } else {
        var k := ArmsTyped(arms[1..], operand, d, f, env, sort);
        i := k + 1;
      }
    }
  }

  lemma SettledBranches(n: Node, d: nat, f: Facts)
    requires Settled(n, d, f) && n.kind.Case? && d < MAX_DEPTH
    ensures var types := ArmTypes(if IsSimpleCase(n) then n.children[1..] else n.children, d + 1, f);
            !HasClash(types) && AllKnown(types)
  {
    hide HasClash, ArmTypes, AllKnown;
  }

  lemma {:induction false} CaseTyped(n: Node, d: nat, f: Facts, env: Env, sort: Sort)
    requires Settled(n, d, f) && Typed(env, f, sort) && n.kind.Case? && d < MAX_DEPTH
    ensures HasType(Eval(n, env), TypeOf(n, d, f), sort)
    decreases n, 1
  {
    hide Typed, HasClash, ReconcileAll, EvalArms, ArmTypes, AllKnown;
    var arms := if IsSimpleCase(n) then n.children[1..] else n.children;
    var operand := if IsSimpleCase(n) then Some(Eval(n.children[0], env)) else None;
    var i := ArmsTyped(arms, operand, d + 1, f, env, sort);
    SettledBranches(n, d, f);
    if EvalArms(arms, operand, env) != Null {
      BranchHasType(EvalArms(arms, operand, env), ArmTypes(arms, d + 1, f), i, sort);
    }
  }

  // ----- Calls -----

  lemma {:induction false} ArgsTyped(ns: seq<Node>, d: nat, f: Facts, env: Env, sort: Sort)
    requires SettledAll(ns, d, f) && Typed(env, f, sort)
    ensures AllHaveTypes(EvalArgs(ns, env), ArgTypes(ns, d, f), sort)
    decreases ns, 0
  {
    hide Typed, Settled;
    if ns != [] {
      ArgsTyped(ns[1..], d, f, env, sort);
      if !ns[0].kind.Star? {
        TypeIsSound(ns[0], d, f, env, sort);
      }
    }
  }

  lemma {:induction false} FirstNonNullIs(vs: seq<Value>) returns (i: nat)
    ensures FirstNonNull(vs) == Null || (i < |vs| && FirstNonNull(vs) == vs[i])
  {
    i := 0;
    if vs != [] && vs[0] == Null {
      var k := FirstNonNullIs(vs[1..]);
      i := k + 1;
    }
  }

  lemma {:induction false} DroppedIs(vs: seq<Value>, v: Value) returns (i: nat)
    requires v in DropNulls(vs)
    ensures i < |vs| && vs[i] == v
  {
    i := 0;
    if vs[0] == Null || v != vs[0] {
      var k := DroppedIs(vs[1..], v);
      i := k + 1;
    }
  }

  lemma ArgumentTyped(name: string, args: seq<Value>, ts: seq<DataType>, i: nat, env: Env, f: Facts, sort: Sort)
    requires TypedCalls(env, f, sort) && AllHaveTypes(args, ts, sort) && SkipsNulls(name) && i < |args|
    ensures HasType(args[i], f.signature(name, ts).type_, sort)
  {
  }

  lemma NullifTyped(args: seq<Value>, ts: seq<DataType>, env: Env, f: Facts, sort: Sort)
    requires TypedCalls(env, f, sort) && AllHaveTypes(args, ts, sort) && |args| == 2
    ensures HasType(args[0], f.signature("nullif", ts).type_, sort)
  {
  }

  lemma PlainCallTyped(name: string, args: seq<Value>, ts: seq<DataType>, env: Env, f: Facts, sort: Sort)
    requires TypedCalls(env, f, sort) && AllHaveTypes(args, ts, sort)
    ensures HasType(env.apply(FunctionCall, name, args), f.signature(name, ts).type_, sort)
    ensures IsCurrentTime(name) ==> HasType(env.apply(FunctionCall, name, []), f.signature(name, ts).type_, sort)
  {
  }

  lemma CallValueTyped(name: string, args: seq<Value>, ts: seq<DataType>, env: Env, f: Facts, sort: Sort)
    requires TypedCalls(env, f, sort) && AllHaveTypes(args, ts, sort)
    ensures HasType(CallValue(name, args, env), f.signature(name, ts).type_, sort)
  {
    hide TypedCalls, HasType, AllHaveTypes, CompareValues;
    PlainCallTyped(name, args, ts, env, f, sort);
    NullTyped(f.signature(name, ts).type_, sort);
    if IsCurrentTime(name) {
    } else if name == "coalesce" {
      var i := FirstNonNullIs(args);
      if FirstNonNull(args) != Null {
        ArgumentTyped(name, args, ts, i, env, f, sort);
      }
    } else if name == "greatest" || name == "least" {
      if DropNulls(args) != [] {
        ExtremeIsArgument(name, DropNulls(args), env, f, sort);
        var i := DroppedIs(args, env.apply(FunctionCall, name, DropNulls(args)));
        ArgumentTyped(name, args, ts, i, env, f, sort);
      }
    } else if name == "nullif" && |args| == 2 {
      NullifTyped(args, ts, env, f, sort);
    }
  }

  lemma ExtremeIsArgument(name: string, vs: seq<Value>, env: Env, f: Facts, sort: Sort)
    requires TypedCalls(env, f, sort) && (name == "greatest" || name == "least") && vs != []
    ensures env.apply(FunctionCall, name, vs) in vs
  {
  }

  lemma NullTyped(t: DataType, sort: Sort)
    ensures HasType(Null, t, sort)
  {
  }

  lemma {:induction false} CallTyped(n: Node, d: nat, f: Facts, env: Env, sort: Sort)
    requires Settled(n, d, f) && Typed(env, f, sort) && n.kind.FunctionCall? && d < MAX_DEPTH
    ensures HasType(Eval(n, env), TypeOf(n, d, f), sort)
    decreases n, 1
  {
    hide TypedLeaves, TypedOperators, TypedArithmetic, TypedTemporals, TypedCalls, TypedGroups, HasType, EvalArgs, ArgTypes, CallValue, AllHaveTypes, Fold, IsAggregateName;
    if IsGroupCall(n) {
      GroupTyped(n, d, f, env, sort);
    } else {
      var args := if HasDatePart(n) then n.children[1..] else n.children;
      ArgsTyped(args, d + 1, f, env, sort);
      CallValueTyped(Fold(n.text), EvalArgs(args, env), ArgTypes(args, d + 1, f), env, f, sort);
    }
  }

  lemma GroupTyped(n: Node, d: nat, f: Facts, env: Env, sort: Sort)
    requires TypedGroups(env, f, sort) && n.kind.FunctionCall? && IsGroupCall(n) && d < MAX_DEPTH
    ensures HasType(Eval(n, env), TypeOf(n, d, f), sort)
  {
    hide HasType, ArgTypes, Fold, IsAggregateName;
    assert Arguments(n) == if HasDatePart(n) then n.children[1..] else n.children;
    if Fold(n.text) != "grouping" {
      assert HasType(env.group(n), f.signature(Fold(n.text), ArgTypes(Arguments(n), d + 1, f)).type_, sort);
    }
  }
}
