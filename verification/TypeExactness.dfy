/** When inference settles on a type at all, and what an operand of unknown type costs. */
module TypeExactness {
  import opened Wrappers
  import opened Identifier
  import opened Numerals
  import opened Types
  import opened Ast
  import opened Semantics
  import opened Infer
  import opened TypeSoundness

  // ----- Inference does not give up -----

  /** Two operands an arithmetic operator accepts: numbers, without a fraction under `%`, or a pair
      from the table of temporal operators. */
  predicate Accepts(op: ArithOp, s: DataType, t: DataType) {
    || (IsNumeric(s) && IsNumeric(t) && (op.Mod? ==> !s.Real? && !s.Double? && !t.Real? && !t.Double?))
    || (TemporalArithmetic(s, t, op).TemporalOk? && Known(s) && Known(t))
  }

  /** Every part the type comes from has one: columns, subqueries, casts and signatures are known,
      operands are accepted, and the branches of a CASE go together. */
  ghost predicate Inferable(n: Node, d: nat, f: Facts)
    decreases n, 1
  {
    d < MAX_DEPTH &&
    match n.kind
    case FunctionCall =>
      Fold(n.text) == "grouping" || Known(f.signature(Fold(n.text), ArgTypes(Arguments(n), d + 1, f)).type_)
    case ColumnRef => Known(f.column(n.text).type_)
    case Subquery => Known(f.projected(n))
    case Binary(op) =>
      && !op.When? && !op.OtherBinary?
      && (op.Arith? ==> Accepts(op.arith, ChildType(n, 0, d + 1, f), ChildType(n, 1, d + 1, f)))
    case Unary(op) => op.Exists? || op.Not? || (!op.OtherUnary? && n.children != [] && Inferable(n.children[0], d + 1, f))
    case Case =>
      var arms := if IsSimpleCase(n) then n.children[1..] else n.children;
      arms != [] && InferableArms(arms, d + 1, f) && !HasClash(ArmTypes(arms, d + 1, f))
    case Cast => |n.children| > 1 && Known(f.typeNamed(n.children[1].text))
    case Collate => n.children != [] && Inferable(n.children[0], d + 1, f)
    case Star | TypeName | Parameter | RowConstructor | Other => false
    case _ => true
  }

  ghost predicate InferableArms(arms: seq<Node>, d: nat, f: Facts)
    decreases arms, 0
  {
    arms == [] ||
    (&& (if IsWhen(arms[0]) then |arms[0].children| > 1 && Inferable(arms[0].children[1], d, f) else Inferable(arms[0], d, f))
     && InferableArms(arms[1..], d, f))
  }

  lemma AcceptedIsKnown(op: ArithOp, s: DataType, t: DataType)
    requires Accepts(op, s, t)
    ensures Known(ArithmeticType(s, t, op))
  {
    if IsNumeric(s) && IsNumeric(t) {
      NumbersAreNotTemporal(s, t, op);
    } else {
      hide Coerce;
      TemporalIsKnown(s, t, op);
    }
  }

  lemma NumbersAreNotTemporal(s: DataType, t: DataType, op: ArithOp)
    requires IsNumeric(s) && IsNumeric(t)
    ensures TemporalArithmetic(s, t, op).NotTemporal? && Known(Coerce(s, t, Arithmetic).type_)
  {
  }

  lemma TemporalIsKnown(s: DataType, t: DataType, op: ArithOp)
    requires TemporalArithmetic(s, t, op).TemporalOk? && Known(s) && Known(t)
    ensures Known(TemporalArithmetic(s, t, op).type_)
  {
  }

  lemma {:induction false} ReconciledIsKnown(types: seq<DataType>)
    requires types != [] && AllKnown(types) && !HasClash(types)
    ensures Known(ReconcileAll(types).type_)
  {
    hide HasClash, Coerce;
    ReconcileIsLeast(types);
    if !HasSolid(types) {
      NullsReconcile(types);
    }
  }

  lemma {:induction false} NullsReconcile(types: seq<DataType>)
    requires types != [] && AllKnown(types) && !HasSolid(types)
    ensures ReconcileAll(types).type_ == NullType
  {
    var front := types[..|types| - 1];
    assert types[|types| - 1] == NullType;
    if front != [] {
      assert forall i :: 0 <= i < |front| ==> front[i] == types[i];
      NullsReconcile(front);
    }
  }

  lemma {:induction false} ArmsAreKnown(arms: seq<Node>, d: nat, f: Facts)
    requires InferableArms(arms, d, f)
    ensures AllKnown(ArmTypes(arms, d, f)) && |ArmTypes(arms, d, f)| == |arms|
    decreases arms, 0
  {
    hide Inferable, TypeOf;
    if arms != [] {
      TypeIsKnown(if IsWhen(arms[0]) then arms[0].children[1] else arms[0], d, f);
      ArmsAreKnown(arms[1..], d, f);
    }
  }

  /** Such an expression is given a type, so with soundness it is given the right one. */
  lemma {:induction false} TypeIsKnown(n: Node, d: nat, f: Facts)
    requires Inferable(n, d, f)
    ensures Known(TypeOf(n, d, f))
    decreases n, 0
  {
    hide ArithmeticType, Accepts, ReconcileAll, HasClash, Integral, Fold, HasDatePart;
    match n.kind {
      case Binary(op) =>
        if op.Arith? {
          AcceptedIsKnown(op.arith, ChildType(n, 0, d + 1, f), ChildType(n, 1, d + 1, f));
        }
      case Unary(op) =>
        if op.Minus? || op.Plus? {
          TypeIsKnown(n.children[0], d + 1, f);
        }
      case Collate => TypeIsKnown(n.children[0], d + 1, f);
      case Case =>
        var arms := if IsSimpleCase(n) then n.children[1..] else n.children;
        ArmsAreKnown(arms, d + 1, f);
        ReconciledIsKnown(ArmTypes(arms, d + 1, f));
      case _ =>
    }
  }

  /** So an expression that always answers a truth value, and not always NULL, is inferred Boolean. */
  lemma TruthIsBoolean(n: Node, d: nat, f: Facts, env: Env, sort: Sort)
    requires Inferable(n, d, f) && Settled(n, d, f) && Typed(env, f, sort) && Eval(n, env).Bool?
    ensures TypeOf(n, d, f) == Boolean
  {
    hide Eval, TypeOf, Settled, Inferable, Typed;
    TypeIsSound(n, d, f, env, sort);
    TypeIsKnown(n, d, f);
  }

  // ----- What an untyped operand costs -----

  /** COALESCE, GREATEST, LEAST and NULLIF have signatures that cover their arguments. */
  ghost predicate FitSignatures(f: Facts, sort: Sort) {
    && (forall name, ts, i, v :: SkipsNulls(name) && 0 <= i < |ts| && HasType(v, ts[i], sort) ==> HasType(v, f.signature(name, ts).type_, sort))
    && (forall ts, v :: |ts| == 2 && HasType(v, ts[0], sort) ==> HasType(v, f.signature("nullif", ts).type_, sort))
  }

  /** An execution whose columns are `column`, and whose operators answer NULL wherever the types
      leave a choice: `other` is what arithmetic on a string answers. */
  function Plain(column: string -> Value, other: Value): Env {
    Env(column, (_, _) => Null, (_) => Null,
        (k: Kind, name: string, vs: seq<Value>) =>
          if k == FunctionCall && (name == "greatest" || name == "least") && vs != [] then vs[0]
          else if k == Binary(Concat) && |vs| == 2 && (vs[0].Arr? || vs[1].Arr?) then Arr([])
          else if k.Binary? && k.bin.Arith? && |vs| == 2 && (vs[0].Str? || vs[1].Str?) then other
          else Null,
        (_) => Null, (_) => Null)
  }

  lemma PlainIsTyped(column: string -> Value, other: Value, f: Facts, sort: Sort)
    requires FitSignatures(f, sort) && forall c :: HasType(column(c), f.column(c).type_, sort)
    ensures Typed(Plain(column, other), f, sort)
  {
    hide HasType, TypedTemporals, TypedArithmetic, TypedCalls;
    assert forall t: DataType :: HasType(Null, t, sort) by { NothingHasType(sort); }
    assert HasType(Arr([]), DataType.Array, sort) by { ArrayHasType(sort); }
    PlainTemporals(column, other, sort);
    PlainArithmetic(column, other, sort);
    PlainCalls(column, other, f, sort);
  }

  lemma NothingHasType(sort: Sort)
    ensures forall t: DataType :: HasType(Null, t, sort)
  {
  }

  lemma ArrayHasType(sort: Sort)
    ensures HasType(Arr([]), DataType.Array, sort)
  {
  }

  lemma PlainTemporals(column: string -> Value, other: Value, sort: Sort)
    ensures TypedTemporals(Plain(column, other), sort)
  {
    hide TemporalArithmetic;
    var env := Plain(column, other);
    forall op, a: Value, b: Value, s, t | HasType(a, s, sort) && HasType(b, t, sort) && !IsWild(s) && !IsWild(t) && TemporalArithmetic(s, t, op).TemporalOk?
      ensures HasType(env.apply(Binary(Arith(op)), "", [a, b]), TemporalArithmetic(s, t, op).type_, sort)
    {
      NoStrings(s, t, op);
    }
  }

  lemma NoStrings(s: DataType, t: DataType, op: ArithOp)
    requires TemporalArithmetic(s, t, op).TemporalOk? && !IsWild(s) && !IsWild(t)
    ensures CategoryOf(s) != String && CategoryOf(t) != String
  {
  }

  lemma PlainArithmetic(column: string -> Value, other: Value, sort: Sort)
    ensures TypedArithmetic(Plain(column, other), sort)
  {
  }

  lemma PlainCalls(column: string -> Value, other: Value, f: Facts, sort: Sort)
    requires FitSignatures(f, sort)
    ensures TypedCalls(Plain(column, other), f, sort)
  {
    hide HasType;
    var env := Plain(column, other);
    NothingHasType(sort);
    forall name, ts, vs | AllHaveTypes(vs, ts, sort) ensures HasType(env.apply(FunctionCall, name, vs), f.signature(name, ts).type_, sort) {
      if (name == "greatest" || name == "least") && vs != [] {
        assert HasType(vs[0], ts[0], sort) && SkipsNulls(name);
      }
    }
  }

  /** A value of the type, NULL only where there is no other; of an unknown type, a string. */
  function Sample(t: DataType): Value {
    match t
    case Boolean => Bool(true)
    case TinyInt | SmallInt | Integer | BigInt | Decimal | Real | Double => Int(0)
    case Char | VarChar | Text | Unknown | Any => Str("")
    case Array => Arr([])
    case NullType => Null
    case _ => Opaque(0)
  }

  lemma SampleHasType(t: DataType, sort: Sort)
    requires sort(0) == t
    ensures HasType(Sample(t), t, sort) && (Sample(t).Null? <==> t.NullType?)
  {
  }

  predicate IsColumnNode(n: Node) { n.kind.ColumnRef? && n.children == [] }

  /** An arithmetic operator or `||` over two columns. */
  predicate OverColumns(n: Node) {
    && n.kind.Binary? && (n.kind.bin.Arith? || n.kind.bin.Concat?) && |n.children| == 2
    && IsColumnNode(n.children[0]) && IsColumnNode(n.children[1]) && n.children[0].text != n.children[1].text
  }

  /** Both operands are typed, or the result is not, or an operand is the NULL type, or `||` has
      an array on one side. */
  predicate OperandsFit(op: BinaryOp, s: DataType, t: DataType) {
    || (Known(s) && Known(t)) || s.NullType? || t.NullType?
    || (op.Arith? && !Known(ArithmeticType(s, t, op.arith)))
    || (op.Concat? && (s.Array? || t.Array?))
  }

  /** The value belongs to the inferred type in every typed row. */
  ghost predicate TypeHolds(n: Node, d: nat, f: Facts) {
    forall env: Env, sort: Sort :: Typed(env, f, sort) ==> HasType(Eval(n, env), TypeOf(n, d, f), sort)
  }

  lemma ColumnValues(n: Node, d: nat, f: Facts, env: Env)
    requires OverColumns(n) && d + 1 < MAX_DEPTH
    ensures EvalChild(n, 0, env) == env.column(n.children[0].text) && EvalChild(n, 1, env) == env.column(n.children[1].text)
    ensures ChildType(n, 0, d + 1, f) == f.column(n.children[0].text).type_ && ChildType(n, 1, d + 1, f) == f.column(n.children[1].text).type_
    ensures Eval(n, env) == BinaryValue(n.kind.bin, n.text, EvalChild(n, 0, env), EvalChild(n, 1, env), env)
  {
    hide BinaryValue;
  }

  lemma FitOperands(n: Node, d: nat, f: Facts, env: Env, sort: Sort)
    requires OverColumns(n) && d + 1 < MAX_DEPTH && Typed(env, f, sort)
    requires OperandsFit(n.kind.bin, f.column(n.children[0].text).type_, f.column(n.children[1].text).type_)
    ensures HasType(Eval(n, env), TypeOf(n, d, f), sort)
  {
    hide ArithmeticType, TypedOperators, TypedArithmetic, TypedTemporals, TypedCalls, TypedGroups, ArithInts;
    var s, t := f.column(n.children[0].text).type_, f.column(n.children[1].text).type_;
    ColumnValues(n, d, f, env);
    var a, b := EvalChild(n, 0, env), EvalChild(n, 1, env);
    assert HasType(a, s, sort) && HasType(b, t, sort);
    if Known(s) && Known(t) {
      SettledColumns(n, d, f);
      TypeIsSound(n, d, f, env, sort);
    } else if s.NullType? || t.NullType? {
      NullOperand(n.kind.bin, n.text, a, b, env);
    } else if n.kind.bin.Concat? {
      ArrayOperand(n.text, a, b, env, f, sort);
    }
  }

  lemma SettledColumns(n: Node, d: nat, f: Facts)
    requires OverColumns(n) && d + 1 < MAX_DEPTH && Known(f.column(n.children[0].text).type_) && Known(f.column(n.children[1].text).type_)
    ensures Settled(n, d, f)
  {
  }

  lemma NullOperand(op: BinaryOp, text: string, a: Value, b: Value, env: Env)
    requires (op.Arith? || op.Concat?) && (a.Null? || b.Null?)
    ensures BinaryValue(op, text, a, b, env) == Null
  {
    assert [a, b][0] == a && [a, b][1] == b;
  }

  lemma ArrayOperand(text: string, a: Value, b: Value, env: Env, f: Facts, sort: Sort)
    requires TypedOperators(env, f, sort) && (a.Null? || a.Arr? || b.Null? || b.Arr?)
    ensures HasType(BinaryValue(Concat, text, a, b, env), DataType.Array, sort)
  {
    assert [a, b][0] == a && [a, b][1] == b;
  }

  /** A row in which the untyped operand is a string, or an array for `||`. */
  function Misfit(n: Node, f: Facts, op: BinaryOp): string -> Value
    requires OverColumns(n)
  {
    var p, q := n.children[0].text, n.children[1].text;
    var s, t := f.column(p).type_, f.column(q).type_;
    var odd := if op.Concat? then Arr([]) else Str("");
    (c: string) => if c == p then (if Known(s) then Sample(s) else odd) else if c == q then (if Known(t) then Sample(t) else odd) else Null
  }

  lemma MisfitIsTyped(n: Node, f: Facts, op: BinaryOp, sort: Sort)
    requires OverColumns(n) && (forall c :: Known(f.column(c).type_) && (c == n.children[0].text || c == n.children[1].text) ==> sort(0) == f.column(c).type_)
    ensures forall c :: HasType(Misfit(n, f, op)(c), f.column(c).type_, sort)
  {
  }

  /** Arithmetic and `||` over two columns are typed right if and only if the operands fit. */
  lemma OperandTypesAreExact(n: Node, d: nat, f: Facts)
    requires OverColumns(n) && d + 1 < MAX_DEPTH && forall sort: Sort :: FitSignatures(f, sort)
    ensures TypeHolds(n, d, f) <==> OperandsFit(n.kind.bin, f.column(n.children[0].text).type_, f.column(n.children[1].text).type_)
  {
    hide Typed, HasType, Eval, TypeOf, FitSignatures, ArithmeticType;
    var s, t := f.column(n.children[0].text).type_, f.column(n.children[1].text).type_;
    if OperandsFit(n.kind.bin, s, t) {
      forall env: Env, sort: Sort | Typed(env, f, sort) ensures HasType(Eval(n, env), TypeOf(n, d, f), sort) {
        FitOperands(n, d, f, env, sort);
      }
    } else {
      var solid := if Known(s) then s else t;
      var sort: Sort := (_: int) => solid;
      MisfitIsTyped(n, f, n.kind.bin, sort);
      var env := Plain(Misfit(n, f, n.kind.bin), Bool(true));
      PlainIsTyped(Misfit(n, f, n.kind.bin), Bool(true), f, sort);
      MisfitValue(n, d, f, sort);
    }
  }

  lemma MisfitValue(n: Node, d: nat, f: Facts, sort: Sort)
    requires OverColumns(n) && d + 1 < MAX_DEPTH
    requires !OperandsFit(n.kind.bin, f.column(n.children[0].text).type_, f.column(n.children[1].text).type_)
    ensures !HasType(Eval(n, Plain(Misfit(n, f, n.kind.bin), Bool(true))), TypeOf(n, d, f), sort)
  {
    hide ArithmeticType, ArithInts;
    var env := Plain(Misfit(n, f, n.kind.bin), Bool(true));
    var s, t := f.column(n.children[0].text).type_, f.column(n.children[1].text).type_;
    ColumnValues(n, d, f, env);
    var a, b := EvalChild(n, 0, env), EvalChild(n, 1, env);
    assert [a, b][0] == a && [a, b][1] == b;
    if n.kind.bin.Arith? {
      NumberOrTime(s, t, n.kind.bin.arith);
    }
  }

  /** With one untyped operand arithmetic is typed as a number or a time, if at all. */
  lemma NumberOrTime(s: DataType, t: DataType, op: ArithOp)
    requires !(Known(s) && Known(t)) && !s.NullType? && !t.NullType? && Known(ArithmeticType(s, t, op))
    ensures var r := ArithmeticType(s, t, op); IsNumeric(r) || CategoryOf(r) == Temporal
    ensures Known(s) || Known(t)
  {
  }

  // ----- Branches -----

  /** `CASE WHEN c THEN p ELSE q END` over three columns, the guard a Boolean. */
  predicate IsColumnCase(n: Node, f: Facts) {
    && n.kind.Case? && |n.children| == 2 && IsWhen(n.children[0]) && |n.children[0].children| == 2
    && IsColumnNode(n.children[0].children[0]) && IsColumnNode(n.children[0].children[1]) && IsColumnNode(n.children[1])
    && n.children[0].children[0].text != n.children[0].children[1].text
    && n.children[0].children[0].text != n.children[1].text && n.children[0].children[1].text != n.children[1].text
    && f.column(n.children[0].children[0].text).type_.Boolean?
  }

  lemma CaseTypes(n: Node, d: nat, f: Facts)
    requires IsColumnCase(n, f) && d + 1 < MAX_DEPTH
    ensures ArmTypes(n.children, d + 1, f) == [f.column(n.children[0].children[1].text).type_, f.column(n.children[1].text).type_]
    ensures TypeOf(n, d, f) == Coerce(Coerce(Unknown, f.column(n.children[0].children[1].text).type_, UnionReconcile).type_, f.column(n.children[1].text).type_, UnionReconcile).type_
  {
    hide Coerce;
    var s, t := f.column(n.children[0].children[1].text).type_, f.column(n.children[1].text).type_;
    var last := n.children[1];
    assert n.children[1..] == [last] && [last][1..] == [];
    assert ArmTypes([], d + 1, f) == [];
    assert TypeOf(last, d + 1, f) == t && ChildType(n.children[0], 1, d + 1, f) == s;
    assert ArmTypes([last], d + 1, f) == [t];
    assert ArmTypes(n.children, d + 1, f) == [s, t];
    ReconcileTwo(s, t);
  }

  lemma CaseValue(n: Node, f: Facts, env: Env)
    requires IsColumnCase(n, f)
    ensures Eval(n, env) == env.column(if env.column(n.children[0].children[0].text) == Bool(true) then n.children[0].children[1].text else n.children[1].text)
  {
    var last := n.children[1];
    assert n.children[1..] == [last];
    assert !IsWhen(last) && [last][0] == last;
    assert EvalArms([last], None, env) == Eval(last, env);
    assert EvalChild(n.children[0], 0, env) == env.column(n.children[0].children[0].text);
    assert EvalChild(n.children[0], 1, env) == env.column(n.children[0].children[1].text);
    assert EvalArms(n.children, None, env) == Eval(n, env);
  }

  /** A row in which the untyped branch is taken, with a value outside the type. */
  function OddBranch(n: Node, f: Facts, result: DataType): string -> Value
    requires IsColumnCase(n, f)
  {
    var c, p, q := n.children[0].children[0].text, n.children[0].children[1].text, n.children[1].text;
    var odd := if result.Boolean? then Int(0) else Bool(true);
    var first := !Known(f.column(p).type_);
    (x: string) => if x == c then Bool(first) else if x == (if first then p else q) then odd else Null
  }

  /** Such a CASE is typed right if and only if both branches are typed, or the result is not. */
  lemma BranchTypesAreExact(n: Node, d: nat, f: Facts)
    requires IsColumnCase(n, f) && d + 1 < MAX_DEPTH && forall sort: Sort :: FitSignatures(f, sort)
    ensures TypeHolds(n, d, f) <==>
            (Known(f.column(n.children[0].children[1].text).type_) && Known(f.column(n.children[1].text).type_)) || !Known(TypeOf(n, d, f))
  {
    hide Typed, HasType, Eval, TypeOf, FitSignatures;
    var s, t := f.column(n.children[0].children[1].text).type_, f.column(n.children[1].text).type_;
    if (Known(s) && Known(t)) || !Known(TypeOf(n, d, f)) {
      forall env: Env, sort: Sort | Typed(env, f, sort) ensures HasType(Eval(n, env), TypeOf(n, d, f), sort) {
        FitBranches(n, d, f, env, sort);
      }
    } else {
      var sort: Sort := (_: int) => Unknown;
      var column := OddBranch(n, f, TypeOf(n, d, f));
      OddIsTyped(n, f, TypeOf(n, d, f), sort);
      PlainIsTyped(column, Null, f, sort);
      CaseValue(n, f, Plain(column, Null));
      OddMisfits(TypeOf(n, d, f), sort);
    }
  }

  lemma OddMisfits(t: DataType, sort: Sort)
    requires Known(t)
    ensures !HasType(if t.Boolean? then Int(0) else Bool(true), t, sort)
  {
  }

  lemma OddIsTyped(n: Node, f: Facts, result: DataType, sort: Sort)
    requires IsColumnCase(n, f) && !(Known(f.column(n.children[0].children[1].text).type_) && Known(f.column(n.children[1].text).type_))
    ensures forall c :: HasType(OddBranch(n, f, result)(c), f.column(c).type_, sort)
  {
  }

  lemma FitBranches(n: Node, d: nat, f: Facts, env: Env, sort: Sort)
    requires IsColumnCase(n, f) && d + 1 < MAX_DEPTH && Typed(env, f, sort)
    requires (Known(f.column(n.children[0].children[1].text).type_) && Known(f.column(n.children[1].text).type_)) || !Known(TypeOf(n, d, f))
    ensures HasType(Eval(n, env), TypeOf(n, d, f), sort)
  {
    hide TypedOperators, TypedArithmetic, TypedTemporals, TypedCalls, TypedGroups, Eval, ReconcileAll, HasClash;
    var s, t := f.column(n.children[0].children[1].text).type_, f.column(n.children[1].text).type_;
    CaseTypes(n, d, f);
    CaseValue(n, f, env);
    ReconcileIsLeast([s, t]);
    if Known(TypeOf(n, d, f)) {
      var i := if env.column(n.children[0].children[0].text) == Bool(true) then 0 else 1;
      KnownTogether(s, t);
      BranchHasType(Eval(n, env), [s, t], i, sort);
      ReconcileTwo(s, t);
    }
  }

  lemma ReconcileTwo(s: DataType, t: DataType)
    ensures ReconcileAll([s, t]).type_ == Coerce(Coerce(Unknown, s, UnionReconcile).type_, t, UnionReconcile).type_
  {
    hide Coerce;
    assert [s, t][..1] == [s] && [s][..0] == [];
    assert ReconcileAll([]).type_ == Unknown;
    assert ReconcileAll([s]).type_ == Coerce(Unknown, s, UnionReconcile).type_;
  }

  /** Two known types that clash leave the result without a type. */
  lemma KnownTogether(s: DataType, t: DataType)
    requires Known(s) && Known(t) && Known(Coerce(Coerce(Unknown, s, UnionReconcile).type_, t, UnionReconcile).type_)
    ensures !HasClash([s, t])
  {
    hide Coerce, Clash;
    UnknownAbsorbs(s);
    ClashLosesType(s, t);
    ClashEither(s, t);
    forall i, j | 0 <= i < 2 && 0 <= j < 2 ensures !Clash([s, t][i], [s, t][j]) {
      assert ([s, t][i] == s || [s, t][i] == t) && ([s, t][j] == s || [s, t][j] == t);
    }
  }

  lemma UnknownAbsorbs(s: DataType)
    ensures Coerce(Unknown, s, UnionReconcile).type_ == s
  {
  }

  lemma ClashLosesType(s: DataType, t: DataType)
    ensures Clash(s, t) ==> Coerce(s, t, UnionReconcile).type_ == Unknown
    ensures !Clash(s, s) && !Clash(t, t)
  {
    CoerceByCategory(s, t);
  }

  lemma ClashEither(s: DataType, t: DataType)
    ensures Clash(s, t) <==> Clash(t, s)
  {
  }
}
