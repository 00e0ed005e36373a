/** How tight recorded nullability is: inference makes up its mind, and what it records nullable
    can be NULL. */
module NullTightness {
  import opened Wrappers
  import opened Identifier
  import opened Numerals
  import opened Types
  import opened Ast
  import opened Semantics
  import opened Infer

  // ----- Inference makes up its mind -----

  predicate Decided(x: int) { x == NOT_NULL || x == NULLABLE }

  predicate AllDecided(xs: seq<int>) {
    forall i :: 0 <= i < |xs| ==> Decided(xs[i])
  }

  function CallArguments(n: Node): seq<Node> {
    if HasDatePart(n) then n.children[1..] else n.children
  }

  /** Every part the flag comes from has one: columns are flagged, operands exist, and the nesting
      stays within the limit. */
  ghost predicate Flagged(n: Node, d: nat, f: Facts)
    decreases n, 1
  {
    d < MAX_DEPTH &&
    match n.kind
    case ColumnRef => Decided(f.column(n.text).nullability)
    case FunctionCall => CallArguments(n) != [] && FlaggedAll(CallArguments(n), d + 1, f)
    case Binary(op) => op.DistinctFrom? || (FlaggedChild(n, 0, d + 1, f) && FlaggedChild(n, 1, d + 1, f))
    case Unary(op) => op.Exists? || FlaggedChild(n, 0, d + 1, f)
    case Case => FlaggedArms(if IsSimpleCase(n) then n.children[1..] else n.children, d + 1, f)
    case In(_) => n.children != [] && FlaggedAll(n.children, d + 1, f)
    case Between(_) => FlaggedChild(n, 0, d + 1, f) && FlaggedChild(n, 1, d + 1, f) && FlaggedChild(n, 2, d + 1, f)
    case Like(_) => FlaggedChild(n, 0, d + 1, f) && FlaggedChild(n, 1, d + 1, f)
    case Cast | Collate => FlaggedChild(n, 0, d + 1, f)
    case Star | TypeName | Other => false
    case _ => true
  }

  ghost predicate FlaggedChild(n: Node, idx: nat, d: nat, f: Facts)
    decreases n, 0
  {
    idx < |n.children| && Flagged(n.children[idx], d, f)
  }

  ghost predicate FlaggedAll(ns: seq<Node>, d: nat, f: Facts)
    decreases ns, 0
  {
    ns == [] || (!ns[0].kind.Star? && Flagged(ns[0], d, f) && FlaggedAll(ns[1..], d, f))
  }

  ghost predicate FlaggedArms(arms: seq<Node>, d: nat, f: Facts)
    decreases arms, 0
  {
    arms == [] || ((if IsWhen(arms[0]) then FlaggedChild(arms[0], 1, d, f) else Flagged(arms[0], d, f)) && FlaggedArms(arms[1..], d, f))
  }

  lemma CombineDecides(xs: seq<int>)
    requires AllDecided(xs) && xs != []
    ensures Decided(Combine(xs)) && (Combine(xs) == NULLABLE <==> NULLABLE in xs)
  {
    if NULLABLE !in xs {
      forall i | 0 <= i < |xs| ensures xs[i] == NOT_NULL {
        assert xs[i] in xs;
      }
    }
  }

  lemma CallDecides(name: string, xs: seq<int>)
    requires AllDecided(xs) && xs != []
    ensures Decided(CallNullability(name, xs))
  {
    CombineDecides(xs);
    assert xs[0] in xs;
  }

  lemma {:induction false} AllFlagged(ns: seq<Node>, d: nat, f: Facts)
    requires FlaggedAll(ns, d, f)
    ensures AllDecided(NullsOf(ns, d, f)) && |NullsOf(ns, d, f)| == |ns|
    ensures AllDecided(ArgNulls(ns, d, f)) && |ArgNulls(ns, d, f)| == |ns|
    decreases ns, 0
  {
    hide Flagged, NullOf;
    if ns != [] {
      FlagIsDecided(ns[0], d, f);
      AllFlagged(ns[1..], d, f);
    }
  }

  lemma {:induction false} ArmsFlagged(arms: seq<Node>, d: nat, f: Facts)
    requires FlaggedArms(arms, d, f)
    ensures AllDecided(ArmNulls(arms, d, f)) && |ArmNulls(arms, d, f)| == |arms|
    decreases arms, 0
  {
    hide Flagged, NullOf;
    if arms != [] {
      if IsWhen(arms[0]) {
        ChildFlagged(arms[0], 1, d, f);
      } else {
        FlagIsDecided(arms[0], d, f);
      }
      ArmsFlagged(arms[1..], d, f);
    }
  }

  lemma {:induction false} ChildFlagged(n: Node, idx: nat, d: nat, f: Facts)
    requires FlaggedChild(n, idx, d, f)
    ensures Decided(ChildNull(n, idx, d, f))
    decreases n, 0
  {
    hide Flagged, NullOf;
    FlagIsDecided(n.children[idx], d, f);
  }

  /** An expression whose parts are flagged is recorded NOT NULL or nullable, never unknown. */
  lemma {:induction false} FlagIsDecided(n: Node, d: nat, f: Facts)
    requires Flagged(n, d, f)
    ensures Decided(NullOf(n, d, f))
    decreases n, 2
  {
    hide Combine, CallNullability, Decided, Fold;
    TwoFlags();
    match n.kind {
      case ColumnRef =>
      case FunctionCall =>
        var args := if HasDatePart(n) then n.children[1..] else n.children;
        AllFlagged(args, d + 1, f);
        CallDecides(Fold(n.text), ArgNulls(args, d + 1, f));
      case Binary(op) =>
        if !op.DistinctFrom? {
          ChildFlagged(n, 0, d + 1, f);
          ChildFlagged(n, 1, d + 1, f);
          CombineDecides([ChildNull(n, 0, d + 1, f), ChildNull(n, 1, d + 1, f)]);
        }
      case Unary(op) =>
        if !op.Exists? {
          ChildFlagged(n, 0, d + 1, f);
        }
      case Case =>
        var arms := if IsSimpleCase(n) then n.children[1..] else n.children;
        ArmsFlagged(arms, d + 1, f);
        if HasElse(arms) {
          CombineDecides(ArmNulls(arms, d + 1, f));
        }
      case In(_) =>
        AllFlagged(n.children, d + 1, f);
        CombineDecides(NullsOf(n.children, d + 1, f));
      case Between(_) =>
        ChildFlagged(n, 0, d + 1, f);
        ChildFlagged(n, 1, d + 1, f);
        ChildFlagged(n, 2, d + 1, f);
        CombineDecides([ChildNull(n, 0, d + 1, f), ChildNull(n, 1, d + 1, f), ChildNull(n, 2, d + 1, f)]);
      case Like(_) =>
        ChildFlagged(n, 0, d + 1, f);
        ChildFlagged(n, 1, d + 1, f);
        CombineDecides([ChildNull(n, 0, d + 1, f), ChildNull(n, 1, d + 1, f)]);
      case Cast => ChildFlagged(n, 0, d + 1, f);
      case Collate => ChildFlagged(n, 0, d + 1, f);
      case _ =>
    }
  }

  lemma TwoFlags()
    ensures Decided(NOT_NULL) && Decided(NULLABLE)
  {
  }

  // ----- Executions that answer NULL where they may -----

  ghost predicate KnownCall(f: Facts, name: string) {
    exists ts :: f.signature(name, ts).known
  }

  /** The columns are `column`; parameters, subqueries, rows and aggregates are NULL, and so is
      every operator with a NULL operand and every unknown function. */
  ghost function Sparse(column: string -> Value, f: Facts): Env {
    Env(column, (_, _) => Int(0), (_) => Null,
        (k: Kind, name: string, vs: seq<Value>) =>
          if NoNulls(vs) && k != RowConstructor && (k == FunctionCall ==> KnownCall(f, name)) then Int(0) else Null,
        (n: Node) => if Fold(n.text) == "count" || Fold(n.text) == "grouping" then Int(0) else Null,
        (_) => Null)
  }

  lemma SparseRespects(column: string -> Value, f: Facts)
    requires forall c :: f.column(c).nullability == NOT_NULL ==> column(c) != Value.Null
    ensures Respects(Sparse(column, f), f)
  {
    hide Fold;
    var env := Sparse(column, f);
    forall name, ts, vs | f.signature(name, ts).known && NoNulls(vs) ensures env.apply(FunctionCall, name, vs) != Null {
      assert KnownCall(f, name);
    }
  }

  /** Nullable columns are NULL. */
  function Emptied(f: Facts): string -> Value {
    (c: string) => if f.column(c).nullability == NOT_NULL then Int(1) else Null
  }

  // ----- Strict expressions -----

  predicate IsStrictOperator(k: Kind) {
    || (k.Binary? && (k.bin.Arith? || k.bin.Compare? || k.bin.Concat?))
    || (k.Unary? && (k.un.Not? || k.un.Minus? || k.un.Plus?)) || k.Like? || k.Cast? || k.Collate?
  }

  /** A function without NULL rules of its own. */
  predicate IsPlainCall(n: Node) {
    && n.kind.FunctionCall? && !IsGroupCall(n) && !IsCurrentTime(Fold(n.text)) && !SkipsNulls(Fold(n.text)) && Fold(n.text) != "nullif"
  }

  predicate IsStrictLeaf(k: Kind) {
    || k.IntegerLiteral? || k.FloatLiteral? || k.StringLiteral? || k.BooleanLiteral? || k.IntervalLiteral? || k.DateTimeLiteral?
    || k.NullLiteral? || k.Parameter? || k.RowConstructor? || k.Subquery? || k.ColumnRef?
  }

  /** Operators that are NULL as soon as an operand is, over columns, literals, parameters, rows
      and subqueries. */
  ghost predicate Strict(n: Node) {
    || IsStrictLeaf(n.kind)
    || ((IsStrictOperator(n.kind) || (IsPlainCall(n) && !HasDatePart(n))) && forall c <- n.children :: Strict(c))
  }

  /** Whether a function is known does not depend on its arguments. */
  ghost predicate KnownByName(f: Facts) {
    forall name, ts :: KnownCall(f, name) ==> f.signature(name, ts).known
  }

  lemma CombineNullable(xs: seq<int>)
    requires Combine(xs) == NULLABLE
    ensures NULLABLE in xs
  {
  }

  lemma {:induction false} StrictArgs(ns: seq<Node>, d: nat, f: Facts)
    requires KnownByName(f) && (forall c <- ns :: Strict(c)) && NULLABLE in ArgNulls(ns, d, f)
    ensures Null in EvalArgs(ns, Sparse(Emptied(f), f))
    decreases ns, 0
  {
    hide Strict, Eval, NullOf, Sparse;
    if ns[0].kind.Star? {
      StrictArgs(ns[1..], d, f);
    } else if NullOf(ns[0], d, f) == NULLABLE {
      assert ns[0] in ns;
      StrictIsTight(ns[0], d, f);
    } else {
      StrictArgs(ns[1..], d, f);
    }
  }

  lemma {:induction false} StrictChild(n: Node, idx: nat, d: nat, f: Facts)
    requires KnownByName(f) && (forall c <- n.children :: Strict(c)) && ChildNull(n, idx, d, f) == NULLABLE
    ensures EvalChild(n, idx, Sparse(Emptied(f), f)) == Null
    decreases n, 0
  {
    hide Strict, Eval, NullOf, Sparse;
    StrictIsTight(n.children[idx], d, f);
  }

  lemma NullsNotNone(vs: seq<Value>)
    requires Null in vs
    ensures !NoNulls(vs)
  {
  }

  lemma BinaryNull(op: BinaryOp, text: string, a: Value, b: Value, env: Env)
    requires (op.Arith? || op.Compare? || op.Concat?) && (a.Null? || b.Null?)
    ensures BinaryValue(op, text, a, b, env) == Null
  {
    assert [a, b][0] == a && [a, b][1] == b;
  }

  lemma UnaryNull(op: UnaryOp, text: string, env: Env)
    requires op.Not? || op.Minus? || op.Plus?
    ensures UnaryValue(op, text, Null, env) == Null
  {
    assert [Value.Null][0] == Null;
  }

  lemma StrictParts(n: Node)
    requires Strict(n) && !IsStrictLeaf(n.kind)
    ensures forall c <- n.children :: Strict(c)
    ensures n.kind.FunctionCall? || IsStrictOperator(n.kind)
    ensures n.kind.FunctionCall? ==> IsPlainCall(n) && !HasDatePart(n)
  {
    hide Fold, IsGroupCall, HasDatePart;
  }

  /** A strict expression recorded nullable is NULL when its nullable columns are. */
  lemma {:induction false} StrictIsTight(n: Node, d: nat, f: Facts)
    requires KnownByName(f) && Strict(n) && NullOf(n, d, f) == NULLABLE
    ensures Eval(n, Sparse(Emptied(f), f)) == Null
    decreases n, 2
  {
    hide Sparse, BinaryValue, UnaryValue, Combine, CallNullability, Fold, Integral, StripQuotes, IsPlainCall, HasDatePart, CallValue, StrictApply, IsGroupCall;
    var env := Sparse(Emptied(f), f);
    if !IsStrictLeaf(n.kind) {
      StrictParts(n);
    }
    match n.kind {
      case ColumnRef => EmptiedColumn(n, f);
      case NullLiteral =>
      case Parameter | Subquery | RowConstructor => SparseLeaf(n, f);
      case Binary(op) =>
        CombineNullable([ChildNull(n, 0, d + 1, f), ChildNull(n, 1, d + 1, f)]);
        if ChildNull(n, 0, d + 1, f) == NULLABLE {
          StrictChild(n, 0, d + 1, f);
        } else {
          StrictChild(n, 1, d + 1, f);
        }
        BinaryNull(op, n.text, EvalChild(n, 0, env), EvalChild(n, 1, env), env);
      case Unary(op) =>
        StrictChild(n, 0, d + 1, f);
        UnaryNull(op, n.text, env);
      case Like(_) =>
        CombineNullable([ChildNull(n, 0, d + 1, f), ChildNull(n, 1, d + 1, f)]);
        if ChildNull(n, 0, d + 1, f) == NULLABLE {
          StrictChild(n, 0, d + 1, f);
        } else {
          StrictChild(n, 1, d + 1, f);
        }
        ApplyNull(n.kind, n.text, [EvalChild(n, 0, env), EvalChild(n, 1, env)], if EvalChild(n, 0, env) == Null then 0 else 1, env);
      case Cast =>
        StrictChild(n, 0, d + 1, f);
        ApplyNull(n.kind, CastTarget(n), [EvalChild(n, 0, env)], 0, env);
      case Collate =>
        StrictChild(n, 0, d + 1, f);
      case FunctionCall =>
        StrictCall(n, d, f);
      case _ =>
    }
  }

  lemma EmptiedColumn(n: Node, f: Facts)
    requires n.kind.ColumnRef? && f.column(n.text).nullability == NULLABLE
    ensures Eval(n, Sparse(Emptied(f), f)) == Null
  {
  }

  lemma SparseLeaf(n: Node, f: Facts)
    requires n.kind.Parameter? || n.kind.Subquery? || n.kind.RowConstructor?
    ensures Eval(n, Sparse(Emptied(f), f)) == Null
  {
  }

  lemma ApplyNull(k: Kind, text: string, vs: seq<Value>, i: nat, env: Env)
    requires i < |vs| && vs[i] == Null
    ensures StrictApply(k, text, vs, env) == Null
  {
  }

  lemma {:induction false} StrictCall(n: Node, d: nat, f: Facts)
    requires KnownByName(f) && IsPlainCall(n) && !HasDatePart(n) && (forall c <- n.children :: Strict(c)) && NullOf(n, d, f) == NULLABLE
    ensures Eval(n, Sparse(Emptied(f), f)) == Null
    decreases n, 1
  {
    hide Strict, EvalArgs, ArgNulls, ArgTypes, Fold, Combine;
    var name, env := Fold(n.text), Sparse(Emptied(f), f);
    var args := EvalArgs(n.children, env);
    if f.signature(name, ArgTypes(n.children, d + 1, f)).known {
      CombineNullable(ArgNulls(n.children, d + 1, f));
      StrictArgs(n.children, d + 1, f);
      NullsNotNone(args);
    } else {
      assert !KnownCall(f, name);
    }
    PlainCallValue(n, env);
  }

  lemma PlainCallValue(n: Node, env: Env)
    requires IsPlainCall(n) && !HasDatePart(n)
    ensures Eval(n, env) == env.apply(FunctionCall, Fold(n.text), EvalArgs(n.children, env))
  {
    hide EvalArgs, Fold;
  }

  /** So for strict expressions whose parts are flagged the record is exact: NOT NULL if and only
      if the expression is NULL in no row. */
  lemma StrictIsExact(n: Node, d: nat, f: Facts)
    requires KnownByName(f) && Strict(n) && Flagged(n, d, f) && Recognised(n, f)
    ensures NullOf(n, d, f) == NOT_NULL <==> forall env :: Respects(env, f) ==> Eval(n, env) != Null
  {
    hide Respects, Eval, NullOf, Strict, Flagged, Recognised;
    FlagIsDecided(n, d, f);
    if NullOf(n, d, f) == NOT_NULL {
      forall env | Respects(env, f) ensures Eval(n, env) != Null {
        NotNullIsSound(n, d, f, env);
      }
    } else {
      StrictIsTight(n, d, f);
      SparseRespects(Emptied(f), f);
    }
  }

  // ----- Operators with NULL rules of their own, over columns -----

  predicate IsColumnNode(n: Node) { n.kind.ColumnRef? && n.children == [] }

  /** The operands are different columns. */
  predicate OverColumns(n: Node) {
    && (forall i :: 0 <= i < |n.children| ==> IsColumnNode(n.children[i]))
    && forall i, j :: 0 <= i < j < |n.children| ==> n.children[i].text != n.children[j].text
  }

  /** AND, OR, IN, BETWEEN, and calls that are not plain. */
  predicate IsLoose(n: Node) {
    || (n.kind.Binary? && (n.kind.bin.And? || n.kind.bin.Or?) && |n.children| == 2)
    || (n.kind.In? && |n.children| > 1) || (n.kind.Between? && |n.children| == 3)
    || (n.kind.FunctionCall? && !HasDatePart(n) && (Fold(n.text) == "nullif" ==> |n.children| == 2))
  }

  /** Columns that may be NULL are; the others have the value `present` gives by position. */
  ghost function Filled(n: Node, f: Facts, first: Value, others: Value): string -> Value {
    (c: string) => if f.column(c).nullability != NOT_NULL then Null else if n.children != [] && c == n.children[0].text then first else others
  }

  lemma FilledColumn(n: Node, i: nat, f: Facts, first: Value, others: Value)
    requires OverColumns(n) && i < |n.children|
    ensures var v := EvalChild(n, i, Sparse(Filled(n, f, first, others), f));
            v == if f.column(n.children[i].text).nullability != NOT_NULL then Null else if i == 0 then first else others
  {
  }

  lemma ColumnFlag(n: Node, i: nat, d: nat, f: Facts)
    requires OverColumns(n) && i < |n.children| && d < MAX_DEPTH
    ensures ChildNull(n, i, d, f) == f.column(n.children[i].text).nullability
  {
  }

  lemma NullableColumn(n: Node, i: nat, d: nat, f: Facts, first: Value, others: Value)
    requires OverColumns(n) && i < |n.children| && ChildNull(n, i, d, f) == NULLABLE
    ensures EvalChild(n, i, Sparse(Filled(n, f, first, others), f)) == Null
  {
  }

  /** Some row makes the expression NULL. */
  ghost predicate CanBeNull(n: Node, f: Facts) {
    exists env :: Respects(env, f) && Eval(n, env) == Null
  }

  lemma FilledWitness(n: Node, f: Facts, first: Value, others: Value)
    requires first != Null && others != Null && Eval(n, Sparse(Filled(n, f, first, others), f)) == Null
    ensures CanBeNull(n, f)
  {
    hide Respects, Eval, Sparse;
    SparseRespects(Filled(n, f, first, others), f);
  }

  lemma ConnectiveTight(n: Node, d: nat, f: Facts)
    requires OverColumns(n) && IsLoose(n) && n.kind.Binary? && NullOf(n, d, f) == NULLABLE
    ensures CanBeNull(n, f)
  {
    hide Sparse, Filled, Combine, Fold, HasDatePart;
    var v := Bool(n.kind.bin.And?);
    var env := Sparse(Filled(n, f, v, v), f);
    CombineNullable([ChildNull(n, 0, d + 1, f), ChildNull(n, 1, d + 1, f)]);
    forall i: nat | i < 2 ensures ChildNull(n, i, d + 1, f) == NULLABLE ==> EvalChild(n, i, env) == Null
      ensures EvalChild(n, i, env) == Null || EvalChild(n, i, env) == v
    {
      FilledColumn(n, i, f, v, v);
      if ChildNull(n, i, d + 1, f) == NULLABLE {
        NullableColumn(n, i, d + 1, f, v, v);
      }
    }
    FilledWitness(n, f, v, v);
  }

  lemma BetweenTight(n: Node, d: nat, f: Facts)
    requires OverColumns(n) && IsLoose(n) && n.kind.Between? && NullOf(n, d, f) == NULLABLE
    ensures CanBeNull(n, f)
  {
    hide Sparse, Filled, Combine;
    var v := Int(0);
    var env := Sparse(Filled(n, f, v, v), f);
    CombineNullable([ChildNull(n, 0, d + 1, f), ChildNull(n, 1, d + 1, f), ChildNull(n, 2, d + 1, f)]);
    forall i: nat | i < 3 ensures ChildNull(n, i, d + 1, f) == NULLABLE ==> EvalChild(n, i, env) == Null
      ensures EvalChild(n, i, env) == Null || EvalChild(n, i, env) == v
    {
      FilledColumn(n, i, f, v, v);
      if ChildNull(n, i, d + 1, f) == NULLABLE {
        NullableColumn(n, i, d + 1, f, v, v);
      }
    }
    BetweenNull(EvalChild(n, 0, env), EvalChild(n, 1, env), EvalChild(n, 2, env), n.kind.negated, env);
    FilledWitness(n, f, v, v);
  }

  lemma BetweenNull(x: Value, lo: Value, hi: Value, negated: bool, env: Env)
    requires (x == Null || x == Int(0)) && (lo == Null || lo == Int(0)) && (hi == Null || hi == Int(0)) && (x == Null || lo == Null || hi == Null)
    ensures Negated(negated, BetweenValue(x, lo, hi, env), env) == Null
  {
  }

  lemma {:induction false} InNull(x: Value, elems: seq<Value>, env: Env)
    requires x == Null || x == Int(0)
    requires forall i :: 0 <= i < |elems| ==> elems[i] == Null || elems[i] == Int(1)
    ensures InValue(x, elems, env) == if elems != [] && (x == Null || Null in elems) then Null else Bool(false)
  {
    if elems != [] {
      InNull(x, elems[1..], env);
      assert elems == [elems[0]] + elems[1..];
    }
  }

  lemma {:induction false} EvalAllAt(ns: seq<Node>, i: nat, env: Env)
    requires i < |ns|
    ensures EvalAll(ns, env)[i] == Eval(ns[i], env)
  {
    hide Eval;
    if i > 0 {
      EvalAllAt(ns[1..], i - 1, env);
    }
  }

  lemma {:induction false} NullsOfAt(ns: seq<Node>, d: nat, f: Facts)
    ensures |NullsOf(ns, d, f)| == |ns| && forall i :: 0 <= i < |ns| ==> NullsOf(ns, d, f)[i] == NullOf(ns[i], d, f)
  {
    hide NullOf;
    if ns != [] {
      NullsOfAt(ns[1..], d, f);
    }
  }

  lemma InTight(n: Node, d: nat, f: Facts)
    requires OverColumns(n) && IsLoose(n) && n.kind.In? && NullOf(n, d, f) == NULLABLE
    ensures CanBeNull(n, f)
  {
    hide Sparse, Filled, Combine, EvalAll, InValue, NullsOf;
    var env := Sparse(Filled(n, f, Int(0), Int(1)), f);
    var nulls, vs, elems := NullsOf(n.children, d + 1, f), EvalAll(n.children, env), EvalAll(n.children[1..], env);
    CombineNullable(nulls);
    NullsOfAt(n.children, d + 1, f);
    var k :| 0 <= k < |nulls| && nulls[k] == NULLABLE;
    assert ChildNull(n, k, d + 1, f) == NULLABLE;
    NullableColumn(n, k, d + 1, f, Int(0), Int(1));
    forall i | 0 <= i < |elems| ensures elems[i] == EvalChild(n, i + 1, env) && (elems[i] == Null || elems[i] == Int(1)) {
      EvalAllAt(n.children[1..], i, env);
      FilledColumn(n, i + 1, f, Int(0), Int(1));
    }
    FilledColumn(n, 0, f, Int(0), Int(1));
    assert Eval(n.children[0], env) == EvalChild(n, 0, env);
    if k > 0 {
      assert elems[k - 1] == Null;
    }
    InNull(Eval(n.children[0], env), elems, env);
    InValueOf(n, env);
    FilledWitness(n, f, Int(0), Int(1));
  }

  lemma InValueOf(n: Node, env: Env)
    requires n.kind.In? && n.children != []
    ensures Eval(n, env) == Negated(n.kind.negated, InValue(Eval(n.children[0], env), EvalAll(n.children[1..], env), env), env)
  {
  }

  // ----- Calls -----

  lemma {:induction false} ColumnArgs(ns: seq<Node>, d: nat, f: Facts, env: Env)
    requires forall i :: 0 <= i < |ns| ==> IsColumnNode(ns[i])
    ensures |EvalArgs(ns, env)| == |ns| && forall i :: 0 <= i < |ns| ==> EvalArgs(ns, env)[i] == env.column(ns[i].text)
    ensures |ArgNulls(ns, d, f)| == |ns|
    ensures d < MAX_DEPTH ==> forall i :: 0 <= i < |ns| ==> ArgNulls(ns, d, f)[i] == f.column(ns[i].text).nullability
  {
    if ns != [] {
      ColumnArgs(ns[1..], d, f, env);
    }
  }

  lemma {:induction false} AllNullArgs(vs: seq<Value>)
    requires forall i :: 0 <= i < |vs| ==> vs[i] == Null
    ensures FirstNonNull(vs) == Null && DropNulls(vs) == []
  {
    if vs != [] {
      AllNullArgs(vs[1..]);
    }
  }

  lemma DeepArgs(ns: seq<Node>, d: nat, f: Facts)
    requires d >= MAX_DEPTH && forall i :: 0 <= i < |ns| ==> IsColumnNode(ns[i])
    ensures forall i :: 0 <= i < |ArgNulls(ns, d, f)| ==> ArgNulls(ns, d, f)[i] == UNKNOWN_NULL
  {
  }

  /** COUNT and the calls that skip NULLs are known. */
  ghost predicate BuiltIns(f: Facts) {
    KnownByName(f) && forall name :: name == "count" || SkipsNulls(name) ==> KnownCall(f, name)
  }

  /** A call over columns recorded nullable is NULL in some row. */
  lemma CallTight(n: Node, d: nat, f: Facts)
    requires BuiltIns(f) && OverColumns(n) && IsLoose(n) && n.kind.FunctionCall? && NullOf(n, d, f) == NULLABLE
    ensures CanBeNull(n, f)
  {
    hide Sparse, Filled, Combine, Fold, EvalArgs, ArgNulls, ArgTypes, Eval, CallNullability;
    var name := Fold(n.text);
    if name == "nullif" {
      NullifTight(n, f);
    } else {
      var column := Filled(n, f, Int(0), Int(0));
      if IsGroupCall(n) {
        GroupNull(n, d, f, column);
      } else if f.signature(name, ArgTypes(n.children, d + 1, f)).known {
        KnownCallTight(n, d, f);
      } else {
        assert !KnownCall(f, name);
        UnknownCallNull(n, f, column);
      }
      FilledWitness(n, f, Int(0), Int(0));
    }
  }

  lemma NullifTight(n: Node, f: Facts)
    requires OverColumns(n) && IsLoose(n) && n.kind.FunctionCall? && Fold(n.text) == "nullif"
    ensures CanBeNull(n, f)
  {
    hide Fold, EvalArgs;
    var column := (c: string) => Int(0);
    var env := Sparse(column, f);
    SparseRespects(column, f);
    ColumnArgs(n.children, 0, f, env);
    NotAggregate();
    assert Eval(n, env) == Null;
  }

  lemma NotAggregate()
    ensures !IsAggregateName("nullif") && !IsCurrentTime("nullif")
  {
  }

  lemma GroupNull(n: Node, d: nat, f: Facts, column: string -> Value)
    requires BuiltIns(f) && n.kind.FunctionCall? && IsGroupCall(n) && !HasDatePart(n) && NullOf(n, d, f) == NULLABLE
    ensures Eval(n, Sparse(column, f)) == Null
  {
    hide Fold, ArgTypes, ArgNulls, Combine, IsAggregateName;
  }

  lemma UnknownCallNull(n: Node, f: Facts, column: string -> Value)
    requires n.kind.FunctionCall? && !IsGroupCall(n) && !HasDatePart(n) && Fold(n.text) != "nullif"
    requires !SkipsNulls(Fold(n.text)) && !KnownCall(f, Fold(n.text))
    ensures Eval(n, Sparse(column, f)) == Null
  {
    hide Fold, EvalArgs;
  }

  lemma KnownCallTight(n: Node, d: nat, f: Facts)
    requires OverColumns(n) && IsLoose(n) && n.kind.FunctionCall? && !IsGroupCall(n) && NullOf(n, d, f) == NULLABLE && Fold(n.text) != "nullif"
    requires f.signature(Fold(n.text), ArgTypes(n.children, d + 1, f)).known
    ensures Eval(n, Sparse(Filled(n, f, Int(0), Int(0)), f)) == Null
  {
    hide Fold, ArgTypes, EvalArgs, ArgNulls, Combine, Sparse, CallValue;
    var name, env := Fold(n.text), Sparse(Filled(n, f, Int(0), Int(0)), f);
    var nulls, vs := ArgNulls(n.children, d + 1, f), EvalArgs(n.children, env);
    CombineOnly(name, nulls);
    NullableArguments(n, d, f);
    if SkipsNulls(name) {
      AllNullArgs(vs);
    } else {
      var i :| 0 <= i < |vs| && vs[i] == Null;
    }
    CallOf(n, env);
    NullCall(name, vs, Filled(n, f, Int(0), Int(0)), f);
  }

  /** A nullable argument is NULL; where NULLs are skipped and no argument is NOT NULL, all are. */
  lemma NullableArguments(n: Node, d: nat, f: Facts)
    requires OverColumns(n) && NULLABLE in ArgNulls(n.children, d + 1, f)
    ensures var vs := EvalArgs(n.children, Sparse(Filled(n, f, Int(0), Int(0)), f));
            && (exists i :: 0 <= i < |vs| && vs[i] == Null)
            && (NOT_NULL !in ArgNulls(n.children, d + 1, f) ==> forall i :: 0 <= i < |vs| ==> vs[i] == Null)
  {
    hide EvalArgs, ArgNulls, Sparse, Filled;
    var env := Sparse(Filled(n, f, Int(0), Int(0)), f);
    var nulls, vs := ArgNulls(n.children, d + 1, f), EvalArgs(n.children, env);
    ColumnArgs(n.children, d + 1, f, env);
    if d + 1 >= MAX_DEPTH {
      DeepArgs(n.children, d + 1, f);
    }
    forall i: nat | i < |n.children| ensures nulls[i] in nulls && (nulls[i] != NOT_NULL ==> vs[i] == Null) {
      FilledColumn(n, i, f, Int(0), Int(0));
      ArgIsChild(n, i, env);
    }
    var k :| 0 <= k < |nulls| && nulls[k] == NULLABLE;
    assert vs[k] == Null;
  }

  lemma ArgIsChild(n: Node, i: nat, env: Env)
    requires OverColumns(n) && i < |n.children|
    ensures EvalChild(n, i, env) == env.column(n.children[i].text)
  {
  }

  lemma CombineOnly(name: string, nulls: seq<int>)
    requires CallNullability(name, nulls) == NULLABLE && !IsAggregateName(name) && name != "nullif"
    ensures NULLABLE in nulls && !IsCurrentTime(name) && (SkipsNulls(name) ==> NOT_NULL !in nulls)
  {
  }

  lemma CallOf(n: Node, env: Env)
    requires n.kind.FunctionCall? && !IsGroupCall(n) && !HasDatePart(n)
    ensures Eval(n, env) == CallValue(Fold(n.text), EvalArgs(n.children, env), env)
  {
    hide CallValue, EvalArgs, Fold;
  }

  lemma NullCall(name: string, vs: seq<Value>, column: string -> Value, f: Facts)
    requires !IsCurrentTime(name) && name != "nullif" && exists i :: 0 <= i < |vs| && vs[i] == Null
    requires SkipsNulls(name) ==> FirstNonNull(vs) == Null && DropNulls(vs) == []
    ensures CallValue(name, vs, Sparse(column, f)) == Null
  {
    hide FirstNonNull, DropNulls, Sparse, IsCurrentTime;
    SparseNull(name, vs, column, f);
    if SkipsNulls(name) {
      assert name == "coalesce" || name == "greatest" || name == "least";
    }
  }

  lemma SparseNull(name: string, vs: seq<Value>, column: string -> Value, f: Facts)
    requires exists i :: 0 <= i < |vs| && vs[i] == Null
    ensures Sparse(column, f).apply(FunctionCall, name, vs) == Null
  {
    var i :| 0 <= i < |vs| && vs[i] == Null;
    assert !NoNulls(vs);
  }

  // ----- CASE -----

  /** A searched CASE over columns: WHENs with a guard and a result, the guards different columns
      that are no results, and at most one ELSE, at the end. */
  predicate IsColumnCase(n: Node) {
    && n.kind.Case? && !IsSimpleCase(n)
    && (forall i :: 0 <= i < |n.children| ==> if IsWhen(n.children[i]) then |n.children[i].children| == 2 && IsColumnNode(n.children[i].children[0]) && IsColumnNode(n.children[i].children[1])
                                              else i == |n.children| - 1 && IsColumnNode(n.children[i]))
    && (forall i, j :: 0 <= i < j < |n.children| && IsWhen(n.children[i]) && IsWhen(n.children[j]) ==> n.children[i].children[0].text != n.children[j].children[0].text)
    && forall i, j :: 0 <= i < |n.children| && 0 <= j < |n.children| && IsWhen(n.children[i]) ==> n.children[i].children[0].text != ResultText(n.children[j])
  }

  function ResultText(arm: Node): string {
    if IsWhen(arm) then (if |arm.children| > 1 then arm.children[1].text else "") else arm.text
  }

  predicate IsGuardText(n: Node, c: string) {
    exists i :: 0 <= i < |n.children| && IsWhen(n.children[i]) && n.children[i].children != [] && n.children[i].children[0].text == c
  }

  /** The guard of arm `k` is TRUE, every other guard FALSE, and nullable results are NULL. */
  ghost function Picking(n: Node, k: nat, f: Facts): string -> Value {
    (c: string) =>
      if k < |n.children| && IsWhen(n.children[k]) && n.children[k].children != [] && n.children[k].children[0].text == c then Bool(true)
      else if IsGuardText(n, c) then Bool(false)
      else if f.column(c).nullability == NOT_NULL then Int(1) else Null
  }

  lemma {:induction false} ArmsPick(n: Node, i: nat, k: nat, env: Env)
    requires i <= k <= |n.children|
    requires forall j :: i <= j < k ==> IsWhen(n.children[j]) && EvalChild(n.children[j], 0, env) != Bool(true)
    requires k < |n.children| && IsWhen(n.children[k]) ==> EvalChild(n.children[k], 0, env) == Bool(true)
    ensures EvalArms(n.children[i..], None, env) ==
            if k == |n.children| then Null else if IsWhen(n.children[k]) then EvalChild(n.children[k], 1, env) else Eval(n.children[k], env)
    decreases k - i
  {
    hide Eval, EvalChild, IsWhen;
    if i < |n.children| {
      assert n.children[i..][0] == n.children[i] && n.children[i..][1..] == n.children[i + 1..];
      if i < k {
        ArmsPick(n, i + 1, k, env);
      }
    }
  }

  lemma {:induction false} ArmNullsAt(arms: seq<Node>, d: nat, f: Facts)
    ensures |ArmNulls(arms, d, f)| == |arms|
    ensures forall i :: 0 <= i < |arms| ==> ArmNulls(arms, d, f)[i] == if IsWhen(arms[i]) then ChildNull(arms[i], 1, d, f) else NullOf(arms[i], d, f)
  {
    hide NullOf, ChildNull;
    if arms != [] {
      ArmNullsAt(arms[1..], d, f);
    }
  }

  lemma PickedGuards(n: Node, k: nat, f: Facts)
    requires IsColumnCase(n) && k <= |n.children|
    ensures var env := Sparse(Picking(n, k, f), f);
            forall j :: 0 <= j < |n.children| && IsWhen(n.children[j]) ==> EvalChild(n.children[j], 0, env) == Bool(j == k)
  {
    var env := Sparse(Picking(n, k, f), f);
    forall j | 0 <= j < |n.children| && IsWhen(n.children[j]) ensures EvalChild(n.children[j], 0, env) == Bool(j == k) {
      assert IsGuardText(n, n.children[j].children[0].text);
    }
  }

  lemma PickedResult(n: Node, k: nat, d: nat, f: Facts)
    requires IsColumnCase(n) && k < |n.children|
    requires (if IsWhen(n.children[k]) then ChildNull(n.children[k], 1, d, f) else NullOf(n.children[k], d, f)) == NULLABLE
    ensures var env := Sparse(Picking(n, k, f), f);
            (if IsWhen(n.children[k]) then EvalChild(n.children[k], 1, env) else Eval(n.children[k], env)) == Null
  {
    assert !IsGuardText(n, ResultText(n.children[k]));
  }

  lemma PickingRespects(n: Node, k: nat, f: Facts)
    ensures Respects(Sparse(Picking(n, k, f), f), f)
  {
    SparseRespects(Picking(n, k, f), f);
  }

  /** A CASE recorded nullable is NULL in some row: the one that takes a nullable result, or no
      arm at all. */
  lemma CaseTight(n: Node, d: nat, f: Facts)
    requires IsColumnCase(n) && NullOf(n, d, f) == NULLABLE
    ensures CanBeNull(n, f)
  {
    hide Sparse, Picking, Respects, ArmNulls, Combine, EvalArms, EvalChild;
    var nulls := ArmNulls(n.children, d + 1, f);
    ArmNullsAt(n.children, d + 1, f);
    var k := |n.children|;
    if HasElse(n.children) {
      CombineNullable(nulls);
      k :| 0 <= k < |nulls| && nulls[k] == NULLABLE;
      PickedResult(n, k, d + 1, f);
    }
    var env := Sparse(Picking(n, k, f), f);
    PickingRespects(n, k, f);
    PickedGuards(n, k, f);
    ArmsPick(n, 0, k, env);
    assert n.children[0..] == n.children;
    assert Eval(n, env) == EvalArms(n.children, None, env);
  }

  /** Over columns, what is recorded nullable can be NULL, whatever the operator. */
  lemma OperatorIsTight(n: Node, d: nat, f: Facts)
    requires BuiltIns(f) && ((OverColumns(n) && IsLoose(n)) || IsColumnCase(n)) && NullOf(n, d, f) == NULLABLE
    ensures CanBeNull(n, f)
  {
    hide BuiltIns, OverColumns, IsColumnCase, NullOf, CanBeNull, Fold;
    if IsColumnCase(n) {
      CaseTight(n, d, f);
    } else {
      match n.kind {
        case Binary(_) => ConnectiveTight(n, d, f);
        case In(_) => InTight(n, d, f);
        case Between(_) => BetweenTight(n, d, f);
        case FunctionCall => CallTight(n, d, f);
      }
    }
  }

  /** So over flagged columns the record is exact: NOT NULL if and only if the expression is NULL
      in no row. */
  lemma OperatorIsExact(n: Node, d: nat, f: Facts)
    requires BuiltIns(f) && ((OverColumns(n) && IsLoose(n)) || IsColumnCase(n)) && Flagged(n, d, f) && Recognised(n, f)
    ensures NullOf(n, d, f) == NOT_NULL <==> !CanBeNull(n, f)
  {
    hide BuiltIns, OverColumns, IsColumnCase, IsLoose, NullOf, Flagged, Recognised, Respects, Eval;
    FlagIsDecided(n, d, f);
    if NullOf(n, d, f) == NOT_NULL {
      forall env | Respects(env, f) ensures Eval(n, env) != Null {
        NotNullIsSound(n, d, f, env);
      }
    } else {
      OperatorIsTight(n, d, f);
    }
  }

  // ----- What is never NULL whatever its parts are -----

  /** No expression of this kind is ever NULL. */
  ghost predicate NeverNull(k: Kind, text: string, f: Facts) {
    forall parts: seq<Node>, env :: Respects(env, f) ==> Eval(Node(k, text, parts), env) != Null
  }

  /** Without its operands an expression is NULL, if its kind allows that at all. */
  lemma BareIsNull(k: Kind, text: string, f: Facts)
    requires !k.FunctionCall? && (k.ColumnRef? ==> f.column(text).nullability != NOT_NULL)
    requires !k.IntegerLiteral? && !k.FloatLiteral? && !k.StringLiteral? && !k.BooleanLiteral? && !k.IntervalLiteral? && !k.DateTimeLiteral?
    requires !k.IsNull? && !k.BooleanTest? && !k.ArrayConstructor? && !k.Other?
    requires (k.Binary? ==> !k.bin.DistinctFrom?) && (k.Unary? ==> !k.un.Exists?)
    ensures Eval(Node(k, text, []), Sparse(Emptied(f), f)) == Null
  {
    hide Fold, Integral, StripQuotes;
    assert !NoNulls([Null]) && !NoNulls([Null, Null]) by { NullsNotNone([Null]); NullsNotNone([Null, Null]); }
    assert k.Case? ==> EvalArms([], None, Sparse(Emptied(f), f)) == Null;
  }

  /** An expression that is never NULL for its kind alone, a predicate that tests for NULL, a
      literal or an array, is recorded NOT NULL. */
  lemma NeverNullIsRecorded(n: Node, d: nat, f: Facts)
    requires d < MAX_DEPTH && !n.kind.FunctionCall? && !n.kind.Other?
    ensures NeverNull(n.kind, n.text, f) ==> NullOf(n, d, f) == NOT_NULL
  {
    hide Eval, Respects, Sparse, Combine, CallNullability;
    if NullOf(n, d, f) != NOT_NULL {
      BareIsNull(n.kind, n.text, f);
      SparseRespects(Emptied(f), f);
      assert Eval(Node(n.kind, n.text, []), Sparse(Emptied(f), f)) == Null;
    }
  }
}
