/** SQL types, the coercion rules, and the reconciliation of a list of branch types. */
module Types {

  datatype DataType =
    | Unknown | Boolean | TinyInt | SmallInt | Integer | BigInt | Decimal | Real | Double
    | Char | VarChar | Text | Date | Time | Timestamp | Interval | Blob | Array | Struct | Map | NullType | Any

  datatype Category = Numeric | String | Temporal | BooleanCategory | Wildcard | OtherCategory

  function CategoryOf(t: DataType): Category {
    match t
    case TinyInt | SmallInt | Integer | BigInt | Decimal | Real | Double => Numeric
    case Char | VarChar | Text => String
    case Date | Time | Timestamp | Interval => Temporal
    case Boolean => BooleanCategory
    case NullType | Unknown | Any => Wildcard
    case _ => OtherCategory
  }

  predicate IsNumeric(t: DataType) { CategoryOf(t) == Numeric }
  predicate IsWild(t: DataType) { CategoryOf(t) == Wildcard }
  predicate IsIntegerType(t: DataType) { t.TinyInt? || t.SmallInt? || t.Integer? || t.BigInt? }

  function Ladder(t: DataType): nat {
    match t
    case TinyInt => 1
    case SmallInt => 2
    case Integer => 3
    case BigInt => 4
    case Decimal => 5
    case Double => 6
    case _ => 0
  }

  /** The result type of arithmetic on two numbers; REAL is exact only with itself. */
  function PromoteNumeric(a: DataType, b: DataType): DataType {
    if !IsNumeric(a) || !IsNumeric(b) then Unknown
    else if a.Real? || b.Real? then (if a == b then Real else Double)
    else if Ladder(a) >= Ladder(b) then a else b
  }

  /** The common type of two branches; here REAL gives way to DOUBLE only. */
  function PromoteReconcile(a: DataType, b: DataType): DataType {
    if !IsNumeric(a) || !IsNumeric(b) then Unknown
    else if a.Real? || b.Real? then
      var other := if a.Real? then b else a;
      if other.Double? then Double else Real
    else PromoteNumeric(a, b)
  }

  datatype CoercionKind = Comparison | Arithmetic | UnionReconcile
  datatype CoercionStatus = Ok | ImplicitCoercion | Incompatible
  datatype Coercion = Coercion(status: CoercionStatus, type_: DataType)

  function Coerce(a: DataType, b: DataType, kind: CoercionKind): Coercion {
    var ca, cb := CategoryOf(a), CategoryOf(b);
    if kind.Arithmetic? && !((ca.Numeric? || ca.Wildcard?) && (cb.Numeric? || cb.Wildcard?)) then
      Coercion(Incompatible, Unknown)
    else if a == b then Coercion(Ok, a)
    else if ca.Wildcard? then Coercion(Ok, b)
    else if cb.Wildcard? then Coercion(Ok, a)
    else if ca.Numeric? && cb.Numeric? then
      Coercion(Ok, if kind.UnionReconcile? then PromoteReconcile(a, b) else PromoteNumeric(a, b))
    else if ca.String? && cb.String? then Coercion(Ok, Text)
    else if kind.Comparison? then Coercion(ImplicitCoercion, Boolean)
    else Coercion(Incompatible, Unknown)
  }

  // ----- Reconciling a list of branches -----

  datatype Reconciled = Reconciled(type_: DataType, mismatch: bool)

  function Absorb(r: Reconciled, t: DataType): Reconciled {
    var c := Coerce(r.type_, t, UnionReconcile);
    Reconciled(c.type_, r.mismatch || c.status.Incompatible?)
  }

  function ReconcileAll(types: seq<DataType>): Reconciled {
    if types == [] then Reconciled(Unknown, false)
    else Absorb(ReconcileAll(types[..|types| - 1]), types[|types| - 1])
  }

  /** The CASE branch loop, folding from Unknown. */
  method ReconcileBranches(types: seq<DataType>) returns (result: DataType, mismatch: bool)
    ensures Reconciled(result, mismatch) == ReconcileAll(types)
  {
    result, mismatch := Unknown, false;
    for i := 0 to |types|
      invariant Reconciled(result, mismatch) == ReconcileAll(types[..i])
    {
      assert types[..i + 1][..i] == types[..i];
      var r := Coerce(result, types[i], UnionReconcile);
      if r.status.Incompatible? {
        mismatch := true;
      }
      result := r.type_;
    }
    assert types[..|types|] == types;
  }

  /** The set-operation loop, folding from the first branch. */
  method ReconcileFromFirst(types: seq<DataType>) returns (result: DataType, mismatch: bool)
    requires types != []
    ensures Reconciled(result, mismatch) == ReconcileAll(types)
  {
    result, mismatch := types[0], false;
    assert types[..1][..0] == [];
    for i := 1 to |types|
      invariant Reconciled(result, mismatch) == ReconcileAll(types[..i])
    {
      assert types[..i + 1][..i] == types[..i];
      var r := Coerce(result, types[i], UnionReconcile);
      if r.status.Incompatible? {
        mismatch := true;
      }
      result := r.type_;
    }
    assert types[..|types|] == types;
  }

  // ----- The widening order -----

  /** A place for every type on a line: numbers by width, then strings with TEXT last, then
      the types that stand alone; wildcards are negative. */
  function Rank(t: DataType): int {
    match t
    case Unknown => -1 case NullType => -2 case Any => -3
    case TinyInt => 1 case SmallInt => 2 case Integer => 3 case BigInt => 4
    case Decimal => 5 case Real => 6 case Double => 7
    case Char => 11 case VarChar => 12 case Text => 13
    case Boolean => 21 case Date => 22 case Time => 23 case Timestamp => 24 case Interval => 25
    case Blob => 26 case Array => 27 case Struct => 28 case Map => 29
  }

  predicate NumberRank(x: int) { 1 <= x <= 7 }
  predicate StringRank(x: int) { 11 <= x <= 13 }

  predicate RankWidens(x: int, y: int) {
    x == y || (NumberRank(x) && NumberRank(y) && x <= y) || (StringRank(x) && y == 13)
  }

  /** `a` widens to `b`: numbers by width, strings to TEXT. */
  predicate Widens(a: DataType, b: DataType) {
    RankWidens(Rank(a), Rank(b))
  }

  /** Two types no branch list can hold together. */
  predicate Clash(a: DataType, b: DataType) {
    RankClash(Rank(a), Rank(b))
  }

  predicate RankClash(x: int, y: int) {
    && x > 0 && y > 0 && x != y
    && !(NumberRank(x) && NumberRank(y)) && !(StringRank(x) && StringRank(y))
  }

  ghost predicate HasClash(types: seq<DataType>) {
    exists i, j :: 0 <= i < |types| && 0 <= j < |types| && Clash(types[i], types[j])
  }

  ghost predicate HasSolid(types: seq<DataType>) {
    exists i :: 0 <= i < |types| && !IsWild(types[i])
  }

  ghost predicate IsBound(t: DataType, types: seq<DataType>) {
    !IsWild(t) && forall i :: 0 <= i < |types| && !IsWild(types[i]) ==> Widens(types[i], t)
  }

  /** `t` is the least type every non-wildcard branch widens to. */
  ghost predicate IsLeast(t: DataType, types: seq<DataType>) {
    IsBound(t, types) && forall u :: IsBound(u, types) ==> Widens(t, u)
  }

  lemma BoundsSnoc(types: seq<DataType>, t: DataType, u: DataType)
    ensures IsBound(u, types + [t]) <==> IsBound(u, types) && (IsWild(t) || Widens(t, u))
  {
    var all := types + [t];
    assert all[|types|] == t;
    assert forall i :: 0 <= i < |types| ==> all[i] == types[i];
  }

  lemma RankCategory(t: DataType)
    ensures IsNumeric(t) <==> NumberRank(Rank(t))
    ensures CategoryOf(t) == String <==> StringRank(Rank(t))
    ensures IsWild(t) <==> Rank(t) < 0
    ensures Rank(t) != 0
  {
  }

  lemma RankInjective(a: DataType, b: DataType)
    requires Rank(a) == Rank(b)
    ensures a == b
  {
  }

  /** Reconciling two numbers takes the wider. */
  lemma PromoteTakesWider(a: DataType, b: DataType)
    requires IsNumeric(a) && IsNumeric(b)
    ensures PromoteReconcile(a, b) == if Rank(a) >= Rank(b) then a else b
  {
    match a
    case TinyInt | SmallInt | Integer | BigInt | Decimal | Real | Double =>
      match b
      case TinyInt | SmallInt | Integer | BigInt | Decimal | Real | Double =>
  }

  /** A type clashes with whatever the types widening to it clash with. */
  lemma ClashWidens(a: DataType, b: DataType, t: DataType)
    requires !IsWild(a) && !IsWild(b) && Widens(a, b)
    ensures Clash(b, t) <==> Clash(a, t)
  {
    RankCategory(a);
    RankCategory(b);
    RankClashWidens(Rank(a), Rank(b), Rank(t));
  }

  lemma RankClashWidens(x: int, y: int, z: int)
    requires x > 0 && y > 0 && RankWidens(x, y)
    ensures RankClash(y, z) <==> RankClash(x, z)
  {
  }

  ghost predicate IsJoin(c: DataType, a: DataType, t: DataType) {
    RankIsJoin(Rank(c), Rank(a), Rank(t))
  }

  ghost predicate RankIsJoin(c: int, x: int, y: int) {
    && c > 0 && RankWidens(x, c) && RankWidens(y, c)
    && forall u :: RankWidens(x, u) && RankWidens(y, u) ==> RankWidens(c, u)
  }

  /** What a branch does to the type so far, by the categories of the two. */
  lemma CoerceByCategory(a: DataType, t: DataType)
    ensures IsWild(t) && !IsWild(a) ==> Coerce(a, t, UnionReconcile) == Coercion(Ok, a)
    ensures IsWild(a) ==> Coerce(a, t, UnionReconcile) == Coercion(Ok, t)
    ensures a == t ==> Coerce(a, t, UnionReconcile) == Coercion(Ok, a)
    ensures IsNumeric(a) && IsNumeric(t) && a != t ==>
              Coerce(a, t, UnionReconcile) == Coercion(Ok, PromoteReconcile(a, t))
    ensures CategoryOf(a) == String == CategoryOf(t) && a != t ==> Coerce(a, t, UnionReconcile) == Coercion(Ok, Text)
    ensures !IsWild(a) && !IsWild(t) && a != t && !(IsNumeric(a) && IsNumeric(t)) && !(CategoryOf(a) == String == CategoryOf(t)) ==>
              Coerce(a, t, UnionReconcile) == Coercion(Incompatible, Unknown)
  {
    hide CategoryOf, PromoteReconcile;
  }

  lemma RankJoins(x: int, y: int)
    requires x > 0 && y > 0
    ensures x == y ==> RankIsJoin(x, x, y)
    ensures NumberRank(x) && NumberRank(y) ==> RankIsJoin(if x >= y then x else y, x, y)
    ensures StringRank(x) && StringRank(y) && x != y ==> RankIsJoin(13, x, y)
  {
  }

  lemma RankOfText()
    ensures Rank(Text) == 13
  {
  }

  /** One step of the fold joins two types in the widening order. */
  lemma CoerceIsJoin(a: DataType, t: DataType)
    ensures Coerce(a, t, UnionReconcile).status.Incompatible? <==> Clash(a, t)
    ensures IsWild(t) && !IsWild(a) ==> Coerce(a, t, UnionReconcile).type_ == a
    ensures IsWild(a) ==> Coerce(a, t, UnionReconcile).type_ == t
    ensures !IsWild(a) && !IsWild(t) && !Clash(a, t) ==> IsJoin(Coerce(a, t, UnionReconcile).type_, a, t)
  {
    hide Rank, PromoteReconcile, CategoryOf, Coerce, IsWild, IsNumeric, RankIsJoin;
    RankCategory(a);
    RankCategory(t);
    RankOfText();
    CoerceByCategory(a, t);
    if Rank(a) == Rank(t) {
      RankInjective(a, t);
    }
    if Rank(a) > 0 && Rank(t) > 0 {
      RankJoins(Rank(a), Rank(t));
    }
    if IsNumeric(a) && IsNumeric(t) {
      PromoteTakesWider(a, t);
    }
  }

  lemma RankWidensTransitive(x: int, y: int, z: int)
    requires RankWidens(x, y) && RankWidens(y, z)
    ensures RankWidens(x, z)
  {
  }

  lemma RankWidensAntisymmetric(x: int, y: int)
    requires RankWidens(x, y) && RankWidens(y, x)
    ensures x == y
  {
  }

  lemma LeastAbsorbs(front: seq<DataType>, t: DataType, least: DataType)
    requires HasSolid(front) ==> IsLeast(least, front)
    requires !HasSolid(front) ==> IsWild(least)
    requires !Clash(least, t)
    requires HasSolid(front) || !IsWild(t)
    ensures IsLeast(Coerce(least, t, UnionReconcile).type_, front + [t])
  {
    hide Coerce, Clash, IsWild, Rank, RankWidens;
    var c := Coerce(least, t, UnionReconcile).type_;
    CoerceIsJoin(least, t);
    RankCategory(c);
    RankCategory(t);
    forall u ensures IsBound(u, front + [t]) <==> IsBound(u, front) && (IsWild(t) || Widens(t, u)) {
      BoundsSnoc(front, t, u);
    }
    if !IsWild(t) && HasSolid(front) {
      forall i | 0 <= i < |front| && !IsWild(front[i]) ensures Widens(front[i], c) {
        RankWidensTransitive(Rank(front[i]), Rank(least), Rank(c));
      }
    } else if !HasSolid(front) {
      WidensReflexive(t);
    }
  }

  lemma WidensReflexive(t: DataType)
    ensures Widens(t, t)
  {
  }

  /** The fold flags exactly the lists holding two clashing types; an unflagged list with a
      non-wildcard branch ends on its least common type. */
  lemma {:induction false} ReconcileIsLeast(types: seq<DataType>)
    ensures ReconcileAll(types).mismatch <==> HasClash(types)
    ensures !HasClash(types) && HasSolid(types) ==> IsLeast(ReconcileAll(types).type_, types)
    ensures !HasSolid(types) ==> IsWild(ReconcileAll(types).type_)
  {
    hide Coerce, IsLeast, HasClash, HasSolid, Clash;
    if types == [] {
      ReconcileOfNone();
    } else {
      var n := |types| - 1;
      var front, t := types[..n], types[n];
      assert types == front + [t];
      var least := ReconcileAll(front).type_;
      ReconcileIsLeast(front);
      ClashSnoc(front, t);
      SolidSnoc(front, t);
      CoerceIsJoin(least, t);
      if !HasClash(front) {
        LeastMeets(front, t, least);
        if !Clash(least, t) && (HasSolid(front) || !IsWild(t)) {
          LeastAbsorbs(front, t, least);
        }
      }
    }
  }

  lemma ReconcileOfNone()
    ensures !HasClash([]) && !HasSolid([]) && IsWild(ReconcileAll([]).type_)
  {
  }

  lemma SolidSnoc(front: seq<DataType>, t: DataType)
    ensures HasSolid(front + [t]) <==> HasSolid(front) || !IsWild(t)
  {
    var all := front + [t];
    assert all[|front|] == t;
    if HasSolid(front) {
      var i :| 0 <= i < |front| && !IsWild(front[i]);
      assert all[i] == front[i];
    }
  }

  lemma ClashSnoc(front: seq<DataType>, t: DataType)
    ensures HasClash(front + [t]) <==> HasClash(front) || exists i :: 0 <= i < |front| && Clash(front[i], t)
  {
    var all := front + [t];
    assert all[|front|] == t;
    assert forall i :: 0 <= i < |front| ==> all[i] == front[i];
    if HasClash(front) {
      var i, j :| 0 <= i < |front| && 0 <= j < |front| && Clash(front[i], front[j]);
      assert Clash(all[i], all[j]);
    }
    if i :| 0 <= i < |front| && Clash(front[i], t) {
      assert Clash(all[i], all[|front|]);
    }
  }

  /** A new branch clashes with the type so far exactly when it clashes with a branch. */
  lemma LeastMeets(front: seq<DataType>, t: DataType, least: DataType)
    requires if HasSolid(front) then IsLeast(least, front) else IsWild(least)
    ensures Clash(least, t) <==> exists i :: 0 <= i < |front| && Clash(front[i], t)
  {
    hide Widens, Clash;
    WildNeverClashes(t);
    forall i | 0 <= i < |front| && !IsWild(front[i]) ensures Clash(least, t) <==> Clash(front[i], t) {
      ClashWidens(front[i], least, t);
    }
    if HasSolid(front) && Clash(least, t) {
      var k :| 0 <= k < |front| && !IsWild(front[k]);
      assert Clash(front[k], t);
    }
  }

  lemma WildNeverClashes(t: DataType)
    ensures forall a :: IsWild(a) ==> !Clash(a, t)
  {
  }

  lemma SameElements(xs: seq<DataType>, ys: seq<DataType>, i: nat) returns (j: nat)
    requires multiset(xs) == multiset(ys) && i < |xs|
    ensures j < |ys| && ys[j] == xs[i]
  {
    assert xs[i] in multiset(xs);
    assert xs[i] in ys;
    j :| j < |ys| && ys[j] == xs[i];
  }

  lemma ClashPermuted(xs: seq<DataType>, ys: seq<DataType>)
    requires multiset(xs) == multiset(ys) && HasClash(xs)
    ensures HasClash(ys)
  {
    var i, j :| 0 <= i < |xs| && 0 <= j < |xs| && Clash(xs[i], xs[j]);
    var i' := SameElements(xs, ys, i);
    var j' := SameElements(xs, ys, j);
    assert Clash(ys[i'], ys[j']);
  }

  lemma BoundPermuted(xs: seq<DataType>, ys: seq<DataType>, t: DataType)
    requires multiset(xs) == multiset(ys) && IsBound(t, xs)
    ensures IsBound(t, ys)
  {
    forall i | 0 <= i < |ys| && !IsWild(ys[i]) ensures Widens(ys[i], t) {
      var _ := SameElements(ys, xs, i);
    }
  }

  /** Reconciliation does not depend on branch order: the mismatch flag never does, and the
      common type does not once some branch has a type of its own. */
  lemma OrderIndependent(xs: seq<DataType>, ys: seq<DataType>)
    requires multiset(xs) == multiset(ys)
    ensures ReconcileAll(xs).mismatch == ReconcileAll(ys).mismatch
    ensures !ReconcileAll(xs).mismatch && HasSolid(xs) ==> ReconcileAll(xs).type_ == ReconcileAll(ys).type_
  {
    hide Clash, ReconcileAll, Rank, RankWidens;
    ReconcileIsLeast(xs);
    ReconcileIsLeast(ys);
    if HasClash(xs) { ClashPermuted(xs, ys); }
    if HasClash(ys) { ClashPermuted(ys, xs); }
    if !HasClash(xs) && HasSolid(xs) {
      var k :| 0 <= k < |xs| && !IsWild(xs[k]);
      var _ := SameElements(xs, ys, k);
      BoundPermuted(xs, ys, ReconcileAll(xs).type_);
      BoundPermuted(ys, xs, ReconcileAll(ys).type_);
      RankWidensAntisymmetric(Rank(ReconcileAll(xs).type_), Rank(ReconcileAll(ys).type_));
      RankInjective(ReconcileAll(xs).type_, ReconcileAll(ys).type_);
    }
  }

  lemma {:induction false} WildKeepsLast(types: seq<DataType>)
    requires types != [] && !HasSolid(types)
    ensures ReconcileAll(types) == Reconciled(types[|types| - 1], false)
  {
    var n := |types| - 1;
    var front := types[..n];
    forall i | 0 <= i < |types| ensures IsWild(types[i]) {
    }
    if front != [] {
      WildKeepsLast(front);
    }
  }

  ghost predicate SameUnderPermutation(xs: seq<DataType>) {
    forall ys :: multiset(ys) == multiset(xs) ==> ReconcileAll(ys).type_ == ReconcileAll(xs).type_
  }

  predicate AllEqual(xs: seq<DataType>) {
    forall i, j :: 0 <= i < |xs| && 0 <= j < |xs| ==> xs[i] == xs[j]
  }

  /** The exact condition: an unflagged list has one common type under every permutation if and
      only if some branch is not a wildcard, or all its wildcards are the same one. */
  lemma OrderIndependenceIsExact(xs: seq<DataType>)
    requires !ReconcileAll(xs).mismatch
    ensures SameUnderPermutation(xs) <==> HasSolid(xs) || AllEqual(xs)
  {
    hide ReconcileAll, IsWild;
    if HasSolid(xs) {
      forall ys | multiset(ys) == multiset(xs) ensures ReconcileAll(ys).type_ == ReconcileAll(xs).type_ {
        OrderIndependent(xs, ys);
      }
    } else if AllEqual(xs) {
      forall ys | multiset(ys) == multiset(xs) ensures ReconcileAll(ys).type_ == ReconcileAll(xs).type_ {
        EqualWildcards(xs, ys);
      }
    } else {
      var last := |xs| - 1;
      var i :| 0 <= i < last && xs[i] != xs[last];
      var ys := xs[i := xs[last]][last := xs[i]];
      assert multiset(ys) == multiset(xs);
      SolidPermuted(ys, xs);
      WildKeepsLast(xs);
      WildKeepsLast(ys);
    }
  }

  lemma SolidPermuted(xs: seq<DataType>, ys: seq<DataType>)
    requires multiset(xs) == multiset(ys)
    ensures HasSolid(xs) ==> HasSolid(ys)
  {
    if HasSolid(xs) {
      var k :| 0 <= k < |xs| && !IsWild(xs[k]);
      var _ := SameElements(xs, ys, k);
    }
  }

  lemma EqualWildcards(xs: seq<DataType>, ys: seq<DataType>)
    requires multiset(xs) == multiset(ys) && !HasSolid(xs) && AllEqual(xs)
    ensures ReconcileAll(xs).type_ == ReconcileAll(ys).type_
  {
    assert |xs| == |multiset(xs)| == |multiset(ys)| == |ys|;
    if xs != [] {
      var k := SameElements(ys, xs, |ys| - 1);
      SolidPermuted(ys, xs);
      WildKeepsLast(xs);
      WildKeepsLast(ys);
    }
  }

  // ----- Temporal arithmetic -----

  datatype ArithOp = Add | Sub | Mul | Div | Mod

  datatype TemporalArith = NotTemporal | TemporalOk(type_: DataType) | TemporalInvalid

  function ElapsedType(t: DataType): DataType {
    if t.Date? then Integer else Interval
  }

  function TemporalArithmetic(a: DataType, b: DataType, op: ArithOp): TemporalArith {
    var ta, tb := CategoryOf(a) == Temporal, CategoryOf(b) == Temporal;
    if !ta && !tb then NotTemporal
    else if op.Mul? && ((a.Interval? && IsNumeric(b)) || (IsNumeric(a) && b.Interval?)) then TemporalOk(Interval)
    else if op.Div? && a.Interval? && IsNumeric(b) then TemporalOk(Interval)
    else if !op.Add? && !op.Sub? then TemporalInvalid
    else if a.Interval? && b.Interval? then TemporalOk(Interval)
    else if ta && !a.Interval? && b.Interval? then TemporalOk(a)
    else if a.Interval? && tb && !b.Interval? then (if op.Add? then TemporalOk(b) else TemporalInvalid)
    else if a.Date? && IsIntegerType(b) then TemporalOk(Date)
    else if IsIntegerType(a) && b.Date? && op.Add? then TemporalOk(Date)
    else if op.Sub? && ta && tb && a == b then TemporalOk(ElapsedType(a))
    else if ta && IsWild(b) then TemporalOk(a)
    else if IsWild(a) && tb then TemporalOk(if op.Add? then b else ElapsedType(b))
    else TemporalInvalid
  }

  /** The type inferred for `a op b`. */
  function ArithmeticType(a: DataType, b: DataType, op: ArithOp): DataType {
    match TemporalArithmetic(a, b, op)
    case TemporalOk(t) => t
    case TemporalInvalid => Unknown
    case NotTemporal =>
      if op.Mod? && (a.Real? || a.Double? || b.Real? || b.Double?) then Unknown
      else Coerce(a, b, Arithmetic).type_
  }
}
