/** Nullability of set operations over whole trees of them. */
module SetOps {
  import opened Wrappers
  import opened Semantics

  datatype Operator = Union | Intersect | Except

  /** A query with the nullability of its columns, or a set operation over branches. */
  datatype Tree = Leaf(nullable: seq<bool>) | Node(op: Operator, branches: seq<Tree>)

  type Row = seq<Value>

  /** The rows of every leaf; a leaf is known by its position in the tree. */
  type Contents = (seq<nat>, Row) -> bool

  // ----- What the analyzer reports -----

  /** One column: a UNION row may come from any branch, an INTERSECT row comes from every
      branch, an EXCEPT row from the left one. */
  function CombineColumn(op: Operator, a: bool, b: bool): bool {
    match op case Union => a || b case Intersect => a && b case Except => a
  }

  function Combine(op: Operator, acc: seq<bool>, branch: seq<bool>): (r: seq<bool>)
    ensures |r| == |acc|
  {
    if |acc| != |branch| then acc
    else seq(|acc|, j requires 0 <= j < |acc| => CombineColumn(op, acc[j], branch[j]))
  }

  function Claims(t: Tree): seq<bool>
    decreases t, 1
  {
    match t
    case Leaf(nullable) => nullable
    case Node(op, branches) => if branches == [] then [] else Folded(t, |branches|)
  }

  /** The first `k` branches folded from the left; a branch of another arity is skipped. */
  function Folded(t: Tree, k: nat): seq<bool>
    requires t.Node? && 0 < k <= |t.branches|
    decreases t, 0, k
  {
    if k == 1 then Claims(t.branches[0]) else Combine(t.op, Folded(t, k - 1), Claims(t.branches[k - 1]))
  }

  method AnalyzeSetOp(t: Tree) returns (nullable: seq<bool>)
    ensures nullable == Claims(t)
    decreases t
  {
    hide Combine;
    if t.Leaf? {
      return t.nullable;
    }
    if t.branches == [] {
      return [];
    }
    nullable := AnalyzeSetOp(t.branches[0]);
    for k := 1 to |t.branches|
      invariant nullable == Folded(t, k)
    {
      var branch := AnalyzeSetOp(t.branches[k]);
      nullable := CombineBranch(t.op, nullable, branch);
    }
  }

  method CombineBranch(op: Operator, acc: seq<bool>, branch: seq<bool>) returns (r: seq<bool>)
    ensures r == Combine(op, acc, branch)
  {
    r := acc;
    if |acc| != |branch| {
      return;
    }
    for j := 0 to |acc|
      invariant |r| == |acc| && forall i :: 0 <= i < |acc| ==> r[i] == if i < j then Combine(op, acc, branch)[i] else acc[i]
    {
      if op.Intersect? {
        r := r[j := r[j] && branch[j]];
      } else if !op.Except? {
        r := r[j := r[j] || branch[j]];
      }
    }
  }

  // ----- What the rows are -----

  /** Is the row in the result? NULL matches NULL here. */
  predicate Member(t: Tree, path: seq<nat>, contents: Contents, row: Row)
    decreases t, 1
  {
    match t
    case Leaf(_) => contents(path, row)
    case Node(_, branches) => branches != [] && MemberOfFirst(t, |branches|, path, contents, row)
  }

  predicate MemberOfFirst(t: Tree, k: nat, path: seq<nat>, contents: Contents, row: Row)
    requires t.Node? && 0 < k <= |t.branches|
    decreases t, 0, k
  {
    if k == 1 then Member(t.branches[0], path + [0], contents, row)
    else
      var before, here := MemberOfFirst(t, k - 1, path, contents, row), Member(t.branches[k - 1], path + [k - 1], contents, row);
      match t.op case Union => before || here case Intersect => before && here case Except => before && !here
  }

  /** Every leaf has `n` columns. */
  predicate HasArity(t: Tree, n: nat) {
    match t
    case Leaf(nullable) => |nullable| == n
    case Node(_, branches) => branches != [] && forall b <- branches :: HasArity(b, n)
  }

  /** The rows of each leaf keep what the leaf claims. */
  ghost predicate Honest(t: Tree, path: seq<nat>, contents: Contents) {
    match t
    case Leaf(nullable) =>
      forall row :: contents(path, row) ==> |row| == |nullable| && forall j :: 0 <= j < |row| && !nullable[j] ==> row[j] != Null
    case Node(_, branches) => forall k: nat :: k < |branches| ==> Honest(branches[k], path + [k], contents)
  }

  // ----- Soundness -----

  lemma {:induction false} ClaimsArity(t: Tree, n: nat)
    requires HasArity(t, n)
    ensures |Claims(t)| == n
    decreases t, 1
  {
    if t.Node? {
      FoldedArity(t, |t.branches|, n);
    }
  }

  lemma {:induction false} FoldedArity(t: Tree, k: nat, n: nat)
    requires t.Node? && HasArity(t, n) && 0 < k <= |t.branches|
    ensures |Folded(t, k)| == n
    decreases t, 0, k
  {
    if k == 1 {
      ClaimsArity(t.branches[0], n);
    } else {
      FoldedArity(t, k - 1, n);
    }
  }

  /** The row keeps the claims. */
  predicate Keeps(row: Row, claims: seq<bool>) {
    |row| == |claims| && forall j :: 0 <= j < |row| && !claims[j] ==> row[j] != Null
  }

  /** If every leaf keeps its claims, no row of the whole tree is NULL in a column reported NOT
      NULL. */
  lemma {:induction false} ClaimsAreSound(t: Tree, n: nat, path: seq<nat>, contents: Contents, row: Row)
    requires HasArity(t, n) && Honest(t, path, contents) && Member(t, path, contents, row)
    ensures Keeps(row, Claims(t))
    decreases t, 1
  {
    if t.Node? {
      FoldIsSound(t, |t.branches|, n, path, contents, row);
    }
  }

  lemma CombineKeeps(op: Operator, a: seq<bool>, b: seq<bool>, row: Row)
    requires |a| == |b|
    ensures op.Union? && (Keeps(row, a) || Keeps(row, b)) ==> Keeps(row, Combine(op, a, b))
    ensures op.Intersect? && Keeps(row, a) && Keeps(row, b) ==> Keeps(row, Combine(op, a, b))
    ensures op.Except? && Keeps(row, a) ==> Keeps(row, Combine(op, a, b))
  {
  }

  lemma {:induction false} FoldIsSound(t: Tree, k: nat, n: nat, path: seq<nat>, contents: Contents, row: Row)
    requires t.Node? && HasArity(t, n) && 0 < k <= |t.branches|
    requires Honest(t, path, contents) && MemberOfFirst(t, k, path, contents, row)
    ensures Keeps(row, Folded(t, k))
    decreases t, 0, k
  {
    hide Keeps, Combine, Claims, Member;
    var last := t.branches[k - 1];
    assert HasArity(last, n) && Honest(last, path + [k - 1], contents);
    if Member(last, path + [k - 1], contents, row) {
      ClaimsAreSound(last, n, path + [k - 1], contents, row);
    }
    if k > 1 {
      FoldedArity(t, k - 1, n);
      ClaimsArity(last, n);
      if MemberOfFirst(t, k - 1, path, contents, row) {
        FoldIsSound(t, k - 1, n, path, contents, row);
      }
      CombineKeeps(t.op, Folded(t, k - 1), Claims(last), row);
    }
  }

  // ----- Exactness -----

  /** NULL in column `j` only. */
  function Witness(n: nat, j: nat): Row {
    seq(n, i => if i == j then Null else Int(1))
  }

  /** Is the leaf at `at` to hold the witness: nullable in `j`, and right of no EXCEPT? */
  predicate Chosen(t: Tree, path: seq<nat>, j: nat, at: seq<nat>)
    decreases t
  {
    match t
    case Leaf(nullable) => at == path && j < |nullable| && nullable[j]
    case Node(op, branches) =>
      && |at| > |path| && at[|path|] < |branches| && (op.Except? ==> at[|path|] == 0)
      && Chosen(branches[at[|path|]], path + [at[|path|]], j, at)
  }

  /** Below `path` the leaves hold the witness exactly where chosen. */
  ghost predicate HoldsChosen(t: Tree, path: seq<nat>, contents: Contents, n: nat, j: nat) {
    forall at, row :: path <= at ==> (contents(at, row) <==> row == Witness(n, j) && Chosen(t, path, j, at))
  }

  ghost predicate HoldsNothing(path: seq<nat>, contents: Contents) {
    forall at, row :: path <= at ==> !contents(at, row)
  }

  lemma BelowChild(path: seq<nat>, k: nat, at: seq<nat>)
    requires path + [k] <= at
    ensures path <= at && |at| > |path| && at[|path|] == k
  {
    assert at[|path|] == (path + [k])[|path|];
  }

  lemma ChildHolds(t: Tree, path: seq<nat>, contents: Contents, n: nat, j: nat, k: nat)
    requires t.Node? && k < |t.branches| && HoldsChosen(t, path, contents, n, j)
    ensures !(t.op.Except? && k > 0) ==> HoldsChosen(t.branches[k], path + [k], contents, n, j)
    ensures t.op.Except? && k > 0 ==> HoldsNothing(path + [k], contents)
  {
    hide Witness;
    forall at, row | path + [k] <= at
      ensures contents(at, row) <==> row == Witness(n, j) && !(t.op.Except? && k > 0) && Chosen(t.branches[k], path + [k], j, at)
    {
      BelowChild(path, k, at);
    }
  }

  lemma NothingBelow(path: seq<nat>, k: nat, contents: Contents)
    requires HoldsNothing(path, contents)
    ensures HoldsNothing(path + [k], contents)
  {
    forall at, row | path + [k] <= at ensures !contents(at, row) {
      BelowChild(path, k, at);
    }
  }

  lemma {:induction false} NothingIsMember(t: Tree, path: seq<nat>, contents: Contents, row: Row)
    requires HoldsNothing(path, contents)
    ensures !Member(t, path, contents, row)
    decreases t, 1
  {
    if t.Node? && t.branches != [] {
      NothingInFirst(t, |t.branches|, path, contents, row);
    }
  }

  lemma {:induction false} NothingInFirst(t: Tree, k: nat, path: seq<nat>, contents: Contents, row: Row)
    requires t.Node? && 0 < k <= |t.branches| && HoldsNothing(path, contents)
    ensures !MemberOfFirst(t, k, path, contents, row)
    decreases t, 0, k
  {
    NothingBelow(path, k - 1, contents);
    NothingIsMember(t.branches[k - 1], path + [k - 1], contents, row);
    if k > 1 {
      NothingInFirst(t, k - 1, path, contents, row);
    }
  }

  lemma {:induction false} NothingIsHonest(t: Tree, path: seq<nat>, contents: Contents)
    requires HoldsNothing(path, contents)
    ensures Honest(t, path, contents)
  {
    if t.Node? {
      forall k: nat | k < |t.branches| ensures Honest(t.branches[k], path + [k], contents) {
        NothingBelow(path, k, contents);
        NothingIsHonest(t.branches[k], path + [k], contents);
      }
    }
  }

  lemma {:induction false} ChosenIsHonest(t: Tree, path: seq<nat>, contents: Contents, n: nat, j: nat)
    requires HasArity(t, n) && HoldsChosen(t, path, contents, n, j)
    ensures Honest(t, path, contents)
  {
    if t.Node? {
      forall k: nat | k < |t.branches| ensures Honest(t.branches[k], path + [k], contents) {
        ChildHolds(t, path, contents, n, j, k);
        if t.op.Except? && k > 0 {
          NothingIsHonest(t.branches[k], path + [k], contents);
        } else {
          ChosenIsHonest(t.branches[k], path + [k], contents, n, j);
        }
      }
    }
  }

  lemma {:induction false} WitnessIsMember(t: Tree, path: seq<nat>, contents: Contents, n: nat, j: nat)
    requires HasArity(t, n) && j < n && HoldsChosen(t, path, contents, n, j)
    ensures |Claims(t)| == n && (Member(t, path, contents, Witness(n, j)) <==> Claims(t)[j])
    decreases t, 2
  {
    ClaimsArity(t, n);
    if t.Node? {
      WitnessInFirst(t, |t.branches|, path, contents, n, j);
    }
  }

  lemma {:induction false} WitnessInBranch(t: Tree, k: nat, path: seq<nat>, contents: Contents, n: nat, j: nat)
    requires t.Node? && HasArity(t, n) && j < n && k < |t.branches| && HoldsChosen(t, path, contents, n, j)
    ensures |Claims(t.branches[k])| == n
    ensures t.op.Except? && k > 0 ==> !Member(t.branches[k], path + [k], contents, Witness(n, j))
    ensures !(t.op.Except? && k > 0) ==> (Member(t.branches[k], path + [k], contents, Witness(n, j)) <==> Claims(t.branches[k])[j])
    decreases t, 0
  {
    hide HoldsChosen, HoldsNothing, Member, Claims, Witness;
    ChildHolds(t, path, contents, n, j, k);
    ClaimsArity(t.branches[k], n);
    if t.op.Except? && k > 0 {
      NothingIsMember(t.branches[k], path + [k], contents, Witness(n, j));
    } else {
      WitnessIsMember(t.branches[k], path + [k], contents, n, j);
    }
  }

  lemma {:induction false} WitnessInFirst(t: Tree, k: nat, path: seq<nat>, contents: Contents, n: nat, j: nat)
    requires t.Node? && HasArity(t, n) && j < n && 0 < k <= |t.branches| && HoldsChosen(t, path, contents, n, j)
    ensures |Folded(t, k)| == n && (MemberOfFirst(t, k, path, contents, Witness(n, j)) <==> Folded(t, k)[j])
    decreases t, 1, k
  {
    hide HoldsChosen, Member, Claims, Witness, HasArity;
    WitnessInBranch(t, k - 1, path, contents, n, j);
    if k > 1 {
      WitnessInFirst(t, k - 1, path, contents, n, j);
    }
  }

  /** A column is reported nullable exactly when leaves keeping their claims can make it NULL in
      some row of the result. */
  lemma ClaimsAreExact(t: Tree, n: nat, j: nat)
    requires HasArity(t, n) && j < n
    ensures |Claims(t)| == n
    ensures Claims(t)[j] <==> exists contents: Contents, row: Row ::
              Honest(t, [], contents) && Member(t, [], contents, row) && j < |row| && row[j] == Null
  {
    hide HasArity, Member, Honest, Claims;
    ClaimsArity(t, n);
    var contents: Contents := (at: seq<nat>, row: Row) => row == Witness(n, j) && Chosen(t, [], j, at);
    assert HoldsChosen(t, [], contents, n, j);
    WitnessIsMember(t, [], contents, n, j);
    ChosenIsHonest(t, [], contents, n, j);
    forall any: Contents, row: Row | Honest(t, [], any) && Member(t, [], any, row) && j < |row| && row[j] == Null ensures Claims(t)[j] {
      ClaimsAreSound(t, n, [], any, row);
    }
  }
}
