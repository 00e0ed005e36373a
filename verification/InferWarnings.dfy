/** When the walk warns about constant arithmetic: exactly at the offending nodes it visits outside
    dead CASE arms, and a dead arm is one no row ever evaluates. */
module InferWarnings {
  import opened Wrappers
  import opened Numerals
  import opened Types
  import opened Ast
  import opened Semantics
  import opened Infer
  import opened InferWalk

  // ----- The walk as seen from one position -----

  /** How the walk reaches a node: at which depth, and whether warnings are suppressed there. */
  datatype Visit = Visit(node: Node, depth: nat, suppressed: bool)

  /** Is some arm before the k-th child certain to be taken? */
  predicate TakenBefore(n: Node, k: nat)
    requires k <= |n.children|
  {
    k > FirstArm(n) && (TakenBefore(n, k - 1) || TakenBy(n.children[k - 1], Operand(n)))
  }

  /** Is the k-th child an arm the walk takes for dead? */
  predicate DeadArm(n: Node, k: nat) {
    && n.kind.Case? && FirstArm(n) <= k < |n.children|
    && if IsWhen(n.children[k]) then ArmDead(n.children[k], Operand(n), TakenBefore(n, k)) else TakenBefore(n, k)
  }

  /** A WHEN is no expression of its own: its position belongs to the CASE around it. */
  predicate IsArmStep(n: Node, k: nat) {
    n.kind.Case? && FirstArm(n) <= k < |n.children| && IsWhen(n.children[k])
  }

  predicate IsOperand(n: Node, k: nat) {
    k < |n.children| && if n.kind.Case? then true else OperandsFrom(n) <= k < OperandsTo(n)
  }

  /** The state in which the walk reaches the node at `p`, if it does. */
  function Reach(n: Node, p: seq<nat>, d: nat, suppressed: bool): Option<Visit>
    decreases |p|
  {
    if d >= MAX_DEPTH then None
    else if p == [] then Some(Visit(n, d, suppressed))
    else if !IsOperand(n, p[0]) then None
    else if IsArmStep(n, p[0]) then
      if |p| > 1 && p[1] < 2 && p[1] < |n.children[p[0]].children|
      then Reach(n.children[p[0]].children[p[1]], p[2..], d + 1, suppressed || (p[1] == 1 && DeadArm(n, p[0])))
      else None
    else Reach(n.children[p[0]], p[1..], d + 1, suppressed || DeadArm(n, p[0]))
  }

  /** Does the node the walk reaches at `p` deserve the warning? */
  predicate Raises(c: Code, n: Node, p: seq<nat>, d: nat, suppressed: bool, f: Facts) {
    var v := Reach(n, p, d, suppressed);
    v.Some? && c in OwnCodes(v.value.node, v.value.depth, v.value.suppressed, f)
  }

  /** `w` is raised by the subtree at `path`. */
  predicate RaisedUnder(w: Warning, n: Node, path: seq<nat>, d: nat, suppressed: bool, f: Facts) {
    path <= w.path && Raises(w.code, n, w.path[|path|..], d, suppressed, f)
  }

  /** `w` lies strictly under `path`; `Next` is the child it lies in. */
  predicate Deeper(w: Warning, path: seq<nat>) {
    path <= w.path && |w.path| > |path|
  }

  function Next(w: Warning, path: seq<nat>): nat
    requires Deeper(w, path)
  {
    w.path[|path|]
  }

  predicate RaisedInChild(w: Warning, n: Node, path: seq<nat>, d: nat, suppressed: bool, f: Facts)
    requires Deeper(w, path)
  {
    var k := Next(w, path);
    k < |n.children| && RaisedUnder(w, n.children[k], path + [k], d, suppressed, f)
  }

  /** `w` is raised by the arm it lies in. */
  predicate RaisedInArm(w: Warning, n: Node, path: seq<nat>, d: nat, suppressed: bool, f: Facts)
    requires Deeper(w, path) && Next(w, path) < |n.children|
  {
    var k := Next(w, path);
    if IsWhen(n.children[k]) then
      && Deeper(w, path + [k]) && Next(w, path + [k]) < 2
      && RaisedInChild(w, n.children[k], path + [k], d, suppressed || (Next(w, path + [k]) == 1 && DeadArm(n, k)), f)
    else RaisedInChild(w, n, path, d, suppressed || DeadArm(n, k), f)
  }

  lemma NextIs(w: Warning, path: seq<nat>, k: nat)
    ensures path + [k] <= w.path <==> Deeper(w, path) && Next(w, path) == k
  {
    if Deeper(w, path) && Next(w, path) == k {
      assert w.path[..|path| + 1] == path + [k];
    }
  }

  lemma UnderChild(w: Warning, n: Node, k: nat, path: seq<nat>, d: nat, suppressed: bool, f: Facts)
    ensures k < |n.children| && RaisedUnder(w, n.children[k], path + [k], d, suppressed, f)
            <==> Deeper(w, path) && Next(w, path) == k && RaisedInChild(w, n, path, d, suppressed, f)
  {
    hide Raises, Deeper, Next;
    NextIs(w, path, k);
  }

  // ----- Warnings are exactly those -----

  /** The walk raises a warning exactly at the nodes that deserve one and that it reaches
      outside a dead arm. */
  lemma {:induction false} WarningsAreRaised(w: Warning, n: Node, path: seq<nat>, d: nat, suppressed: bool, f: Facts)
    ensures w in Warnings(n, path, d, suppressed, f) <==> RaisedUnder(w, n, path, d, suppressed, f)
    decreases n, 2
  {
    hide *;
    if d >= MAX_DEPTH {
      TooDeep(n, path, d, suppressed, f);
      NotReached(w, n, path, d, suppressed, f);
    } else if n.kind.Case? {
      CaseStep(n, path, d, suppressed, f);
      ListRaised(w, n, 0, FirstArm(n), path, d + 1, suppressed, f);
      NoneTakenYet(n);
      ArmsRaised(w, n, FirstArm(n), path, d + 1, suppressed, f);
      CaseRaised(w, n, path, d, suppressed, f);
    } else {
      ListRaised(w, n, OperandsFrom(n), OperandsTo(n), path, d + 1, suppressed, f);
      OtherRaised(w, n, path, d, suppressed, f);
    }
  }

  lemma NotReached(w: Warning, n: Node, path: seq<nat>, d: nat, suppressed: bool, f: Facts)
    requires d >= MAX_DEPTH
    ensures !RaisedUnder(w, n, path, d, suppressed, f)
  {
  }

  lemma InAt(w: Warning, codes: seq<Code>, path: seq<nat>)
    ensures w in At(codes, path) <==> w.path == path && w.code in codes
  {
    if w.path == path && w.code in codes {
      var i :| 0 <= i < |codes| && codes[i] == w.code;
      assert At(codes, path)[i] == w;
    }
  }

  lemma RaisedHere(w: Warning, n: Node, d: nat, suppressed: bool, f: Facts)
    requires d < MAX_DEPTH
    ensures RaisedUnder(w, n, w.path, d, suppressed, f) <==> w.code in OwnCodes(n, d, suppressed, f)
  {
    hide OwnCodes;
    assert w.path[|w.path|..] == [];
  }

  lemma RaisedDeeper(w: Warning, n: Node, path: seq<nat>, d: nat, suppressed: bool, f: Facts)
    requires d < MAX_DEPTH && Deeper(w, path) && !IsArmStep(n, Next(w, path))
    ensures RaisedUnder(w, n, path, d, suppressed, f)
            <==> IsOperand(n, Next(w, path)) && RaisedInChild(w, n, path, d + 1, suppressed || DeadArm(n, Next(w, path)), f)
  {
    hide OwnCodes, IsArmStep, DeadArm, OperandsFrom, OperandsTo;
    var p, k := w.path[|path|..], Next(w, path);
    NextIs(w, path, k);
    assert p[0] == k && p[1..] == w.path[|path + [k]|..];
  }

  lemma OtherRaised(w: Warning, n: Node, path: seq<nat>, d: nat, suppressed: bool, f: Facts)
    requires d < MAX_DEPTH && !n.kind.Case?
    requires w in ListWarnings(n, OperandsFrom(n), OperandsTo(n), path, d + 1, suppressed, f)
             <==> Deeper(w, path) && OperandsFrom(n) <= Next(w, path) < OperandsTo(n)
                  && RaisedInChild(w, n, path, d + 1, suppressed, f)
    ensures w in Warnings(n, path, d, suppressed, f) <==> RaisedUnder(w, n, path, d, suppressed, f)
  {
    hide OwnCodes, ListWarnings, OperandsFrom, OperandsTo, RaisedUnder, Reach, At;
    InAt(w, OwnCodes(n, d, suppressed, f), path);
    if Deeper(w, path) {
      RaisedDeeper(w, n, path, d, suppressed, f);
    } else if w.path == path {
      RaisedHere(w, n, d, suppressed, f);
    } else {
      NotUnder(w, n, path, d, suppressed, f);
    }
  }

  lemma NotUnder(w: Warning, n: Node, path: seq<nat>, d: nat, suppressed: bool, f: Facts)
    requires !Deeper(w, path) && w.path != path
    ensures !RaisedUnder(w, n, path, d, suppressed, f)
  {
    assert path <= w.path && |w.path| == |path| ==> w.path == path;
  }

  lemma CaseRaised(w: Warning, n: Node, path: seq<nat>, d: nat, suppressed: bool, f: Facts)
    requires d < MAX_DEPTH && n.kind.Case?
    ensures RaisedUnder(w, n, path, d, suppressed, f)
            <==> && Deeper(w, path) && Next(w, path) < |n.children|
                 && if Next(w, path) < FirstArm(n) then RaisedInChild(w, n, path, d + 1, suppressed, f)
                    else RaisedInArm(w, n, path, d + 1, suppressed, f)
  {
    hide OwnCodes, DeadArm, IsWhen, RaisedUnder, FirstArm;
    if w.path == path {
      RaisedHere(w, n, d, suppressed, f);
      CaseOwn(n, d, suppressed, f);
    } else if !Deeper(w, path) {
      NotUnder(w, n, path, d, suppressed, f);
    } else if IsArmStep(n, Next(w, path)) {
      WhenRaised(w, n, path, d, suppressed, f);
    } else {
      RaisedDeeper(w, n, path, d, suppressed, f);
      if Next(w, path) < FirstArm(n) {
        BeforeArms(n, Next(w, path));
      }
    }
  }

  lemma NoneTakenYet(n: Node)
    requires FirstArm(n) <= |n.children|
    ensures !TakenBefore(n, FirstArm(n))
  {
  }

  lemma BeforeArms(n: Node, k: nat)
    requires k < FirstArm(n)
    ensures !DeadArm(n, k)
  {
  }

  lemma CaseOwn(n: Node, d: nat, suppressed: bool, f: Facts)
    requires n.kind.Case?
    ensures OwnCodes(n, d, suppressed, f) == []
  {
  }

  lemma WhenRaised(w: Warning, n: Node, path: seq<nat>, d: nat, suppressed: bool, f: Facts)
    requires d < MAX_DEPTH && Deeper(w, path) && IsArmStep(n, Next(w, path))
    ensures RaisedUnder(w, n, path, d, suppressed, f) <==> RaisedInArm(w, n, path, d + 1, suppressed, f)
  {
    hide OwnCodes, DeadArm, IsWhen, FirstArm;
    var p, k := w.path[|path|..], Next(w, path);
    NextIs(w, path, k);
    assert p[0] == k && p[1..] == w.path[|path + [k]|..];
    if |p| > 1 {
      NextIs(w, path + [k], p[1]);
      assert p[2..] == w.path[|path + [k] + [p[1]]|..];
    }
  }

  lemma {:induction false} ChildRaised(w: Warning, n: Node, k: nat, path: seq<nat>, d: nat, suppressed: bool, f: Facts)
    ensures w in ChildWarnings(n, k, path, d, suppressed, f)
            <==> Deeper(w, path) && Next(w, path) == k && RaisedInChild(w, n, path, d, suppressed, f)
    decreases n, 0, 0
  {
    hide Warnings, RaisedUnder;
    UnderChild(w, n, k, path, d, suppressed, f);
    if k < |n.children| {
      WarningsAreRaised(w, n.children[k], path + [k], d, suppressed, f);
    }
  }

  lemma {:induction false} ListRaised(w: Warning, n: Node, k: nat, to: nat, path: seq<nat>, d: nat, suppressed: bool, f: Facts)
    ensures w in ListWarnings(n, k, to, path, d, suppressed, f)
            <==> Deeper(w, path) && k <= Next(w, path) < to && RaisedInChild(w, n, path, d, suppressed, f)
    decreases n, 0, to - k
  {
    hide ChildWarnings, RaisedInChild;
    if k < to {
      ChildRaised(w, n, k, path, d, suppressed, f);
      ListRaised(w, n, k + 1, to, path, d, suppressed, f);
    }
  }

  lemma {:induction false} ArmsRaised(w: Warning, n: Node, k: nat, path: seq<nat>, d: nat, suppressed: bool, f: Facts)
    requires n.kind.Case? && FirstArm(n) <= k <= |n.children|
    ensures w in ArmWarnings(n, k, TakenBefore(n, k), path, d, suppressed, f)
            <==> Deeper(w, path) && k <= Next(w, path) < |n.children| && RaisedInArm(w, n, path, d, suppressed, f)
    decreases n, 0, |n.children| - k
  {
    hide ArmOwn, RaisedInArm, FirstArm, Operand, TakenBy;
    if k < |n.children| {
      ArmRaised(w, n, k, path, d, suppressed, f);
      ArmsRaised(w, n, k + 1, path, d, suppressed, f);
    }
  }

  lemma {:induction false} ArmRaised(w: Warning, n: Node, k: nat, path: seq<nat>, d: nat, suppressed: bool, f: Facts)
    requires n.kind.Case? && FirstArm(n) <= k < |n.children|
    ensures w in ArmOwn(n, k, TakenBefore(n, k), path, d, suppressed, f)
            <==> Deeper(w, path) && Next(w, path) == k && RaisedInArm(w, n, path, d, suppressed, f)
    decreases n, 0, 0
  {
    hide ChildWarnings, Warnings, RaisedUnder, FirstArm, Operand, ArmDead, TakenBefore, IsWhen;
    var arm := n.children[k];
    if IsWhen(arm) {
      ChildRaised(w, arm, 0, path + [k], d, suppressed, f);
      ChildRaised(w, arm, 1, path + [k], d, suppressed || DeadArm(n, k), f);
      NextIs(w, path, k);
    } else {
      UnderChild(w, n, k, path, d, suppressed || DeadArm(n, k), f);
      WarningsAreRaised(w, arm, path + [k], d, suppressed || DeadArm(n, k), f);
    }
  }
}
