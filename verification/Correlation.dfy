/** Correlated subqueries: which subqueries are flagged while a query is resolved, block by block. */
module Correlation {
  import opened Wrappers
  import opened Identifier
  import opened Scopes
  import opened References

  /** What resolving a block comes across, in order: a relation of its FROM, a column reference,
      a subquery in an expression, or a derived table in FROM, whose body sees the block itself
      only if LATERAL. */
  datatype Step =
    | Relation(binding: Binding)
    | Reference(text: string)
    | Subquery(body: Query)
    | Derived(lateral: bool, body: Query, binding: Binding)

  /** A block, or a set operation over queries. */
  datatype Query = Select(steps: seq<Step>) | SetOperation(branches: seq<Query>)

  // ----- The meaning: does a body reach out? -----

  /** How many blocks from the outermost one inward the owner of a reference lies. */
  function OwnerDepth(chain: seq<seq<Binding>>, text: string): Option<nat> {
    var r := Resolve(chain, text);
    if r.Found? then Some(|chain| - r.level) else None
  }

  predicate RefersWithin(chain: seq<seq<Binding>>, text: string, n: nat) {
    OwnerDepth(chain, text).Some? && OwnerDepth(chain, text).value <= n
  }

  /** Some column reference inside the query, at any depth, belongs to one of the `n` outermost
      blocks. `chain` holds the blocks around the query. */
  predicate ReachesOut(q: Query, chain: seq<seq<Binding>>, n: nat)
    decreases q, 1
  {
    match q
    case Select(_) => ReachesFrom(q, 0, [], chain, n)
    case SetOperation(_) => BranchReaches(q, 0, chain, n)
  }

  predicate ReachesFrom(q: Query, k: nat, rels: seq<Binding>, chain: seq<seq<Binding>>, n: nat)
    requires q.Select?
    decreases q, 0, |q.steps| - k
  {
    k < |q.steps| && (StepReaches(q, k, rels, chain, n) || ReachesFrom(q, k + 1, Extended(q.steps[k], rels), chain, n))
  }

  predicate StepReaches(q: Query, k: nat, rels: seq<Binding>, chain: seq<seq<Binding>>, n: nat)
    requires q.Select? && k < |q.steps|
    decreases q, 0, 0
  {
    match q.steps[k]
    case Relation(_) => false
    case Reference(text) => RefersWithin([rels] + chain, text, n)
    case Subquery(body) => ReachesOut(body, [rels] + chain, n)
    case Derived(lateral, body, _) => ReachesOut(body, if lateral then [rels] + chain else chain, n)
  }

  function Extended(s: Step, rels: seq<Binding>): seq<Binding> {
    if s.Relation? || s.Derived? then rels + [s.binding] else rels
  }

  /** The branches of a set operation see an empty block of its own. */
  predicate BranchReaches(q: Query, k: nat, chain: seq<seq<Binding>>, n: nat)
    requires q.SetOperation?
    decreases q, 0, |q.branches| - k
  {
    k < |q.branches| && (ReachesOut(q.branches[k], [[]] + chain, n) || BranchReaches(q, k + 1, chain, n))
  }

  /** The owner depths of all column references inside the query, in order. */
  function Owners(q: Query, chain: seq<seq<Binding>>): seq<nat>
    decreases q, 1
  {
    match q
    case Select(_) => OwnersFrom(q, 0, [], chain)
    case SetOperation(_) => BranchOwners(q, 0, chain)
  }

  function OwnersFrom(q: Query, k: nat, rels: seq<Binding>, chain: seq<seq<Binding>>): seq<nat>
    requires q.Select?
    decreases q, 0, |q.steps| - k
  {
    if k >= |q.steps| then []
    else StepOwners(q, k, rels, chain) + OwnersFrom(q, k + 1, Extended(q.steps[k], rels), chain)
  }

  function StepOwners(q: Query, k: nat, rels: seq<Binding>, chain: seq<seq<Binding>>): seq<nat>
    requires q.Select? && k < |q.steps|
    decreases q, 0, 0
  {
    match q.steps[k]
    case Relation(_) => []
    case Reference(text) =>
      var d := OwnerDepth([rels] + chain, text);
      if d.Some? then [d.value] else []
    case Subquery(body) => Owners(body, [rels] + chain)
    case Derived(lateral, body, _) => Owners(body, if lateral then [rels] + chain else chain)
  }

  function BranchOwners(q: Query, k: nat, chain: seq<seq<Binding>>): seq<nat>
    requires q.SetOperation?
    decreases q, 0, |q.branches| - k
  {
    if k >= |q.branches| then [] else Owners(q.branches[k], [[]] + chain) + BranchOwners(q, k + 1, chain)
  }

  predicate Within(owners: seq<nat>, n: nat) {
    exists d <- owners :: d <= n
  }

  lemma WithinAppend(a: seq<nat>, b: seq<nat>, n: nat)
    ensures Within(a + b, n) <==> Within(a, n) || Within(b, n)
  {
    if Within(a + b, n) {
      var d :| d in a + b && d <= n;
      assert d in a || d in b;
    }
    if d :| d in a && d <= n {
      assert d in a + b;
    }
    if d :| d in b && d <= n {
      assert d in a + b;
    }
  }

  /** Reaching out means holding a reference whose owner is one of those blocks. */
  lemma {:induction false} ReachesOutIsOwned(q: Query, chain: seq<seq<Binding>>, n: nat)
    ensures ReachesOut(q, chain, n) <==> Within(Owners(q, chain), n)
    decreases q, 1
  {
    hide Within, OwnersFrom, BranchOwners, ReachesFrom, BranchReaches;
    if q.Select? {
      StepsAreOwned(q, 0, [], chain, n);
    } else {
      BranchesAreOwned(q, 0, chain, n);
    }
  }

  lemma {:induction false} StepsAreOwned(q: Query, k: nat, rels: seq<Binding>, chain: seq<seq<Binding>>, n: nat)
    requires q.Select?
    ensures ReachesFrom(q, k, rels, chain, n) <==> Within(OwnersFrom(q, k, rels, chain), n)
    decreases q, 0, |q.steps| - k
  {
    hide Within, Owners, ReachesOut, Resolve;
    if k < |q.steps| {
      StepIsOwned(q, k, rels, chain, n);
      StepsAreOwned(q, k + 1, Extended(q.steps[k], rels), chain, n);
      WithinAppend(StepOwners(q, k, rels, chain), OwnersFrom(q, k + 1, Extended(q.steps[k], rels), chain), n);
    } else {
      WithinNothing(n);
    }
  }

  lemma WithinNothing(n: nat)
    ensures !Within([], n)
  {
  }

  lemma WithinOne(d: nat, n: nat)
    ensures Within([d], n) <==> d <= n
  {
    assert d in [d];
  }

  lemma {:induction false} StepIsOwned(q: Query, k: nat, rels: seq<Binding>, chain: seq<seq<Binding>>, n: nat)
    requires q.Select? && k < |q.steps|
    ensures StepReaches(q, k, rels, chain, n) <==> Within(StepOwners(q, k, rels, chain), n)
    decreases q, 0, 0
  {
    hide Within, Owners, ReachesOut, Resolve;
    WithinNothing(n);
    match q.steps[k]
    case Relation(_) =>
    case Reference(text) =>
      var d := OwnerDepth([rels] + chain, text);
      if d.Some? {
        WithinOne(d.value, n);
      }
    case Subquery(body) => ReachesOutIsOwned(body, [rels] + chain, n);
    case Derived(lateral, body, _) => ReachesOutIsOwned(body, if lateral then [rels] + chain else chain, n);
  }

  lemma {:induction false} BranchesAreOwned(q: Query, k: nat, chain: seq<seq<Binding>>, n: nat)
    requires q.SetOperation?
    ensures BranchReaches(q, k, chain, n) <==> Within(BranchOwners(q, k, chain), n)
    decreases q, 0, |q.branches| - k
  {
    hide Within, Owners, ReachesOut;
    if k < |q.branches| {
      ReachesOutIsOwned(q.branches[k], [[]] + chain, n);
      BranchesAreOwned(q, k + 1, chain, n);
      WithinAppend(Owners(q.branches[k], [[]] + chain), BranchOwners(q, k + 1, chain), n);
    } else {
      WithinNothing(n);
    }
  }

  // ----- The flags, in the order the subqueries are finished -----

  function Flags(q: Query, chain: seq<seq<Binding>>): seq<bool>
    decreases q, 1
  {
    match q
    case Select(_) => FlagsFrom(q, 0, [], chain)
    case SetOperation(_) => BranchFlags(q, 0, chain)
  }

  function FlagsFrom(q: Query, k: nat, rels: seq<Binding>, chain: seq<seq<Binding>>): seq<bool>
    requires q.Select?
    decreases q, 0, |q.steps| - k
  {
    if k >= |q.steps| then []
    else StepFlags(q, k, rels, chain) + FlagsFrom(q, k + 1, Extended(q.steps[k], rels), chain)
  }

  /** A subquery is correlated when a reference in its body is owned by the block the subquery
      stands in, or by one outside that. */
  function StepFlags(q: Query, k: nat, rels: seq<Binding>, chain: seq<seq<Binding>>): seq<bool>
    requires q.Select? && k < |q.steps|
    decreases q, 0, 0
  {
    match q.steps[k]
    case Relation(_) => []
    case Reference(_) => []
    case Subquery(body) => Flags(body, [rels] + chain) + [Within(Owners(body, [rels] + chain), |chain| + 1)]
    case Derived(lateral, body, _) => Flags(body, if lateral then [rels] + chain else chain)
  }

  function BranchFlags(q: Query, k: nat, chain: seq<seq<Binding>>): seq<bool>
    requires q.SetOperation?
    decreases q, 0, |q.branches| - k
  {
    if k >= |q.branches| then [] else Flags(q.branches[k], [[]] + chain) + BranchFlags(q, k + 1, chain)
  }

  // ----- Qualified lookup with its owner -----

  predicate SeenBelow(chain: seq<seq<Binding>>, q: string, n: nat)
    requires n <= |chain|
  {
    exists k :: 0 <= k < n && QualifierSeen(chain[k], q)
  }

  lemma {:induction false} QualifiedFromLevel(chain: seq<seq<Binding>>, q: string, name: string, seen: bool, n: nat)
    requires n <= |chain| && forall k :: 0 <= k < n ==> QualifiedInBlock(chain[k], q, name).Miss?
    ensures ResolveQualified(chain, q, name, seen) == OutwardBy(ResolveQualified(chain[n..], q, name, seen || SeenBelow(chain, q, n)), n)
  {
    hide QualifiedInBlock, QualifierSeen;
    if n == 0 {
      assert chain[0..] == chain;
    } else {
      var rest := chain[1..];
      QualifiedFromLevel(rest, q, name, seen || QualifierSeen(chain[0], q), n - 1);
      assert rest[n - 1..] == chain[n..];
      SeenStep(chain, q, n);
    }
  }

  lemma SeenStep(chain: seq<seq<Binding>>, q: string, n: nat)
    requires 0 < n <= |chain|
    ensures SeenBelow(chain, q, n) <==> QualifierSeen(chain[0], q) || SeenBelow(chain[1..], q, n - 1)
  {
    hide QualifierSeen;
    if SeenBelow(chain, q, n) && !QualifierSeen(chain[0], q) {
      var k :| 0 <= k < n && QualifierSeen(chain[k], q);
      assert chain[1..][k - 1] == chain[k];
    }
    if SeenBelow(chain[1..], q, n - 1) {
      var k :| 0 <= k < n - 1 && QualifierSeen(chain[1..][k], q);
      assert chain[k + 1] == chain[1..][k];
    }
  }

  lemma SeenExtends(chain: seq<seq<Binding>>, q: string, n: nat)
    requires n < |chain|
    ensures SeenBelow(chain, q, n + 1) <==> SeenBelow(chain, q, n) || QualifierSeen(chain[n], q)
  {
    hide QualifierSeen;
  }

  method ScanQualified(rels: seq<Binding>, q: string, name: string) returns (hit: LevelResult)
    ensures hit == QualifiedInBlock(rels, q, name)
  {
    var answers := QualifiedAnswers(rels, q, name);
    for i := 0 to |answers|
      invariant FirstAnswer(answers[..i]).Miss?
    {
      assert answers[..i + 1][..i] == answers[..i];
      match answers[i] {
        case Silent =>
        case Twice =>
          SettledEarly(answers, i + 1);
          return Many;
        case Once(c) =>
          SettledEarly(answers, i + 1);
          return Hit(i, c);
      }
    }
    assert answers[..|answers|] == answers;
    return Miss;
  }

  lemma {:induction false} SettledEarly(answers: seq<Answer>, n: nat)
    requires n <= |answers| && !FirstAnswer(answers[..n]).Miss?
    ensures FirstAnswer(answers) == FirstAnswer(answers[..n])
  {
    if n == |answers| {
      assert answers[..n] == answers;
    } else {
      assert answers[..|answers| - 1][..n] == answers[..n];
      SettledEarly(answers[..|answers| - 1], n);
    }
  }

  lemma QualifiedStep(scope: Scope, q: string, name: string, level: nat, seen: bool)
    requires scope.Valid() && level <= |scope.ancestors|
    requires forall k :: 0 <= k < level ==> QualifiedInBlock(scope.Chain()[k], q, name).Miss?
    requires seen == SeenBelow(scope.Chain(), q, level)
    ensures scope.Lineage()[level].parent == if level < |scope.ancestors| then scope.Lineage()[level + 1] else null
    ensures var rels := scope.Lineage()[level].relations;
            && rels == scope.Chain()[level]
            && SeenBelow(scope.Chain(), q, level + 1) == (seen || QualifierSeen(rels, q))
            && match QualifiedInBlock(rels, q, name)
               case Many => ResolveQualified(scope.Chain(), q, name, false) == Ambiguous
               case Hit(i, j) => ResolveQualified(scope.Chain(), q, name, false) == Found(level, i, j, ReadQualified(rels[i], rels[i].columns[j]))
               case Miss => true
  {
    hide QualifiedInBlock, QualifierSeen, SeenBelow;
    scope.LineageAt(level);
    QualifiedFromLevel(scope.Chain(), q, name, false, level);
    SeenExtends(scope.Chain(), q, level);
    var s := scope.Lineage()[level];
    assert s.Chain()[0] == s.relations == scope.Chain()[level];
    assert s.ancestors == scope.ancestors[level..];
  }

  lemma QualifiedNowhere(chain: seq<seq<Binding>>, q: string, name: string)
    requires forall k :: 0 <= k < |chain| ==> QualifiedInBlock(chain[k], q, name).Miss?
    ensures ResolveQualified(chain, q, name, false) == NotFound(!SeenBelow(chain, q, |chain|))
  {
    hide QualifiedInBlock, QualifierSeen;
    QualifiedFromLevel(chain, q, name, false, |chain|);
    assert chain[|chain|..] == [];
  }

  /** Walk outward until some block knows the qualified name. */
  method LookUpQualified(scope: Scope, q: string, name: string) returns (r: Resolution, owner: Scope?)
    requires scope.Valid()
    ensures r == ResolveQualified(scope.Chain(), q, name, false)
    ensures owner == if r.Found? then scope.Lineage()[r.level] else null
  {
    hide QualifiedInBlock, QualifierSeen, ResolveQualified, ReadQualified;
    var s: Scope? := scope;
    var level := 0;
    var seen := false;
    assert !SeenBelow(scope.Chain(), q, 0);
    hide SeenBelow;
    while s != null
      invariant level <= |scope.ancestors| + 1
      invariant s == if level <= |scope.ancestors| then scope.Lineage()[level] else null
      invariant forall k :: 0 <= k < level ==> QualifiedInBlock(scope.Chain()[k], q, name).Miss?
      invariant seen == SeenBelow(scope.Chain(), q, level)
      decreases |scope.ancestors| + 1 - level
    {
      QualifiedStep(scope, q, name, level, seen);
      var hit := ScanQualified(s.relations, q, name);
      match hit {
        case Hit(i, j) => return Found(level, i, j, ReadQualified(s.relations[i], s.relations[i].columns[j])), s;
        case Many => return Ambiguous, null;
        case Miss =>
          seen := seen || QualifierSeen(s.relations, q);
          s, level := s.parent, level + 1;
      }
    }
    QualifiedNowhere(scope.Chain(), q, name);
    return NotFound(!seen), null;
  }

  method LookUp(scope: Scope, text: string) returns (r: Resolution, owner: Scope?)
    requires scope.Valid()
    ensures r == Resolve(scope.Chain(), text)
    ensures owner == if r.Found? then scope.Lineage()[r.level] else null
  {
    if QualifierOf(text) == "" {
      r, owner := scope.LookUpBare(NameOf(text));
    } else {
      r, owner := LookUpQualified(scope, QualifierOf(text), NameOf(text));
    }
  }

  // ----- The analyzer's stack of active subqueries -----

  class Flag {
    var correlated: bool

    constructor ()
      ensures !correlated
    {
      correlated := false;
    }
  }

  /** An active subquery: the scope it stands in, and where to note that it is correlated. */
  datatype Active = Active(enclosing: Scope, flag: Flag)

  ghost function ChainOf(parent: Scope?): (r: seq<seq<Binding>>)
    requires parent != null ==> parent.Valid()
    reads parent, if parent == null then {} else set s | s in parent.ancestors
    ensures |r| == if parent == null then 0 else 1 + |parent.ancestors|
  {
    if parent == null then [] else parent.Chain()
  }

  ghost function Depth(e: Active): nat {
    1 + |e.enclosing.ancestors|
  }

  /** Every active subquery stands in `parent` or outside it. */
  ghost predicate Around(stack: seq<Active>, parent: Scope?) {
    && (parent != null ==> parent.Valid())
    && (forall i :: 0 <= i < |stack| ==> parent != null && stack[i].enclosing.Valid() && stack[i].enclosing in parent.Lineage())
    && (forall i, j :: 0 <= i < j < |stack| ==> stack[i].flag != stack[j].flag)
  }

  ghost function FlagsOf(stack: seq<Active>): set<Flag> {
    set e | e in stack :: e.flag
  }

  /** The lineage of a scope and that of a scope on it share their outer ends, so the owner of a
      reference is on the latter exactly when it is that far out. */
  lemma OwnerIsAround(s: Scope, e: Scope, level: nat)
    requires s.Valid() && e.Valid() && e in s.Lineage() && level <= |s.ancestors|
    ensures s.Lineage()[level] in e.Lineage() <==> |s.ancestors| + 1 - level <= |e.ancestors| + 1
  {
    var k :| 0 <= k < |s.Lineage()| && s.Lineage()[k] == e;
    s.LineageAt(k);
    assert e.Lineage() == s.Lineage()[k..];
    if level >= k {
      assert s.Lineage()[k..][level - k] == s.Lineage()[level];
    } else {
      LineageDistinct(s, level);
      assert s.Lineage()[level] !in s.Lineage()[k..];
    }
  }

  lemma LineageDistinct(s: Scope, level: nat)
    requires s.Valid() && level <= |s.ancestors|
    ensures forall j :: level < j <= |s.ancestors| ==> s.Lineage()[j] != s.Lineage()[level]
  {
    s.LineageAt(level);
    var x := s.Lineage()[level];
    assert x !in x.ancestors;
    forall j | level < j <= |s.ancestors| ensures s.Lineage()[j] != x {
      assert s.ancestors[level..][j - level - 1] == s.Lineage()[j];
    }
  }

  class Analyzer {
    var stack: seq<Active>
    var finished: seq<bool>

    constructor ()
      ensures stack == [] && finished == []
    {
      stack, finished := [], [];
    }

    /** Flag every active subquery whose enclosing scope is the owner or lies inside it. */
    method MarkCorrelated(owner: Scope)
      requires forall i :: 0 <= i < |stack| ==> stack[i].enclosing.Valid()
      requires forall i, j :: 0 <= i < j < |stack| ==> stack[i].flag != stack[j].flag
      modifies FlagsOf(stack)
      ensures forall i :: 0 <= i < |stack| ==>
                stack[i].flag.correlated == (old(stack[i].flag.correlated) || owner in stack[i].enclosing.Lineage())
    {
      for i := 0 to |stack|
        invariant forall j :: 0 <= j < |stack| ==>
                    stack[j].flag.correlated == (old(stack[j].flag.correlated) || (j < i && owner in stack[j].enclosing.Lineage()))
      {
        var s: Scope? := stack[i].enclosing;
        ghost var line := stack[i].enclosing.Lineage();
        ghost var level := 0;
        var found := false;
        while s != null && !found
          invariant level <= |line| && s == if level < |line| then line[level] else null
          invariant found ==> owner in line
          invariant !found ==> owner !in line[..level]
          modifies {}
          decreases |line| - level, !found
        {
          ParentOnLine(stack[i].enclosing, level);
          if s == owner {
            found := true;
          } else {
            s := s.parent;
            level := level + 1;
          }
        }
        assert !found ==> line[..level] == line;
        if found {
          stack[i].flag.correlated := true;
        }
      }
    }

    method ResolveColumnRef(text: string, scope: Scope)
      requires scope.Valid() && Around(stack, scope) && scope !in FromStack(stack)
      modifies FlagsOf(stack)
      ensures forall i :: 0 <= i < |stack| ==>
                stack[i].flag.correlated == (old(stack[i].flag.correlated) || RefersWithin(scope.Chain(), text, Depth(stack[i])))
    {
      hide Resolve;
      var r, owner := LookUp(scope, text);
      forall i | 0 <= i < |stack|
        ensures RefersWithin(scope.Chain(), text, Depth(stack[i])) <==> r.Found? && owner != scope && owner in stack[i].enclosing.Lineage()
      {
        assert stack[i] in stack;
        RefersExactly(scope, stack[i].enclosing, text);
      }
      if r.Found? && owner != scope {
        MarkCorrelated(owner);
      }
    }

    /** Resolve a query standing in `parent`. The stack comes back as it was. */
    method AnalyzeQuery(q: Query, parent: Scope?)
      requires Around(stack, parent)
      modifies this, FlagsOf(stack)
      ensures stack == old(stack)
      ensures finished == old(finished) + Flags(q, old(ChainOf(parent)))
      ensures forall i :: 0 <= i < |stack| ==>
                stack[i].flag.correlated == (old(stack[i].flag.correlated) || ReachesOut(q, old(ChainOf(parent)), Depth(stack[i])))
      decreases q, 3
    {
      hide FlagsFrom, BranchFlags, ReachesFrom, BranchReaches, Around, FlagsOf, ChainOf;
      if q.Select? {
        AnalyzeBlock(q, parent);
      } else {
        AnalyzeBranches(q, parent);
      }
    }

    method AnalyzeBlock(q: Query, parent: Scope?)
      requires q.Select? && Around(stack, parent)
      modifies this, FlagsOf(stack)
      ensures stack == old(stack)
      ensures finished == old(finished) + FlagsFrom(q, 0, [], old(ChainOf(parent)))
      ensures forall i :: 0 <= i < |stack| ==>
                stack[i].flag.correlated == (old(stack[i].flag.correlated) || ReachesFrom(q, 0, [], old(ChainOf(parent)), Depth(stack[i])))
      decreases q, 2
    {
      hide StepFlags, StepReaches, ReachesFrom, FlagsFrom;
      var scope := new Scope(parent);
      ghost var chain := ChainOf(parent);
      for k := 0 to |q.steps|
        invariant fresh(scope) && scope.Valid() && scope.parent == parent && stack == old(stack) && Around(stack, parent)
        invariant ChainOf(parent) == chain && FlagsOf(stack) == old(FlagsOf(stack))
        invariant finished + FlagsFrom(q, k, scope.relations, chain) == old(finished) + FlagsFrom(q, 0, [], chain)
        invariant forall i :: 0 <= i < |stack| ==>
                    (stack[i].flag.correlated || ReachesFrom(q, k, scope.relations, chain, Depth(stack[i])))
                    == (old(stack[i].flag.correlated) || ReachesFrom(q, 0, [], chain, Depth(stack[i])))
      {
        ghost var rels := scope.relations;
        ghost var before := finished;
        FlagsStep(q, k, rels, chain);
        label L:
        AnalyzeStep(q, k, scope, parent);
        Regrouped(before, StepFlags(q, k, rels, chain), FlagsFrom(q, k + 1, scope.relations, chain));
        forall i | 0 <= i < |stack|
          ensures (stack[i].flag.correlated || ReachesFrom(q, k + 1, scope.relations, chain, Depth(stack[i])))
                  == (old@L(stack[i].flag.correlated) || ReachesFrom(q, k, rels, chain, Depth(stack[i])))
        {
          ReachesStep(q, k, rels, chain, Depth(stack[i]));
        }
      }
      StepsDone(q, scope.relations, chain);
    }

    method AnalyzeStep(q: Query, k: nat, scope: Scope, parent: Scope?)
      requires q.Select? && k < |q.steps| && scope.Valid() && scope.parent == parent && Around(stack, parent) && scope !in FromStack(stack)
      modifies this, FlagsOf(stack), scope`relations
      ensures stack == old(stack) && scope.relations == Extended(q.steps[k], old(scope.relations))
      ensures finished == old(finished) + StepFlags(q, k, old(scope.relations), old(ChainOf(parent)))
      ensures forall i :: 0 <= i < |stack| ==>
                stack[i].flag.correlated == (old(stack[i].flag.correlated) || StepReaches(q, k, old(scope.relations), old(ChainOf(parent)), Depth(stack[i])))
      decreases q, 1
    {
      hide Flags, ReachesOut, RefersWithin, Within, Owners;
      AroundInside(stack, scope, parent);
      match q.steps[k] {
        case Relation(b) => scope.AddRelation(b);
        case Reference(text) => ResolveColumnRef(text, scope);
        case Subquery(body) => AnalyzeSubquery(body, scope);
        case Derived(lateral, body, b) =>
          AnalyzeQuery(body, if lateral then scope else parent);
          scope.AddRelation(b);
      }
    }

    /** The subquery is on the stack while its body is resolved. */
    method AnalyzeSubquery(body: Query, enclosing: Scope)
      requires Around(stack, enclosing)
      modifies this, FlagsOf(stack)
      ensures stack == old(stack)
      ensures finished == old(finished) + (Flags(body, old(enclosing.Chain())) + [Within(Owners(body, old(enclosing.Chain())), 1 + |enclosing.ancestors|)])
      ensures forall i :: 0 <= i < |stack| ==>
                stack[i].flag.correlated == (old(stack[i].flag.correlated) || ReachesOut(body, old(enclosing.Chain()), Depth(stack[i])))
      decreases body, 4
    {
      hide Flags, ReachesOut, Within, Owners;
      var flag := new Flag();
      ghost var outer, chain, done := stack, enclosing.Chain(), finished;
      stack := stack + [Active(enclosing, flag)];
      AroundPushed(outer, enclosing, flag);
      AnalyzeQuery(body, enclosing);
      assert stack[|outer|] == Active(enclosing, flag);
      assert forall i :: 0 <= i < |outer| ==> stack[i] == outer[i];
      stack := stack[..|stack| - 1];
      assert stack == outer;
      ReachesOutIsOwned(body, chain, 1 + |enclosing.ancestors|);
      finished := finished + [flag.correlated];
      Regrouped(done, Flags(body, chain), [flag.correlated]);
    }

    method AnalyzeBranches(q: Query, parent: Scope?)
      requires q.SetOperation? && Around(stack, parent)
      modifies this, FlagsOf(stack)
      ensures stack == old(stack)
      ensures finished == old(finished) + BranchFlags(q, 0, old(ChainOf(parent)))
      ensures forall i :: 0 <= i < |stack| ==>
                stack[i].flag.correlated == (old(stack[i].flag.correlated) || BranchReaches(q, 0, old(ChainOf(parent)), Depth(stack[i])))
      decreases q, 2
    {
      hide Flags, ReachesOut, BranchReaches, BranchFlags;
      var scope := new Scope(parent);
      ghost var chain := ChainOf(parent);
      for k := 0 to |q.branches|
        invariant fresh(scope) && scope.Valid() && scope.parent == parent && scope.relations == [] && stack == old(stack) && Around(stack, parent)
        invariant ChainOf(parent) == chain && FlagsOf(stack) == old(FlagsOf(stack))
        invariant finished + BranchFlags(q, k, chain) == old(finished) + BranchFlags(q, 0, chain)
        invariant forall i :: 0 <= i < |stack| ==>
                    (stack[i].flag.correlated || BranchReaches(q, k, chain, Depth(stack[i])))
                    == (old(stack[i].flag.correlated) || BranchReaches(q, 0, chain, Depth(stack[i])))
      {
        ghost var before := finished;
        BranchStep(q, k, chain);
        AroundInside(stack, scope, parent);
        label L:
        AnalyzeQuery(q.branches[k], scope);
        Regrouped(before, Flags(q.branches[k], [[]] + chain), BranchFlags(q, k + 1, chain));
        forall i | 0 <= i < |stack|
          ensures (stack[i].flag.correlated || BranchReaches(q, k + 1, chain, Depth(stack[i])))
                  == (old@L(stack[i].flag.correlated) || BranchReaches(q, k, chain, Depth(stack[i])))
        {
          BranchReachesStep(q, k, chain, Depth(stack[i]));
        }
      }
      BranchesDone(q, chain);
    }
  }

  lemma RefersExactly(scope: Scope, e: Scope, text: string)
    requires scope.Valid() && e.Valid() && e in scope.Lineage() && e != scope
    ensures var r := Resolve(scope.Chain(), text);
            RefersWithin(scope.Chain(), text, 1 + |e.ancestors|)
            <==> r.Found? && scope.Lineage()[r.level] != scope && scope.Lineage()[r.level] in e.Lineage()
  {
    hide Resolve;
    var r := Resolve(scope.Chain(), text);
    if r.Found? {
      OwnerIsAround(scope, e, r.level);
      InnerIsOutside(scope, e);
    }
  }

  lemma FlagsStep(q: Query, k: nat, rels: seq<Binding>, chain: seq<seq<Binding>>)
    requires q.Select? && k < |q.steps|
    ensures FlagsFrom(q, k, rels, chain) == StepFlags(q, k, rels, chain) + FlagsFrom(q, k + 1, Extended(q.steps[k], rels), chain)
  {
    hide StepFlags;
  }

  lemma ReachesStep(q: Query, k: nat, rels: seq<Binding>, chain: seq<seq<Binding>>, n: nat)
    requires q.Select? && k < |q.steps|
    ensures ReachesFrom(q, k, rels, chain, n) <==>
            StepReaches(q, k, rels, chain, n) || ReachesFrom(q, k + 1, Extended(q.steps[k], rels), chain, n)
  {
    hide StepReaches;
  }

  lemma StepsDone(q: Query, rels: seq<Binding>, chain: seq<seq<Binding>>)
    requires q.Select?
    ensures FlagsFrom(q, |q.steps|, rels, chain) == [] && forall n: nat :: !ReachesFrom(q, |q.steps|, rels, chain, n)
  {
  }

  lemma BranchStep(q: Query, k: nat, chain: seq<seq<Binding>>)
    requires q.SetOperation? && k < |q.branches|
    ensures BranchFlags(q, k, chain) == Flags(q.branches[k], [[]] + chain) + BranchFlags(q, k + 1, chain)
  {
    hide Flags;
  }

  lemma BranchReachesStep(q: Query, k: nat, chain: seq<seq<Binding>>, n: nat)
    requires q.SetOperation? && k < |q.branches|
    ensures BranchReaches(q, k, chain, n) <==> ReachesOut(q.branches[k], [[]] + chain, n) || BranchReaches(q, k + 1, chain, n)
  {
    hide ReachesOut;
  }

  lemma BranchesDone(q: Query, chain: seq<seq<Binding>>)
    requires q.SetOperation?
    ensures BranchFlags(q, |q.branches|, chain) == [] && forall n: nat :: !BranchReaches(q, |q.branches|, chain, n)
  {
  }

  lemma AroundInside(stack: seq<Active>, scope: Scope, parent: Scope?)
    requires scope.Valid() && scope.parent == parent && Around(stack, parent)
    ensures Around(stack, scope) && scope.Chain() == [scope.relations] + ChainOf(parent)
    ensures |scope.ancestors| == |ChainOf(parent)|
  {
    if parent != null {
      forall i | 0 <= i < |stack| ensures stack[i].enclosing in scope.Lineage() {
        assert stack[i].enclosing in parent.Lineage();
      }
    }
  }

  lemma AroundPushed(stack: seq<Active>, enclosing: Scope, flag: Flag)
    requires enclosing.Valid() && Around(stack, enclosing) && flag !in FlagsOf(stack)
    ensures Around(stack + [Active(enclosing, flag)], enclosing)
  {
    var pushed := stack + [Active(enclosing, flag)];
    assert enclosing.Lineage()[0] == enclosing;
    forall i, j | 0 <= i < j < |pushed| ensures pushed[i].flag != pushed[j].flag {
      assert pushed[i] in stack;
    }
  }

  ghost function FromStack(stack: seq<Active>): set<Scope> {
    set e | e in stack :: e.enclosing
  }

  lemma ParentOnLine(s: Scope, level: nat)
    requires s.Valid() && level <= |s.ancestors|
    ensures s.Lineage()[level].parent == if level < |s.ancestors| then s.Lineage()[level + 1] else null
  {
    s.LineageAt(level);
    var x := s.Lineage()[level];
    assert x.ancestors == s.ancestors[level..];
  }

  /** A block is not among the scopes around the subqueries it lies in. */
  lemma InnerIsOutside(scope: Scope, e: Scope)
    requires scope.Valid() && e.Valid() && e in scope.Lineage() && e != scope
    ensures scope !in e.Lineage()
  {
    var k :| 0 <= k < |scope.Lineage()| && scope.Lineage()[k] == e;
    scope.LineageAt(k);
    assert e.Lineage() == scope.Lineage()[k..];
    LineageDistinct(scope, 0);
  }

  // ----- Nesting -----

  /** The relations a block has bound before its k-th step. */
  function BoundBefore(q: Query, k: nat): seq<Binding>
    requires q.Select? && k <= |q.steps|
  {
    if k == 0 then [] else Extended(q.steps[k - 1], BoundBefore(q, k - 1))
  }

  lemma {:induction false} StepReachesOut(q: Query, k: nat, j: nat, chain: seq<seq<Binding>>, n: nat)
    requires q.Select? && j <= k < |q.steps| && StepReaches(q, k, BoundBefore(q, k), chain, n)
    ensures ReachesFrom(q, j, BoundBefore(q, j), chain, n)
    decreases k - j
  {
    hide StepReaches;
    if j < k {
      StepReachesOut(q, k, j + 1, chain, n);
    }
  }

  /** A subquery whose body reaches past the block it stands in makes the subquery holding that
      block correlated too: no link of the nesting is missed. */
  lemma IntermediateIsCorrelated(q: Query, k: nat, chain: seq<seq<Binding>>)
    requires q.Select? && k < |q.steps| && q.steps[k].Subquery?
    requires Within(Owners(q.steps[k].body, [BoundBefore(q, k)] + chain), |chain|)
    ensures Within(Owners(q, chain), |chain|)
  {
    hide Within, Owners, ReachesOut, ReachesFrom;
    ReachesOutIsOwned(q.steps[k].body, [BoundBefore(q, k)] + chain, |chain|);
    StepReachesOut(q, k, 0, chain, |chain|);
    BlockReaches(q, chain, |chain|);
    ReachesOutIsOwned(q, chain, |chain|);
  }

  lemma BlockReaches(q: Query, chain: seq<seq<Binding>>, n: nat)
    requires q.Select?
    ensures ReachesOut(q, chain, n) <==> ReachesFrom(q, 0, [], chain, n)
  {
    hide ReachesFrom;
  }
}
