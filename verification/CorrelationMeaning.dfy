/** What correlation means: a subquery is flagged exactly when something it reads can change with
    the current row of an enclosing block. Queries are run over rows, and names are looked up in
    the rows that are current where the reference stands. */
module CorrelationMeaning {
  import opened Wrappers
  import opened Identifier
  import opened Scopes
  import opened References
  import opened Correlation

  // ----- Running a query over rows -----

  /** A relation and its current row. */
  datatype Current = Current(binding: Binding, row: nat -> int)

  /** The current rows of one block. */
  type Frame = seq<Current>

  /** Which row of the relation at each position of the query is current. */
  type Rows = seq<nat> -> nat -> int

  function BindingsOf(frame: Frame): (r: seq<Binding>)
    ensures |r| == |frame|
  {
    seq(|frame|, i requires 0 <= i < |frame| => frame[i].binding)
  }

  function Shape(around: seq<Frame>): (r: seq<seq<Binding>>)
    ensures |r| == |around|
  {
    seq(|around|, i requires 0 <= i < |around| => BindingsOf(around[i]))
  }

  /** The value of a reference, if it denotes a column. */
  function Read(around: seq<Frame>, text: string): Option<int> {
    var r := Resolve(Shape(around), text);
    if r.Found? then Some(around[r.level][r.rel].row(r.col)) else None
  }

  /** The rows the query in a step is run among: a derived table that is not LATERAL is computed
      before its block has any. */
  function Inside(s: Step, frame: Frame, around: seq<Frame>): seq<Frame> {
    if s.Derived? && !s.lateral then around else [frame] + around
  }

  /** The rows current after a step. */
  function After(s: Step, frame: Frame, row: nat -> int): Frame {
    match s
    case Relation(b) => frame + [Current(b, row)]
    case Derived(_, _, b) => frame + [Current(b, row)]
    case _ => frame
  }

  /** What the references inside the query read, in order. */
  function Reads(q: Query, at: seq<nat>, around: seq<Frame>, rows: Rows): seq<Option<int>>
    decreases q, 1
  {
    if q.Select? then ReadsFrom(q, 0, at, [], around, rows) else BranchReads(q, 0, at, around, rows)
  }

  function ReadsFrom(q: Query, k: nat, at: seq<nat>, frame: Frame, around: seq<Frame>, rows: Rows): seq<Option<int>>
    requires q.Select?
    decreases q, 0, |q.steps| - k
  {
    if k >= |q.steps| then []
    else StepReads(q, k, at, frame, around, rows) + ReadsFrom(q, k + 1, at, After(q.steps[k], frame, rows(at + [k])), around, rows)
  }

  function StepReads(q: Query, k: nat, at: seq<nat>, frame: Frame, around: seq<Frame>, rows: Rows): seq<Option<int>>
    requires q.Select? && k < |q.steps|
    decreases q, 0, 0
  {
    match q.steps[k]
    case Relation(_) => []
    case Reference(text) => [Read([frame] + around, text)]
    case Subquery(body) => Reads(body, at + [k], Inside(q.steps[k], frame, around), rows)
    case Derived(_, body, _) => Reads(body, at + [k], Inside(q.steps[k], frame, around), rows)
  }

  /** The branches of a set operation share a block without relations. */
  function BranchReads(q: Query, k: nat, at: seq<nat>, around: seq<Frame>, rows: Rows): seq<Option<int>>
    requires q.SetOperation?
    decreases q, 0, |q.branches| - k
  {
    if k >= |q.branches| then []
    else Reads(q.branches[k], at + [k], [[]] + around, rows) + BranchReads(q, k + 1, at, around, rows)
  }

  // ----- Dependence -----

  /** The same blocks, with the same rows in all but the `n` outermost. */
  ghost predicate AgreeInside(a: seq<Frame>, b: seq<Frame>, n: nat) {
    Shape(a) == Shape(b) && forall i :: 0 <= i < |a| && i < |a| - n ==> a[i] == b[i]
  }

  /** Can what the query reads change with the rows of the `n` outermost blocks around it? */
  ghost predicate Depends(q: Query, chain: seq<seq<Binding>>, n: nat) {
    exists at: seq<nat>, a: seq<Frame>, b: seq<Frame>, rows: Rows ::
      Shape(a) == chain && AgreeInside(a, b, n) && Reads(q, at, a, rows) != Reads(q, at, b, rows)
  }

  lemma ShapeInside(frame: Frame, around: seq<Frame>)
    ensures Shape([frame] + around) == [BindingsOf(frame)] + Shape(around)
  {
  }

  lemma AgreeDeeper(frame: Frame, a: seq<Frame>, b: seq<Frame>, n: nat)
    requires AgreeInside(a, b, n)
    ensures AgreeInside([frame] + a, [frame] + b, n)
  {
    ShapeInside(frame, a);
    ShapeInside(frame, b);
    assert |a| == |Shape(a)| == |Shape(b)| == |b|;
  }

  lemma AfterIsExtended(s: Step, frame: Frame, row: nat -> int)
    ensures BindingsOf(After(s, frame, row)) == Extended(s, BindingsOf(frame))
  {
  }

  // ----- Without a reference to the outer blocks nothing changes -----

  lemma ReadUnchanged(a: seq<Frame>, b: seq<Frame>, n: nat, text: string)
    requires AgreeInside(a, b, n) && !RefersWithin(Shape(a), text, n)
    ensures Read(a, text) == Read(b, text)
  {
    hide Resolve;
    assert |a| == |Shape(a)| == |Shape(b)| == |b|;
  }

  lemma {:induction false} Unchanged(q: Query, at: seq<nat>, a: seq<Frame>, b: seq<Frame>, rows: Rows, n: nat)
    requires AgreeInside(a, b, n) && !ReachesOut(q, Shape(a), n)
    ensures Reads(q, at, a, rows) == Reads(q, at, b, rows)
    decreases q, 1
  {
    hide AgreeInside, Shape;
    if q.Select? {
      StepsUnchanged(q, 0, at, [], a, b, rows, n);
    } else {
      BranchesUnchanged(q, 0, at, a, b, rows, n);
    }
  }

  lemma {:induction false} StepsUnchanged(q: Query, k: nat, at: seq<nat>, frame: Frame, a: seq<Frame>, b: seq<Frame>, rows: Rows, n: nat)
    requires q.Select? && AgreeInside(a, b, n) && !ReachesFrom(q, k, BindingsOf(frame), Shape(a), n)
    ensures ReadsFrom(q, k, at, frame, a, rows) == ReadsFrom(q, k, at, frame, b, rows)
    decreases q, 0, |q.steps| - k
  {
    hide AgreeInside, Shape, StepReads, StepReaches, BindingsOf, After;
    if k < |q.steps| {
      var next := After(q.steps[k], frame, rows(at + [k]));
      AfterIsExtended(q.steps[k], frame, rows(at + [k]));
      StepUnchanged(q, k, at, frame, a, b, rows, n);
      StepsUnchanged(q, k + 1, at, next, a, b, rows, n);
    }
  }

  lemma {:induction false} StepUnchanged(q: Query, k: nat, at: seq<nat>, frame: Frame, a: seq<Frame>, b: seq<Frame>, rows: Rows, n: nat)
    requires q.Select? && k < |q.steps| && AgreeInside(a, b, n) && !StepReaches(q, k, BindingsOf(frame), Shape(a), n)
    ensures StepReads(q, k, at, frame, a, rows) == StepReads(q, k, at, frame, b, rows)
    decreases q, 0, 0
  {
    hide AgreeInside, Shape, BindingsOf, ReachesOut, RefersWithin, Read;
    ShapeInside(frame, a);
    AgreeDeeper(frame, a, b, n);
    match q.steps[k]
    case Relation(_) =>
    case Reference(text) => ReadUnchanged([frame] + a, [frame] + b, n, text);
    case Subquery(body) => Unchanged(body, at + [k], [frame] + a, [frame] + b, rows, n);
    case Derived(_, body, _) => Unchanged(body, at + [k], Inside(q.steps[k], frame, a), Inside(q.steps[k], frame, b), rows, n);
  }

  lemma {:induction false} BranchesUnchanged(q: Query, k: nat, at: seq<nat>, a: seq<Frame>, b: seq<Frame>, rows: Rows, n: nat)
    requires q.SetOperation? && AgreeInside(a, b, n) && !BranchReaches(q, k, Shape(a), n)
    ensures BranchReads(q, k, at, a, rows) == BranchReads(q, k, at, b, rows)
    decreases q, 0, |q.branches| - k
  {
    hide AgreeInside, Shape, Reads, ReachesOut;
    if k < |q.branches| {
      ShapeInside([], a);
      AgreeDeeper([], a, b, n);
      Unchanged(q.branches[k], at + [k], [[]] + a, [[]] + b, rows, n);
      BranchesUnchanged(q, k + 1, at, a, b, rows, n);
    }
  }

  // ----- A reference to an outer block is told by two rows of it -----

  const ZERO: nat -> int := (c: nat) => 0
  const ONE: nat -> int := (c: nat) => 1
  const ZEROS: Rows := (at: seq<nat>) => ZERO

  function FrameOf(rels: seq<Binding>, row: nat -> int): (r: Frame)
    ensures BindingsOf(r) == rels
  {
    seq(|rels|, i requires 0 <= i < |rels| => Current(rels[i], row))
  }

  /** Every row is zero, but those of the `n` outermost blocks are one. */
  function Marked(chain: seq<seq<Binding>>, n: nat): (r: seq<Frame>)
    ensures Shape(r) == chain
  {
    seq(|chain|, i requires 0 <= i < |chain| => FrameOf(chain[i], if i < |chain| - n then ZERO else ONE))
  }

  lemma MarkedInside(rels: seq<Binding>, chain: seq<seq<Binding>>, n: nat)
    requires n <= |chain|
    ensures Marked([rels] + chain, n) == [FrameOf(rels, ZERO)] + Marked(chain, n)
  {
  }

  lemma MarkedAgree(chain: seq<seq<Binding>>, n: nat)
    ensures AgreeInside(Marked(chain, 0), Marked(chain, n), n)
  {
  }

  lemma ReadTells(chain: seq<seq<Binding>>, text: string, n: nat)
    requires RefersWithin(chain, text, n)
    ensures Read(Marked(chain, 0), text) == Some(0) && Read(Marked(chain, n), text) == Some(1)
  {
    hide Resolve;
  }

  /** The frame of zeros grows as the block's relations do. */
  lemma AfterZero(s: Step, rels: seq<Binding>)
    ensures After(s, FrameOf(rels, ZERO), ZERO) == FrameOf(Extended(s, rels), ZERO)
  {
  }

  lemma {:induction false} Tells(q: Query, at: seq<nat>, chain: seq<seq<Binding>>, n: nat)
    requires n <= |chain|
    ensures |Reads(q, at, Marked(chain, 0), ZEROS)| == |Reads(q, at, Marked(chain, n), ZEROS)|
    ensures ReachesOut(q, chain, n) ==> Reads(q, at, Marked(chain, 0), ZEROS) != Reads(q, at, Marked(chain, n), ZEROS)
    decreases q, 1
  {
    hide Marked;
    if q.Select? {
      NoRows();
      StepsTell(q, 0, at, [], chain, n);
    } else {
      BranchesTell(q, 0, at, chain, n);
    }
  }

  lemma Different<T>(a: seq<T>, b: seq<T>, c: seq<T>, d: seq<T>)
    requires |a| == |b| && |c| == |d|
    ensures a + c == b + d <==> a == b && c == d
  {
    if a + c == b + d {
      assert a == (a + c)[..|a|] && b == (b + d)[..|b|];
      assert c == (a + c)[|a|..] && d == (b + d)[|b|..];
    }
  }

  lemma {:induction false} StepsTell(q: Query, k: nat, at: seq<nat>, rels: seq<Binding>, chain: seq<seq<Binding>>, n: nat)
    requires q.Select? && n <= |chain|
    ensures var z := FrameOf(rels, ZERO); var a, b := ReadsFrom(q, k, at, z, Marked(chain, 0), ZEROS), ReadsFrom(q, k, at, z, Marked(chain, n), ZEROS);
            |a| == |b| && (ReachesFrom(q, k, rels, chain, n) ==> a != b)
    decreases q, 0, |q.steps| - k
  {
    hide Marked, StepReads, StepReaches, FrameOf, After;
    if k < |q.steps| {
      var z := FrameOf(rels, ZERO);
      var a, b := Marked(chain, 0), Marked(chain, n);
      AfterZero(q.steps[k], rels);
      StepTells(q, k, at, rels, chain, n);
      StepsTell(q, k + 1, at, Extended(q.steps[k], rels), chain, n);
      var y := After(q.steps[k], z, ZERO);
      Different(StepReads(q, k, at, z, a, ZEROS), StepReads(q, k, at, z, b, ZEROS),
                ReadsFrom(q, k + 1, at, y, a, ZEROS), ReadsFrom(q, k + 1, at, y, b, ZEROS));
    }
  }

  lemma {:induction false} StepTells(q: Query, k: nat, at: seq<nat>, rels: seq<Binding>, chain: seq<seq<Binding>>, n: nat)
    requires q.Select? && k < |q.steps| && n <= |chain|
    ensures var z := FrameOf(rels, ZERO); var a, b := StepReads(q, k, at, z, Marked(chain, 0), ZEROS), StepReads(q, k, at, z, Marked(chain, n), ZEROS);
            |a| == |b| && (StepReaches(q, k, rels, chain, n) ==> a != b)
    decreases q, 0, 0
  {
    hide Marked, FrameOf, Reads, ReachesOut, RefersWithin, Read;
    MarkedInside(rels, chain, 0);
    MarkedInside(rels, chain, n);
    match q.steps[k]
    case Relation(_) =>
    case Reference(text) =>
      if RefersWithin([rels] + chain, text, n) {
        ReadTells([rels] + chain, text, n);
      }
    case Subquery(body) => Tells(body, at + [k], [rels] + chain, n);
    case Derived(lateral, body, _) => Tells(body, at + [k], if lateral then [rels] + chain else chain, n);
  }

  lemma {:induction false} BranchesTell(q: Query, k: nat, at: seq<nat>, chain: seq<seq<Binding>>, n: nat)
    requires q.SetOperation? && n <= |chain|
    ensures var a, b := BranchReads(q, k, at, Marked(chain, 0), ZEROS), BranchReads(q, k, at, Marked(chain, n), ZEROS);
            |a| == |b| && (BranchReaches(q, k, chain, n) ==> a != b)
    decreases q, 0, |q.branches| - k
  {
    hide Marked, Reads, ReachesOut, FrameOf;
    if k < |q.branches| {
      var a, b := Marked(chain, 0), Marked(chain, n);
      MarkedInside([], chain, 0);
      MarkedInside([], chain, n);
      NoRows();
      Tells(q.branches[k], at + [k], [[]] + chain, n);
      BranchesTell(q, k + 1, at, chain, n);
      Different(Reads(q.branches[k], at + [k], [[]] + a, ZEROS), Reads(q.branches[k], at + [k], [[]] + b, ZEROS),
                BranchReads(q, k + 1, at, a, ZEROS), BranchReads(q, k + 1, at, b, ZEROS));
    }
  }

  lemma NoRows()
    ensures FrameOf([], ZERO) == []
  {
  }

  /** Reaching out to the `n` outermost blocks is reading something that changes with their rows. */
  lemma ReachesOutIsDependence(q: Query, chain: seq<seq<Binding>>, n: nat)
    requires n <= |chain|
    ensures ReachesOut(q, chain, n) <==> Depends(q, chain, n)
  {
    hide Reads, ReachesOut, AgreeInside, Marked;
    if ReachesOut(q, chain, n) {
      MarkedAgree(chain, n);
      Tells(q, [], chain, n);
    }
    if Depends(q, chain, n) && !ReachesOut(q, chain, n) {
      var at: seq<nat>, a: seq<Frame>, b: seq<Frame>, rows: Rows :|
        Shape(a) == chain && AgreeInside(a, b, n) && Reads(q, at, a, rows) != Reads(q, at, b, rows);
      Unchanged(q, at, a, b, rows, n);
    }
  }

  // ----- The flags -----

  /** A subquery that has been run, and the blocks it was run in. */
  datatype Run = Run(body: Query, chain: seq<seq<Binding>>)

  /** The subqueries of a query in the order they are finished. */
  function Runs(q: Query, at: seq<nat>, around: seq<Frame>, rows: Rows): seq<Run>
    decreases q, 1
  {
    if q.Select? then RunsFrom(q, 0, at, [], around, rows) else BranchRuns(q, 0, at, around, rows)
  }

  function RunsFrom(q: Query, k: nat, at: seq<nat>, frame: Frame, around: seq<Frame>, rows: Rows): seq<Run>
    requires q.Select?
    decreases q, 0, |q.steps| - k
  {
    if k >= |q.steps| then []
    else StepRuns(q, k, at, frame, around, rows) + RunsFrom(q, k + 1, at, After(q.steps[k], frame, rows(at + [k])), around, rows)
  }

  function StepRuns(q: Query, k: nat, at: seq<nat>, frame: Frame, around: seq<Frame>, rows: Rows): seq<Run>
    requires q.Select? && k < |q.steps|
    decreases q, 0, 0
  {
    var inside := Inside(q.steps[k], frame, around);
    match q.steps[k]
    case Relation(_) => []
    case Reference(_) => []
    case Subquery(body) => Runs(body, at + [k], inside, rows) + [Run(body, Shape(inside))]
    case Derived(_, body, _) => Runs(body, at + [k], inside, rows)
  }

  function BranchRuns(q: Query, k: nat, at: seq<nat>, around: seq<Frame>, rows: Rows): seq<Run>
    requires q.SetOperation?
    decreases q, 0, |q.branches| - k
  {
    if k >= |q.branches| then []
    else Runs(q.branches[k], at + [k], [[]] + around, rows) + BranchRuns(q, k + 1, at, around, rows)
  }

  /** Each flag says whether its subquery depends on the rows around it. */
  ghost predicate FlagsSay(flags: seq<bool>, runs: seq<Run>) {
    |flags| == |runs| && forall i :: 0 <= i < |flags| ==> (flags[i] <==> Depends(runs[i].body, runs[i].chain, |runs[i].chain|))
  }

  lemma SayAppend(f: seq<bool>, r: seq<Run>, g: seq<bool>, s: seq<Run>)
    requires FlagsSay(f, r) && FlagsSay(g, s)
    ensures FlagsSay(f + g, r + s)
  {
    hide Depends;
  }

  /** The analyzer's flags are right, for every subquery of every query. */
  lemma {:induction false} FlagsAreExact(q: Query, at: seq<nat>, around: seq<Frame>, rows: Rows)
    ensures FlagsSay(Flags(q, Shape(around)), Runs(q, at, around, rows))
    decreases q, 1
  {
    hide FlagsSay, FlagsFrom, BranchFlags, RunsFrom, BranchRuns, Shape;
    if q.Select? {
      FlagsFromAreExact(q, 0, at, [], around, rows);
    } else {
      BranchFlagsAreExact(q, 0, at, around, rows);
    }
  }

  lemma NothingFlagged()
    ensures FlagsSay([], [])
  {
  }

  lemma {:induction false} FlagsFromAreExact(q: Query, k: nat, at: seq<nat>, frame: Frame, around: seq<Frame>, rows: Rows)
    requires q.Select?
    ensures FlagsSay(FlagsFrom(q, k, BindingsOf(frame), Shape(around)), RunsFrom(q, k, at, frame, around, rows))
    decreases q, 0, |q.steps| - k
  {
    hide FlagsSay, StepFlags, StepRuns, Shape, BindingsOf, After;
    if k < |q.steps| {
      var next := After(q.steps[k], frame, rows(at + [k]));
      AfterIsExtended(q.steps[k], frame, rows(at + [k]));
      StepFlagsAreExact(q, k, at, frame, around, rows);
      FlagsFromAreExact(q, k + 1, at, next, around, rows);
      SayAppend(StepFlags(q, k, BindingsOf(frame), Shape(around)), StepRuns(q, k, at, frame, around, rows),
                FlagsFrom(q, k + 1, BindingsOf(next), Shape(around)), RunsFrom(q, k + 1, at, next, around, rows));
    } else {
      NothingFlagged();
    }
  }

  lemma {:induction false} StepFlagsAreExact(q: Query, k: nat, at: seq<nat>, frame: Frame, around: seq<Frame>, rows: Rows)
    requires q.Select? && k < |q.steps|
    ensures FlagsSay(StepFlags(q, k, BindingsOf(frame), Shape(around)), StepRuns(q, k, at, frame, around, rows))
    decreases q, 0, 0
  {
    hide FlagsSay, Flags, Runs, Shape, BindingsOf, Owners, Within;
    ShapeInside(frame, around);
    NothingFlagged();
    match q.steps[k]
    case Relation(_) =>
    case Reference(_) =>
    case Subquery(body) =>
      var chain := [BindingsOf(frame)] + Shape(around);
      FlagsAreExact(body, at + [k], [frame] + around, rows);
      OneFlag(body, chain);
      SayAppend(Flags(body, chain), Runs(body, at + [k], [frame] + around, rows), [Within(Owners(body, chain), |chain|)], [Run(body, chain)]);
    case Derived(_, body, _) => FlagsAreExact(body, at + [k], Inside(q.steps[k], frame, around), rows);
  }

  lemma OneFlag(body: Query, chain: seq<seq<Binding>>)
    ensures FlagsSay([Within(Owners(body, chain), |chain|)], [Run(body, chain)])
  {
    hide Owners, Within, Depends, ReachesOut;
    ReachesOutIsOwned(body, chain, |chain|);
    ReachesOutIsDependence(body, chain, |chain|);
  }

  lemma {:induction false} BranchFlagsAreExact(q: Query, k: nat, at: seq<nat>, around: seq<Frame>, rows: Rows)
    requires q.SetOperation?
    ensures FlagsSay(BranchFlags(q, k, Shape(around)), BranchRuns(q, k, at, around, rows))
    decreases q, 0, |q.branches| - k
  {
    hide FlagsSay, Flags, Runs, Shape;
    if k < |q.branches| {
      ShapeInside([], around);
      FlagsAreExact(q.branches[k], at + [k], [[]] + around, rows);
      BranchFlagsAreExact(q, k + 1, at, around, rows);
      SayAppend(Flags(q.branches[k], [[]] + Shape(around)), Runs(q.branches[k], at + [k], [[]] + around, rows),
                BranchFlags(q, k + 1, Shape(around)), BranchRuns(q, k + 1, at, around, rows));
    } else {
      NothingFlagged();
    }
  }
}
