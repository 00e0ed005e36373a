/** What the grouping passes report and recognise, position by position. */
module GroupingPaths {
  import opened Wrappers
  import opened Identifier
  import opened Ast
  import opened Infer
  import opened Scopes
  import opened References
  import opened Grouping
  import opened GroupingTheorems
  import opened GroupingSets
  import opened NodePaths

  // ----- The findings of the legality pass -----

  /** The pass looks at the node: within the depth limit, no subquery, and no whole key unless
      an aggregate is above it. */
  predicate Open(m: Node, keys: seq<GroupKey>, chain: seq<seq<Binding>>, under: bool, d: nat) {
    d < MAX_DEPTH && !m.kind.Subquery? && (under || !IsKey(m, keys, chain))
  }

  predicate IsColumn(m: Node) { m.kind.ColumnRef? }

  /** The pass reaches the position: it looks at every node on the way and at the last one. With
      `under` the whole tree lies below an aggregate. */
  predicate Visited(n: Node, keys: seq<GroupKey>, chain: seq<seq<Binding>>, under: bool, p: Path, d: nat) {
    && NodeAt(n, p).Some? && !Above(n, p, IsColumn)
    && forall k: nat :: k <= |p| ==>
         NodeAt(n, p[..k]).Some? && Open(NodeAt(n, p[..k]).value, keys, chain, under || Above(n, p[..k], IsAggregate), d + k)
  }

  /** The finding is due at the position. */
  predicate Due(x: Finding, n: Node, keys: seq<GroupKey>, chain: seq<seq<Binding>>, under: bool, p: Path, d: nat) {
    && Visited(n, keys, chain, under, p, d) && NodeAt(n, p) == Some(x.node)
    && match x
       case NestedAggregate(m) => IsAggregate(m) && (under || Above(n, p, IsAggregate))
       case NonGroupedColumn(m) => m.kind.ColumnRef? && !under && !Above(n, p, IsAggregate) && !Covered(m.text, keys, chain)
  }

  lemma VisitedRoot(n: Node, keys: seq<GroupKey>, chain: seq<seq<Binding>>, under: bool, d: nat)
    ensures Visited(n, keys, chain, under, [], d) <==> Open(n, keys, chain, under, d)
  {
    hide Open, IsAggregate;
    var p: Path := [];
    assert p[..0] == [];
    assert Visited(n, keys, chain, under, p, d) ==> NodeAt(n, p[..0]).Some? && Open(NodeAt(n, p[..0]).value, keys, chain, under || Above(n, p[..0], IsAggregate), d + 0);
  }

  lemma VisitedChild(n: Node, keys: seq<GroupKey>, chain: seq<seq<Binding>>, under: bool, i: nat, q: Path, d: nat)
    requires i < |n.children|
    ensures Visited(n, keys, chain, under, [i] + q, d) <==>
            Open(n, keys, chain, under, d) && !n.kind.ColumnRef? && Visited(n.children[i], keys, chain, under || IsAggregate(n), q, d + 1)
  {
    hide Open, IsAggregate, Above;
    var p, c, below := [i] + q, n.children[i], under || IsAggregate(n);
    ChildPath(n, i, q);
    AboveChild(n, i, q, IsColumn);
    AboveNothing(n, IsAggregate);
    assert p[..0] == [];
    forall k: nat | k <= |q| ensures NodeAt(n, p[..k + 1]) == NodeAt(c, q[..k])
      ensures (under || Above(n, p[..k + 1], IsAggregate)) <==> (below || Above(c, q[..k], IsAggregate))
    {
      assert p[..k + 1] == [i] + q[..k];
      AboveChild(n, i, q[..k], IsAggregate);
    }
    if Visited(n, keys, chain, under, p, d) {
      assert NodeAt(n, p[..0]).Some? && Open(NodeAt(n, p[..0]).value, keys, chain, under || Above(n, p[..0], IsAggregate), d + 0);
      forall k: nat | k <= |q| ensures NodeAt(c, q[..k]).Some? && Open(NodeAt(c, q[..k]).value, keys, chain, below || Above(c, q[..k], IsAggregate), d + 1 + k) {
        assert NodeAt(n, p[..k + 1]).Some? && Open(NodeAt(n, p[..k + 1]).value, keys, chain, under || Above(n, p[..k + 1], IsAggregate), d + (k + 1));
      }
    }
    if Open(n, keys, chain, under, d) && !n.kind.ColumnRef? && Visited(c, keys, chain, below, q, d + 1) {
      forall k: nat | k <= |p| ensures NodeAt(n, p[..k]).Some? && Open(NodeAt(n, p[..k]).value, keys, chain, under || Above(n, p[..k], IsAggregate), d + k) {
        if k > 0 {
          assert NodeAt(c, q[..k - 1]).Some? && Open(NodeAt(c, q[..k - 1]).value, keys, chain, below || Above(c, q[..k - 1], IsAggregate), d + 1 + (k - 1));
          assert NodeAt(n, p[..k - 1 + 1]) == NodeAt(c, q[..k - 1]);
        }
      }
    }
  }

  lemma AboveNothing(n: Node, f: Node -> bool)
    ensures !Above(n, [], f)
  {
  }

  lemma DueChild(x: Finding, n: Node, keys: seq<GroupKey>, chain: seq<seq<Binding>>, under: bool, i: nat, q: Path, d: nat)
    requires i < |n.children|
    ensures Due(x, n, keys, chain, under, [i] + q, d) <==>
            Open(n, keys, chain, under, d) && !n.kind.ColumnRef? && Due(x, n.children[i], keys, chain, under || IsAggregate(n), q, d + 1)
  {
    hide Open, IsAggregate, Above, Visited, Covered;
    VisitedChild(n, keys, chain, under, i, q, d);
    AboveChild(n, i, q, IsAggregate);
    ChildPath(n, i, q);
  }

  lemma DueRoot(x: Finding, n: Node, keys: seq<GroupKey>, chain: seq<seq<Binding>>, under: bool, d: nat)
    ensures Due(x, n, keys, chain, under, [], d) <==>
            Open(n, keys, chain, under, d) && x.node == n &&
            match x
            case NestedAggregate(m) => IsAggregate(m) && under
            case NonGroupedColumn(m) => m.kind.ColumnRef? && !under && !Covered(m.text, keys, chain)
  {
    hide Open, IsAggregate, Above, Visited, Covered;
    VisitedRoot(n, keys, chain, under, d);
    AboveNothing(n, IsAggregate);
  }

  lemma {:induction false} FindingsFrom(x: Finding, n: Node, i: nat, keys: seq<GroupKey>, chain: seq<seq<Binding>>, exempt: bool, inAggregate: bool, d: nat)
    ensures x in ViolationsFrom(n, i, keys, chain, exempt, inAggregate, d) <==>
            exists j :: i <= j < |n.children| && x in Violations(n.children[j], keys, chain, exempt, inAggregate, d)
    decreases |n.children| - i
  {
    hide Violations;
    if i < |n.children| {
      FindingsFrom(x, n, i + 1, keys, chain, exempt, inAggregate, d);
    }
  }

  /** The pass reports exactly the findings that are due at some position. */
  lemma {:induction false} FindingsAreExact(x: Finding, n: Node, keys: seq<GroupKey>, chain: seq<seq<Binding>>, under: bool, d: nat)
    ensures x in Violations(n, keys, chain, under, under, d) <==> exists p: Path :: Due(x, n, keys, chain, under, p, d)
    decreases n, 1
  {
    hide Open, IsAggregate, Due, Covered, IsKey, ViolationsFrom;
    DueRoot(x, n, keys, chain, under, d);
    FindingsFrom(x, n, 0, keys, chain, under || IsAggregate(n), under || IsAggregate(n), d + 1);
    if x in Violations(n, keys, chain, under, under, d) && !Due(x, n, keys, chain, under, [], d) {
      FindingBelow(x, n, keys, chain, under, d);
      var j :| 0 <= j < |n.children| && x in Violations(n.children[j], keys, chain, under || IsAggregate(n), under || IsAggregate(n), d + 1);
      FindingsAreExact(x, n.children[j], keys, chain, under || IsAggregate(n), d + 1);
      var q: Path :| Due(x, n.children[j], keys, chain, under || IsAggregate(n), q, d + 1);
      DueChild(x, n, keys, chain, under, j, q, d);
    }
    if p: Path :| Due(x, n, keys, chain, under, p, d) {
      if p == [] {
        RootFinding(x, n, keys, chain, under, d);
      } else {
        DuePath(x, n, keys, chain, under, p, d);
        SplitPath(n, p);
        var j, q := p[0], p[1..];
        DueChild(x, n, keys, chain, under, j, q, d);
        FindingsAreExact(x, n.children[j], keys, chain, under || IsAggregate(n), d + 1);
        ChildFinding(x, n, keys, chain, under, d);
      }
    }
  }

  lemma DuePath(x: Finding, n: Node, keys: seq<GroupKey>, chain: seq<seq<Binding>>, under: bool, p: Path, d: nat)
    requires Due(x, n, keys, chain, under, p, d)
    ensures NodeAt(n, p).Some?
  {
  }

  lemma FindingBelow(x: Finding, n: Node, keys: seq<GroupKey>, chain: seq<seq<Binding>>, under: bool, d: nat)
    requires x in Violations(n, keys, chain, under, under, d) && !Due(x, n, keys, chain, under, [], d)
    ensures Open(n, keys, chain, under, d) && !n.kind.ColumnRef?
    ensures x in ViolationsFrom(n, 0, keys, chain, under || IsAggregate(n), under || IsAggregate(n), d + 1)
  {
    hide IsKey, Covered, Due, ViolationsFrom, Fold;
    DueRoot(x, n, keys, chain, under, d);
  }

  lemma RootFinding(x: Finding, n: Node, keys: seq<GroupKey>, chain: seq<seq<Binding>>, under: bool, d: nat)
    requires Due(x, n, keys, chain, under, [], d)
    ensures x in Violations(n, keys, chain, under, under, d)
  {
    hide IsKey, Covered, Due, ViolationsFrom, Fold;
    DueRoot(x, n, keys, chain, under, d);
  }

  lemma ChildFinding(x: Finding, n: Node, keys: seq<GroupKey>, chain: seq<seq<Binding>>, under: bool, d: nat)
    requires Open(n, keys, chain, under, d) && !n.kind.ColumnRef?
    requires x in ViolationsFrom(n, 0, keys, chain, under || IsAggregate(n), under || IsAggregate(n), d + 1)
    ensures x in Violations(n, keys, chain, under, under, d)
  {
    hide IsKey, Covered, ViolationsFrom, Fold;
  }

  lemma {:induction false} PathHeight(n: Node, p: Path)
    requires NodeAt(n, p).Some?
    ensures |p| < Height(n)
    decreases |p|
  {
    hide Height;
    if p != [] {
      HeightStep(n, p[0]);
      PathHeight(n.children[p[0]], p[1..]);
    } else {
      HeightPositive(n);
    }
  }

  lemma HeightPositive(n: Node)
    ensures Height(n) > 0
  {
  }

  predicate IsSubquery(m: Node) { m.kind.Subquery? }

  /** Neither a subquery nor a whole key outside aggregates lies on the way. */
  predicate Clear(n: Node, keys: seq<GroupKey>, chain: seq<seq<Binding>>, p: Path) {
    && !Above(n, p, IsColumn)
    && forall k: nat :: k <= |p| && NodeAt(n, p[..k]).Some? ==>
         && !IsSubquery(NodeAt(n, p[..k]).value)
         && (Above(n, p[..k], IsAggregate) || !IsKey(NodeAt(n, p[..k]).value, keys, chain))
  }

  /** `NestedAggregate` is reported exactly for the aggregates below an aggregate that are reached
      without crossing a subquery, a whole key outside aggregates, or the depth limit. */
  lemma NestedAggregatesAreExact(m: Node, n: Node, keys: seq<GroupKey>, chain: seq<seq<Binding>>, d: nat)
    ensures NestedAggregate(m) in Violations(n, keys, chain, false, false, d) <==>
            exists p: Path :: NodeAt(n, p) == Some(m) && IsAggregate(m) && Above(n, p, IsAggregate) && Clear(n, keys, chain, p) && d + |p| < MAX_DEPTH
  {
    hide Violations, IsAggregate, Above, IsKey, Clear, Visited;
    FindingsAreExact(NestedAggregate(m), n, keys, chain, false, d);
    forall p: Path | NodeAt(n, p).Some? ensures Visited(n, keys, chain, false, p, d) <==> Clear(n, keys, chain, p) && d + |p| < MAX_DEPTH {
      VisitedIsClear(n, keys, chain, p, d);
    }
    if p: Path :| NodeAt(n, p) == Some(m) && IsAggregate(m) && Above(n, p, IsAggregate) && Clear(n, keys, chain, p) && d + |p| < MAX_DEPTH {
      assert Due(NestedAggregate(m), n, keys, chain, false, p, d);
    }
    if p: Path :| Due(NestedAggregate(m), n, keys, chain, false, p, d) {
      assert NodeAt(n, p) == Some(m) && Clear(n, keys, chain, p);
    }
  }

  /** So is `NonGroupedColumn`, for the columns outside aggregates that no key covers. */
  lemma NonGroupedColumnsAreExact(m: Node, n: Node, keys: seq<GroupKey>, chain: seq<seq<Binding>>, d: nat)
    ensures NonGroupedColumn(m) in Violations(n, keys, chain, false, false, d) <==>
            exists p: Path :: NodeAt(n, p) == Some(m) && m.kind.ColumnRef? && !Above(n, p, IsAggregate) && !Covered(m.text, keys, chain)
                              && Clear(n, keys, chain, p) && d + |p| < MAX_DEPTH
  {
    hide Violations, IsAggregate, Above, IsKey, Clear, Visited, Covered;
    FindingsAreExact(NonGroupedColumn(m), n, keys, chain, false, d);
    forall p: Path | NodeAt(n, p).Some? ensures Visited(n, keys, chain, false, p, d) <==> Clear(n, keys, chain, p) && d + |p| < MAX_DEPTH {
      VisitedIsClear(n, keys, chain, p, d);
    }
    if p: Path :| NodeAt(n, p) == Some(m) && m.kind.ColumnRef? && !Above(n, p, IsAggregate) && !Covered(m.text, keys, chain)
                  && Clear(n, keys, chain, p) && d + |p| < MAX_DEPTH {
      assert Due(NonGroupedColumn(m), n, keys, chain, false, p, d);
    }
    if p: Path :| Due(NonGroupedColumn(m), n, keys, chain, false, p, d) {
      assert NodeAt(n, p) == Some(m) && Clear(n, keys, chain, p);
    }
  }

  lemma VisitedIsClear(n: Node, keys: seq<GroupKey>, chain: seq<seq<Binding>>, p: Path, d: nat)
    requires NodeAt(n, p).Some?
    ensures Visited(n, keys, chain, false, p, d) <==> Clear(n, keys, chain, p) && d + |p| < MAX_DEPTH
  {
    hide IsAggregate, Above, IsKey;
    forall k: nat | k <= |p| ensures NodeAt(n, p[..k]).Some? {
      PrefixExists(n, p, k);
    }
    if Visited(n, keys, chain, false, p, d) {
      forall k: nat | k <= |p| && NodeAt(n, p[..k]).Some?
        ensures !IsSubquery(NodeAt(n, p[..k]).value)
        ensures Above(n, p[..k], IsAggregate) || !IsKey(NodeAt(n, p[..k]).value, keys, chain)
      {
        assert Open(NodeAt(n, p[..k]).value, keys, chain, false || Above(n, p[..k], IsAggregate), d + k);
      }
      assert Open(NodeAt(n, p[..|p|]).value, keys, chain, false || Above(n, p[..|p|], IsAggregate), d + |p|);
    }
  }

  /** An expression within the depth limit that raises no finding has no aggregate below another
      one, short of a subquery or a whole key. */
  lemma AcceptedHasNoNestedAggregate(n: Node, keys: seq<GroupKey>, chain: seq<seq<Binding>>, d: nat, p: Path)
    requires Violations(n, keys, chain, false, false, d) == [] && d + Height(n) <= MAX_DEPTH
    requires NodeAt(n, p).Some? && IsAggregate(NodeAt(n, p).value) && Clear(n, keys, chain, p)
    ensures !Above(n, p, IsAggregate)
  {
    hide Violations, IsAggregate, Above, Clear, Height;
    PathHeight(n, p);
    if Above(n, p, IsAggregate) {
      NestedAggregatesAreExact(NodeAt(n, p).value, n, keys, chain, d);
    }
  }

  // ----- Which expressions read a grouping-set key -----

  predicate IsIndicator(m: Node) { m.kind.FunctionCall? && Fold(m.text) == "grouping" }

  /** A key column stands at the position, outside aggregates, GROUPING calls and subqueries. */
  predicate ReadAt(n: Node, ids: seq<Identity>, chain: seq<seq<Binding>>, under: bool, p: Path, d: nat) {
    && d + |p| < MAX_DEPTH && NodeAt(n, p).Some? && NodeAt(n, p).value.kind.ColumnRef?
    && IdentityOf(chain, NodeAt(n, p).value.text) in ids && !under && !Above(n, p, IsAggregate)
    && !Above(n, p, IsIndicator) && !Above(n, p, IsSubquery) && !Above(n, p, IsColumn)
  }

  lemma ReadChild(n: Node, ids: seq<Identity>, chain: seq<seq<Binding>>, under: bool, i: nat, q: Path, d: nat)
    requires i < |n.children|
    ensures ReadAt(n, ids, chain, under, [i] + q, d) <==>
            && !IsIndicator(n) && !IsSubquery(n) && !n.kind.ColumnRef?
            && ReadAt(n.children[i], ids, chain, under || IsAggregate(n), q, d + 1)
  {
    hide IsAggregate, IsIndicator, Above, IdentityOf;
    ChildPath(n, i, q);
    AboveChild(n, i, q, IsAggregate);
    AboveChild(n, i, q, IsIndicator);
    AboveChild(n, i, q, IsSubquery);
    AboveChild(n, i, q, IsColumn);
  }

  lemma ReadRoot(n: Node, ids: seq<Identity>, chain: seq<seq<Binding>>, under: bool, d: nat)
    ensures ReadAt(n, ids, chain, under, [], d) <==> d < MAX_DEPTH && n.kind.ColumnRef? && IdentityOf(chain, n.text) in ids && !under
  {
    hide IsAggregate, IsIndicator, IdentityOf;
  }

  lemma {:induction false} ReadsFrom(n: Node, i: nat, ids: seq<Identity>, chain: seq<seq<Binding>>, inAggregate: bool, d: nat)
    ensures ReadsKeyFrom(n, i, ids, chain, inAggregate, d) <==>
            exists j :: i <= j < |n.children| && ReadsKey(n.children[j], ids, chain, inAggregate, d)
    decreases |n.children| - i
  {
    hide ReadsKey;
    if i < |n.children| {
      ReadsFrom(n, i + 1, ids, chain, inAggregate, d);
    }
  }

  /** The walk answers yes exactly when the expression reads a key at some position. */
  lemma {:induction false} ReadsAreExact(n: Node, ids: seq<Identity>, chain: seq<seq<Binding>>, under: bool, d: nat)
    ensures ReadsKey(n, ids, chain, under, d) <==> exists p: Path :: ReadAt(n, ids, chain, under, p, d)
    decreases n, 1
  {
    hide IsAggregate, ReadAt, ReadsKeyFrom, IdentityOf, Fold;
    ReadRoot(n, ids, chain, under, d);
    var below := under || IsAggregate(n);
    ReadsFrom(n, 0, ids, chain, below, d + 1);
    if ReadsKey(n, ids, chain, under, d) && !n.kind.ColumnRef? {
      ReadBelow(n, ids, chain, under, d);
      var j :| 0 <= j < |n.children| && ReadsKey(n.children[j], ids, chain, below, d + 1);
      ReadsAreExact(n.children[j], ids, chain, below, d + 1);
      var q: Path :| ReadAt(n.children[j], ids, chain, below, q, d + 1);
      ReadChild(n, ids, chain, under, j, q, d);
    }
    if p: Path :| ReadAt(n, ids, chain, under, p, d) {
      ReadPath(n, ids, chain, under, p, d);
      if p != [] {
        SplitPath(n, p);
        var j, q := p[0], p[1..];
        ReadChild(n, ids, chain, under, j, q, d);
        ReadsAreExact(n.children[j], ids, chain, below, d + 1);
        ReadAbove(n, ids, chain, under, d);
      }
    }
  }

  lemma ReadPath(n: Node, ids: seq<Identity>, chain: seq<seq<Binding>>, under: bool, p: Path, d: nat)
    requires ReadAt(n, ids, chain, under, p, d)
    ensures NodeAt(n, p).Some? && ids != [] && d < MAX_DEPTH
  {
  }

  lemma ReadBelow(n: Node, ids: seq<Identity>, chain: seq<seq<Binding>>, under: bool, d: nat)
    requires ReadsKey(n, ids, chain, under, d) && !n.kind.ColumnRef?
    ensures !IsIndicator(n) && !IsSubquery(n) && ReadsKeyFrom(n, 0, ids, chain, under || IsAggregate(n), d + 1)
  {
    hide ReadsKeyFrom, Fold, IsAggregateName;
  }

  lemma ReadAbove(n: Node, ids: seq<Identity>, chain: seq<seq<Binding>>, under: bool, d: nat)
    requires ReadsKeyFrom(n, 0, ids, chain, under || IsAggregate(n), d + 1) && ids != [] && d < MAX_DEPTH
    requires !IsIndicator(n) && !IsSubquery(n) && !n.kind.ColumnRef?
    ensures ReadsKey(n, ids, chain, under, d)
  {
    hide ReadsKeyFrom, Fold, IsAggregateName;
  }

  // ----- When an expression is the key -----

  /** The comparison gets as far as the position: no pair of columns lies above it. */
  predicate Compared(e: Node, k: Node, p: Path) {
    NodeAt(e, p).Some? && forall j: nat :: j < |p| ==> !(IsColumnAt(e, p[..j]) && IsColumnAt(k, p[..j]))
  }

  predicate IsColumnAt(n: Node, p: Path) {
    NodeAt(n, p).Some? && NodeAt(n, p).value.kind.ColumnRef?
  }

  /** The two trees agree at the position: one column, or one head and arity. */
  predicate SameAt(e: Node, k: Node, chain: seq<seq<Binding>>, p: Path) {
    NodeAt(e, p).Some? && NodeAt(k, p).Some? &&
    var a, b := NodeAt(e, p).value, NodeAt(k, p).value;
    if a.kind.ColumnRef? && b.kind.ColumnRef? then SameColumnRef(chain, a.text, b.text)
    else SameHead(a, b) && |a.children| == |b.children|
  }

  predicate AgreesAt(e: Node, k: Node, chain: seq<seq<Binding>>, d: nat, p: Path) {
    Compared(e, k, p) ==> d + |p| < MAX_DEPTH && SameAt(e, k, chain, p)
  }

  lemma ComparedChild(e: Node, k: Node, i: nat, q: Path)
    requires i < |e.children| && i < |k.children| && !(e.kind.ColumnRef? && k.kind.ColumnRef?)
    ensures Compared(e, k, [i] + q) <==> Compared(e.children[i], k.children[i], q)
  {
    var p := [i] + q;
    ChildPath(e, i, q);
    ChildPath(k, i, q);
    assert p[..0] == [];
    if Compared(e, k, p) {
      forall j: nat | j < |q| ensures !(IsColumnAt(e.children[i], q[..j]) && IsColumnAt(k.children[i], q[..j])) {
        assert !(IsColumnAt(e, p[..j + 1]) && IsColumnAt(k, p[..j + 1]));
      }
    }
    if Compared(e.children[i], k.children[i], q) {
      forall j: nat | j < |p| ensures !(IsColumnAt(e, p[..j]) && IsColumnAt(k, p[..j])) {
        if j > 0 {
          assert p[..j - 1 + 1] == p[..j];
          assert !(IsColumnAt(e.children[i], q[..j - 1]) && IsColumnAt(k.children[i], q[..j - 1]));
        }
      }
    }
  }

  lemma AgreesChild(e: Node, k: Node, chain: seq<seq<Binding>>, d: nat, i: nat, q: Path)
    requires i < |e.children| && i < |k.children| && !(e.kind.ColumnRef? && k.kind.ColumnRef?)
    ensures AgreesAt(e, k, chain, d, [i] + q) <==> AgreesAt(e.children[i], k.children[i], chain, d + 1, q)
  {
    hide Compared, SameHead, SameColumnRef;
    ComparedChild(e, k, i, q);
    ChildPath(e, i, q);
    ChildPath(k, i, q);
  }

  lemma AgreesRoot(e: Node, k: Node, chain: seq<seq<Binding>>, d: nat)
    ensures AgreesAt(e, k, chain, d, []) == (d < MAX_DEPTH &&
            if e.kind.ColumnRef? && k.kind.ColumnRef? then SameColumnRef(chain, e.text, k.text) else SameHead(e, k) && |e.children| == |k.children|)
  {
    hide SameHead, SameColumnRef;
  }

  lemma {:induction false} EqualsFrom(e: Node, k: Node, i: nat, chain: seq<seq<Binding>>, d: nat)
    requires |e.children| == |k.children|
    ensures GroupEqualFrom(e, k, i, chain, d) <==> forall j :: i <= j < |e.children| ==> GroupEqual(e.children[j], k.children[j], chain, d)
    decreases |e.children| - i
  {
    hide GroupEqual;
    if i < |e.children| {
      EqualsFrom(e, k, i + 1, chain, d);
    }
  }

  /** An expression is recognised as the key exactly when the two agree at every position the
      comparison gets to, all within the depth limit. */
  lemma {:induction false} GroupEqualIsExact(e: Node, k: Node, chain: seq<seq<Binding>>, d: nat)
    ensures GroupEqual(e, k, chain, d) <==> forall p: Path :: AgreesAt(e, k, chain, d, p)
    decreases e
  {
    hide SameHead, SameColumnRef, AgreesAt, GroupEqualFrom;
    AgreesRoot(e, k, chain, d);
    if AgreesAt(e, k, chain, d, []) {
      if e.kind.ColumnRef? && k.kind.ColumnRef? {
        forall p: Path ensures AgreesAt(e, k, chain, d, p) {
          ColumnsStop(e, k, chain, d, p);
        }
      } else {
        EqualsFrom(e, k, 0, chain, d + 1);
        EqualChildrenAgree(e, k, chain, d);
      }
    }
  }

  lemma ColumnsStop(e: Node, k: Node, chain: seq<seq<Binding>>, d: nat, p: Path)
    requires e.kind.ColumnRef? && k.kind.ColumnRef? && AgreesAt(e, k, chain, d, [])
    ensures AgreesAt(e, k, chain, d, p)
  {
    hide SameHead, SameColumnRef;
    assert p[..0] == [];
    if p != [] {
      assert IsColumnAt(e, p[..0]) && IsColumnAt(k, p[..0]);
    }
  }

  lemma {:induction false} EqualChildrenAgree(e: Node, k: Node, chain: seq<seq<Binding>>, d: nat)
    requires AgreesAt(e, k, chain, d, []) && |e.children| == |k.children| && !(e.kind.ColumnRef? && k.kind.ColumnRef?)
    ensures (forall j :: 0 <= j < |e.children| ==> GroupEqual(e.children[j], k.children[j], chain, d + 1)) <==>
            forall p: Path :: AgreesAt(e, k, chain, d, p)
    decreases e, 0
  {
    hide SameHead, SameColumnRef, AgreesAt, GroupEqual;
    if forall j :: 0 <= j < |e.children| ==> GroupEqual(e.children[j], k.children[j], chain, d + 1) {
      forall p: Path ensures AgreesAt(e, k, chain, d, p) {
        if p != [] && p[0] < |e.children| {
          assert p == [p[0]] + p[1..];
          GroupEqualIsExact(e.children[p[0]], k.children[p[0]], chain, d + 1);
          AgreesChild(e, k, chain, d, p[0], p[1..]);
        } else if p != [] {
          NowhereAgrees(e, k, chain, d, p);
        }
      }
    }
    if forall p: Path :: AgreesAt(e, k, chain, d, p) {
      forall j | 0 <= j < |e.children| ensures GroupEqual(e.children[j], k.children[j], chain, d + 1) {
        var c, kc, below := e.children[j], k.children[j], d + 1;
        forall q: Path ensures AgreesAt(c, kc, chain, below, q) {
          AgreesChild(e, k, chain, d, j, q);
        }
        GroupEqualIsExact(c, kc, chain, below);
      }
    }
  }

  lemma NowhereAgrees(e: Node, k: Node, chain: seq<seq<Binding>>, d: nat, p: Path)
    requires p != [] && p[0] >= |e.children|
    ensures AgreesAt(e, k, chain, d, p)
  {
  }

  /** So an expression within the depth limit is recognised as itself. */
  lemma SelfIsKey(n: Node, chain: seq<seq<Binding>>, d: nat)
    requires d + Height(n) <= MAX_DEPTH
    ensures GroupEqual(n, n, chain, d)
  {
    hide GroupEqual, Height, Fold, IdentityOf;
    GroupEqualIsExact(n, n, chain, d);
    forall p: Path ensures AgreesAt(n, n, chain, d, p) {
      if NodeAt(n, p).Some? {
        PathHeight(n, p);
        SameSelf(NodeAt(n, p).value, chain);
      }
    }
  }

  lemma SameSelf(m: Node, chain: seq<seq<Binding>>)
    ensures SameHead(m, m) && SameColumnRef(chain, m.text, m.text)
  {
  }
}
