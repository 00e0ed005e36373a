/** Which columns a FROM clause exposes under a bare name, and how often. */
module Visibility {
  import opened Wrappers
  import opened Identifier
  import opened Scopes
  import opened FromClause
  import opened JoinTree
  import opened JoinScope
  import opened BareReads

  function CountNames(cs: seq<Column>, name: string): nat {
    if cs == [] then 0
    else CountNames(cs[..|cs| - 1], name) + if IEquals(cs[|cs| - 1].name, name) then 1 else 0
  }

  /** How many columns of the joined table carry the name, a shared column counting once. */
  function VisibleCount(t: Table, name: string): nat {
    match t
    case Leaf(b) => CountNames(b.columns, name)
    case Product(l, r) => VisibleCount(l, name) + VisibleCount(r, name)
    case Joined(_, l, b, _) =>
      VisibleCount(l, name) + if Lists(JoinNames(t), name) then 0 else CountNames(b.columns, name)
  }

  /** How many columns the scope exposes under the name, hidden copies aside. */
  function TotalVisible(rels: seq<Binding>, name: string): nat {
    if rels == [] then 0
    else TotalVisible(rels[..|rels| - 1], name) + CountColumn(rels[|rels| - 1].columns, name)
  }

  lemma {:induction false} TotalVisibleAppend(a: seq<Binding>, b: seq<Binding>, name: string)
    ensures TotalVisible(a + b, name) == TotalVisible(a, name) + TotalVisible(b, name)
  {
    hide CountColumn;
    if b == [] {
      assert a + b == a;
    } else {
      assert (a + b)[..|a + b| - 1] == a + b[..|b| - 1];
      TotalVisibleAppend(a, b[..|b| - 1], name);
    }
  }

  /** Same names, same hidden copies. */
  ghost predicate SameVisibility(a: Binding, b: Binding) {
    && |a.columns| == |b.columns|
    && forall j :: 0 <= j < |a.columns| ==>
         a.columns[j].name == b.columns[j].name && a.columns[j].coalesced == b.columns[j].coalesced
  }

  lemma {:induction false} CountSame(a: seq<Column>, b: seq<Column>, name: string)
    requires |a| == |b|
    requires forall j :: 0 <= j < |a| ==> a[j].name == b[j].name && a[j].coalesced == b[j].coalesced
    ensures CountColumn(a, name) == CountColumn(b, name)
  {
    if a != [] {
      CountSame(a[..|a| - 1], b[..|b| - 1], name);
    }
  }

  lemma {:induction false} CountFresh(cs: seq<Column>, name: string)
    requires forall j :: 0 <= j < |cs| ==> !cs[j].coalesced
    ensures CountColumn(cs, name) == CountNames(cs, name)
  {
    if cs != [] {
      CountFresh(cs[..|cs| - 1], name);
    }
  }

  lemma {:induction false} CountHidden(cs: seq<Column>, name: string)
    requires forall j :: 0 <= j < |cs| && IEquals(cs[j].name, name) ==> cs[j].coalesced
    ensures CountColumn(cs, name) == 0
  {
    if cs != [] {
      CountHidden(cs[..|cs| - 1], name);
    }
  }

  lemma {:induction false} TotalSame(a: seq<Binding>, b: seq<Binding>, name: string)
    requires |a| == |b| && forall i :: 0 <= i < |a| ==> SameVisibility(a[i], b[i])
    ensures TotalVisible(a, name) == TotalVisible(b, name)
  {
    hide CountColumn, SameVisibility;
    if a != [] {
      var n := |a| - 1;
      TotalSame(a[..n], b[..n], name);
      assert SameVisibility(a[n], b[n]);
      CountSameBinding(a[n], b[n], name);
    }
  }

  lemma CountSameBinding(a: Binding, b: Binding, name: string)
    requires SameVisibility(a, b)
    ensures CountColumn(a.columns, name) == CountColumn(b.columns, name)
  {
    CountSame(a.columns, b.columns, name);
  }

  lemma JoinKeepsLeft(t: Table, i: nat)
    requires t.Joined? && CleanMerges(t) && i < |Leaves(t.left)|
    ensures SameVisibility(TreeScope(t)[i], TreeScope(t.left)[i])
  {
    hide TreeScope, CleanMerges, Lists;
    TreeScopeNames(t);
    TreeScopeNames(t.left);
    SameNamesAt(TreeScope(t), Leaves(t), i, 0);
    SameNamesAt(TreeScope(t.left), Leaves(t.left), i, 0);
    forall j | 0 <= j < |TreeScope(t.left)[i].columns|
      ensures TreeScope(t)[i].columns[j].name == TreeScope(t.left)[i].columns[j].name
      ensures TreeScope(t)[i].columns[j].coalesced == TreeScope(t.left)[i].columns[j].coalesced
    {
      JoinedColumn(t, i, j);
    }
    assert Leaves(t)[i] == Leaves(t.left)[i];
  }

  lemma JoinHidesRight(t: Table, name: string)
    requires t.Joined? && CleanMerges(t) && Fresh(t.binding)
    ensures CountColumn(TreeScope(t)[|Leaves(t.left)|].columns, name) ==
            if Lists(JoinNames(t), name) then 0 else CountNames(t.binding.columns, name)
  {
    hide TreeScope, CleanMerges, SharedNames;
    var n := |Leaves(t.left)|;
    var b := TreeScope(t)[n];
    TreeScopeNames(t);
    SameNamesAt(TreeScope(t), Leaves(t), n, 0);
    assert Leaves(t)[n] == t.binding;
    forall j | 0 <= j < |t.binding.columns|
      ensures b.columns[j].name == t.binding.columns[j].name
      ensures b.columns[j].coalesced == Lists(JoinNames(t), t.binding.columns[j].name)
    {
      JoinedColumn(t, n, j);
    }
    if Lists(JoinNames(t), name) {
      forall j | 0 <= j < |b.columns| && IEquals(b.columns[j].name, name) ensures b.columns[j].coalesced {
        ListsFolded(JoinNames(t), name, b.columns[j].name);
      }
      CountHidden(b.columns, name);
    } else {
      CountUnshared(b.columns, t.binding.columns, JoinNames(t), name);
    }
  }

  lemma ListsFolded(names: seq<string>, x: string, y: string)
    requires IEquals(x, y) && Lists(names, x)
    ensures Lists(names, y)
  {
    var k :| 0 <= k < |names| && IEquals(names[k], x);
    assert IEquals(names[k], y);
  }

  lemma {:induction false} CountUnshared(cs: seq<Column>, plain: seq<Column>, names: seq<string>, name: string)
    requires |cs| == |plain| && !Lists(names, name)
    requires forall j :: 0 <= j < |cs| ==> cs[j].name == plain[j].name && cs[j].coalesced == Lists(names, plain[j].name)
    ensures CountColumn(cs, name) == CountNames(plain, name)
  {
    hide Lists, IEquals;
    if cs != [] {
      var n := |cs| - 1;
      CountUnshared(cs[..n], plain[..n], names, name);
      if IEquals(cs[n].name, name) && cs[n].coalesced {
        ListsFolded(names, cs[n].name, name);
      }
    }
  }

  /** The scope exposes each name exactly as often as the joined table does. */
  lemma {:induction false} ScopeExposes(t: Table, name: string)
    requires CleanMerges(t) && AllFresh(Leaves(t))
    ensures TotalVisible(TreeScope(t), name) == VisibleCount(t, name)
    decreases t, 1
  {
    match t {
      case Leaf(b) =>
        assert Fresh(Leaves(t)[0]);
        CountFresh(b.columns, name);
        assert TotalVisible([b][..0], name) == 0;
      case Product(l, r) =>
        hide CleanMerges, AllFresh, TotalVisible, CountColumn;
        CleanProductParts(t);
        FreshParts(t);
        ScopeExposes(l, name);
        ScopeExposes(r, name);
        TotalVisibleAppend(TreeScope(l), TreeScope(r), name);
      case Joined(_, _, _, _) =>
        ScopeExposesJoin(t, name);
    }
  }

  lemma CleanProductParts(t: Table)
    requires t.Product? && CleanMerges(t)
    ensures CleanMerges(t.left) && CleanMerges(t.right)
  {
  }

  lemma CleanJoinedPart(t: Table)
    requires t.Joined? && CleanMerges(t)
    ensures CleanMerges(t.left)
  {
  }

  lemma {:induction false} ScopeExposesJoin(t: Table, name: string)
    requires t.Joined? && CleanMerges(t) && AllFresh(Leaves(t))
    ensures TotalVisible(TreeScope(t), name) == VisibleCount(t, name)
    decreases t, 0
  {
    hide CleanMerges, AllFresh, TreeScope, CountColumn, CountNames, SameVisibility, Lists;
    var n := |Leaves(t.left)|;
    var rels := TreeScope(t);
    CleanJoinedPart(t);
    FreshParts(t);
    ScopeExposes(t.left, name);
    forall i | 0 <= i < n ensures SameVisibility(rels[..n][i], TreeScope(t.left)[i]) {
      JoinKeepsLeft(t, i);
    }
    TotalSame(rels[..n], TreeScope(t.left), name);
    JoinHidesRight(t, name);
    assert |rels| == n + 1;
  }

  // ----- Bare references -----

  /** In one relation the columns of a name are hidden together or not at all. */
  lemma {:induction false} HiddenTogether(t: Table, i: nat, j: nat, j': nat)
    requires CleanMerges(t) && AllFresh(Leaves(t))
    requires i < |Leaves(t)| && j < |TreeScope(t)[i].columns| && j' < |TreeScope(t)[i].columns|
    requires IEquals(TreeScope(t)[i].columns[j].name, TreeScope(t)[i].columns[j'].name)
    ensures TreeScope(t)[i].columns[j].coalesced == TreeScope(t)[i].columns[j'].coalesced
  {
    hide TreeScope, AllFresh, CleanMerges, SharedNames, Lists, IEquals, Leaves;
    if t.Leaf? {
      LeafUnhidden(t, i);
      return;
    }
    FreshParts(t);
    LeavesCount(t);
    var n := |Leaves(t.left)|;
    if t.Product? {
      CleanProductParts(t);
      ScopeOfProduct(t);
      if i < n { HiddenTogether(t.left, i, j, j'); } else { HiddenTogether(t.right, i - n, j, j'); }
    } else {
      CleanJoinedPart(t);
      if i < n {
        JoinKeepsLeft(t, i);
        HiddenTogether(t.left, i, j, j');
      } else {
        HiddenRightTogether(t, j, j');
      }
    }
  }

  lemma LeafUnhidden(t: Table, i: nat)
    requires t.Leaf? && AllFresh(Leaves(t)) && i < |Leaves(t)|
    ensures forall j :: 0 <= j < |TreeScope(t)[i].columns| ==> !TreeScope(t)[i].columns[j].coalesced
  {
  }

  lemma LeavesCount(t: Table)
    requires !t.Leaf?
    ensures |Leaves(t)| == |Leaves(t.left)| + if t.Product? then |Leaves(t.right)| else 1
  {
  }

  lemma ScopeOfProduct(t: Table)
    requires t.Product?
    ensures TreeScope(t) == TreeScope(t.left) + TreeScope(t.right)
  {
  }

  lemma HiddenRightTogether(t: Table, j: nat, j': nat)
    requires t.Joined? && CleanMerges(t) && Fresh(t.binding)
    requires var b := TreeScope(t)[|Leaves(t.left)|];
             j < |b.columns| && j' < |b.columns| && IEquals(b.columns[j].name, b.columns[j'].name)
    ensures var b := TreeScope(t)[|Leaves(t.left)|]; b.columns[j].coalesced == b.columns[j'].coalesced
  {
    hide TreeScope, CleanMerges, SharedNames, Lists;
    var n := |Leaves(t.left)|;
    TreeScopeNames(t);
    assert Leaves(t)[n] == t.binding;
    SameNamesAt(TreeScope(t), Leaves(t), n, j);
    SameNamesAt(TreeScope(t), Leaves(t), n, j');
    JoinedColumn(t, n, j);
    JoinedColumn(t, n, j');
    var x, y := t.binding.columns[j].name, t.binding.columns[j'].name;
    if Lists(JoinNames(t), x) { ListsFolded(JoinNames(t), x, y); }
    if Lists(JoinNames(t), y) { ListsFolded(JoinNames(t), y, x); }
  }

  lemma {:induction false} CountPositive(cs: seq<Column>, name: string, j: nat)
    requires j < |cs| && !cs[j].coalesced && IEquals(cs[j].name, name)
    ensures CountColumn(cs, name) >= 1
  {
    if j < |cs| - 1 {
      CountPositive(cs[..|cs| - 1], name, j);
    }
  }

  /** One relation's answer is decided by how many of its columns carry the name. */
  lemma AnswerByCount(t: Table, i: nat, name: string)
    requires CleanMerges(t) && AllFresh(Leaves(t)) && i < |Leaves(t)|
    ensures var count := CountColumn(TreeScope(t)[i].columns, name);
            match BareAnswer(TreeScope(t)[i], name)
            case Silent => count == 0
            case Once(_) => count == 1
            case Twice => count > 1
  {
    hide TreeScope, CleanMerges, AllFresh;
    var b := TreeScope(t)[i];
    var hit := b.FindColumn(name);
    if hit.None? {
      CountHidden(b.columns, name);
    } else if b.columns[hit.value].coalesced {
      forall j | 0 <= j < |b.columns| && IEquals(b.columns[j].name, name) ensures b.columns[j].coalesced {
        HiddenTogether(t, i, hit.value, j);
      }
      CountHidden(b.columns, name);
    } else {
      CountPositive(b.columns, name, hit.value);
    }
  }

  lemma {:induction false} AnswersByTotal(rels: seq<Binding>, name: string)
    requires forall i :: 0 <= i < |rels| ==>
      match BareAnswer(rels[i], name)
      case Silent => CountColumn(rels[i].columns, name) == 0
      case Once(_) => CountColumn(rels[i].columns, name) == 1
      case Twice => CountColumn(rels[i].columns, name) > 1
    ensures var total := TotalVisible(rels, name);
            match BareInBlock(rels, name)
            case Miss => total == 0
            case Hit(_, _) => total == 1
            case Many => total > 1
  {
    hide CountColumn, BareAnswer;
    if rels != [] {
      var n := |rels| - 1;
      AnswersByTotal(rels[..n], name);
      assert BareAnswers(rels, name)[..n] == BareAnswers(rels[..n], name);
    }
  }

  /** A bare name resolves exactly when one visible column carries it; it is unresolved when
      none does and ambiguous when several do. */
  lemma BareByCount(t: Table, name: string)
    requires CleanMerges(t) && AllFresh(Leaves(t))
    ensures match BareInBlock(TreeScope(t), name)
            case Miss => VisibleCount(t, name) == 0
            case Hit(_, _) => VisibleCount(t, name) == 1
            case Many => VisibleCount(t, name) > 1
  {
    hide TreeScope, CleanMerges, AllFresh, BareInBlock, BareAnswer, CountColumn;
    forall i | 0 <= i < |Leaves(t)|
      ensures match BareAnswer(TreeScope(t)[i], name)
              case Silent => CountColumn(TreeScope(t)[i].columns, name) == 0
              case Once(_) => CountColumn(TreeScope(t)[i].columns, name) == 1
              case Twice => CountColumn(TreeScope(t)[i].columns, name) > 1
    {
      AnswerByCount(t, i, name);
    }
    AnswersByTotal(TreeScope(t), name);
    ScopeExposes(t, name);
  }
}
