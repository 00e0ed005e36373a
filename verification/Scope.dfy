/** Lexical scopes: the relations visible in one query block, chained to the enclosing block.
    Each operation that walks or updates the relation list is a method; the functions beside
    it say, on values, what the method leaves behind or answers. */
module Scopes {
  import opened Wrappers
  import opened Identifier

  /** A column made visible by a relation. */
  datatype Column = Column(
    name: string,
    nullable: bool,
    tableId: nat,
    columnId: nat,
    coalesced: bool,
    merged: bool,
    nullableFromEnclosing: bool)

  /** A relation instance: base table, derived table or CTE reference. */
  datatype Binding = Binding(name: string, alias: string, columns: seq<Column>, nullableFromJoin: bool) {
    function Qualifier(): string {
      if alias == [] then name else alias
    }

    predicate MatchesQualifier(q: string) {
      IEquals(Qualifier(), q)
    }

    function ColumnNames(): (r: seq<string>)
      ensures |r| == |columns|
    {
      seq(|columns|, i requires 0 <= i < |columns| => columns[i].name)
    }

    function FindColumn(name: string): (r: Option<nat>)
      ensures r.Some? ==> r.value < |columns| && IEquals(columns[r.value].name, name)
      ensures r.None? ==> forall i :: 0 <= i < |columns| ==> !IEquals(columns[i].name, name)
    {
      var r := FirstMatch(ColumnNames(), name);
      assert r.None? ==> forall i :: 0 <= i < |columns| ==> ColumnNames()[i] == columns[i].name;
      r
    }
  }

  // ----- Column-wise updates -----

  function MapColumns(f: Column -> Column, cs: seq<Column>): (r: seq<Column>)
    ensures |r| == |cs|
    ensures forall i :: 0 <= i < |cs| ==> r[i] == f(cs[i])
  {
    seq(|cs|, i requires 0 <= i < |cs| => f(cs[i]))
  }

  function MapRange(f: Binding -> Binding, rels: seq<Binding>, begin: nat, end: nat): (r: seq<Binding>)
    ensures |r| == |rels|
    ensures forall i :: 0 <= i < |rels| ==> r[i] == if begin <= i < end then f(rels[i]) else rels[i]
  {
    seq(|rels|, i requires 0 <= i < |rels| => if begin <= i < end then f(rels[i]) else rels[i])
  }

  function EncloseColumn(c: Column): Column {
    if c.merged then c.(nullableFromEnclosing := true) else c
  }

  /** An outer join null-supplies the whole relation. A column already merged belongs to a
      join nested inside, so the outer join is recorded on it as enclosing. */
  function NullSupply(b: Binding): Binding {
    b.(nullableFromJoin := true, columns := MapColumns(EncloseColumn, b.columns))
  }

  function CoalesceColumn(name: string): Column -> Column {
    (c: Column) => if IEquals(c.name, name) then c.(coalesced := true) else c
  }

  function Coalesce(name: string): Binding -> Binding {
    (b: Binding) => b.(columns := MapColumns(CoalesceColumn(name), b.columns))
  }

  function MergeColumn(name: string, nullable: bool): Column -> Column {
    (c: Column) => if !c.coalesced && IEquals(c.name, name) then c.(nullable := nullable, merged := true) else c
  }

  function Merge(name: string, nullable: bool): Binding -> Binding {
    (b: Binding) => b.(columns := MapColumns(MergeColumn(name, nullable), b.columns))
  }

  // ----- Resolution -----

  /** How many columns the relation exposes under `name`, hidden coalesced copies aside. */
  function CountColumn(cs: seq<Column>, name: string): nat {
    if cs == [] then 0
    else
      var last := cs[|cs| - 1];
      CountColumn(cs[..|cs| - 1], name) + if !last.coalesced && IEquals(last.name, name) then 1 else 0
  }

  /** What one relation says about a name: nothing, several columns, or one. */
  datatype Answer = Silent | Twice | Once(col: nat)

  /** What one block's own relations say about a name. */
  datatype LevelResult = Miss | Many | Hit(rel: nat, col: nat)

  /** A bare name skips the hidden copy of a coalesced column. */
  function BareAnswer(b: Binding, name: string): (r: Answer)
    ensures r.Once? ==> r.col < |b.columns|
  {
    var hit := b.FindColumn(name);
    if hit.None? || b.columns[hit.value].coalesced then Silent
    else if CountColumn(b.columns, name) > 1 then Twice
    else Once(hit.value)
  }

  function QualifiedAnswer(b: Binding, q: string, name: string): (r: Answer)
    ensures r.Once? ==> r.col < |b.columns|
  {
    var hit := if b.MatchesQualifier(q) then b.FindColumn(name) else None;
    if hit.None? then Silent
    else if CountColumn(b.columns, name) > 1 then Twice
    else Once(hit.value)
  }

  predicate OneSpeaks(answers: seq<Answer>, i: nat)
    requires i < |answers|
  {
    answers[i].Once? && forall k :: 0 <= k < |answers| && k != i ==> answers[k].Silent?
  }

  /** A bare reference needs exactly one relation to answer, and that one only once. */
  function OnlyAnswer(answers: seq<Answer>): (r: LevelResult)
    ensures r.Hit? ==> r.rel < |answers| && answers[r.rel] == Once(r.col) && OneSpeaks(answers, r.rel)
    ensures r.Miss? <==> forall i :: 0 <= i < |answers| ==> answers[i].Silent?
  {
    if answers == [] then Miss
    else
      var n := |answers| - 1;
      var before := OnlyAnswer(answers[..n]);
      if answers[n].Silent? then before
      else if before.Miss? && answers[n].Once? then Hit(n, answers[n].col)
      else Many
  }

  lemma {:induction false} OnlyAnswerFound(answers: seq<Answer>, i: nat)
    requires i < |answers| && OneSpeaks(answers, i)
    ensures OnlyAnswer(answers) == Hit(i, answers[i].col)
  {
    var n := |answers| - 1;
    if i < n {
      assert OneSpeaks(answers[..n], i);
      OnlyAnswerFound(answers[..n], i);
    } else {
      assert forall k :: 0 <= k < n ==> answers[..n][k] == answers[k];
    }
  }

  lemma {:induction false} ManyStays(answers: seq<Answer>, n: nat)
    requires n <= |answers| && OnlyAnswer(answers[..n]).Many?
    ensures OnlyAnswer(answers).Many?
    decreases |answers| - n
  {
    if n == |answers| {
      assert answers[..n] == answers;
    } else {
      assert answers[..n + 1][..n] == answers[..n];
      ManyStays(answers, n + 1);
    }
  }

  /** The scan of one block's relations, counting matches and stopping at the first
      duplicate. */
  method TallyAnswers(answers: seq<Answer>) returns (hit: LevelResult)
    ensures hit == OnlyAnswer(answers)
  {
    hit := Miss;
    for i := 0 to |answers|
      invariant hit == OnlyAnswer(answers[..i]) && !hit.Many?
    {
      assert answers[..i + 1][..i] == answers[..i];
      if answers[i].Twice? || (answers[i].Once? && hit.Hit?) {
        ManyStays(answers, i + 1);
        return Many;
      }
      if answers[i].Once? {
        hit := Hit(i, answers[i].col);
      }
    }
    assert answers[..|answers|] == answers;
  }

  /** A qualified reference takes the first relation that answers. */
  function FirstAnswer(answers: seq<Answer>): (r: LevelResult)
    ensures r.Hit? ==> r.rel < |answers| && answers[r.rel] == Once(r.col)
    ensures r.Hit? ==> forall k :: 0 <= k < r.rel ==> answers[k].Silent?
    ensures r.Miss? <==> forall i :: 0 <= i < |answers| ==> answers[i].Silent?
  {
    if answers == [] then Miss
    else
      var n := |answers| - 1;
      var before := FirstAnswer(answers[..n]);
      if !before.Miss? || answers[n].Silent? then before
      else if answers[n].Once? then Hit(n, answers[n].col)
      else Many
  }

  function BareAnswers(rels: seq<Binding>, name: string): (r: seq<Answer>)
    ensures |r| == |rels|
    ensures forall i :: 0 <= i < |rels| ==> r[i] == BareAnswer(rels[i], name)
  {
    seq(|rels|, i requires 0 <= i < |rels| => BareAnswer(rels[i], name))
  }

  function QualifiedAnswers(rels: seq<Binding>, q: string, name: string): (r: seq<Answer>)
    ensures |r| == |rels|
    ensures forall i :: 0 <= i < |rels| ==> r[i] == QualifiedAnswer(rels[i], q, name)
  {
    seq(|rels|, i requires 0 <= i < |rels| => QualifiedAnswer(rels[i], q, name))
  }

  function BareInBlock(rels: seq<Binding>, name: string): (r: LevelResult)
    ensures r.Hit? ==> r.rel < |rels| && BareAnswer(rels[r.rel], name) == Once(r.col)
  {
    OnlyAnswer(BareAnswers(rels, name))
  }

  function QualifiedInBlock(rels: seq<Binding>, q: string, name: string): (r: LevelResult)
    ensures r.Hit? ==> r.rel < |rels| && QualifiedAnswer(rels[r.rel], q, name) == Once(r.col)
  {
    FirstAnswer(QualifiedAnswers(rels, q, name))
  }

  predicate QualifierSeen(rels: seq<Binding>, q: string) {
    exists i :: 0 <= i < |rels| && rels[i].MatchesQualifier(q)
  }

  /** `level` counts blocks outward from the one the reference was looked up in, so a
      reference is correlated exactly when `level > 0`. */
  datatype Resolution =
    | NotFound(badQualifier: bool)
    | Ambiguous
    | Found(level: nat, rel: nat, col: nat, column: Column)

  /** A merged column answers for itself and for the outer joins around it; any other
      column takes the null-supply of its relation. */
  function ReadBare(b: Binding, c: Column): Column {
    c.(nullable := c.nullable || if c.merged then c.nullableFromEnclosing else b.nullableFromJoin)
  }

  function ReadQualified(b: Binding, c: Column): Column {
    c.(nullable := c.nullable || b.nullableFromJoin)
  }

  function FoundBare(rels: seq<Binding>, level: nat, i: nat, j: nat): Resolution
    requires i < |rels| && j < |rels[i].columns|
  {
    Found(level, i, j, ReadBare(rels[i], rels[i].columns[j]))
  }

  function Outward(r: Resolution): Resolution {
    if r.Found? then r.(level := r.level + 1) else r
  }

  function ResolveBare(chain: seq<seq<Binding>>, name: string): (r: Resolution)
    ensures r.Found? ==> r.level < |chain| && BareInBlock(chain[r.level], name) == Hit(r.rel, r.col)
    ensures r.Found? ==> forall k :: 0 <= k < r.level ==> BareInBlock(chain[k], name).Miss?
  {
    if chain == [] then NotFound(false)
    else
      match BareInBlock(chain[0], name)
      case Hit(i, j) => FoundBare(chain[0], 0, i, j)
      case Many => Ambiguous
      case Miss => Outward(ResolveBare(chain[1..], name))
  }

  function ResolveQualified(chain: seq<seq<Binding>>, q: string, name: string, seen: bool): (r: Resolution)
    ensures r.Found? ==> r.level < |chain| && QualifiedInBlock(chain[r.level], q, name) == Hit(r.rel, r.col)
    ensures r.Found? ==> forall k :: 0 <= k < r.level ==> QualifiedInBlock(chain[k], q, name).Miss?
  {
    if chain == [] then NotFound(!seen)
    else
      match QualifiedInBlock(chain[0], q, name)
      case Hit(i, j) => Found(0, i, j, ReadQualified(chain[0][i], chain[0][i].columns[j]))
      case Many => Ambiguous
      case Miss => Outward(ResolveQualified(chain[1..], q, name, seen || QualifierSeen(chain[0], q)))
  }

  class Scope {
    const parent: Scope?
    var relations: seq<Binding>
    ghost const ancestors: seq<Scope>

    /** `ancestors` lists the enclosing scopes, nearest first. */
    ghost predicate Valid()
      decreases |ancestors|
    {
      && this !in ancestors
      && (parent == null ==> ancestors == [])
      && (parent != null ==> ancestors == [parent] + parent.ancestors && parent.Valid())
    }

    /** The relation lists a name is looked up in, nearest first. */
    ghost function Chain(): (r: seq<seq<Binding>>)
      requires Valid()
      reads this, set s | s in ancestors
      ensures |r| == 1 + |ancestors|
      decreases |ancestors|
    {
      if parent == null then [relations]
      else
        assert parent in ancestors && forall o <- parent.ancestors :: o in ancestors;
        [relations] + parent.Chain()
    }

    /** The block itself and the blocks around it, nearest first. */
    ghost function Lineage(): (r: seq<Scope>)
      ensures |r| == 1 + |ancestors| && r[0] == this
    {
      [this] + ancestors
    }

    lemma {:induction false} LineageAt(k: nat)
      requires Valid() && k <= |ancestors|
      ensures Lineage()[k].Valid() && Lineage()[k].ancestors == ancestors[k..]
      ensures Lineage()[k].Chain() == Chain()[k..]
      decreases k
    {
      if k > 0 {
        parent.LineageAt(k - 1);
        assert Lineage()[k] == parent.Lineage()[k - 1];
        assert Chain()[1..] == parent.Chain();
        assert Chain()[k..] == Chain()[1..][k - 1..];
        assert ancestors[k..] == parent.ancestors[k - 1..];
      }
    }

    constructor (parent: Scope?)
      requires parent != null ==> parent.Valid()
      ensures Valid() && this.parent == parent && relations == []
      ensures ancestors == if parent == null then [] else [parent] + parent.ancestors
    {
      this.parent := parent;
      relations := [];
      ancestors := if parent == null then [] else [parent] + parent.ancestors;
    }

    method AddRelation(b: Binding)
      modifies this`relations
      ensures relations == old(relations) + [b]
    {
      relations := relations + [b];
    }

    method MarkJoinNullable(begin: nat, end: nat)
      modifies this`relations
      ensures relations == MapRange(NullSupply, old(relations), begin, end)
    {
      var i := begin;
      while i < end && i < |relations|
        invariant begin <= i && |relations| == |old(relations)|
        invariant forall k :: 0 <= k < |relations| ==>
          relations[k] == if begin <= k < i && k < end then NullSupply(old(relations)[k]) else old(relations)[k]
        decreases end - i
      {
        var cs := relations[i].columns;
        ghost var before := cs;
        for j := 0 to |cs|
          invariant |cs| == |before|
          invariant forall k :: 0 <= k < |cs| ==> cs[k] == if k < j then EncloseColumn(before[k]) else before[k]
        {
          if cs[j].merged {
            cs := cs[j := cs[j].(nullableFromEnclosing := true)];
          }
        }
        assert cs == MapColumns(EncloseColumn, before);
        relations := relations[i := relations[i].(nullableFromJoin := true, columns := cs)];
        i := i + 1;
      }
    }

    method MarkColumnCoalesced(begin: nat, end: nat, name: string)
      modifies this`relations
      ensures relations == MapRange(Coalesce(name), old(relations), begin, end)
    {
      var i := begin;
      while i < end && i < |relations|
        invariant begin <= i && |relations| == |old(relations)|
        invariant forall k :: 0 <= k < |relations| ==>
          relations[k] == if begin <= k < i && k < end then Coalesce(name)(old(relations)[k]) else old(relations)[k]
        decreases end - i
      {
        var cs := relations[i].columns;
        ghost var before := cs;
        for j := 0 to |cs|
          invariant |cs| == |before|
          invariant forall k :: 0 <= k < |cs| ==> cs[k] == if k < j then CoalesceColumn(name)(before[k]) else before[k]
          modifies {}
        {
          var same := CompareIdentifiers(cs[j].name, name);
          if same {
            cs := cs[j := cs[j].(coalesced := true)];
          }
        }
        assert cs == MapColumns(CoalesceColumn(name), before);
        relations := relations[i := relations[i].(columns := cs)];
        i := i + 1;
      }
    }

    method SetMergedColumnNullability(begin: nat, end: nat, name: string, nullable: bool)
      modifies this`relations
      ensures relations == MapRange(Merge(name, nullable), old(relations), begin, end)
    {
      var i := begin;
      while i < end && i < |relations|
        invariant begin <= i && |relations| == |old(relations)|
        invariant forall k :: 0 <= k < |relations| ==>
          relations[k] == if begin <= k < i && k < end then Merge(name, nullable)(old(relations)[k]) else old(relations)[k]
        decreases end - i
      {
        var cs := relations[i].columns;
        ghost var before := cs;
        for j := 0 to |cs|
          invariant |cs| == |before|
          invariant forall k :: 0 <= k < |cs| ==>
            cs[k] == if k < j then MergeColumn(name, nullable)(before[k]) else before[k]
          modifies {}
        {
          var same := CompareIdentifiers(cs[j].name, name);
          if !cs[j].coalesced && same {
            cs := cs[j := cs[j].(nullable := nullable, merged := true)];
          }
        }
        assert cs == MapColumns(MergeColumn(name, nullable), before);
        relations := relations[i := relations[i].(columns := cs)];
        i := i + 1;
      }
    }

    /** One turn of the outward walk: what the block at `level` says settles the lookup,
        unless it says nothing. */
    lemma BareStep(name: string, level: nat)
      requires Valid() && level <= |ancestors| && SilentBelow(Chain(), name, level)
      ensures Lineage()[level].parent == if level < |ancestors| then Lineage()[level + 1] else null
      ensures var rels := Lineage()[level].relations;
              match BareInBlock(rels, name)
              case Many => ResolveBare(Chain(), name) == Ambiguous
              case Hit(i, j) => ResolveBare(Chain(), name) == FoundBare(rels, level, i, j)
              case Miss => SilentBelow(Chain(), name, level + 1)
    {
      LineageAt(level);
      BareFromLevel(Chain(), name, level);
      var s := Lineage()[level];
      assert s.Chain()[0] == s.relations == Chain()[level];
      assert s.ancestors == ancestors[level..];
    }

    /** Walk outward until some block knows the name; `owner` is the scope that does. */
    method LookUpBare(name: string) returns (r: Resolution, owner: Scope?)
      requires Valid()
      ensures r == ResolveBare(Chain(), name)
      ensures owner == if r.Found? then Lineage()[r.level] else null
    {
      var s: Scope? := this;
      var level := 0;
      while s != null
        invariant level <= |ancestors| + 1
        invariant s == if level <= |ancestors| then Lineage()[level] else null
        invariant SilentBelow(Chain(), name, level)
        decreases |ancestors| + 1 - level
      {
        BareStep(name, level);
        var hit := TallyAnswers(BareAnswers(s.relations, name));
        match hit {
          case Hit(i, j) => return FoundBare(s.relations, level, i, j), s;
          case Many => return Ambiguous, null;
          case Miss => s, level := s.parent, level + 1;
        }
      }
      BareFromLevel(Chain(), name, level);
      assert Chain()[level..] == [];
      return NotFound(false), null;
    }
  }

  function OutwardBy(r: Resolution, n: nat): Resolution {
    if r.Found? then r.(level := r.level + n) else r
  }

  /** No block nearer than `n` knows the name. */
  ghost predicate SilentBelow(chain: seq<seq<Binding>>, name: string, n: nat) {
    n <= |chain| && forall k :: 0 <= k < n ==> BareInBlock(chain[k], name).Miss?
  }

  /** Blocks that do not know the name only shift where the answer comes from. */
  lemma {:induction false} BareFromLevel(chain: seq<seq<Binding>>, name: string, n: nat)
    requires SilentBelow(chain, name, n) && n <= |chain|
    ensures ResolveBare(chain, name) == OutwardBy(ResolveBare(chain[n..], name), n)
  {
    if n == 0 {
      assert chain[0..] == chain;
    } else {
      BareFromLevel(chain[1..], name, n - 1);
      assert chain[1..][n - 1..] == chain[n..];
    }
  }
}
