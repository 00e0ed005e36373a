/** Column references as text: how `q.c` is split, which column of which block it denotes, and
    when two spellings denote the same one. */
module References {
  import opened Wrappers
  import opened Identifier
  import opened Scopes

  // ----- Splitting -----

  /** A reference splits at its last dot. */
  function LastDot(s: string): (r: Option<nat>)
    ensures r.Some? ==> r.value < |s| && s[r.value] == '.' && forall k :: r.value < k < |s| ==> s[k] != '.'
    ensures r.None? ==> forall k :: 0 <= k < |s| ==> s[k] != '.'
  {
    if s == [] then None
    else if s[|s| - 1] == '.' then Some(|s| - 1)
    else LastDot(s[..|s| - 1])
  }

  function QualifierOf(text: string): string {
    match LastDot(text)
    case None => ""
    case Some(i) => text[..i]
  }

  function NameOf(text: string): string {
    match LastDot(text)
    case None => text
    case Some(i) => text[i + 1..]
  }

  /** Folding does not move dots, so two equal references split into equal parts. */
  lemma SplitFolded(a: string, b: string)
    requires IEquals(a, b)
    ensures IEquals(QualifierOf(a), QualifierOf(b)) && IEquals(NameOf(a), NameOf(b))
  {
    assert |a| == |Fold(a)| == |b|;
    forall k | 0 <= k < |a| ensures a[k] == '.' <==> b[k] == '.' {
      assert Fold(a)[k] == Fold(b)[k];
    }
    if LastDot(a).Some? {
      var i := LastDot(a).value;
      assert LastDot(b) == Some(i);
      assert Fold(a[..i]) == Fold(a)[..i] && Fold(b[..i]) == Fold(b)[..i];
      assert Fold(a[i + 1..]) == Fold(a)[i + 1..] && Fold(b[i + 1..]) == Fold(b)[i + 1..];
    }
  }

  // ----- What a reference denotes -----

  datatype Slot = Slot(level: nat, rel: nat, col: nat)

  function Resolve(chain: seq<seq<Binding>>, text: string): (r: Resolution)
    ensures r.Found? ==> r.level < |chain| && r.rel < |chain[r.level]| && r.col < |chain[r.level][r.rel].columns|
  {
    if QualifierOf(text) == "" then ResolveBare(chain, NameOf(text))
    else ResolveQualified(chain, QualifierOf(text), NameOf(text), false)
  }

  function SlotOf(chain: seq<seq<Binding>>, text: string): (r: Option<Slot>)
    ensures r.Some? ==> r.value.level < |chain| && r.value.rel < |chain[r.value.level]|
                        && r.value.col < |chain[r.value.level][r.value.rel].columns|
  {
    var res := Resolve(chain, text);
    if res.Found? then Some(Slot(res.level, res.rel, res.col)) else None
  }

  /** The catalogue identity recorded on a reference; (0, 0) when it denotes nothing or a column
      without one. */
  datatype Identity = Identity(table: nat, column: nat)

  function IdentityOf(chain: seq<seq<Binding>>, text: string): Identity {
    match SlotOf(chain, text)
    case None => Identity(0, 0)
    case Some(s) =>
      var c := chain[s.level][s.rel].columns[s.col];
      Identity(c.tableId, c.columnId)
  }

  /** Two qualifiers can name one relation instance: a missing one goes with any. */
  predicate SameInstance(qa: string, qb: string) {
    qa != "" && qb != "" ==> IEquals(qa, qb)
  }

  // ----- Spelling does not matter -----

  lemma {:induction false} MatchFolded(names: seq<string>, a: string, b: string)
    requires IEquals(a, b)
    ensures FirstMatch(names, a) == FirstMatch(names, b)
  {
    if names != [] {
      MatchFolded(names[..|names| - 1], a, b);
    }
  }

  lemma {:induction false} CountFolded(cs: seq<Column>, a: string, b: string)
    requires IEquals(a, b)
    ensures CountColumn(cs, a) == CountColumn(cs, b)
  {
    if cs != [] {
      CountFolded(cs[..|cs| - 1], a, b);
    }
  }

  lemma AnswersFolded(r: Binding, a: string, b: string, qa: string, qb: string)
    requires IEquals(a, b) && IEquals(qa, qb)
    ensures BareAnswer(r, a) == BareAnswer(r, b)
    ensures QualifiedAnswer(r, qa, a) == QualifiedAnswer(r, qb, b)
  {
    MatchFolded(r.ColumnNames(), a, b);
    CountFolded(r.columns, a, b);
  }

  lemma BlockFolded(rels: seq<Binding>, a: string, b: string, qa: string, qb: string)
    requires IEquals(a, b) && IEquals(qa, qb)
    ensures BareInBlock(rels, a) == BareInBlock(rels, b)
    ensures QualifiedInBlock(rels, qa, a) == QualifiedInBlock(rels, qb, b)
  {
    forall i | 0 <= i < |rels|
      ensures BareAnswer(rels[i], a) == BareAnswer(rels[i], b)
      ensures QualifiedAnswer(rels[i], qa, a) == QualifiedAnswer(rels[i], qb, b)
    {
      AnswersFolded(rels[i], a, b, qa, qb);
    }
    assert BareAnswers(rels, a) == BareAnswers(rels, b);
    assert QualifiedAnswers(rels, qa, a) == QualifiedAnswers(rels, qb, b);
  }

  lemma {:induction false} ResolveFolded(chain: seq<seq<Binding>>, a: string, b: string, qa: string, qb: string, seen: bool)
    requires IEquals(a, b) && IEquals(qa, qb)
    ensures ResolveBare(chain, a) == ResolveBare(chain, b)
    ensures ResolveQualified(chain, qa, a, seen) == ResolveQualified(chain, qb, b, seen)
  {
    if chain != [] {
      BlockFolded(chain[0], a, b, qa, qb);
      assert QualifierSeen(chain[0], qa) <==> QualifierSeen(chain[0], qb);
      ResolveFolded(chain[1..], a, b, qa, qb, seen || QualifierSeen(chain[0], qa));
      ResolveFolded(chain[1..], a, b, qa, qb, seen);
    }
  }

  /** Equal references denote the same column. */
  lemma SameTextSameSlot(chain: seq<seq<Binding>>, a: string, b: string)
    requires IEquals(a, b)
    ensures SlotOf(chain, a) == SlotOf(chain, b)
  {
    SplitFolded(a, b);
    assert |QualifierOf(a)| == |Fold(QualifierOf(a))| == |QualifierOf(b)|;
    ResolveFolded(chain, NameOf(a), NameOf(b), QualifierOf(a), QualifierOf(b), false);
  }

  // ----- One block -----

  /** No USING or NATURAL merge has touched the block. */
  predicate Unmerged(rels: seq<Binding>) {
    forall i, j :: 0 <= i < |rels| && 0 <= j < |rels[i].columns| ==> !rels[i].columns[j].coalesced
  }

  /** Every relation has a name of its own. */
  predicate DistinctlyNamed(rels: seq<Binding>) {
    && (forall i :: 0 <= i < |rels| ==> rels[i].Qualifier() != "")
    && (forall i, j :: 0 <= i < j < |rels| ==> !IEquals(rels[i].Qualifier(), rels[j].Qualifier()))
  }

  lemma LocalBare(chain: seq<seq<Binding>>, text: string, i: nat, j: nat)
    requires SlotOf(chain, text) == Some(Slot(0, i, j)) && QualifierOf(text) == ""
    ensures BareInBlock(chain[0], NameOf(text)) == Hit(i, j)
    ensures i < |chain[0]| && BareAnswer(chain[0][i], NameOf(text)) == Once(j)
    ensures forall k :: 0 <= k < |chain[0]| && k != i ==> BareAnswer(chain[0][k], NameOf(text)).Silent?
  {
    var answers := BareAnswers(chain[0], NameOf(text));
    assert OneSpeaks(answers, i);
    assert forall k :: 0 <= k < |chain[0]| && k != i ==> answers[k].Silent?;
  }

  lemma LocalQualified(chain: seq<seq<Binding>>, text: string, i: nat, j: nat)
    requires SlotOf(chain, text) == Some(Slot(0, i, j)) && QualifierOf(text) != ""
    ensures i < |chain[0]| && QualifiedAnswer(chain[0][i], QualifierOf(text), NameOf(text)) == Once(j)
  {
  }

  lemma SpeaksBare(r: Binding, q: string, name: string, j: nat)
    requires QualifiedAnswer(r, q, name) == Once(j)
    requires forall k :: 0 <= k < |r.columns| ==> !r.columns[k].coalesced
    ensures BareAnswer(r, name) == Once(j)
  {
  }

  lemma MixedSameSlot(chain: seq<seq<Binding>>, a: string, b: string, sa: Slot, sb: Slot)
    requires chain != [] && Unmerged(chain[0])
    requires SlotOf(chain, a) == Some(sa) && SlotOf(chain, b) == Some(sb) && sa.level == 0 == sb.level
    requires IEquals(NameOf(a), NameOf(b)) && QualifierOf(a) == "" && QualifierOf(b) != ""
    ensures sa == sb
  {
    hide SlotOf, BareAnswer, QualifiedAnswer, BareInBlock, NameOf, QualifierOf, IEquals;
    LocalBare(chain, a, sa.rel, sa.col);
    LocalQualified(chain, b, sb.rel, sb.col);
    SpeaksBare(chain[0][sb.rel], QualifierOf(b), NameOf(b), sb.col);
    AnswersFolded(chain[0][sb.rel], NameOf(a), NameOf(b), "", "");
  }

  /** In a block without merges, two local references with one column name and agreeing
      qualifiers denote the same column. */
  lemma SameNameSameSlot(chain: seq<seq<Binding>>, a: string, b: string, sa: Slot, sb: Slot)
    requires chain != [] && Unmerged(chain[0])
    requires SlotOf(chain, a) == Some(sa) && SlotOf(chain, b) == Some(sb) && sa.level == 0 == sb.level
    requires IEquals(NameOf(a), NameOf(b)) && SameInstance(QualifierOf(a), QualifierOf(b))
    ensures sa == sb
  {
    hide NameOf, QualifierOf, ResolveBare, ResolveQualified, Unmerged;
    if QualifierOf(a) == "" && QualifierOf(b) != "" {
      MixedSameSlot(chain, a, b, sa, sb);
    } else if QualifierOf(a) != "" && QualifierOf(b) == "" {
      MixedSameSlot(chain, b, a, sb, sa);
    } else {
      ResolveFolded(chain, NameOf(a), NameOf(b), QualifierOf(a), QualifierOf(b), false);
    }
  }

  lemma SlotNames(chain: seq<seq<Binding>>, text: string, s: Slot)
    requires SlotOf(chain, text) == Some(s)
    ensures IEquals(chain[s.level][s.rel].columns[s.col].name, NameOf(text))
    ensures QualifierOf(text) != "" ==> chain[s.level][s.rel].MatchesQualifier(QualifierOf(text))
  {
  }

  /** And two references to one column carry its name and agreeing qualifiers. */
  lemma SameSlotSameName(chain: seq<seq<Binding>>, a: string, b: string, s: Slot)
    requires SlotOf(chain, a) == Some(s) && SlotOf(chain, b) == Some(s)
    ensures IEquals(NameOf(a), NameOf(b)) && SameInstance(QualifierOf(a), QualifierOf(b))
    ensures IdentityOf(chain, a) == IdentityOf(chain, b)
  {
    hide SlotOf;
    SlotNames(chain, a, s);
    SlotNames(chain, b, s);
  }

  /** A reference agreeing with column `j` of relation `i` in name and, if it has one, in
      qualifier denotes that column, if it denotes a column of this block at all. */
  lemma StarColumnSlot(chain: seq<seq<Binding>>, i: nat, j: nat, text: string, s: Slot)
    requires chain != [] && Unmerged(chain[0]) && DistinctlyNamed(chain[0])
    requires i < |chain[0]| && j < |chain[0][i].columns|
    requires SlotOf(chain, text) == Some(s) && s.level == 0
    requires IEquals(chain[0][i].columns[j].name, NameOf(text)) && SameInstance(chain[0][i].Qualifier(), QualifierOf(text))
    ensures s.rel == i
    ensures CountColumn(chain[0][i].columns, NameOf(text)) <= 1 && chain[0][i].FindColumn(NameOf(text)) == Some(s.col)
  {
    hide SlotOf, CountColumn, NameOf, QualifierOf;
    if QualifierOf(text) == "" {
      LocalBare(chain, text, s.rel, s.col);
      assert !BareAnswer(chain[0][i], NameOf(text)).Silent?;
    } else {
      LocalQualified(chain, text, s.rel, s.col);
    }
  }

  lemma {:induction false} CountTwo(cs: seq<Column>, name: string, j: nat, k: nat)
    requires j < k < |cs| && IEquals(cs[j].name, name) && IEquals(cs[k].name, name) && !cs[j].coalesced && !cs[k].coalesced
    ensures CountColumn(cs, name) >= 2
  {
    if k == |cs| - 1 {
      CountOne(cs[..|cs| - 1], name, j);
    } else {
      CountTwo(cs[..|cs| - 1], name, j, k);
    }
  }

  lemma {:induction false} CountOne(cs: seq<Column>, name: string, j: nat)
    requires j < |cs| && IEquals(cs[j].name, name) && !cs[j].coalesced
    ensures CountColumn(cs, name) >= 1
  {
    if j < |cs| - 1 {
      CountOne(cs[..|cs| - 1], name, j);
    }
  }

  /** So it denotes exactly that column. */
  lemma StarColumnIsSlot(chain: seq<seq<Binding>>, i: nat, j: nat, text: string, s: Slot)
    requires chain != [] && Unmerged(chain[0]) && DistinctlyNamed(chain[0])
    requires i < |chain[0]| && j < |chain[0][i].columns|
    requires SlotOf(chain, text) == Some(s) && s.level == 0
    requires IEquals(chain[0][i].columns[j].name, NameOf(text)) && SameInstance(chain[0][i].Qualifier(), QualifierOf(text))
    ensures s == Slot(0, i, j)
  {
    hide SlotOf, CountColumn, NameOf, QualifierOf;
    StarColumnSlot(chain, i, j, text, s);
    var cs := chain[0][i].columns;
    if s.col < j {
      CountTwo(cs, NameOf(text), s.col, j);
    } else if j < s.col {
      CountTwo(cs, NameOf(text), j, s.col);
    }
  }
}
