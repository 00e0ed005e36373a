/** Qualified reads: `q.c` denotes one relation's own column, and is reported nullable exactly when
    that column can be NULL in a row of the joined table. */
module QualifiedReads {
  import opened Wrappers
  import opened Identifier
  import opened Scopes
  import opened FromClause
  import opened JoinTree
  import opened JoinScope
  import opened FlatWalk
  import opened BareReads
  import opened FromTheorems

  // ----- Which column a qualified name denotes -----

  /** The relation goes by the qualifier and has a column of the name. */
  predicate Offers(b: Binding, q: string, name: string) {
    b.MatchesQualifier(q) && exists j :: 0 <= j < |b.columns| && IEquals(b.columns[j].name, name)
  }

  predicate BlockOffers(rels: seq<Binding>, q: string, name: string) {
    exists i :: 0 <= i < |rels| && Offers(rels[i], q, name)
  }

  /** Relation `i` of block `k` is the first to offer the column, nearest block first. */
  predicate OffersFirst(chain: seq<seq<Binding>>, q: string, name: string, k: nat, i: nat) {
    && k < |chain| && i < |chain[k]| && Offers(chain[k][i], q, name)
    && (forall m :: 0 <= m < k ==> !BlockOffers(chain[m], q, name))
    && forall m :: 0 <= m < i ==> !Offers(chain[k][m], q, name)
  }

  lemma OfferAnswers(b: Binding, q: string, name: string)
    ensures Offers(b, q, name) <==> !QualifiedAnswer(b, q, name).Silent?
    ensures QualifiedAnswer(b, q, name).Once? ==> IEquals(b.columns[QualifiedAnswer(b, q, name).col].name, name)
    ensures QualifiedAnswer(b, q, name).Twice? ==> CountColumn(b.columns, name) > 1
    ensures QualifiedAnswer(b, q, name).Once? ==> CountColumn(b.columns, name) <= 1
  {
  }

  lemma {:induction false} FirstSpeaks(answers: seq<Answer>, i: nat)
    requires i < |answers| && !answers[i].Silent? && forall m :: 0 <= m < i ==> answers[m].Silent?
    ensures FirstAnswer(answers) == match answers[i] case Twice => Many case Once(c) => Hit(i, c)
  {
    if i < |answers| - 1 {
      FirstSpeaks(answers[..|answers| - 1], i);
    } else {
      assert FirstAnswer(answers[..i]).Miss?;
    }
  }

  lemma BlockMisses(rels: seq<Binding>, q: string, name: string)
    ensures BlockOffers(rels, q, name) <==> !QualifiedInBlock(rels, q, name).Miss?
  {
    hide Offers, QualifiedAnswer, FirstAnswer;
    forall i | 0 <= i < |rels| ensures Offers(rels[i], q, name) <==> !QualifiedAnswers(rels, q, name)[i].Silent? {
      OfferAnswers(rels[i], q, name);
    }
  }

  lemma BlockHit(rels: seq<Binding>, q: string, name: string, i: nat)
    requires i < |rels| && Offers(rels[i], q, name) && forall m :: 0 <= m < i ==> !Offers(rels[m], q, name)
    ensures QualifiedInBlock(rels, q, name) ==
            match QualifiedAnswer(rels[i], q, name) case Silent => Miss case Twice => Many case Once(c) => Hit(i, c)
  {
    hide Offers, QualifiedAnswer, FirstAnswer;
    forall m | 0 <= m <= i ensures Offers(rels[m], q, name) <==> !QualifiedAnswers(rels, q, name)[m].Silent? {
      OfferAnswers(rels[m], q, name);
    }
    FirstSpeaks(QualifiedAnswers(rels, q, name), i);
  }

  lemma OffersOutward(chain: seq<seq<Binding>>, q: string, name: string, k: nat, i: nat)
    requires OffersFirst(chain, q, name, k, i) && k > 0
    ensures OffersFirst(chain[1..], q, name, k - 1, i) && !BlockOffers(chain[0], q, name)
  {
    hide Offers, BlockOffers;
    forall m | 0 <= m < k - 1 ensures !BlockOffers(chain[1..][m], q, name) {
      assert chain[1..][m] == chain[m + 1];
    }
  }

  /** The first relation to offer the column decides: found if it exposes the name once, ambiguous
      if more often. */
  lemma {:induction false} FirstOfferDecides(chain: seq<seq<Binding>>, q: string, name: string, seen: bool, k: nat, i: nat)
    requires OffersFirst(chain, q, name, k, i)
    ensures var r := ResolveQualified(chain, q, name, seen); var b := chain[k][i];
            && (r.Ambiguous? <==> CountColumn(b.columns, name) > 1)
            && (!r.Ambiguous? ==> r.Found? && r.level == k && r.rel == i && r.col < |b.columns|
                                  && IEquals(b.columns[r.col].name, name) && r.column == ReadQualified(b, b.columns[r.col]))
    decreases k
  {
    hide Offers, BlockOffers, QualifiedAnswer, CountColumn, QualifiedInBlock;
    OfferAnswers(chain[k][i], q, name);
    if k == 0 {
      BlockHit(chain[0], q, name, i);
    } else {
      OffersOutward(chain, q, name, k, i);
      BlockMisses(chain[0], q, name);
      FirstOfferDecides(chain[1..], q, name, seen || QualifierSeen(chain[0], q), k - 1, i);
    }
  }

  /** Nothing is found exactly when no relation offers the column, and the qualifier is at fault
      exactly when no relation goes by it. */
  lemma {:induction false} NothingOffered(chain: seq<seq<Binding>>, q: string, name: string, seen: bool)
    ensures var r := ResolveQualified(chain, q, name, seen);
            && (r.NotFound? <==> forall k :: 0 <= k < |chain| ==> !BlockOffers(chain[k], q, name))
            && (r.NotFound? ==> (r.badQualifier <==> !seen && forall k :: 0 <= k < |chain| ==> !QualifierSeen(chain[k], q)))
  {
    hide BlockOffers, QualifiedInBlock, QualifierSeen;
    if chain != [] {
      BlockMisses(chain[0], q, name);
      NothingOffered(chain[1..], q, name, seen || QualifierSeen(chain[0], q));
      assert forall k :: 0 < k < |chain| ==> chain[k] == chain[1..][k - 1];
      assert forall k :: 0 <= k < |chain| - 1 ==> chain[1..][k] == chain[k + 1];
    }
  }

  lemma FoundOffers(chain: seq<seq<Binding>>, q: string, name: string)
    requires ResolveQualified(chain, q, name, false).Found?
    ensures var r := ResolveQualified(chain, q, name, false); OffersFirst(chain, q, name, r.level, r.rel)
  {
    hide Offers, QualifiedAnswer, ResolveQualified;
    var r := ResolveQualified(chain, q, name, false);
    forall m | 0 <= m < r.level ensures !BlockOffers(chain[m], q, name) {
      BlockMisses(chain[m], q, name);
    }
    var rels := chain[r.level];
    forall m | 0 <= m <= r.rel ensures Offers(rels[m], q, name) <==> !QualifiedAnswers(rels, q, name)[m].Silent? {
      OfferAnswers(rels[m], q, name);
    }
  }

  // ----- What joins do to a relation's own columns -----

  /** A merge changes a column's flag only where the relation is marked as well. */
  lemma {:induction false} OwnColumn(t: Table, i: nat, j: nat)
    requires CleanMerges(t) && i < |Leaves(t)| && j < |Leaves(t)[i].columns|
    ensures |TreeScope(t)[i].columns| == |Leaves(t)[i].columns|
    ensures (TreeScope(t)[i].columns[j].nullable || TreeScope(t)[i].nullableFromJoin)
            == (Leaves(t)[i].columns[j].nullable || TreeScope(t)[i].nullableFromJoin)
    ensures TreeScope(t)[i].Qualifier() == Leaves(t)[i].Qualifier()
    ensures TreeScope(t)[i].columns[j].name == Leaves(t)[i].columns[j].name
    decreases t
  {
    match t {
      case Leaf(_) =>
      case Product(l, r) =>
        hide CleanMerges;
        CleanSides(t);
        var n := |Leaves(l)|;
        if i < n { OwnColumn(l, i, j); } else { OwnColumn(r, i - n, j); }
      case Joined(_, l, _, _) =>
        OwnJoined(t, i, j);
    }
  }

  lemma CleanSides(t: Table)
    requires CleanMerges(t) && !t.Leaf?
    ensures CleanMerges(t.left) && (t.Product? ==> CleanMerges(t.right))
  {
    hide SharesCleanly;
  }

  lemma {:induction false} OwnJoined(t: Table, i: nat, j: nat)
    requires t.Joined? && CleanMerges(t) && i < |Leaves(t)| && j < |Leaves(t)[i].columns|
    ensures |TreeScope(t)[i].columns| == |Leaves(t)[i].columns|
    ensures (TreeScope(t)[i].columns[j].nullable || TreeScope(t)[i].nullableFromJoin)
            == (Leaves(t)[i].columns[j].nullable || TreeScope(t)[i].nullableFromJoin)
    ensures TreeScope(t)[i].Qualifier() == Leaves(t)[i].Qualifier()
    ensures TreeScope(t)[i].columns[j].name == Leaves(t)[i].columns[j].name
    decreases t, 0
  {
    hide CleanMerges, TreeScope, Lists, RightNullable, SharedNames;
    var n := |Leaves(t.left)|;
    CleanSides(t);
    if i < n {
      assert Leaves(t)[i] == Leaves(t.left)[i];
      OwnColumn(t.left, i, j);
    }
    JoinedColumn(t, i, j);
    JoinKeepsQualifier(t, i);
  }

  lemma JoinKeepsQualifier(t: Table, i: nat)
    requires t.Joined? && i < |Leaves(t)|
    ensures TreeScope(t)[i].Qualifier() == Incoming(t, i).Qualifier()
  {
    hide SharedNames, MergeNames;
    var n := |Leaves(t.left)|;
    MergeKeepsQualifier(MarkSides(t.kind, TreeScope(t.left) + [t.binding], 0, n), n, JoinNames(t), t.kind, i);
  }

  lemma {:induction false} MergeKeepsQualifier(rels: seq<Binding>, n: nat, names: seq<string>, kind: JoinKind, i: nat)
    requires n <= |rels| && i < |rels|
    ensures MergeNames(rels, n, names, kind)[i].Qualifier() == rels[i].Qualifier()
    decreases names
  {
    if names != [] {
      MergeKeepsQualifier(MergeName(rels, n, names[0], kind), n, names[1..], kind, i);
    }
  }

  // ----- Rows -----

  /** A present cell comes from its table. */
  lemma {:induction false} CellIsStored(t: Table, row: Row, inst: Instance, base: nat, i: nat)
    requires InRows(t, row, inst, base) && |row| == |Leaves(t)| && i < |row| && row[i].Some?
    ensures row[i].value in inst.tables(base + i)
  {
    match t {
      case Leaf(_) =>
      case Product(l, r) =>
        var n := |Leaves(l)|;
        if i < n { CellIsStored(l, row[..n], inst, base, i); } else { CellIsStored(r, row[n..], inst, base + n, i - n); }
      case Joined(_, l, _, _) =>
        var n := |Leaves(l)|;
        if i < n && !AllNull(row[..n]) { CellIsStored(l, row[..n], inst, base, i); }
    }
  }

  /** The relation's own column is NULL in no row. */
  ghost predicate OwnNeverNull(t: Table, i: nat, j: nat) {
    forall inst: Instance, row: Row :: IsRowOf(t, inst, row) ==> CellValue(row, i, j) != Null
  }

  lemma OwnIsPresent(t: Table, i: nat, j: nat)
    requires i < |Leaves(t)| && j < |Leaves(t)[i].columns| && !Leaves(t)[i].columns[j].nullable && !NullSupplied(t)[i]
    ensures OwnNeverNull(t, i, j)
  {
    hide InRows, NullSupplied;
    forall inst: Instance, row: Row | IsRowOf(t, inst, row) ensures CellValue(row, i, j) != Null {
      UnmarkedIsPresent(t, row, inst, 0, i);
      CellIsStored(t, row, inst, 0, i);
      LeafHolds(Leaves(t), inst, 0, i);
    }
  }

  /** Over ON joins a nullable column is NULL in some row, and so is any column of a relation
      that can be null-extended. */
  lemma OwnIsAbsent(t: Table, i: nat, j: nat)
    requires OnOnly(t) && i < |Leaves(t)| && j < |Leaves(t)[i].columns|
    requires Leaves(t)[i].columns[j].nullable || NullSupplied(t)[i]
    ensures !OwnNeverNull(t, i, j)
  {
    hide InRows, NullSupplied, Witness, Respects, Stored;
    var leaves := Leaves(t);
    assert leaves[0..|leaves|] == leaves;
    var inst: Instance, row: Row;
    if NullSupplied(t)[i] {
      row := MarkedIsExtended(t, leaves, 0, i, None);
      inst := Witness(leaves, Culprit(t, i), None);
      WitnessRespects(leaves, Culprit(t, i), None);
    } else {
      var hole := Some(FromClause.Slot(i, j));
      row := RowExists(t, leaves, 0, |leaves|, hole);
      inst := Witness(leaves, |leaves|, hole);
      WitnessRespects(leaves, |leaves|, hole);
      assert row[i] == Some(Stored(leaves[i], 0 + i, hole));
    }
    assert IsRowOf(t, inst, row) && CellValue(row, i, j) == Null;
  }

  // ----- The theorems -----

  /** A reference `q.c` found in a block is reported nullable exactly when its column is declared
      so or its relation is null-supplied; reported NOT NULL, it is NULL in no row. */
  lemma QualifiedReferenceIsSound(chain: seq<seq<Binding>>, items: seq<FromItem>, q: string, name: string)
    requires WellFormed(items) && LocalMerges(items, [], 0)
    requires CleanMerges(TableOf(items)) && AllFresh(Leaves(TableOf(items)))
    requires var r := ResolveQualified(chain, q, name, false); r.Found? && chain[r.level] == ResolveItems(items, [], 0)
    ensures var t := TableOf(items); var r := ResolveQualified(chain, q, name, false);
            && r.rel < |Leaves(t)| && r.col < |Leaves(t)[r.rel].columns|
            && Leaves(t)[r.rel].MatchesQualifier(q) && IEquals(Leaves(t)[r.rel].columns[r.col].name, name)
            && (r.column.nullable <==> Leaves(t)[r.rel].columns[r.col].nullable || NullSupplied(t)[r.rel])
            && (!r.column.nullable ==> OwnNeverNull(t, r.rel, r.col))
  {
    hide ResolveItems, TreeScope, TableOf, CleanMerges, LocalMerges, AllFresh, OwnNeverNull, NullSupplied, Leaves, ResolveQualified, BlockOffers, CountColumn;
    var t := TableOf(items);
    var r := ResolveQualified(chain, q, name, false);
    FlatIsTree(items, []);
    assert [] + TreeScope(t) == TreeScope(t);
    FoundOffers(chain, q, name);
    FirstOfferDecides(chain, q, name, false, r.level, r.rel);
    TreeScopeNames(t);
    SameNamesAt(TreeScope(t), Leaves(t), r.rel, r.col);
    OwnColumn(t, r.rel, r.col);
    ScopeMarks(t, r.rel);
    if !r.column.nullable {
      OwnIsPresent(t, r.rel, r.col);
    }
  }

  /** With ON joins only, a qualified reference is reported nullable if and only if it is NULL in
      some row; a NOT NULL column, if and only if its relation can be null-extended. */
  lemma QualifiedReferenceIsExact(chain: seq<seq<Binding>>, items: seq<FromItem>, q: string, name: string)
    requires WellFormed(items) && ItemsOnOnly(items) && AllFresh(Leaves(TableOf(items)))
    requires var r := ResolveQualified(chain, q, name, false); r.Found? && chain[r.level] == ResolveItems(items, [], 0)
    ensures var t := TableOf(items); var r := ResolveQualified(chain, q, name, false);
            && r.rel < |Leaves(t)| && r.col < |Leaves(t)[r.rel].columns|
            && (r.column.nullable <==> !OwnNeverNull(t, r.rel, r.col))
            && (!Leaves(t)[r.rel].columns[r.col].nullable ==> (r.column.nullable <==> CanBeNullExtended(t, r.rel)))
  {
    hide ResolveItems, TableOf, CleanMerges, SoundMerges, LocalMerges, AllFresh, OwnNeverNull, NullSupplied, Leaves, ResolveQualified, CanBeNullExtended, OnOnly;
    var t := TableOf(items);
    OnOnlyTable(items);
    OnOnlyClean(t);
    OnOnlyLocal(items, [], 0);
    QualifiedReferenceIsSound(chain, items, q, name);
    var r := ResolveQualified(chain, q, name, false);
    MarksAreExact(t, r.rel);
    if r.column.nullable {
      OwnIsAbsent(t, r.rel, r.col);
    }
  }
}
