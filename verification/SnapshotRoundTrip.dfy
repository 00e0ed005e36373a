/** Whole snapshots: a clean catalog comes back without what the format does not write, whatever is
    read back is clean, and so exactly the printable catalogs survive. */
module SnapshotRoundTrip {
  import opened Wrappers
  import opened Identifier
  import opened Numerals
  import opened Types
  import opened Catalogs
  import opened Lines
  import opened Snapshot
  import opened SnapshotStore
  import opened SnapshotTheorems

  // ----- Tables and indexes in sequence -----

  function WithTables(cat: Catalog, ts: seq<TableInfo>): Catalog {
    if ts == [] then cat else WithTable(WithTables(cat, ts[..|ts| - 1]), KeptTable(ts[|ts| - 1]))
  }

  function WithIndex(cat: Catalog, x: IndexInfo): Catalog {
    cat.(indexes := cat.indexes[Fold(x.name) := x])
  }

  function WithIndexes(cat: Catalog, xs: seq<IndexInfo>): Catalog {
    if xs == [] then cat else WithIndex(WithIndexes(cat, xs[..|xs| - 1]), xs[|xs| - 1])
  }

  lemma {:induction false} TablesRead(cat: Catalog, ts: seq<TableInfo>) returns (m: State)
    requires forall t <- ts :: CleanTable(t)
    ensures ReadLines(Rest(cat), AllTableLines(ts)) == Some(m) && m.headerSeen && FlushTable(m) == Rest(WithTables(cat, ts))
  {
    hide ReadLines, TableLines, CleanTable, KeptTable;
    if ts == [] {
      ReadNone(Rest(cat));
      m := Rest(cat);
    } else {
      var front, last := ts[..|ts| - 1], ts[|ts| - 1];
      var before := TablesRead(cat, front);
      ReadThen(Rest(cat), AllTableLines(front), before, TableLines(last));
      m := TableReads(before, WithTables(cat, front), last);
    }
  }

  predicate Settled(s: State, cat: Catalog) {
    s.headerSeen && FlushIndex(FlushTable(s)) == Rest(cat)
  }

  lemma IndexHeadReads(s: State, cat: Catalog, x: IndexInfo)
    requires Settled(s, cat) && x.id <= U32_MAX
    ensures ReadLines(s, [Field(Keyword(IndexRecord), Field(Numeral(x.id), if x.unique then "unique" else "plain"))])
            == Some(AtIndex(cat, NO_INDEX.(id := x.id, unique := x.unique)))
  {
    hide SplitWs, Keyword, Field, Step, Numeral, U32Of, RestAfter, FlushTable, FlushIndex;
    var u := if x.unique then "unique" else "plain";
    var rest := Field(Numeral(x.id), u);
    KeywordStep(s, IndexRecord, rest);
    NumeralIsWord(x.id);
    ReadField(Numeral(x.id), u);
    ReadLast(u);
    ReadOne(s, Field(Keyword(IndexRecord), rest));
    var tok := [Keyword(IndexRecord)] + SplitWs(rest);
    assert tok == [Keyword(IndexRecord), Numeral(x.id), u];
  }

  lemma IndexTextReads(cat: Catalog, x: IndexInfo, r: Record, text: string)
    requires IsText(text) && (r.IndexName? || r.IndexTable?)
    ensures ReadLines(AtIndex(cat, x), [TextLine(r, text)]) == Some(AtIndex(cat, if r.IndexName? then x.(name := text) else x.(table := text)))
  {
    hide ReadLines, TextLine, RestAfter, IsText;
    TextLineStep(AtIndex(cat, x), r, text);
  }

  lemma IndexNumberReads(cat: Catalog, x: IndexInfo, n: nat)
    requires n <= U32_MAX
    ensures ReadLines(AtIndex(cat, x), [NumberLine(IndexColumn, n)]) == Some(AtIndex(cat, x.(columns := x.columns + [n])))
  {
    hide ReadLines, NumberLine, Numeral, U32Of, Keyword;
    NumberLineStep(AtIndex(cat, x), IndexColumn, n);
  }

  lemma {:induction false} IndexNumbersRead(cat: Catalog, x: IndexInfo, ns: seq<nat>)
    requires NumbersFit(ns)
    ensures ReadLines(AtIndex(cat, x), NumberLines(IndexColumn, ns)) == Some(AtIndex(cat, x.(columns := x.columns + ns)))
    decreases |ns|
  {
    hide ReadLines, NumberLine, NumbersFit, NumberLines, AtIndex;
    if ns == [] {
      NoNumbers(IndexColumn);
      ReadNone(AtIndex(cat, x));
      assert x.columns + [] == x.columns;
    } else {
      FirstNumber(IndexColumn, ns);
      var next := x.(columns := x.columns + [ns[0]]);
      IndexNumberReads(cat, x, ns[0]);
      ReadThen(AtIndex(cat, x), [NumberLine(IndexColumn, ns[0])], AtIndex(cat, next), NumberLines(IndexColumn, ns[1..]));
      IndexNumbersRead(cat, next, ns[1..]);
      assert next.columns + ns[1..] == x.columns + ns;
    }
  }

  lemma IndexReads(s: State, cat: Catalog, x: IndexInfo)
    requires Settled(s, cat) && CleanIndex(x)
    ensures ReadLines(s, IndexLines(x)) == Some(AtIndex(cat, x))
  {
    hide ReadLines, Field, Keyword, TextLine, NumberLines, IsText, Settled, Numeral, NumbersFit, AtIndex;
    var x0 := NO_INDEX.(id := x.id, unique := x.unique);
    var x1 := x0.(name := x.name);
    var x2 := x1.(table := x.table);
    var head := [Field(Keyword(IndexRecord), Field(Numeral(x.id), if x.unique then "unique" else "plain"))];
    var name, table := [TextLine(IndexName, x.name)], [TextLine(IndexTable, x.table)];
    IndexHeadReads(s, cat, x);
    IndexTextReads(cat, x0, IndexName, x.name);
    IndexTextReads(cat, x1, IndexTable, x.table);
    IndexNumbersRead(cat, x2, x.columns);
    ReadThen(s, head, AtIndex(cat, x0), name);
    ReadThen(s, head + name, AtIndex(cat, x1), table);
    ReadThen(s, head + name + table, AtIndex(cat, x2), NumberLines(IndexColumn, x.columns));
    assert head + name + table == [head[0], name[0], table[0]];
    assert [] + x.columns == x.columns;
    assert x2.(columns := [] + x.columns) == x;
  }

  lemma {:induction false} IndexesRead(s: State, cat: Catalog, xs: seq<IndexInfo>) returns (m: State)
    requires Settled(s, cat) && forall x <- xs :: CleanIndex(x)
    ensures ReadLines(s, AllIndexLines(xs)) == Some(m) && Settled(m, WithIndexes(cat, xs))
    ensures m.haveVersion == s.haveVersion && m.haveNextId == s.haveNextId
  {
    hide ReadLines, IndexLines, CleanIndex;
    if xs == [] {
      ReadNone(s);
      m := s;
    } else {
      var front, last := xs[..|xs| - 1], xs[|xs| - 1];
      var before := IndexesRead(s, cat, front);
      ReadThen(s, AllIndexLines(front), before, IndexLines(last));
      IndexReads(before, WithIndexes(cat, front), last);
      FlushKeepsFlags(s);
      FlushKeepsFlags(FlushTable(s));
      m := AtIndex(WithIndexes(cat, front), last);
    }
  }

  // ----- The header -----

  lemma HeaderFields()
    ensures SplitWs(HEADER) == ["DB25CATALOG", "2"]
  {
    hide SplitWs;
    assert HEADER == Field("DB25CATALOG", "2");
    ReadField("DB25CATALOG", "2");
    ReadLast("2");
  }

  lemma HeaderLineReads()
    ensures ReadLines(START, [HEADER]) == Some(START.(headerSeen := true))
  {
    hide SplitWs, Step;
    HeaderFields();
    ReadOne(START, HEADER);
    HeaderStepIs();
  }

  lemma HeaderStepIs()
    ensures SplitWs(HEADER) == ["DB25CATALOG", "2"] ==> Step(START, HEADER) == Some(START.(headerSeen := true))
  {
    hide SplitWs, RecordOf;
  }

  function Numbers(c: Catalog): Catalog {
    EMPTY.(version := c.version, nextTableId := c.nextTableId, nextIndexId := c.nextIndexId)
  }

  lemma HeaderReads(c: Catalog)
    requires c.version <= U32_MAX && c.nextTableId <= U32_MAX && c.nextIndexId <= U32_MAX
    ensures ReadLines(START, HeaderLines(c)) == Some(Rest(Numbers(c)))
  {
    hide ReadLines, NumberLine, Numeral, U32Of, Keyword;
    var s1 := START.(headerSeen := true);
    var s2 := s1.(cat := s1.cat.(version := c.version), haveVersion := true);
    var s3 := s2.(cat := s2.cat.(nextTableId := c.nextTableId), haveNextId := true);
    var l1, l2, l3 := [NumberLine(VersionRecord, c.version)], [NumberLine(NextTableId, c.nextTableId)], [NumberLine(NextIndexId, c.nextIndexId)];
    HeaderLineReads();
    NumberLineStep(s1, VersionRecord, c.version);
    NumberLineStep(s2, NextTableId, c.nextTableId);
    NumberLineStep(s3, NextIndexId, c.nextIndexId);
    ReadThen(START, [HEADER], s1, l1);
    ReadThen(START, [HEADER] + l1, s2, l2);
    ReadThen(START, [HEADER] + l1 + l2, s3, l3);
    assert HeaderLines(c) == [HEADER] + l1 + l2 + l3;
  }

  // ----- The lines of a clean catalog -----

  lemma FieldLine(w: string, rest: string)
    requires NEWLINE !in w && NEWLINE !in rest
    ensures NEWLINE !in Field(w, rest)
  {
  }

  ghost predicate OneLineEach(lines: seq<string>) {
    forall l <- lines :: NEWLINE !in l
  }

  lemma LinesAppend(a: seq<string>, b: seq<string>)
    requires OneLineEach(a) && OneLineEach(b)
    ensures OneLineEach(a + b)
  {
  }

  lemma WordLines(r: Record, t: DataType, k: ConstraintKind)
    ensures NEWLINE !in Keyword(r) && NEWLINE !in TypeToken(t) && NEWLINE !in KindToken(k)
  {
  }

  lemma NumeralLine(n: nat)
    ensures NEWLINE !in Numeral(n)
  {
    forall c | c in Numeral(n) ensures c != NEWLINE {
      var i :| 0 <= i < |Numeral(n)| && Numeral(n)[i] == c;
      assert IsDigit(Numeral(n)[i]);
    }
  }

  lemma NumbersAreLines(r: Record, ns: seq<nat>)
    ensures OneLineEach(NumberLines(r, ns))
  {
    hide Numeral, Keyword, Field;
    forall l | l in NumberLines(r, ns) ensures NEWLINE !in l {
      var i :| 0 <= i < |ns| && NumberLines(r, ns)[i] == l;
      NumeralLine(ns[i]);
      WordLines(r, Any, Check);
      FieldLine(Keyword(r), Numeral(ns[i]));
    }
  }

  lemma TextIsLine(r: Record, text: string)
    requires IsText(text)
    ensures NEWLINE !in TextLine(r, text)
  {
    hide Keyword, Field;
    WordLines(r, Any, Check);
    FieldLine(Keyword(r), text);
  }

  lemma ColumnIsLines(x: ColumnInfo)
    requires CleanColumn(x)
    ensures OneLineEach(ColumnLines(x))
  {
    hide Keyword, Field, Numeral, TypeToken, TextLine;
    WordLines(ColumnRecord, x.type_, Check);
    NumeralLine(x.id);
    var d := if x.hasDefault then "default" else "nodefault";
    var n := if x.nullable then "null" else "notnull";
    FieldLine(d, x.name);
    FieldLine(n, Field(d, x.name));
    FieldLine(TypeToken(x.type_), Field(n, Field(d, x.name)));
    FieldLine(Numeral(x.id), Field(TypeToken(x.type_), Field(n, Field(d, x.name))));
    FieldLine(Keyword(ColumnRecord), Field(Numeral(x.id), Field(TypeToken(x.type_), Field(n, Field(d, x.name)))));
    TextIsLine(DefaultRecord, x.defaultExpr);
  }

  lemma ConstraintIsLines(k: Constraint)
    requires CleanConstraint(k)
    ensures OneLineEach(ConstraintLines(k))
  {
    hide Keyword, Field, KindToken, TextLine, NumberLines, IsText;
    WordLines(ConstraintRecord, Any, k.kind);
    FieldLine(Keyword(ConstraintRecord), KindToken(k.kind));
    TextIsLine(NameRecord, k.name);
    TextIsLine(ExprRecord, k.expr);
    TextIsLine(RefTable, k.refTable);
    NumbersAreLines(LocalColumn, k.columns);
    NumbersAreLines(RefColumn, k.refColumns);
    var a := [Field(Keyword(ConstraintRecord), KindToken(k.kind))] + OptionalLine(NameRecord, true, k.name);
    LinesAppend([Field(Keyword(ConstraintRecord), KindToken(k.kind))], OptionalLine(NameRecord, true, k.name));
    LinesAppend(a, NumberLines(LocalColumn, k.columns));
    LinesAppend([TextLine(RefTable, k.refTable)], NumberLines(RefColumn, k.refColumns));
    LinesAppend(a + NumberLines(LocalColumn, k.columns), ReferenceLines(k));
  }

  lemma {:induction false} ColumnsAreLines(xs: seq<ColumnInfo>)
    requires forall x <- xs :: CleanColumn(x)
    ensures OneLineEach(AllColumnLines(xs))
  {
    hide CleanColumn, ColumnLines;
    if xs != [] {
      ColumnsAreLines(xs[..|xs| - 1]);
      ColumnIsLines(xs[|xs| - 1]);
      LinesAppend(AllColumnLines(xs[..|xs| - 1]), ColumnLines(xs[|xs| - 1]));
    }
  }

  lemma {:induction false} ConstraintsAreLines(ks: seq<Constraint>)
    requires forall k <- ks :: CleanConstraint(k)
    ensures OneLineEach(AllConstraintLines(ks))
  {
    hide CleanConstraint, ConstraintLines;
    if ks != [] {
      ConstraintsAreLines(ks[..|ks| - 1]);
      ConstraintIsLines(ks[|ks| - 1]);
      LinesAppend(AllConstraintLines(ks[..|ks| - 1]), ConstraintLines(ks[|ks| - 1]));
    }
  }

  lemma TableIsLines(t: TableInfo)
    requires CleanTable(t)
    ensures OneLineEach(TableLines(t))
  {
    hide Keyword, Field, Numeral, CleanColumn, CleanConstraint, AllColumnLines, AllConstraintLines;
    WordLines(TableRecord, Any, Check);
    NumeralLine(t.id);
    FieldLine(Numeral(t.id), t.name);
    FieldLine(Keyword(TableRecord), Field(Numeral(t.id), t.name));
    ColumnsAreLines(t.columns);
    ConstraintsAreLines(t.constraints);
    LinesAppend([TableLine(t)], AllColumnLines(t.columns));
    LinesAppend([TableLine(t)] + AllColumnLines(t.columns), AllConstraintLines(t.constraints));
  }

  lemma {:induction false} TablesAreLines(ts: seq<TableInfo>)
    requires forall t <- ts :: CleanTable(t)
    ensures OneLineEach(AllTableLines(ts))
  {
    hide CleanTable, TableLines;
    if ts != [] {
      TablesAreLines(ts[..|ts| - 1]);
      TableIsLines(ts[|ts| - 1]);
      LinesAppend(AllTableLines(ts[..|ts| - 1]), TableLines(ts[|ts| - 1]));
    }
  }

  lemma IndexIsLines(x: IndexInfo)
    requires CleanIndex(x)
    ensures OneLineEach(IndexLines(x))
  {
    hide Keyword, Field, Numeral, TextLine, NumberLines;
    var u := if x.unique then "unique" else "plain";
    WordLines(IndexRecord, Any, Check);
    NumeralLine(x.id);
    FieldLine(Numeral(x.id), u);
    FieldLine(Keyword(IndexRecord), Field(Numeral(x.id), u));
    TextIsLine(IndexName, x.name);
    TextIsLine(IndexTable, x.table);
    NumbersAreLines(IndexColumn, x.columns);
    LinesAppend([Field(Keyword(IndexRecord), Field(Numeral(x.id), u)), TextLine(IndexName, x.name), TextLine(IndexTable, x.table)],
                NumberLines(IndexColumn, x.columns));
  }

  lemma {:induction false} IndexesAreLines(xs: seq<IndexInfo>)
    requires forall x <- xs :: CleanIndex(x)
    ensures OneLineEach(AllIndexLines(xs))
  {
    hide CleanIndex, IndexLines;
    if xs != [] {
      IndexesAreLines(xs[..|xs| - 1]);
      IndexIsLines(xs[|xs| - 1]);
      LinesAppend(AllIndexLines(xs[..|xs| - 1]), IndexLines(xs[|xs| - 1]));
    }
  }

  lemma HeaderIsLines(c: Catalog)
    ensures OneLineEach(HeaderLines(c))
  {
    hide Keyword, Field, Numeral;
    WordLines(VersionRecord, Any, Check);
    WordLines(NextTableId, Any, Check);
    WordLines(NextIndexId, Any, Check);
    NumeralLine(c.version);
    NumeralLine(c.nextTableId);
    NumeralLine(c.nextIndexId);
    FieldLine(Keyword(VersionRecord), Numeral(c.version));
    FieldLine(Keyword(NextTableId), Numeral(c.nextTableId));
    FieldLine(Keyword(NextIndexId), Numeral(c.nextIndexId));
  }

  lemma CleanParts(c: Catalog, ts: seq<TableInfo>, xs: seq<IndexInfo>)
    requires Clean(c) && InIdOrder(c, ts, xs)
    ensures (forall t <- ts :: CleanTable(t)) && forall x <- xs :: CleanIndex(x)
  {
    hide CleanTable, CleanIndex;
  }

  lemma {:induction false} WithTablesIs(cat: Catalog, c: Catalog, ts: seq<TableInfo>)
    requires cat.tables == map[] && forall t <- ts :: Fold(t.name) in c.tables && c.tables[Fold(t.name)] == t
    ensures WithTables(cat, ts) == cat.(tables := WithTables(cat, ts).tables)
    ensures forall k :: k in WithTables(cat, ts).tables <==> exists t :: t in ts && Fold(t.name) == k
    ensures forall k :: k in WithTables(cat, ts).tables ==> k in c.tables && WithTables(cat, ts).tables[k] == KeptTable(c.tables[k])
  {
    hide Fold, KeptColumns, KeptConstraints;
    if ts != [] {
      WithTablesIs(cat, c, ts[..|ts| - 1]);
      assert ts == ts[..|ts| - 1] + [ts[|ts| - 1]];
    }
  }

  lemma {:induction false} WithIndexesIs(cat: Catalog, c: Catalog, xs: seq<IndexInfo>)
    requires cat.indexes == map[] && forall x <- xs :: Fold(x.name) in c.indexes && c.indexes[Fold(x.name)] == x
    ensures WithIndexes(cat, xs) == cat.(indexes := WithIndexes(cat, xs).indexes)
    ensures forall k :: k in WithIndexes(cat, xs).indexes <==> exists x :: x in xs && Fold(x.name) == k
    ensures forall k :: k in WithIndexes(cat, xs).indexes ==> k in c.indexes && WithIndexes(cat, xs).indexes[k] == c.indexes[k]
  {
    hide Fold;
    if xs != [] {
      WithIndexesIs(cat, c, xs[..|xs| - 1]);
      assert xs == xs[..|xs| - 1] + [xs[|xs| - 1]];
    }
  }

  lemma Rebuilt(c: Catalog, ts: seq<TableInfo>, xs: seq<IndexInfo>)
    requires KeysMatch(c) && InIdOrder(c, ts, xs)
    ensures WithIndexes(WithTables(Numbers(c), ts), xs) == Kept(c)
  {
    hide Fold, KeptTable;
    var a := WithTables(Numbers(c), ts);
    WithTablesIs(Numbers(c), c, ts);
    WithIndexesIs(a, c, xs);
    var r := WithIndexes(a, xs);
    forall k | k in c.tables ensures k in r.tables {
      assert c.tables[k] in ts;
    }
    forall k | k in c.indexes ensures k in r.indexes {
      assert c.indexes[k] in xs;
    }
    assert r.tables == Kept(c).tables;
    assert r.indexes == c.indexes;
  }

  lemma BlankLine(s: State)
    ensures ReadLines(s, [""]) == Some(s)
  {
    assert SplitWs("") == [];
    ReadOne(s, "");
  }

  /** The text of a clean catalog reads back as what the format keeps of it. */
  lemma CleanReadsBack(c: Catalog, ts: seq<TableInfo>, xs: seq<IndexInfo>)
    requires Clean(c) && KeysMatch(c) && InIdOrder(c, ts, xs)
    ensures Deserialized(SnapshotText(c, ts, xs)) == Some(Kept(c))
  {
    hide ReadLines, HeaderLines, AllTableLines, AllIndexLines, CleanTable, CleanIndex, Unlines, SplitLines, InIdOrder, KeysMatch, Kept, FlushTable, FlushIndex;
    CleanParts(c, ts, xs);
    HeaderIsLines(c);
    TablesAreLines(ts);
    IndexesAreLines(xs);
    LinesAppend(HeaderLines(c), AllTableLines(ts));
    LinesAppend(HeaderLines(c) + AllTableLines(ts), AllIndexLines(xs));
    SplitUnlines(SnapshotLines(c, ts, xs));
    HeaderReads(c);
    ReadThen(START, HeaderLines(c), Rest(Numbers(c)), AllTableLines(ts));
    var m := TablesRead(Numbers(c), ts);
    NoIndexPending(WithTables(Numbers(c), ts));
    ReadThen(START, HeaderLines(c) + AllTableLines(ts), m, AllIndexLines(xs));
    var e := IndexesRead(m, WithTables(Numbers(c), ts), xs);
    ReadThen(START, SnapshotLines(c, ts, xs), e, [""]);
    BlankLine(e);
    Rebuilt(c, ts, xs);
    FlagsOf(m, WithTables(Numbers(c), ts));
  }

  lemma NoIndexPending(cat: Catalog)
    ensures FlushIndex(Rest(cat)) == Rest(cat)
  {
  }

  lemma FlagsOf(m: State, cat: Catalog)
    requires Settled(m, cat)
    ensures m.haveVersion && m.haveNextId
  {
    FlushKeepsFlags(m);
    FlushKeepsFlags(FlushTable(m));
  }

  // ----- Whatever is read is clean -----

  ghost predicate CleanState(s: State) {
    && Clean(s.cat) && (s.haveTable ==> CleanTable(s.current)) && CleanConstraint(s.constraint) && CleanIndex(s.index)
  }

  lemma AddedConstraintClean(t: TableInfo, k: Constraint)
    requires CleanTable(t) && CleanConstraint(k)
    ensures CleanTable(t.(constraints := t.constraints + [k]))
  {
    hide CleanColumn, CleanConstraint, IsText;
    var u := t.(constraints := t.constraints + [k]);
    forall g | g in u.constraints ensures CleanConstraint(g) {
      assert g in t.constraints || g == k;
    }
  }

  lemma SetColumnClean(t: TableInfo, i: nat, x: ColumnInfo)
    requires CleanTable(t) && CleanColumn(x) && i <= |t.columns|
    ensures CleanTable(t.(columns := t.columns[..i] + [x] + t.columns[if i < |t.columns| then i + 1 else i..]))
  {
    hide CleanColumn, CleanConstraint, IsText;
    var u := t.(columns := t.columns[..i] + [x] + t.columns[if i < |t.columns| then i + 1 else i..]);
    forall g | g in u.columns ensures CleanColumn(g) {
      assert g in t.columns || g == x;
    }
  }

  lemma WithTableClean(c: Catalog, t: TableInfo)
    requires Clean(c) && CleanTable(t)
    ensures Clean(WithTable(c, t))
  {
    hide CleanTable, CleanIndex, Fold;
  }

  lemma NothingIsClean()
    ensures CleanConstraint(NO_CONSTRAINT) && CleanIndex(NO_INDEX)
  {
  }

  lemma FlushConstraintClean(s: State)
    requires CleanState(s)
    ensures CleanState(FlushConstraint(s))
  {
    hide CleanTable, CleanIndex, CleanConstraint, Clean, IsText;
    NothingIsClean();
    if s.haveTable {
      AddedConstraintClean(s.current, s.constraint);
    }
  }

  lemma FlushTableClean(s: State)
    requires CleanState(s)
    ensures CleanState(FlushTable(s))
  {
    hide CleanTable, CleanConstraint, CleanIndex, Clean, FlushConstraint, WithTable;
    FlushConstraintClean(s);
    var f := FlushConstraint(s);
    if f.haveTable {
      WithTableClean(f.cat, f.current);
    }
  }

  lemma FlushIndexClean(s: State)
    requires CleanState(s)
    ensures CleanState(FlushIndex(s))
  {
    hide CleanTable, CleanConstraint, CleanIndex, Fold, IsText;
    NothingIsClean();
  }

  lemma FlushKeepsClean(s: State)
    requires CleanState(s)
    ensures CleanState(FlushConstraint(s)) && CleanState(FlushTable(s)) && CleanState(FlushIndex(s))
  {
    hide CleanState;
    FlushConstraintClean(s);
    FlushTableClean(s);
    FlushIndexClean(s);
  }

  lemma NumberStepClean(s: State, r: Record, tok: seq<string>)
    requires CleanState(s) && NumberStep(s, r, tok).Some?
    ensures CleanState(NumberStep(s, r, tok).value)
  {
    hide CleanTable, IsText;
  }

  lemma TableStepClean(s: State, tok: seq<string>, line: string)
    requires CleanState(s) && NEWLINE !in line && tok == SplitWs(line) && TableStep(s, tok, line).Some?
    ensures CleanState(TableStep(s, tok, line).value)
  {
    hide CleanConstraint, CleanIndex, RestAfter, SplitWs, IsText, FlushTable, Clean;
    FlushKeepsClean(s);
    RestIsText(line, 2);
  }

  lemma ColumnStepClean(s: State, tok: seq<string>, line: string)
    requires CleanState(s) && NEWLINE !in line && tok == SplitWs(line) && ColumnStep(s, tok, line).Some?
    ensures CleanState(ColumnStep(s, tok, line).value)
  {
    hide CleanConstraint, CleanIndex, RestAfter, SplitWs, FlushConstraint, Clean, FindType;
    FlushKeepsClean(s);
    RestIsText(line, 5);
    TableStays(s);
  }

  lemma TableStays(s: State)
    ensures FlushConstraint(s).haveTable == s.haveTable
  {
  }

  lemma DefaultStepClean(s: State, line: string)
    requires CleanState(s) && NEWLINE !in line && DefaultStep(s, line).Some?
    ensures CleanState(DefaultStep(s, line).value)
  {
    hide CleanTable, CleanConstraint, CleanIndex, RestAfter, IsText, Clean;
    RestIsText(line, 1);
    var n := |s.current.columns| - 1;
    var x := s.current.columns[n].(defaultExpr := RestAfter(line, 1));
    ColumnOfClean(s.current, n);
    SetColumnClean(s.current, n, x);
    assert s.current.columns[n := x] == s.current.columns[..n] + [x] + s.current.columns[n + 1..];
  }

  lemma ColumnOfClean(t: TableInfo, i: nat)
    requires CleanTable(t) && i < |t.columns|
    ensures CleanColumn(t.columns[i])
  {
    hide CleanColumn, CleanConstraint;
  }

  lemma ConstraintStepClean(s: State, tok: seq<string>)
    requires CleanState(s) && ConstraintStep(s, tok).Some?
    ensures CleanState(ConstraintStep(s, tok).value)
  {
    hide CleanTable, CleanIndex, FlushConstraint, Clean, KindOfToken;
    FlushKeepsClean(s);
  }

  lemma TextStepClean(s: State, r: Record, line: string)
    requires CleanState(s) && NEWLINE !in line && TextStep(s, r, line).Some?
    ensures CleanState(TextStep(s, r, line).value)
  {
    hide CleanTable, RestAfter, IsText, Clean;
    RestIsText(line, 1);
  }

  lemma IndexStepClean(s: State, tok: seq<string>)
    requires CleanState(s) && IndexStep(s, tok).Some?
    ensures CleanState(IndexStep(s, tok).value)
  {
    hide CleanTable, CleanConstraint, FlushTable, FlushIndex, Clean;
    FlushKeepsClean(s);
    FlushKeepsClean(FlushTable(s));
  }

  lemma StepKeepsClean(s: State, line: string)
    requires CleanState(s) && NEWLINE !in line && Step(s, line).Some?
    ensures CleanState(Step(s, line).value)
  {
    hide CleanTable, CleanConstraint, CleanIndex, Clean, NumberStep, TableStep, ColumnStep, DefaultStep, ConstraintStep, TextStep, IndexStep, FindRecord, SplitWs;
    var tok := SplitWs(line);
    if tok != [] && s.headerSeen && RecordOf(tok[0]).Some? {
      var r := RecordOf(tok[0]).value;
      match r {
        case VersionRecord | NextTableId | NextIndexId | LocalColumn | RefColumn | IndexColumn => NumberStepClean(s, r, tok);
        case TableRecord => TableStepClean(s, tok, line);
        case ColumnRecord => ColumnStepClean(s, tok, line);
        case DefaultRecord => DefaultStepClean(s, line);
        case ConstraintRecord => ConstraintStepClean(s, tok);
        case NameRecord | RefTable | ExprRecord | IndexName | IndexTable => TextStepClean(s, r, line);
        case IndexRecord => IndexStepClean(s, tok);
      }
    }
  }

  lemma {:induction false} LinesKeepClean(s: State, lines: seq<string>)
    requires CleanState(s) && OneLineEach(lines) && ReadLines(s, lines).Some?
    ensures CleanState(ReadLines(s, lines).value)
    decreases |lines|
  {
    hide Step, CleanState;
    if lines != [] {
      assert lines[0] in lines && forall l <- lines[1..] :: l in lines;
      StepKeepsClean(s, lines[0]);
      LinesKeepClean(Step(s, lines[0]).value, lines[1..]);
    }
  }

  /** Whatever text is read, the catalog it yields is clean. */
  lemma ReadIsClean(text: string)
    ensures Deserialized(text).Some? ==> Clean(Deserialized(text).value)
  {
    hide ReadLines, SplitLines, CleanTable, CleanConstraint, CleanIndex, FlushTable, FlushIndex;
    StartIsClean();
    if ReadLines(START, SplitLines(text)).Some? {
      var s := ReadLines(START, SplitLines(text)).value;
      LinesKeepClean(START, SplitLines(text));
      FlushKeepsClean(s);
      FlushKeepsClean(FlushTable(s));
    }
  }

  lemma StartIsClean()
    ensures CleanState(START)
  {
  }

  // ----- The theorem -----

  lemma KeptIsSame(c: Catalog)
    ensures Kept(c) == c <==> OnlyKept(c)
  {
    hide Fold;
    if OnlyKept(c) {
      forall k | k in c.tables ensures KeptTable(c.tables[k]) == c.tables[k] {
        var t := c.tables[k];
        forall i | 0 <= i < |t.columns| ensures KeptColumn(t.columns[i]) == t.columns[i] {
          assert t.columns[i] in c.tables[k].columns;
        }
        forall i | 0 <= i < |t.constraints| ensures KeptConstraint(t.constraints[i]) == t.constraints[i] {
          assert t.constraints[i] in c.tables[k].constraints;
        }
        assert KeptColumns(t.columns) == t.columns && KeptConstraints(t.constraints) == t.constraints;
      }
      assert Kept(c).tables == c.tables;
    } else if Kept(c) == c {
      OnlyKeptOfKept(c);
    }
  }

  lemma OnlyKeptOfKept(c: Catalog)
    requires Kept(c) == c
    ensures OnlyKept(c)
  {
    forall k, x | k in c.tables && x in c.tables[k].columns ensures x.hasDefault || x.defaultExpr == "" {
      var t := c.tables[k];
      assert Kept(c).tables[k] == KeptTable(t);
      var i :| 0 <= i < |t.columns| && t.columns[i] == x;
      assert KeptColumns(t.columns)[i] == KeptColumn(x);
    }
    forall k, f | k in c.tables && f in c.tables[k].constraints
      ensures (f.kind.ForeignKey? || (f.refTable == "" && f.refColumns == [])) && (f.kind.Check? || f.expr == "")
    {
      var t := c.tables[k];
      assert Kept(c).tables[k] == KeptTable(t);
      var i :| 0 <= i < |t.constraints| && t.constraints[i] == f;
      assert KeptConstraints(t.constraints)[i] == KeptConstraint(f);
    }
  }

  /** Exactly the printable catalogs come back as they were. */
  lemma RoundTripIsExact(c: Catalog, ts: seq<TableInfo>, xs: seq<IndexInfo>)
    requires KeysMatch(c) && InIdOrder(c, ts, xs)
    ensures Deserialized(SnapshotText(c, ts, xs)) == Some(c) <==> Printable(c)
  {
    hide Deserialized, SnapshotText, Clean, OnlyKept, Kept, KeysMatch, InIdOrder;
    KeptIsSame(c);
    if Clean(c) {
      CleanReadsBack(c, ts, xs);
    } else {
      ReadIsClean(SnapshotText(c, ts, xs));
    }
  }

  /** The listing by id is unique, so a catalog has one text. */
  lemma {:induction false} SameListing<T(!new)>(a: seq<T>, b: seq<T>, id: T -> nat)
    requires forall i, j :: 0 <= i < j < |a| ==> id(a[i]) < id(a[j])
    requires forall i, j :: 0 <= i < j < |b| ==> id(b[i]) < id(b[j])
    requires forall x :: x in a <==> x in b
    ensures a == b
  {
    if a == [] {
      assert forall i :: 0 <= i < |b| ==> b[i] in a;
    } else {
      var x := a[|a| - 1];
      assert x in b;
      var m :| 0 <= m < |b| && b[m] == x;
      var y := b[|b| - 1];
      assert y in a;
      var n :| 0 <= n < |a| && a[n] == y;
      assert y == x;
      var front, front' := a[..|a| - 1], b[..|b| - 1];
      forall z ensures z in front <==> z in front' {
        InFront(a, id, z);
        InFront(b, id, z);
      }
      SameListing(front, front', id);
    }
  }

  lemma InFront<T>(a: seq<T>, id: T -> nat, z: T)
    requires a != [] && forall i, j :: 0 <= i < j < |a| ==> id(a[i]) < id(a[j])
    ensures z in a[..|a| - 1] <==> z in a && z != a[|a| - 1]
  {
    assert a == a[..|a| - 1] + [a[|a| - 1]];
    if z in a[..|a| - 1] {
      var i :| 0 <= i < |a| - 1 && a[i] == z;
      assert id(a[i]) < id(a[|a| - 1]);
    }
  }

  lemma TextIsUnique(c: Catalog, ts: seq<TableInfo>, xs: seq<IndexInfo>, ts': seq<TableInfo>, xs': seq<IndexInfo>)
    requires InIdOrder(c, ts, xs) && InIdOrder(c, ts', xs')
    ensures SnapshotText(c, ts, xs) == SnapshotText(c, ts', xs')
  {
    hide SnapshotText;
    SameListing(ts, ts', (t: TableInfo) => t.id);
    SameListing(xs, xs', (x: IndexInfo) => x.id);
  }

  /** Printable catalogs with one text are one catalog. */
  lemma TextIsInjective(c: Catalog, ts: seq<TableInfo>, xs: seq<IndexInfo>, d: Catalog, us: seq<TableInfo>, ys: seq<IndexInfo>)
    requires KeysMatch(c) && InIdOrder(c, ts, xs) && Printable(c)
    requires KeysMatch(d) && InIdOrder(d, us, ys) && Printable(d)
    requires SnapshotText(c, ts, xs) == SnapshotText(d, us, ys)
    ensures c == d
  {
    hide Deserialized, SnapshotText, Printable, KeysMatch, InIdOrder;
    RoundTripIsExact(c, ts, xs);
    RoundTripIsExact(d, us, ys);
  }

  // ----- What the writer lets through -----

  predicate Representable(s: string) {
    '\n' !in s && '\r' !in s
  }

  predicate RepresentableTable(t: TableInfo) {
    && Representable(t.name)
    && (forall x <- t.columns :: Representable(x.name) && Representable(x.defaultExpr))
    && forall k <- t.constraints :: Representable(k.name) && Representable(k.refTable) && Representable(k.expr)
  }

  /** The check made before writing. */
  predicate Writable(c: Catalog) {
    && (forall k <- c.tables :: RepresentableTable(c.tables[k]))
    && forall k <- c.indexes :: Representable(c.indexes[k].name) && Representable(c.indexes[k].table)
  }

  /** A table whose name opens with a space passes the check, is written, and does not come
      back as it was. */
  lemma LeadingSpaceIsLost()
    ensures var c := EMPTY.(tables := map[" t" := TableInfo(" t", 1, [], [])], nextTableId := 2);
            Writable(c) && KeysMatch(c) && Deserialized(SnapshotText(c, [TableInfo(" t", 1, [], [])], [])) != Some(c)
  {
    hide Deserialized, SnapshotText;
    var t := TableInfo(" t", 1, [], []);
    var c := EMPTY.(tables := map[" t" := t], nextTableId := 2);
    assert Fold(" t") == " t";
    assert c.tables[" t"] == t;
    assert forall x :: x in [t] <==> x == t;
    assert InIdOrder(c, [t], []);
    assert !CleanTable(c.tables[" t"]);
    RoundTripIsExact(c, [t], []);
  }
}
