/** The snapshot round trip: which catalogs come back as they were. */
module SnapshotTheorems {
  import opened Wrappers
  import opened Identifier
  import opened Numerals
  import opened Types
  import opened Catalogs
  import opened Lines
  import opened Snapshot
  import opened SnapshotStore

  // ----- Tokens -----

  lemma KeywordInjective(a: Record, b: Record)
    requires Keyword(a) == Keyword(b)
    ensures a == b
  {
  }

  lemma TokenInjective(a: DataType, b: DataType)
    requires TypeToken(a) == TypeToken(b)
    ensures a == b
  {
  }

  lemma ListedRecord(r: Record)
    ensures exists k :: 0 <= k < |RECORDS| && RECORDS[k] == r
  {
    var k :=
      match r
      case VersionRecord => 0 case NextTableId => 1 case NextIndexId => 2 case TableRecord => 3 case ColumnRecord => 4
      case DefaultRecord => 5 case ConstraintRecord => 6 case NameRecord => 7 case LocalColumn => 8 case RefTable => 9
      case RefColumn => 10 case ExprRecord => 11 case IndexRecord => 12 case IndexName => 13 case IndexTable => 14
      case IndexColumn => 15;
    assert RECORDS[k] == r;
  }

  lemma RecordOfKeyword(r: Record)
    ensures RecordOf(Keyword(r)) == Some(r) && IsWord(Keyword(r))
  {
    hide FindRecord;
    ListedRecord(r);
    if RecordOf(Keyword(r)).Some? {
      KeywordInjective(RecordOf(Keyword(r)).value, r);
    }
  }

  lemma ListedType(t: DataType)
    ensures exists k :: 0 <= k < |TYPES| && TYPES[k] == t
  {
    var k :=
      match t
      case Unknown => 0 case Boolean => 1 case TinyInt => 2 case SmallInt => 3 case Integer => 4 case BigInt => 5
      case Decimal => 6 case Real => 7 case Double => 8 case Char => 9 case VarChar => 10 case Text => 11 case Date => 12
      case Time => 13 case Timestamp => 14 case Interval => 15 case Blob => 16 case Array => 17 case Struct => 18
      case Map => 19 case NullType => 20 case Any => 21;
    assert TYPES[k] == t;
  }

  lemma TypeOfItsToken(t: DataType)
    ensures TypeOfToken(TypeToken(t)) == Some(t) && IsWord(TypeToken(t))
  {
    hide FindType;
    ListedType(t);
    if TypeOfToken(TypeToken(t)).Some? {
      TokenInjective(TypeOfToken(TypeToken(t)).value, t);
    }
  }

  lemma KindOfItsToken(k: ConstraintKind)
    ensures KindOfToken(KindToken(k)) == Some(k) && IsWord(KindToken(k))
  {
  }

  lemma NumeralIsWord(n: nat)
    requires n <= U32_MAX
    ensures IsWord(Numeral(n)) && U32Of(Numeral(n)) == Some(n)
  {
    U32OfNumeral(n);
    forall c | c in Numeral(n) ensures c != ' ' {
      var i :| 0 <= i < |Numeral(n)| && Numeral(n)[i] == c;
      assert IsDigit(Numeral(n)[i]);
    }
  }

  // ----- What comes back -----

  /** What the format keeps of a column and of a constraint. */
  function KeptColumn(x: ColumnInfo): ColumnInfo {
    x.(defaultExpr := if x.hasDefault then x.defaultExpr else "")
  }

  function KeptConstraint(k: Constraint): Constraint {
    k.(refTable := if k.kind.ForeignKey? then k.refTable else "", refColumns := if k.kind.ForeignKey? then k.refColumns else [],
       expr := if k.kind.Check? then k.expr else "")
  }

  function KeptColumns(xs: seq<ColumnInfo>): (r: seq<ColumnInfo>)
    ensures |r| == |xs| && forall i :: 0 <= i < |xs| ==> r[i] == KeptColumn(xs[i])
  {
    seq(|xs|, i requires 0 <= i < |xs| => KeptColumn(xs[i]))
  }

  function KeptConstraints(ks: seq<Constraint>): (r: seq<Constraint>)
    ensures |r| == |ks| && forall i :: 0 <= i < |ks| ==> r[i] == KeptConstraint(ks[i])
  {
    seq(|ks|, i requires 0 <= i < |ks| => KeptConstraint(ks[i]))
  }

  function KeptTable(t: TableInfo): TableInfo {
    t.(columns := KeptColumns(t.columns), constraints := KeptConstraints(t.constraints))
  }

  function Kept(c: Catalog): Catalog {
    c.(tables := map k | k in c.tables :: KeptTable(c.tables[k]))
  }

  // ----- Text that survives -----

  predicate NumbersFit(ns: seq<nat>) {
    forall n <- ns :: n <= U32_MAX
  }

  predicate CleanColumn(x: ColumnInfo) {
    x.name != "" && IsText(x.name) && IsText(x.defaultExpr) && x.id <= U32_MAX
  }

  predicate CleanConstraint(k: Constraint) {
    IsText(k.name) && IsText(k.refTable) && IsText(k.expr) && NumbersFit(k.columns) && NumbersFit(k.refColumns)
  }

  predicate CleanTable(t: TableInfo) {
    && t.name != "" && IsText(t.name) && t.id <= U32_MAX
    && (forall x <- t.columns :: CleanColumn(x)) && forall k <- t.constraints :: CleanConstraint(k)
  }

  predicate CleanIndex(x: IndexInfo) {
    IsText(x.name) && IsText(x.table) && x.id <= U32_MAX && NumbersFit(x.columns)
  }

  /** Names of tables and columns are not empty, no text holds a newline or opens with a space,
      and every number fits 32 bits. */
  predicate Clean(c: Catalog) {
    && c.version <= U32_MAX && c.nextTableId <= U32_MAX && c.nextIndexId <= U32_MAX
    && (forall k <- c.tables :: CleanTable(c.tables[k])) && forall k <- c.indexes :: CleanIndex(c.indexes[k])
  }

  /** Fields the format does not write for their kind are empty. */
  predicate OnlyKept(c: Catalog) {
    && (forall k, x :: k in c.tables && x in c.tables[k].columns ==> x.hasDefault || x.defaultExpr == "")
    && (forall k, f :: k in c.tables && f in c.tables[k].constraints ==>
          (f.kind.ForeignKey? || (f.refTable == "" && f.refColumns == [])) && (f.kind.Check? || f.expr == ""))
  }

  predicate Printable(c: Catalog) {
    Clean(c) && OnlyKept(c)
  }

  // ----- One line -----

  lemma {:induction false} ReadAppend(s: State, a: seq<string>, b: seq<string>)
    ensures ReadLines(s, a + b) == match ReadLines(s, a) { case None => None case Some(m) => ReadLines(m, b) }
    decreases |a|
  {
    hide Step;
    if a == [] {
      assert a + b == b;
    } else {
      assert (a + b)[1..] == a[1..] + b;
      if Step(s, a[0]).Some? {
        ReadAppend(Step(s, a[0]).value, a[1..], b);
      }
    }
  }

  lemma ReadThen(s: State, a: seq<string>, m: State, b: seq<string>)
    requires ReadLines(s, a) == Some(m)
    ensures ReadLines(s, a + b) == ReadLines(m, b)
  {
    hide ReadLines;
    ReadAppend(s, a, b);
  }

  lemma KeywordStep(s: State, r: Record, rest: string)
    requires s.headerSeen
    ensures Step(s, Field(Keyword(r), rest)) == RecordStep(s, r, [Keyword(r)] + SplitWs(rest), Field(Keyword(r), rest))
    ensures forall k: nat :: k > 0 ==> RestAfter(Field(Keyword(r), rest), k) == RestAfter(rest, k - 1)
  {
    hide SplitWs, RecordStep, Keyword, Field, RestAfter, RecordOf, FindRecord;
    RecordOfKeyword(r);
    ReadField(Keyword(r), rest);
  }

  lemma NumberLineStep(s: State, r: Record, n: nat)
    requires s.headerSeen && n <= U32_MAX
    requires r.VersionRecord? || r.NextTableId? || r.NextIndexId? || r.LocalColumn? || r.RefColumn? || r.IndexColumn?
    ensures ReadLines(s, [NumberLine(r, n)]) == NumberStep(s, r, [Keyword(r), Numeral(n)])
    ensures OnlyNumber([Keyword(r), Numeral(n)]) == Some(n)
  {
    hide SplitWs, NumberStep, Keyword, Field, Step, Numeral, U32Of, RestAfter;
    KeywordStep(s, r, Numeral(n));
    NumeralIsWord(n);
    ReadLast(Numeral(n));
    ReadOne(s, NumberLine(r, n));
    assert [Keyword(r)] + [Numeral(n)] == [Keyword(r), Numeral(n)];
  }

  lemma TextLineStep(s: State, r: Record, text: string)
    requires s.headerSeen && IsText(text)
    requires r.NameRecord? || r.RefTable? || r.ExprRecord? || r.IndexName? || r.IndexTable? || r.DefaultRecord?
    ensures RestAfter(TextLine(r, text), 1) == text
    ensures ReadLines(s, [TextLine(r, text)]) == if r.DefaultRecord? then DefaultStep(s, TextLine(r, text)) else TextStep(s, r, TextLine(r, text))
  {
    hide SplitWs, TextStep, DefaultStep, Keyword, Field, Step, RestAfter, IsText;
    KeywordStep(s, r, text);
    ReadText(text);
    ReadOne(s, TextLine(r, text));
  }

  // ----- Table records -----

  /** A reader holding a finished catalog and nothing else. */
  function Rest(cat: Catalog): State {
    State(cat, true, true, true, NO_TABLE, false, NO_CONSTRAINT, false, NO_INDEX, false)
  }

  function AtTable(cat: Catalog, t: TableInfo): State {
    Rest(cat).(current := t, haveTable := true)
  }

  function AtConstraint(cat: Catalog, t: TableInfo, k: Constraint): State {
    AtTable(cat, t).(constraint := k, haveConstraint := true)
  }

  function AtIndex(cat: Catalog, x: IndexInfo): State {
    Rest(cat).(index := x, haveIndex := true)
  }

  lemma TableLineReads(s: State, cat: Catalog, t: TableInfo)
    requires FlushTable(s) == Rest(cat) && s.headerSeen && t.name != "" && IsText(t.name) && t.id <= U32_MAX
    ensures ReadLines(s, [TableLine(t)]) == Some(AtTable(cat, TableInfo(t.name, t.id, [], [])))
  {
    hide SplitWs, Keyword, Field, Step, Numeral, U32Of, RestAfter, FlushTable, IsText;
    var line := TableLine(t);
    var inner := Field(Numeral(t.id), t.name);
    KeywordStep(s, TableRecord, inner);
    NumeralIsWord(t.id);
    ReadField(Numeral(t.id), t.name);
    ReadText(t.name);
    ReadOne(s, line);
    assert RestAfter(line, 2) == RestAfter(inner, 1) == RestAfter(t.name, 0);
  }

  lemma FlagTokens(nullable: bool, hasDefault: bool)
    ensures IsWord(if nullable then "null" else "notnull") && IsWord(if hasDefault then "default" else "nodefault")
  {
  }

  /** The fields of a column line. */
  lemma ColumnFields(x: ColumnInfo)
    requires x.name != "" && IsText(x.name) && x.id <= U32_MAX
    ensures var n, d := if x.nullable then "null" else "notnull", if x.hasDefault then "default" else "nodefault";
            var rest := Field(Numeral(x.id), Field(TypeToken(x.type_), Field(n, Field(d, x.name))));
            && SplitWs(rest) == [Numeral(x.id), TypeToken(x.type_), n, d] + SplitWs(x.name) && SplitWs(x.name) != []
            && RestAfter(rest, 4) == x.name
  {
    hide SplitWs, Field, Numeral, TypeToken, RestAfter, IsText, IsWord, FindType;
    var n, d := if x.nullable then "null" else "notnull", if x.hasDefault then "default" else "nodefault";
    NumeralIsWord(x.id);
    TypeOfItsToken(x.type_);
    FlagTokens(x.nullable, x.hasDefault);
    var l3 := Field(d, x.name);
    var l2 := Field(n, l3);
    var l1 := Field(TypeToken(x.type_), l2);
    ReadField(d, x.name);
    ReadField(n, l3);
    ReadField(TypeToken(x.type_), l2);
    ReadField(Numeral(x.id), l1);
    ReadText(x.name);
    assert RestAfter(Field(Numeral(x.id), l1), 4) == RestAfter(l1, 3) == RestAfter(l2, 2) == RestAfter(l3, 1) == RestAfter(x.name, 0);
  }

  lemma ColumnLineReads(cat: Catalog, t: TableInfo, x: ColumnInfo)
    requires CleanColumn(x)
    ensures ReadLines(AtTable(cat, t), [ColumnLine(x)]) == Some(AtTable(cat, t.(columns := t.columns + [x.(defaultExpr := "")])))
  {
    hide SplitWs, Keyword, Field, Step, Numeral, U32Of, RestAfter, IsText, TypeToken, FindType;
    var s := AtTable(cat, t);
    var n, d := if x.nullable then "null" else "notnull", if x.hasDefault then "default" else "nodefault";
    var rest := Field(Numeral(x.id), Field(TypeToken(x.type_), Field(n, Field(d, x.name))));
    KeywordStep(s, ColumnRecord, rest);
    ColumnFields(x);
    NumeralIsWord(x.id);
    TypeOfItsToken(x.type_);
    ReadOne(s, ColumnLine(x));
    var tok := [Keyword(ColumnRecord)] + SplitWs(rest);
    assert tok[1] == Numeral(x.id) && tok[2] == TypeToken(x.type_) && tok[3] == n && tok[4] == d && |tok| >= 6;
  }

  lemma ColumnReads(cat: Catalog, t: TableInfo, x: ColumnInfo)
    requires CleanColumn(x)
    ensures ReadLines(AtTable(cat, t), ColumnLines(x)) == Some(AtTable(cat, t.(columns := t.columns + [KeptColumn(x)])))
  {
    hide Step, ColumnLine, TextLine, IsText, RestAfter, ReadLines;
    ColumnLineReads(cat, t, x);
    var u := t.(columns := t.columns + [x.(defaultExpr := "")]);
    if x.hasDefault && x.defaultExpr != "" {
      TextLineStep(AtTable(cat, u), DefaultRecord, x.defaultExpr);
      ReadThen(AtTable(cat, t), [ColumnLine(x)], AtTable(cat, u), [TextLine(DefaultRecord, x.defaultExpr)]);
      assert u.columns[|u.columns| - 1 := KeptColumn(x)] == t.columns + [KeptColumn(x)];
    } else {
      assert ColumnLines(x) == [ColumnLine(x)];
    }
  }

  lemma KeptSnoc(t: TableInfo, xs: seq<ColumnInfo>)
    requires xs != []
    ensures KeptColumns(xs) == KeptColumns(xs[..|xs| - 1]) + [KeptColumn(xs[|xs| - 1])]
  {
  }

  lemma {:induction false} ColumnsRead(cat: Catalog, t: TableInfo, xs: seq<ColumnInfo>)
    requires t.columns == [] && forall x <- xs :: CleanColumn(x)
    ensures ReadLines(AtTable(cat, t), AllColumnLines(xs)) == Some(AtTable(cat, t.(columns := KeptColumns(xs))))
  {
    hide ReadLines, ColumnLines, CleanColumn, KeptColumn;
    if xs == [] {
      ReadNone(AtTable(cat, t));
      assert KeptColumns(xs) == [];
    } else {
      var front, last := xs[..|xs| - 1], xs[|xs| - 1];
      ColumnsRead(cat, t, front);
      var u := t.(columns := KeptColumns(front));
      ReadThen(AtTable(cat, t), AllColumnLines(front), AtTable(cat, u), ColumnLines(last));
      ColumnReads(cat, u, last);
      KeptSnoc(t, xs);
    }
  }

  lemma ReadNone(s: State)
    ensures ReadLines(s, []) == Some(s)
  {
  }

  // ----- Constraint records -----

  lemma ConstraintLineReads(s: State, cat: Catalog, t: TableInfo, k: Constraint)
    requires s.haveTable && s.headerSeen && FlushConstraint(s) == AtTable(cat, t)
    ensures ReadLines(s, [Field(Keyword(ConstraintRecord), KindToken(k.kind))]) == Some(AtConstraint(cat, t, NO_CONSTRAINT.(kind := k.kind)))
  {
    hide SplitWs, Keyword, Field, Step, RestAfter, KindToken, KindOfToken, FlushConstraint;
    var line := Field(Keyword(ConstraintRecord), KindToken(k.kind));
    KeywordStep(s, ConstraintRecord, KindToken(k.kind));
    KindOfItsToken(k.kind);
    ReadLast(KindToken(k.kind));
    ReadOne(s, line);
    assert ([Keyword(ConstraintRecord)] + [KindToken(k.kind)])[1] == KindToken(k.kind);
  }

  lemma OptionalReads(cat: Catalog, t: TableInfo, k: Constraint, r: Record, wanted: bool, text: string)
    requires IsText(text) && (r.NameRecord? || r.ExprRecord?)
    requires if r.NameRecord? then k.name == "" else k.expr == ""
    ensures ReadLines(AtConstraint(cat, t, k), OptionalLine(r, wanted, text)) ==
            Some(AtConstraint(cat, t, if !wanted then k else if r.NameRecord? then k.(name := text) else k.(expr := text)))
  {
    hide Step, TextLine, IsText, RestAfter, ReadLines;
    if wanted && text != "" {
      TextLineStep(AtConstraint(cat, t, k), r, text);
    } else {
      ReadNone(AtConstraint(cat, t, k));
    }
  }

  lemma NoNumbers(r: Record)
    ensures NumberLines(r, []) == []
  {
  }

  lemma FirstNumber(r: Record, ns: seq<nat>)
    requires ns != [] && NumbersFit(ns)
    ensures NumberLines(r, ns) == [NumberLine(r, ns[0])] + NumberLines(r, ns[1..])
    ensures ns[0] <= U32_MAX && NumbersFit(ns[1..])
  {
    assert ns[0] in ns && forall n <- ns[1..] :: n in ns;
  }

  lemma LocalColumnReads(cat: Catalog, t: TableInfo, k: Constraint, n: nat)
    requires n <= U32_MAX
    ensures ReadLines(AtConstraint(cat, t, k), [NumberLine(LocalColumn, n)]) == Some(AtConstraint(cat, t, k.(columns := k.columns + [n])))
  {
    hide ReadLines, NumberLine, Numeral, U32Of, Keyword;
    NumberLineStep(AtConstraint(cat, t, k), LocalColumn, n);
  }

  lemma {:induction false} LocalColumnsRead(cat: Catalog, t: TableInfo, k: Constraint, ns: seq<nat>)
    requires NumbersFit(ns)
    ensures ReadLines(AtConstraint(cat, t, k), NumberLines(LocalColumn, ns)) == Some(AtConstraint(cat, t, k.(columns := k.columns + ns)))
    decreases |ns|
  {
    hide ReadLines, NumberLine, NumbersFit, NumberLines, AtConstraint;
    if ns == [] {
      NoNumbers(LocalColumn);
      ReadNone(AtConstraint(cat, t, k));
      assert k.columns + [] == k.columns;
    } else {
      FirstNumber(LocalColumn, ns);
      var next := k.(columns := k.columns + [ns[0]]);
      LocalColumnReads(cat, t, k, ns[0]);
      ReadThen(AtConstraint(cat, t, k), [NumberLine(LocalColumn, ns[0])], AtConstraint(cat, t, next), NumberLines(LocalColumn, ns[1..]));
      LocalColumnsRead(cat, t, next, ns[1..]);
      assert next.columns + ns[1..] == k.columns + ns;
    }
  }

  lemma RefColumnReads(cat: Catalog, t: TableInfo, k: Constraint, n: nat)
    requires n <= U32_MAX
    ensures ReadLines(AtConstraint(cat, t, k), [NumberLine(RefColumn, n)]) == Some(AtConstraint(cat, t, k.(refColumns := k.refColumns + [n])))
  {
    hide ReadLines, NumberLine, Numeral, U32Of, Keyword;
    NumberLineStep(AtConstraint(cat, t, k), RefColumn, n);
  }

  lemma {:induction false} RefColumnsRead(cat: Catalog, t: TableInfo, k: Constraint, ns: seq<nat>)
    requires NumbersFit(ns)
    ensures ReadLines(AtConstraint(cat, t, k), NumberLines(RefColumn, ns)) == Some(AtConstraint(cat, t, k.(refColumns := k.refColumns + ns)))
    decreases |ns|
  {
    hide ReadLines, NumberLine, NumbersFit, NumberLines, AtConstraint;
    if ns == [] {
      NoNumbers(RefColumn);
      ReadNone(AtConstraint(cat, t, k));
      assert k.refColumns + [] == k.refColumns;
    } else {
      FirstNumber(RefColumn, ns);
      var next := k.(refColumns := k.refColumns + [ns[0]]);
      RefColumnReads(cat, t, k, ns[0]);
      ReadThen(AtConstraint(cat, t, k), [NumberLine(RefColumn, ns[0])], AtConstraint(cat, t, next), NumberLines(RefColumn, ns[1..]));
      RefColumnsRead(cat, t, next, ns[1..]);
      assert next.refColumns + ns[1..] == k.refColumns + ns;
    }
  }

  lemma ReferenceReads(cat: Catalog, t: TableInfo, k: Constraint, full: Constraint)
    requires CleanConstraint(full) && k.refColumns == [] && k.refTable == ""
    ensures ReadLines(AtConstraint(cat, t, k), ReferenceLines(full)) ==
            Some(AtConstraint(cat, t, if full.kind.ForeignKey? then k.(refTable := full.refTable, refColumns := full.refColumns) else k))
  {
    hide ReadLines, TextLine, NumberLine, RestAfter, IsText;
    if full.kind.ForeignKey? {
      var named := k.(refTable := full.refTable);
      TextLineStep(AtConstraint(cat, t, k), RefTable, full.refTable);
      ReadThen(AtConstraint(cat, t, k), [TextLine(RefTable, full.refTable)], AtConstraint(cat, t, named), NumberLines(RefColumn, full.refColumns));
      RefColumnsRead(cat, t, named, full.refColumns);
      assert [] + full.refColumns == full.refColumns;
    } else {
      ReadNone(AtConstraint(cat, t, k));
    }
  }

  lemma ConstraintReads(s: State, cat: Catalog, t: TableInfo, k: Constraint)
    requires s.haveTable && s.headerSeen && FlushConstraint(s) == AtTable(cat, t) && CleanConstraint(k)
    ensures ReadLines(s, ConstraintLines(k)) == Some(AtConstraint(cat, t, KeptConstraint(k)))
  {
    hide ReadLines, Field, Keyword, KindToken, OptionalLine, ReferenceLines, NumberLine, IsText, FlushConstraint;
    var head := [Field(Keyword(ConstraintRecord), KindToken(k.kind))];
    var k0 := NO_CONSTRAINT.(kind := k.kind);
    var k1 := k0.(name := k.name);
    var k2 := k1.(columns := k.columns);
    var k3 := if k.kind.ForeignKey? then k2.(refTable := k.refTable, refColumns := k.refColumns) else k2;
    var k4 := if k.kind.Check? then k3.(expr := k.expr) else k3;
    ConstraintLineReads(s, cat, t, k);
    OptionalReads(cat, t, k0, NameRecord, true, k.name);
    LocalColumnsRead(cat, t, k1, k.columns);
    assert [] + k.columns == k.columns;
    ReferenceReads(cat, t, k2, k);
    OptionalReads(cat, t, k3, ExprRecord, k.kind.Check?, k.expr);
    var a := head + OptionalLine(NameRecord, true, k.name);
    ReadThen(s, head, AtConstraint(cat, t, k0), OptionalLine(NameRecord, true, k.name));
    var b := a + NumberLines(LocalColumn, k.columns);
    ReadThen(s, a, AtConstraint(cat, t, k1), NumberLines(LocalColumn, k.columns));
    ReadThen(s, b, AtConstraint(cat, t, k2), ReferenceLines(k));
    ReadThen(s, b + ReferenceLines(k), AtConstraint(cat, t, k3), OptionalLine(ExprRecord, k.kind.Check?, k.expr));
    assert k4 == KeptConstraint(k);
  }

  /** After the constraints of a table the last one is still pending; flushing it completes
      the table. */
  predicate Completes(s: State, cat: Catalog, t: TableInfo) {
    s.haveTable && s.headerSeen && FlushConstraint(s) == AtTable(cat, t)
  }

  lemma {:induction false} ConstraintsRead(s: State, cat: Catalog, t: TableInfo, ks: seq<Constraint>) returns (m: State)
    requires Completes(s, cat, t) && t.constraints == [] && forall k <- ks :: CleanConstraint(k)
    ensures ReadLines(s, AllConstraintLines(ks)) == Some(m) && Completes(m, cat, t.(constraints := KeptConstraints(ks)))
  {
    hide ReadLines, ConstraintLines, CleanConstraint, KeptConstraint;
    if ks == [] {
      ReadNone(s);
      m := s;
      assert KeptConstraints(ks) == [];
    } else {
      var front, last := ks[..|ks| - 1], ks[|ks| - 1];
      var before := ConstraintsRead(s, cat, t, front);
      ReadThen(s, AllConstraintLines(front), before, ConstraintLines(last));
      var u := t.(constraints := KeptConstraints(front));
      ConstraintReads(before, cat, u, last);
      m := AtConstraint(cat, u, KeptConstraint(last));
      assert KeptConstraints(ks) == KeptConstraints(front) + [KeptConstraint(last)];
    }
  }

  lemma {:induction false} TableReads(s: State, cat: Catalog, t: TableInfo) returns (m: State)
    requires FlushTable(s) == Rest(cat) && s.headerSeen && CleanTable(t)
    ensures ReadLines(s, TableLines(t)) == Some(m) && m.headerSeen && FlushTable(m) == Rest(WithTable(cat, KeptTable(t)))
  {
    hide ReadLines, TableLine, AllColumnLines, AllConstraintLines, CleanColumn, CleanConstraint, IsText, KeptColumns, KeptConstraints, FlushConstraint;
    var t0 := TableInfo(t.name, t.id, [], []);
    TableLineReads(s, cat, t);
    ReadThen(s, [TableLine(t)], AtTable(cat, t0), AllColumnLines(t.columns));
    ColumnsRead(cat, t0, t.columns);
    var t1 := t0.(columns := KeptColumns(t.columns));
    ReadThen(s, [TableLine(t)] + AllColumnLines(t.columns), AtTable(cat, t1), AllConstraintLines(t.constraints));
    NothingPending(cat, t1);
    m := ConstraintsRead(AtTable(cat, t1), cat, t1, t.constraints);
    assert t1.(constraints := KeptConstraints(t.constraints)) == KeptTable(t);
  }

  lemma NothingPending(cat: Catalog, t: TableInfo)
    ensures Completes(AtTable(cat, t), cat, t)
  {
  }
}
