/** The on-disk catalog snapshot: a line per record, free text last on its line. */
module Snapshot {
  import opened Wrappers
  import opened Identifier
  import opened Numerals
  import opened Types
  import opened Catalogs
  import opened Lines

  // ----- Tokens -----

  datatype Record =
    | VersionRecord | NextTableId | NextIndexId
    | TableRecord | ColumnRecord | DefaultRecord
    | ConstraintRecord | NameRecord | LocalColumn | RefTable | RefColumn | ExprRecord
    | IndexRecord | IndexName | IndexTable | IndexColumn

  function Keyword(r: Record): string {
    match r
    case VersionRecord => "version"
    case NextTableId => "next_table_id"
    case NextIndexId => "next_index_id"
    case TableRecord => "table"
    case ColumnRecord => "col"
    case DefaultRecord => "coldefault"
    case ConstraintRecord => "constraint"
    case NameRecord => "cname"
    case LocalColumn => "ccol"
    case RefTable => "creftable"
    case RefColumn => "crefcol"
    case ExprRecord => "cexpr"
    case IndexRecord => "index"
    case IndexName => "iname"
    case IndexTable => "itable"
    case IndexColumn => "icol"
  }

  const RECORDS: seq<Record> :=
    [VersionRecord, NextTableId, NextIndexId, TableRecord, ColumnRecord, DefaultRecord, ConstraintRecord, NameRecord,
     LocalColumn, RefTable, RefColumn, ExprRecord, IndexRecord, IndexName, IndexTable, IndexColumn]

  /** The record a line opens, tried in order. */
  function RecordOf(tok: string): (r: Option<Record>)
    ensures r.Some? ==> Keyword(r.value) == tok
    ensures r.None? ==> forall k :: 0 <= k < |RECORDS| ==> Keyword(RECORDS[k]) != tok
  {
    FindRecord(tok, |RECORDS|)
  }

  function FindRecord(tok: string, n: nat): (r: Option<Record>)
    requires n <= |RECORDS|
    ensures r.Some? ==> Keyword(r.value) == tok
    ensures r.None? ==> forall k :: 0 <= k < n ==> Keyword(RECORDS[k]) != tok
  {
    if n == 0 then None
    else
      var before := FindRecord(tok, n - 1);
      if before.Some? then before else if Keyword(RECORDS[n - 1]) == tok then Some(RECORDS[n - 1]) else None
  }

  function TypeToken(t: DataType): string {
    match t
    case Unknown => "UNKNOWN" case Boolean => "BOOLEAN" case TinyInt => "TINYINT" case SmallInt => "SMALLINT"
    case Integer => "INTEGER" case BigInt => "BIGINT" case Decimal => "DECIMAL" case Real => "REAL"
    case Double => "DOUBLE" case Char => "CHAR" case VarChar => "VARCHAR" case Text => "TEXT"
    case Date => "DATE" case Time => "TIME" case Timestamp => "TIMESTAMP" case Interval => "INTERVAL"
    case Blob => "BLOB" case Array => "ARRAY" case Struct => "STRUCT" case Map => "MAP"
    case NullType => "NULL" case Any => "ANY"
  }

  const TYPES: seq<DataType> :=
    [Unknown, Boolean, TinyInt, SmallInt, Integer, BigInt, DataType.Decimal, Real, Double, Char, VarChar, Text, Date, Time,
     Timestamp, Interval, Blob, DataType.Array, Struct, DataType.Map, NullType, Any]

  function FindType(tok: string, n: nat): (r: Option<DataType>)
    requires n <= |TYPES|
    ensures r.Some? ==> TypeToken(r.value) == tok
    ensures r.None? ==> forall k :: 0 <= k < n ==> TypeToken(TYPES[k]) != tok
  {
    if n == 0 then None
    else
      var before := FindType(tok, n - 1);
      if before.Some? then before else if TypeToken(TYPES[n - 1]) == tok then Some(TYPES[n - 1]) else None
  }

  function TypeOfToken(tok: string): (r: Option<DataType>)
    ensures r.Some? ==> TypeToken(r.value) == tok
    ensures r.None? ==> forall k :: 0 <= k < |TYPES| ==> TypeToken(TYPES[k]) != tok
  {
    FindType(tok, |TYPES|)
  }

  function KindToken(k: ConstraintKind): string {
    match k case PrimaryKey => "PK" case Unique => "UNIQUE" case ForeignKey => "FK" case Check => "CHECK"
  }

  function KindOfToken(tok: string): Option<ConstraintKind> {
    if tok == "PK" then Some(PrimaryKey)
    else if tok == "UNIQUE" then Some(Unique)
    else if tok == "FK" then Some(ForeignKey)
    else if tok == "CHECK" then Some(Check)
    else None
  }

  // ----- Printing -----

  /** A record with a number, and one with free text. */
  function NumberLine(r: Record, n: nat): string { Field(Keyword(r), Numeral(n)) }
  function TextLine(r: Record, text: string): string { Field(Keyword(r), text) }

  function NumberLines(r: Record, ns: seq<nat>): (lines: seq<string>)
    ensures |lines| == |ns| && forall i :: 0 <= i < |ns| ==> lines[i] == NumberLine(r, ns[i])
  {
    seq(|ns|, i requires 0 <= i < |ns| => NumberLine(r, ns[i]))
  }

  function ColumnLine(x: ColumnInfo): string {
    Field(Keyword(ColumnRecord), Field(Numeral(x.id), Field(TypeToken(x.type_),
      Field(if x.nullable then "null" else "notnull", Field(if x.hasDefault then "default" else "nodefault", x.name)))))
  }

  /** A line of free text, left out when there is none. */
  function OptionalLine(r: Record, wanted: bool, text: string): seq<string> {
    if wanted && text != "" then [TextLine(r, text)] else []
  }

  function ColumnLines(x: ColumnInfo): seq<string> {
    [ColumnLine(x)] + OptionalLine(DefaultRecord, x.hasDefault, x.defaultExpr)
  }

  function ReferenceLines(k: Constraint): seq<string> {
    if k.kind.ForeignKey? then [TextLine(RefTable, k.refTable)] + NumberLines(RefColumn, k.refColumns) else []
  }

  function ConstraintLines(k: Constraint): seq<string> {
    [Field(Keyword(ConstraintRecord), KindToken(k.kind))]
    + OptionalLine(NameRecord, true, k.name)
    + NumberLines(LocalColumn, k.columns)
    + ReferenceLines(k)
    + OptionalLine(ExprRecord, k.kind.Check?, k.expr)
  }

  function AllColumnLines(xs: seq<ColumnInfo>): seq<string> {
    if xs == [] then [] else AllColumnLines(xs[..|xs| - 1]) + ColumnLines(xs[|xs| - 1])
  }

  function AllConstraintLines(ks: seq<Constraint>): seq<string> {
    if ks == [] then [] else AllConstraintLines(ks[..|ks| - 1]) + ConstraintLines(ks[|ks| - 1])
  }

  function TableLine(t: TableInfo): string {
    Field(Keyword(TableRecord), Field(Numeral(t.id), t.name))
  }

  function TableLines(t: TableInfo): seq<string> {
    [TableLine(t)] + AllColumnLines(t.columns) + AllConstraintLines(t.constraints)
  }

  function AllTableLines(ts: seq<TableInfo>): seq<string> {
    if ts == [] then [] else AllTableLines(ts[..|ts| - 1]) + TableLines(ts[|ts| - 1])
  }

  function IndexLines(x: IndexInfo): seq<string> {
    [Field(Keyword(IndexRecord), Field(Numeral(x.id), if x.unique then "unique" else "plain")),
     TextLine(IndexName, x.name), TextLine(IndexTable, x.table)]
    + NumberLines(IndexColumn, x.columns)
  }

  function AllIndexLines(xs: seq<IndexInfo>): seq<string> {
    if xs == [] then [] else AllIndexLines(xs[..|xs| - 1]) + IndexLines(xs[|xs| - 1])
  }

  const HEADER: string := "DB25CATALOG 2"

  function HeaderLines(c: Catalog): seq<string> {
    [HEADER, NumberLine(VersionRecord, c.version), NumberLine(NextTableId, c.nextTableId), NumberLine(NextIndexId, c.nextIndexId)]
  }

  ghost predicate TablesInOrder(c: Catalog, ts: seq<TableInfo>) {
    && (forall i, j :: 0 <= i < j < |ts| ==> ts[i].id < ts[j].id)
    && (forall t :: t in ts <==> exists k :: k in c.tables && c.tables[k] == t)
  }

  ghost predicate IndexesInOrder(c: Catalog, xs: seq<IndexInfo>) {
    && (forall i, j :: 0 <= i < j < |xs| ==> xs[i].id < xs[j].id)
    && (forall x :: x in xs <==> exists k :: k in c.indexes && c.indexes[k] == x)
  }

  /** The tables and indexes of a catalog by ascending id. */
  ghost predicate InIdOrder(c: Catalog, ts: seq<TableInfo>, xs: seq<IndexInfo>) {
    TablesInOrder(c, ts) && IndexesInOrder(c, xs)
  }

  function SnapshotLines(c: Catalog, ts: seq<TableInfo>, xs: seq<IndexInfo>): seq<string> {
    HeaderLines(c) + AllTableLines(ts) + AllIndexLines(xs)
  }

  function SnapshotText(c: Catalog, ts: seq<TableInfo>, xs: seq<IndexInfo>): string {
    Unlines(SnapshotLines(c, ts, xs))
  }

  /** The text is the snapshot of the catalog. */
  ghost predicate IsTextOf(c: Catalog, text: string) {
    exists ts, xs :: InIdOrder(c, ts, xs) && text == SnapshotText(c, ts, xs)
  }

  // ----- Reading: one line at a time -----

  const NO_TABLE: TableInfo := TableInfo("", 0, [], [])
  const NO_CONSTRAINT: Constraint := Constraint(Check, "", [], "", [], "")
  const NO_INDEX: IndexInfo := IndexInfo("", 0, "", [], false)

  /** What the reader holds between lines: the catalog so far and the records under
      construction. */
  datatype State = State(
    cat: Catalog,
    headerSeen: bool, haveVersion: bool, haveNextId: bool,
    current: TableInfo, haveTable: bool,
    constraint: Constraint, haveConstraint: bool,
    index: IndexInfo, haveIndex: bool)

  const START: State := State(EMPTY, false, false, false, NO_TABLE, false, NO_CONSTRAINT, false, NO_INDEX, false)

  function FlushConstraint(s: State): State {
    if s.haveConstraint then
      s.(current := s.current.(constraints := s.current.constraints + [s.constraint]), constraint := NO_CONSTRAINT, haveConstraint := false)
    else s
  }

  function FlushTable(s: State): State {
    var f := FlushConstraint(s);
    if f.haveTable then f.(cat := WithTable(f.cat, f.current), current := NO_TABLE, haveTable := false) else f
  }

  function FlushIndex(s: State): State {
    if s.haveIndex then
      s.(cat := s.cat.(indexes := s.cat.indexes[Fold(s.index.name) := s.index]), index := NO_INDEX, haveIndex := false)
    else s
  }

  function HeaderStep(s: State, tok: seq<string>): Option<State>
    requires tok != []
  {
    if tok[0] == "DB25CATALOG" && |tok| == 2 && (tok[1] == "1" || tok[1] == "2") then Some(s.(headerSeen := true)) else None
  }

  /** A record whose one field is a number. */
  function OnlyNumber(tok: seq<string>): Option<nat> {
    if |tok| == 2 then U32Of(tok[1]) else None
  }

  function NumberStep(s: State, r: Record, tok: seq<string>): Option<State> {
    match OnlyNumber(tok)
    case None => None
    case Some(n) =>
      match r
      case VersionRecord => Some(s.(cat := s.cat.(version := n), haveVersion := true))
      case NextTableId => Some(s.(cat := s.cat.(nextTableId := n), haveNextId := true))
      case NextIndexId => Some(s.(cat := s.cat.(nextIndexId := n)))
      case LocalColumn => if s.haveConstraint then Some(s.(constraint := s.constraint.(columns := s.constraint.columns + [n]))) else None
      case RefColumn => if s.haveConstraint then Some(s.(constraint := s.constraint.(refColumns := s.constraint.refColumns + [n]))) else None
      case IndexColumn => if s.haveIndex then Some(s.(index := s.index.(columns := s.index.columns + [n]))) else None
      case _ => None
  }

  function TableStep(s: State, tok: seq<string>, line: string): Option<State> {
    if |tok| < 3 || U32Of(tok[1]).None? then None
    else Some(FlushTable(s).(current := TableInfo(RestAfter(line, 2), U32Of(tok[1]).value, [], []), haveTable := true))
  }

  function ColumnStep(s: State, tok: seq<string>, line: string): Option<State> {
    if !s.haveTable || |tok| < 6 || U32Of(tok[1]).None? || TypeOfToken(tok[2]).None?
       || (tok[3] != "null" && tok[3] != "notnull") || (tok[4] != "default" && tok[4] != "nodefault")
    then None
    else
      var x := ColumnInfo(RestAfter(line, 5), TypeOfToken(tok[2]).value, tok[3] == "null", tok[4] == "default", U32Of(tok[1]).value, "");
      var f := FlushConstraint(s);
      Some(f.(current := f.current.(columns := f.current.columns + [x])))
  }

  function DefaultStep(s: State, line: string): Option<State> {
    if !s.haveTable || s.current.columns == [] then None
    else
      var n := |s.current.columns| - 1;
      Some(s.(current := s.current.(columns := s.current.columns[n := s.current.columns[n].(defaultExpr := RestAfter(line, 1))])))
  }

  function ConstraintStep(s: State, tok: seq<string>): Option<State> {
    if !s.haveTable || |tok| != 2 || KindOfToken(tok[1]).None? then None
    else Some(FlushConstraint(s).(constraint := NO_CONSTRAINT.(kind := KindOfToken(tok[1]).value), haveConstraint := true))
  }

  function TextStep(s: State, r: Record, line: string): Option<State> {
    match r
    case NameRecord => if s.haveConstraint then Some(s.(constraint := s.constraint.(name := RestAfter(line, 1)))) else None
    case RefTable => if s.haveConstraint then Some(s.(constraint := s.constraint.(refTable := RestAfter(line, 1)))) else None
    case ExprRecord => if s.haveConstraint then Some(s.(constraint := s.constraint.(expr := RestAfter(line, 1)))) else None
    case IndexName => if s.haveIndex then Some(s.(index := s.index.(name := RestAfter(line, 1)))) else None
    case IndexTable => if s.haveIndex then Some(s.(index := s.index.(table := RestAfter(line, 1)))) else None
    case _ => None
  }

  function IndexStep(s: State, tok: seq<string>): Option<State> {
    if |tok| != 3 || U32Of(tok[1]).None? || (tok[2] != "unique" && tok[2] != "plain") then None
    else Some(FlushIndex(FlushTable(s)).(index := NO_INDEX.(id := U32Of(tok[1]).value, unique := tok[2] == "unique"), haveIndex := true))
  }

  function RecordStep(s: State, r: Record, tok: seq<string>, line: string): Option<State> {
    match r
    case VersionRecord | NextTableId | NextIndexId | LocalColumn | RefColumn | IndexColumn => NumberStep(s, r, tok)
    case TableRecord => TableStep(s, tok, line)
    case ColumnRecord => ColumnStep(s, tok, line)
    case DefaultRecord => DefaultStep(s, line)
    case ConstraintRecord => ConstraintStep(s, tok)
    case NameRecord | RefTable | ExprRecord | IndexName | IndexTable => TextStep(s, r, line)
    case IndexRecord => IndexStep(s, tok)
  }

  /** A blank line changes nothing; the first other line must be the header. */
  function Step(s: State, line: string): Option<State> {
    var tok := SplitWs(line);
    if tok == [] then Some(s)
    else if !s.headerSeen then HeaderStep(s, tok)
    else
      match RecordOf(tok[0])
      case None => None
      case Some(r) => RecordStep(s, r, tok, line)
  }

  function ReadLines(s: State, lines: seq<string>): Option<State>
    decreases |lines|
  {
    if lines == [] then Some(s)
    else
      match Step(s, lines[0])
      case None => None
      case Some(next) => ReadLines(next, lines[1..])
  }

  function Finish(s: State): Option<Catalog> {
    if s.headerSeen && s.haveVersion && s.haveNextId then Some(FlushIndex(FlushTable(s)).cat) else None
  }

  /** The catalog a text denotes. */
  function Deserialized(text: string): Option<Catalog> {
    match ReadLines(START, SplitLines(text))
    case None => None
    case Some(s) => Finish(s)
  }

  // ----- Serializing, as it runs -----

  /** `out` grows by the lines of one list; the loops below keep this. */
  lemma UnlinesOne(out: string, before: seq<string>, line: string)
    requires out == Unlines(before)
    ensures out + line + [NEWLINE] == Unlines(before + [line])
  {
    assert (before + [line])[..|before|] == before;
  }

  class SnapshotWriter {
    var buffer: string
    ghost var written: seq<string>

    ghost predicate Valid()
      reads this
    {
      buffer == Unlines(written)
    }

    constructor ()
      ensures Valid() && written == []
    {
      buffer, written := "", [];
    }

    method WriteLine(line: string)
      requires Valid()
      modifies this
      ensures Valid() && written == old(written) + [line]
    {
      UnlinesOne(buffer, written, line);
      buffer := buffer + line + [NEWLINE];
      written := written + [line];
    }

    method Text() returns (text: string)
      requires Valid()
      ensures text == Unlines(written)
    {
      text := buffer;
    }

    method WriteNumbers(r: Record, ns: seq<nat>)
      requires Valid()
      modifies this
      ensures Valid() && written == old(written) + NumberLines(r, ns)
    {
      hide Valid, NumberLine;
      ghost var lines := NumberLines(r, ns);
      for i := 0 to |ns|
        invariant Valid() && written == old(written) + lines[..i]
      {
        WriteLine(NumberLine(r, ns[i]));
        assert lines[..i + 1] == lines[..i] + [lines[i]];
      }
      assert lines[..|ns|] == lines;
    }

    method WriteColumn(x: ColumnInfo)
      requires Valid()
      modifies this
      ensures Valid() && written == old(written) + ColumnLines(x)
    {
      hide Valid, OptionalLine, ColumnLine;
      WriteLine(ColumnLine(x));
      WriteOptional(DefaultRecord, x.hasDefault, x.defaultExpr);
    }

    method WriteReference(k: Constraint)
      requires Valid()
      modifies this
      ensures Valid() && written == old(written) + ReferenceLines(k)
    {
      hide Valid, NumberLines, TextLine;
      if k.kind.ForeignKey? {
        WriteLine(TextLine(RefTable, k.refTable));
        WriteNumbers(RefColumn, k.refColumns);
      }
    }

    method WriteOptional(r: Record, wanted: bool, text: string)
      requires Valid()
      modifies this
      ensures Valid() && written == old(written) + OptionalLine(r, wanted, text)
    {
      hide Valid, TextLine;
      if wanted && text != "" {
        WriteLine(TextLine(r, text));
      }
    }

    method WriteConstraint(k: Constraint)
      requires Valid()
      modifies this
      ensures Valid() && written == old(written) + ConstraintLines(k)
    {
      hide Valid, Field, NumberLines, OptionalLine, ReferenceLines;
      WriteLine(Field(Keyword(ConstraintRecord), KindToken(k.kind)));
      WriteOptional(NameRecord, true, k.name);
      WriteNumbers(LocalColumn, k.columns);
      WriteReference(k);
      WriteOptional(ExprRecord, k.kind.Check?, k.expr);
    }

    method WriteTable(t: TableInfo)
      requires Valid()
      modifies this
      ensures Valid() && written == old(written) + TableLines(t)
    {
      hide ColumnLines, ConstraintLines, TableLine, Valid;
      WriteLine(TableLine(t));
      for i := 0 to |t.columns|
        invariant Valid() && written == old(written) + [TableLine(t)] + AllColumnLines(t.columns[..i])
      {
        assert t.columns[..i + 1][..i] == t.columns[..i];
        WriteColumn(t.columns[i]);
      }
      assert t.columns[..|t.columns|] == t.columns;
      for i := 0 to |t.constraints|
        invariant Valid() && written == old(written) + [TableLine(t)] + AllColumnLines(t.columns) + AllConstraintLines(t.constraints[..i])
      {
        assert t.constraints[..i + 1][..i] == t.constraints[..i];
        WriteConstraint(t.constraints[i]);
      }
      assert t.constraints[..|t.constraints|] == t.constraints;
    }

    method WriteIndex(x: IndexInfo)
      requires Valid()
      modifies this
      ensures Valid() && written == old(written) + IndexLines(x)
    {
      hide Valid, Field, NumberLines, TextLine;
      WriteLine(Field(Keyword(IndexRecord), Field(Numeral(x.id), if x.unique then "unique" else "plain")));
      WriteLine(TextLine(IndexName, x.name));
      WriteLine(TextLine(IndexTable, x.table));
      WriteNumbers(IndexColumn, x.columns);
    }
  }
}
