/** Writing a catalog to text and reading it back, as the loops run. */
module SnapshotStore {
  import opened Wrappers
  import opened Identifier
  import opened Numerals
  import opened Types
  import opened Catalogs
  import opened Lines
  import opened Snapshot

  // ----- Enumeration by ascending id -----

  predicate Injective(ids: map<string, nat>) {
    forall j, k :: j in ids && k in ids && j != k ==> ids[j] != ids[k]
  }

  method LeastKey(ids: map<string, nat>, keys: set<string>) returns (least: string)
    requires keys != {} && keys <= ids.Keys
    ensures least in keys && forall k :: k in keys ==> ids[least] <= ids[k]
  {
    least :| least in keys;
    var rest := keys - {least};
    while rest != {}
      invariant rest <= keys && least in keys
      invariant forall k :: k in keys && k !in rest ==> ids[least] <= ids[k]
      decreases |rest|
    {
      var k :| k in rest;
      rest := rest - {k};
      if ids[k] < ids[least] {
        least := k;
      }
    }
  }

  method KeysByAscendingId(ids: map<string, nat>) returns (keys: seq<string>)
    requires Injective(ids)
    ensures forall k :: k in keys <==> k in ids
    ensures forall i, j :: 0 <= i < j < |keys| ==> ids[keys[i]] < ids[keys[j]]
  {
    keys := [];
    var rest := ids.Keys;
    while rest != {}
      invariant rest <= ids.Keys && forall k :: k in keys <==> k in ids && k !in rest
      invariant forall i, j :: 0 <= i < j < |keys| ==> ids[keys[i]] < ids[keys[j]]
      invariant forall i, k :: 0 <= i < |keys| && k in rest ==> ids[keys[i]] < ids[k]
      decreases |rest|
    {
      var k := LeastKey(ids, rest);
      rest := rest - {k};
      keys := keys + [k];
    }
  }

  method ListTables(c: Catalog) returns (ts: seq<TableInfo>)
    requires IdsDistinct(c)
    ensures TablesInOrder(c, ts)
  {
    var ids := map k | k in c.tables :: c.tables[k].id;
    var keys := KeysByAscendingId(ids);
    assert forall i :: 0 <= i < |keys| ==> keys[i] in keys && keys[i] in ids;
    ts := seq(|keys|, i requires 0 <= i < |keys| && keys[i] in c.tables => c.tables[keys[i]]);
    forall k | k in c.tables ensures c.tables[k] in ts {
      assert k in ids && k in keys;
      var i :| 0 <= i < |keys| && keys[i] == k;
      assert ts[i] == c.tables[k];
    }
  }

  method ListIndexes(c: Catalog) returns (xs: seq<IndexInfo>)
    requires IdsDistinct(c)
    ensures IndexesInOrder(c, xs)
  {
    var ids := map k | k in c.indexes :: c.indexes[k].id;
    var keys := KeysByAscendingId(ids);
    assert forall i :: 0 <= i < |keys| ==> keys[i] in keys && keys[i] in ids;
    xs := seq(|keys|, i requires 0 <= i < |keys| && keys[i] in c.indexes => c.indexes[keys[i]]);
    forall k | k in c.indexes ensures c.indexes[k] in xs {
      assert k in ids && k in keys;
      var i :| 0 <= i < |keys| && keys[i] == k;
      assert xs[i] == c.indexes[k];
    }
  }

  // ----- Writing -----

  /** The snapshot text, with its tables and indexes in id order. */
  method SerializeCatalog(catalog: InMemoryCatalog) returns (text: string)
    requires IdsDistinct(catalog.View())
    ensures IsTextOf(catalog.View(), text)
  {
    hide IdsDistinct, TablesInOrder, IndexesInOrder, SnapshotText, HeaderLines, AllTableLines, AllIndexLines;
    var c := catalog.View();
    var tables := ListTables(c);
    var indexes := ListIndexes(c);
    var w := new SnapshotWriter();
    WriteHeader(w, c);
    WriteTables(w, tables);
    WriteIndexes(w, indexes);
    text := w.Text();
    assert w.written == [] + HeaderLines(c) + AllTableLines(tables) + AllIndexLines(indexes);
    TextIs(c, tables, indexes);
    assert InIdOrder(c, tables, indexes) && text == SnapshotText(c, tables, indexes);
  }

  lemma TextIs(c: Catalog, ts: seq<TableInfo>, xs: seq<IndexInfo>)
    ensures SnapshotText(c, ts, xs) == Unlines([] + HeaderLines(c) + AllTableLines(ts) + AllIndexLines(xs))
  {
    hide Unlines, HeaderLines, AllTableLines, AllIndexLines;
    assert [] + HeaderLines(c) == HeaderLines(c);
  }

  method WriteTables(w: SnapshotWriter, ts: seq<TableInfo>)
    requires w.Valid()
    modifies w
    ensures w.Valid() && w.written == old(w.written) + AllTableLines(ts)
  {
    hide TableLines;
    for i := 0 to |ts|
      invariant w.Valid() && w.written == old(w.written) + AllTableLines(ts[..i])
    {
      assert ts[..i + 1][..i] == ts[..i];
      w.WriteTable(ts[i]);
    }
    assert ts[..|ts|] == ts;
  }

  method WriteIndexes(w: SnapshotWriter, xs: seq<IndexInfo>)
    requires w.Valid()
    modifies w
    ensures w.Valid() && w.written == old(w.written) + AllIndexLines(xs)
  {
    hide IndexLines;
    for i := 0 to |xs|
      invariant w.Valid() && w.written == old(w.written) + AllIndexLines(xs[..i])
    {
      assert xs[..i + 1][..i] == xs[..i];
      w.WriteIndex(xs[i]);
    }
    assert xs[..|xs|] == xs;
  }

  method WriteHeader(w: SnapshotWriter, c: Catalog)
    requires w.Valid()
    modifies w
    ensures w.Valid() && w.written == old(w.written) + HeaderLines(c)
  {
    hide NumberLine;
    w.WriteLine(HEADER);
    w.WriteLine(NumberLine(VersionRecord, c.version));
    w.WriteLine(NumberLine(NextTableId, c.nextTableId));
    w.WriteLine(NumberLine(NextIndexId, c.nextIndexId));
  }

  // ----- Reading -----

  /** The reader's variables: the catalog it fills, the records it is building and its flags. */
  class SnapshotReader {
    const cat: InMemoryCatalog
    var headerSeen: bool
    var haveVersion: bool
    var haveNextId: bool
    var current: TableInfo
    var haveTable: bool
    var constraint: Constraint
    var haveConstraint: bool
    var index: IndexInfo
    var haveIndex: bool

    function View(): State
      reads this, cat
    {
      State(cat.View(), headerSeen, haveVersion, haveNextId, current, haveTable, constraint, haveConstraint, index, haveIndex)
    }

    constructor ()
      ensures View() == START && fresh(cat)
    {
      cat := new InMemoryCatalog();
      headerSeen, haveVersion, haveNextId := false, false, false;
      current, haveTable := NO_TABLE, false;
      constraint, haveConstraint := NO_CONSTRAINT, false;
      index, haveIndex := NO_INDEX, false;
    }

    method FlushPendingConstraint()
      modifies this
      ensures View() == FlushConstraint(old(View()))
    {
      if haveConstraint {
        current := current.(constraints := current.constraints + [constraint]);
        constraint, haveConstraint := NO_CONSTRAINT, false;
      }
    }

    method FlushPendingTable()
      modifies this, cat
      ensures View() == FlushTable(old(View()))
    {
      FlushPendingConstraint();
      if haveTable {
        cat.RestoreTable(current);
        current, haveTable := NO_TABLE, false;
      }
    }

    method FlushPendingIndex()
      modifies this, cat
      ensures View() == FlushIndex(old(View()))
    {
      if haveIndex {
        cat.RestoreIndex(index);
        index, haveIndex := NO_INDEX, false;
      }
    }

    method ReadNumber(r: Record, tok: seq<string>) returns (ok: bool)
      requires r.VersionRecord? || r.NextTableId? || r.NextIndexId? || r.LocalColumn? || r.RefColumn? || r.IndexColumn?
      modifies this, cat
      ensures ok == NumberStep(old(View()), r, tok).Some? && (ok ==> View() == NumberStep(old(View()), r, tok).value)
    {
      hide U32Of;
      if |tok| != 2 {
        return false;
      }
      var parsed := ParseU32(tok[1]);
      if parsed.None? {
        return false;
      }
      var n := parsed.value;
      ok := true;
      match r {
        case VersionRecord =>
          cat.SetSchemaVersion(n);
          haveVersion := true;
        case NextTableId =>
          cat.nextTableId := n;
          haveNextId := true;
        case NextIndexId => cat.nextIndexId := n;
        case LocalColumn =>
          if !haveConstraint { return false; }
          constraint := constraint.(columns := constraint.columns + [n]);
        case RefColumn =>
          if !haveConstraint { return false; }
          constraint := constraint.(refColumns := constraint.refColumns + [n]);
        case IndexColumn =>
          if !haveIndex { return false; }
          index := index.(columns := index.columns + [n]);
      }
    }

    method ReadTable(tok: seq<string>, line: string) returns (ok: bool)
      modifies this, cat
      ensures ok == TableStep(old(View()), tok, line).Some? && (ok ==> View() == TableStep(old(View()), tok, line).value)
    {
      hide U32Of, FlushTable;
      if |tok| < 3 {
        return false;
      }
      var id := ParseU32(tok[1]);
      if id.None? {
        return false;
      }
      FlushPendingTable();
      var name := RestAfterFields(line, 2);
      current, haveTable := TableInfo(name, id.value, [], []), true;
      return true;
    }

    method ReadColumn(tok: seq<string>, line: string) returns (ok: bool)
      modifies this, cat
      ensures ok == ColumnStep(old(View()), tok, line).Some? && (ok ==> View() == ColumnStep(old(View()), tok, line).value)
    {
      hide U32Of, FlushConstraint, FindType;
      if !haveTable || |tok| < 6 {
        return false;
      }
      var id := ParseU32(tok[1]);
      var t := TypeOfToken(tok[2]);
      if id.None? || t.None? || (tok[3] != "null" && tok[3] != "notnull") || (tok[4] != "default" && tok[4] != "nodefault") {
        return false;
      }
      FlushPendingConstraint();
      var name := RestAfterFields(line, 5);
      current := current.(columns := current.columns + [ColumnInfo(name, t.value, tok[3] == "null", tok[4] == "default", id.value, "")]);
      return true;
    }

    method ReadDefault(line: string) returns (ok: bool)
      modifies this
      ensures ok == DefaultStep(old(View()), line).Some? && (ok ==> View() == DefaultStep(old(View()), line).value)
    {
      if !haveTable || current.columns == [] {
        return false;
      }
      var expr := RestAfterFields(line, 1);
      var n := |current.columns| - 1;
      current := current.(columns := current.columns[n := current.columns[n].(defaultExpr := expr)]);
      return true;
    }

    method ReadConstraint(tok: seq<string>) returns (ok: bool)
      modifies this
      ensures ok == ConstraintStep(old(View()), tok).Some? && (ok ==> View() == ConstraintStep(old(View()), tok).value)
    {
      if !haveTable || |tok| != 2 || KindOfToken(tok[1]).None? {
        return false;
      }
      FlushPendingConstraint();
      constraint, haveConstraint := NO_CONSTRAINT.(kind := KindOfToken(tok[1]).value), true;
      return true;
    }

    method ReadText(r: Record, line: string) returns (ok: bool)
      requires r.NameRecord? || r.RefTable? || r.ExprRecord? || r.IndexName? || r.IndexTable?
      modifies this
      ensures ok == TextStep(old(View()), r, line).Some? && (ok ==> View() == TextStep(old(View()), r, line).value)
    {
      hide RestAfter;
      var text := RestAfterFields(line, 1);
      ok := if r.IndexName? || r.IndexTable? then haveIndex else haveConstraint;
      if ok {
        match r {
          case NameRecord => constraint := constraint.(name := text);
          case RefTable => constraint := constraint.(refTable := text);
          case ExprRecord => constraint := constraint.(expr := text);
          case IndexName => index := index.(name := text);
          case IndexTable => index := index.(table := text);
        }
      }
    }

    method ReadIndex(tok: seq<string>) returns (ok: bool)
      modifies this, cat
      ensures ok == IndexStep(old(View()), tok).Some? && (ok ==> View() == IndexStep(old(View()), tok).value)
    {
      hide U32Of, FlushTable, FlushIndex;
      if |tok| != 3 {
        return false;
      }
      var id := ParseU32(tok[1]);
      if id.None? || (tok[2] != "unique" && tok[2] != "plain") {
        return false;
      }
      FlushPendingTable();
      FlushPendingIndex();
      index, haveIndex := NO_INDEX.(id := id.value, unique := tok[2] == "unique"), true;
      return true;
    }

    method ReadHeader(tok: seq<string>) returns (ok: bool)
      requires tok != []
      modifies this
      ensures ok == HeaderStep(old(View()), tok).Some? && (ok ==> View() == HeaderStep(old(View()), tok).value)
    {
      ok := tok[0] == "DB25CATALOG" && |tok| == 2 && (tok[1] == "1" || tok[1] == "2");
      if ok {
        headerSeen := true;
      }
    }

    /** One line of the snapshot; false where the reader reports an error. */
    method ReadLine(line: string) returns (ok: bool)
      modifies this, cat
      ensures ok == Step(old(View()), line).Some? && (ok ==> View() == Step(old(View()), line).value)
    {
      hide HeaderStep, NumberStep, TableStep, ColumnStep, DefaultStep, ConstraintStep, TextStep, IndexStep, FindRecord, SplitWs;
      var tok := SplitFields(line);
      if tok == [] {
        return true;
      }
      if !headerSeen {
        ok := ReadHeader(tok);
        return;
      }
      var r := RecordOf(tok[0]);
      if r.None? {
        return false;
      }
      match r.value {
        case VersionRecord | NextTableId | NextIndexId | LocalColumn | RefColumn | IndexColumn => ok := ReadNumber(r.value, tok);
        case TableRecord => ok := ReadTable(tok, line);
        case ColumnRecord => ok := ReadColumn(tok, line);
        case DefaultRecord => ok := ReadDefault(line);
        case ConstraintRecord => ok := ReadConstraint(tok);
        case NameRecord | RefTable | ExprRecord | IndexName | IndexTable => ok := ReadText(r.value, line);
        case IndexRecord => ok := ReadIndex(tok);
      }
    }
  }

  lemma SplitAt(text: string, pos: nat)
    requires pos <= |text|
    ensures var end := pos + FirstNewline(text[pos..]);
            SplitLines(text[pos..]) == if end == |text| then [text[pos..end]] else [text[pos..end]] + SplitLines(text[end + 1..])
  {
    hide FirstNewline;
    var i := FirstNewline(text[pos..]);
    assert text[pos..][..i] == text[pos..pos + i];
    if i < |text[pos..]| {
      assert text[pos..][i + 1..] == text[pos + i + 1..];
    } else {
      assert text[pos..][..i] == text[pos..];
    }
  }

  lemma ReadFirst(s: State, line: string, rest: seq<string>)
    ensures ReadLines(s, [line] + rest) ==
            match Step(s, line) { case None => None case Some(next) => ReadLines(next, rest) }
  {
    hide Step;
    assert ([line] + rest)[1..] == rest;
  }

  lemma ReadOne(s: State, line: string)
    ensures ReadLines(s, [line]) == Step(s, line)
  {
    hide Step;
    assert [line][1..] == [];
  }

  /** The reader's loop over the text. */
  method DeserializeCatalog(text: string) returns (catalog: InMemoryCatalog?)
    ensures catalog == null <==> Deserialized(text).None?
    ensures catalog != null ==> fresh(catalog) && Some(catalog.View()) == Deserialized(text)
  {
    hide ReadLines, Step, SplitLines, FirstNewline, FlushTable, FlushIndex;
    var reader := new SnapshotReader();
    var pos := 0;
    var last := false;
    assert text[0..] == text;
    while !last
      invariant fresh(reader) && fresh(reader.cat) && pos <= |text|
      invariant !last ==> ReadLines(reader.View(), SplitLines(text[pos..])) == ReadLines(START, SplitLines(text))
      invariant last ==> Some(reader.View()) == ReadLines(START, SplitLines(text))
      decreases if last then 0 else |text| - pos + 1
    {
      var end := FindNewline(text, pos);
      SplitAt(text, pos);
      last := end == |text|;
      if last {
        ReadOne(reader.View(), text[pos..end]);
      } else {
        ReadFirst(reader.View(), text[pos..end], SplitLines(text[end + 1..]));
      }
      var ok := reader.ReadLine(text[pos..end]);
      if !ok {
        return null;
      }
      pos := if last then end else end + 1;
    }
    FlushKeepsFlags(reader.View());
    FlushKeepsFlags(FlushTable(reader.View()));
    reader.FlushPendingTable();
    reader.FlushPendingIndex();
    if !reader.headerSeen || !reader.haveVersion || !reader.haveNextId {
      return null;
    }
    return reader.cat;
  }

  lemma FlushKeepsFlags(s: State)
    ensures FlushTable(s).headerSeen == s.headerSeen && FlushTable(s).haveVersion == s.haveVersion && FlushTable(s).haveNextId == s.haveNextId
    ensures FlushIndex(s).headerSeen == s.headerSeen && FlushIndex(s).haveVersion == s.haveVersion && FlushIndex(s).haveNextId == s.haveNextId
  {
  }
}
