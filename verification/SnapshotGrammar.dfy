/** Which texts the snapshot reader accepts: a grammar on lines, without the reader's state. */
module SnapshotGrammar {
  import opened Wrappers
  import opened Identifier
  import opened Numerals
  import opened Types
  import opened Catalogs
  import opened Lines
  import opened Snapshot
  import opened SnapshotStore
  import opened SnapshotTheorems

  // ----- Lines and the records they open -----

  predicate IsBlank(line: string) { SplitWs(line) == [] }

  /** The header is the first line that is not blank. */
  predicate IsHeaderAt(lines: seq<string>, i: nat) {
    i < |lines| && !IsBlank(lines[i]) && forall j :: 0 <= j < i ==> IsBlank(lines[j])
  }

  /** Line `i` opens the record `r`. */
  predicate Opens(lines: seq<string>, i: nat, r: Record) {
    i < |lines| && !IsBlank(lines[i]) && !IsHeaderAt(lines, i) && SplitWs(lines[i])[0] == Keyword(r)
  }

  predicate IsHeader(line: string) {
    var tok := SplitWs(line);
    |tok| == 2 && tok[0] == "DB25CATALOG" && (tok[1] == "1" || tok[1] == "2")
  }

  predicate IsNumber(tok: string) { U32Of(tok).Some? }

  /** The fields the record must have. */
  predicate FieldsOk(r: Record, tok: seq<string>) {
    match r
    case VersionRecord | NextTableId | NextIndexId | LocalColumn | RefColumn | IndexColumn => |tok| == 2 && IsNumber(tok[1])
    case TableRecord => |tok| >= 3 && IsNumber(tok[1])
    case ColumnRecord =>
      && |tok| >= 6 && IsNumber(tok[1]) && (exists t :: TypeToken(t) == tok[2])
      && (tok[3] == "null" || tok[3] == "notnull") && (tok[4] == "default" || tok[4] == "nodefault")
    case ConstraintRecord => |tok| == 2 && exists k :: KindToken(k) == tok[1]
    case IndexRecord => |tok| == 3 && IsNumber(tok[1]) && (tok[2] == "unique" || tok[2] == "plain")
    case DefaultRecord | NameRecord | RefTable | ExprRecord | IndexName | IndexTable => true
  }

  /** Before line `i` a record of this kind was begun, and none of `closers` since. */
  predicate OpenSince(lines: seq<string>, i: nat, r: Record, closers: set<Record>) {
    exists j: nat :: j < i && Opens(lines, j, r) && forall m: nat, c :: j < m < i && c in closers ==> !Opens(lines, m, c)
  }

  predicate InTable(lines: seq<string>, i: nat) { OpenSince(lines, i, TableRecord, {IndexRecord}) }
  predicate AfterColumn(lines: seq<string>, i: nat) { OpenSince(lines, i, ColumnRecord, {TableRecord, IndexRecord}) }
  predicate InConstraint(lines: seq<string>, i: nat) { OpenSince(lines, i, ConstraintRecord, {TableRecord, ColumnRecord, IndexRecord}) }
  predicate InIndex(lines: seq<string>, i: nat) { OpenSince(lines, i, IndexRecord, {}) }

  /** The record stands inside what it belongs to. */
  predicate PlaceOk(lines: seq<string>, i: nat, r: Record) {
    match r
    case ColumnRecord | ConstraintRecord => InTable(lines, i)
    case DefaultRecord => InTable(lines, i) && AfterColumn(lines, i)
    case NameRecord | LocalColumn | RefTable | RefColumn | ExprRecord => InConstraint(lines, i)
    case IndexName | IndexTable | IndexColumn => InIndex(lines, i)
    case _ => true
  }

  predicate LineOk(lines: seq<string>, i: nat)
    requires i < |lines|
  {
    || IsBlank(lines[i])
    || (if IsHeaderAt(lines, i) then IsHeader(lines[i])
        else exists r :: Opens(lines, i, r) && FieldsOk(r, SplitWs(lines[i])) && PlaceOk(lines, i, r))
  }

  ghost predicate Mentions(lines: seq<string>, r: Record) {
    exists i: nat :: Opens(lines, i, r)
  }

  /** A snapshot: every line is in order, and the version and the next table id are given. */
  ghost predicate IsSnapshot(lines: seq<string>) {
    (forall i :: 0 <= i < |lines| ==> LineOk(lines, i)) && Mentions(lines, VersionRecord) && Mentions(lines, NextTableId)
  }

  // ----- The reader's flags -----

  /** The flags say where the reader stands after `i` lines. */
  ghost predicate Tracks(s: State, lines: seq<string>, i: nat) {
    && (s.headerSeen <==> exists j :: 0 <= j < i && j < |lines| && !IsBlank(lines[j]))
    && (s.haveVersion <==> exists j: nat :: j < i && Opens(lines, j, VersionRecord))
    && (s.haveNextId <==> exists j: nat :: j < i && Opens(lines, j, NextTableId))
    && (s.haveTable <==> InTable(lines, i)) && (s.haveConstraint <==> InConstraint(lines, i)) && (s.haveIndex <==> InIndex(lines, i))
    && (s.haveTable ==> (s.current.columns != [] <==> AfterColumn(lines, i)))
  }

  /** What the reader's state must hold for the record. */
  predicate Ready(s: State, r: Record) {
    match r
    case ColumnRecord | ConstraintRecord => s.haveTable
    case DefaultRecord => s.haveTable && s.current.columns != []
    case NameRecord | LocalColumn | RefTable | RefColumn | ExprRecord => s.haveConstraint
    case IndexName | IndexTable | IndexColumn => s.haveIndex
    case _ => true
  }

  lemma TypeTokens(tok: string)
    ensures TypeOfToken(tok).Some? <==> (exists t :: TypeToken(t) == tok)
  {
    hide FindType, TypeToken;
    if t :| TypeToken(t) == tok {
      TypeOfItsToken(t);
    }
  }

  lemma KindTokens(tok: string)
    ensures KindOfToken(tok).Some? <==> (exists k :: KindToken(k) == tok)
  {
    if k :| KindToken(k) == tok {
      KindOfItsToken(k);
    }
    if KindOfToken(tok).Some? {
      assert KindToken(KindOfToken(tok).value) == tok;
    }
  }

  lemma RecordAccepted(s: State, r: Record, tok: seq<string>, line: string)
    ensures RecordStep(s, r, tok, line).Some? <==> FieldsOk(r, tok) && Ready(s, r)
  {
    hide U32Of, RestAfter, FindType, TypeOfToken, KindOfToken, FlushTable, FlushIndex, FlushConstraint;
    if r.ColumnRecord? && |tok| > 2 {
      TypeTokens(tok[2]);
    }
    if r.ConstraintRecord? && |tok| > 1 {
      KindTokens(tok[1]);
    }
  }

  /** What one record does to the flags. */
  predicate Moves(s: State, r: Record, n: State) {
    && n.headerSeen == s.headerSeen
    && n.haveVersion == (s.haveVersion || r.VersionRecord?) && n.haveNextId == (s.haveNextId || r.NextTableId?)
    && n.haveTable == (r.TableRecord? || (s.haveTable && !r.IndexRecord?))
    && n.haveConstraint == (r.ConstraintRecord? || (s.haveConstraint && !r.TableRecord? && !r.ColumnRecord? && !r.IndexRecord?))
    && n.haveIndex == (s.haveIndex || r.IndexRecord?)
    && (n.haveTable ==> (n.current.columns == []) == (r.TableRecord? || (!r.ColumnRecord? && s.current.columns == [])))
  }

  lemma NumberMoves(s: State, r: Record, tok: seq<string>)
    requires r.VersionRecord? || r.NextTableId? || r.NextIndexId? || r.LocalColumn? || r.RefColumn? || r.IndexColumn?
    requires NumberStep(s, r, tok).Some?
    ensures Moves(s, r, NumberStep(s, r, tok).value)
  {
    hide U32Of;
  }

  lemma TextMoves(s: State, r: Record, line: string)
    requires r.NameRecord? || r.RefTable? || r.ExprRecord? || r.IndexName? || r.IndexTable?
    requires TextStep(s, r, line).Some?
    ensures Moves(s, r, TextStep(s, r, line).value)
  {
    hide RestAfter;
  }

  lemma RecordMoves(s: State, r: Record, tok: seq<string>, line: string)
    requires RecordStep(s, r, tok, line).Some?
    ensures Moves(s, r, RecordStep(s, r, tok, line).value)
  {
    hide U32Of, RestAfter, FindType, TypeOfToken, KindOfToken, Fold, NumberStep, TextStep;
    match r
    case VersionRecord | NextTableId | NextIndexId | LocalColumn | RefColumn | IndexColumn => NumberMoves(s, r, tok);
    case NameRecord | RefTable | ExprRecord | IndexName | IndexTable => TextMoves(s, r, line);
    case _ =>
  }

  // ----- Positions, one line further -----

  /** After a line that opens `begun` (or nothing). */
  lemma OpenSinceStep(lines: seq<string>, i: nat, r: Record, closers: set<Record>, begun: Option<Record>)
    requires r !in closers && forall q :: Opens(lines, i, q) <==> begun == Some(q)
    ensures OpenSince(lines, i + 1, r, closers) <==> begun == Some(r) || (OpenSince(lines, i, r, closers) && (begun.None? || begun.value !in closers))
  {
    hide Opens;
    if OpenSince(lines, i + 1, r, closers) && begun != Some(r) {
      var j: nat :| j < i + 1 && Opens(lines, j, r) && forall m: nat, c :: j < m < i + 1 && c in closers ==> !Opens(lines, m, c);
      assert j < i;
      assert forall m: nat, c :: j < m < i && c in closers ==> !Opens(lines, m, c);
      if begun.Some? {
        assert Opens(lines, i, begun.value);
      }
    }
    if begun == Some(r) {
      assert Opens(lines, i, r);
    }
    if OpenSince(lines, i, r, closers) && (begun.None? || begun.value !in closers) {
      var j: nat :| j < i && Opens(lines, j, r) && forall m: nat, c :: j < m < i && c in closers ==> !Opens(lines, m, c);
      forall m: nat, c | j < m < i + 1 && c in closers ensures !Opens(lines, m, c) {
      }
    }
  }

  lemma MentionStep(lines: seq<string>, i: nat, r: Record, begun: Option<Record>)
    requires forall q :: Opens(lines, i, q) <==> begun == Some(q)
    ensures (exists j: nat :: j < i + 1 && Opens(lines, j, r)) <==> (begun == Some(r) || exists j: nat :: j < i && Opens(lines, j, r))
  {
    hide Opens;
    if begun == Some(r) {
      assert Opens(lines, i, r);
    }
  }

  lemma HeaderStepAt(lines: seq<string>, i: nat)
    requires i < |lines|
    ensures (exists j :: 0 <= j < i + 1 && j < |lines| && !IsBlank(lines[j])) <==>
            (!IsBlank(lines[i]) || exists j :: 0 <= j < i && j < |lines| && !IsBlank(lines[j]))
    ensures IsHeaderAt(lines, i) <==> !IsBlank(lines[i]) && !exists j :: 0 <= j < i && j < |lines| && !IsBlank(lines[j])
  {
    hide IsBlank;
  }

  /** The flags follow the positions over one line. */
  lemma TracksStep(s: State, t: State, lines: seq<string>, i: nat, begun: Option<Record>)
    requires Tracks(s, lines, i) && i < |lines| && forall q :: Opens(lines, i, q) <==> begun == Some(q)
    requires t.headerSeen == (s.headerSeen || !IsBlank(lines[i]))
    requires t.haveVersion == (s.haveVersion || begun == Some(VersionRecord)) && t.haveNextId == (s.haveNextId || begun == Some(NextTableId))
    requires t.haveTable == (if begun == Some(TableRecord) then true else if begun == Some(IndexRecord) then false else s.haveTable)
    requires t.haveConstraint == (if begun == Some(ConstraintRecord) then true
                                  else if begun == Some(TableRecord) || begun == Some(ColumnRecord) || begun == Some(IndexRecord) then false else s.haveConstraint)
    requires t.haveIndex == (s.haveIndex || begun == Some(IndexRecord))
    requires t.haveTable ==> (t.current.columns != [] <==> (if begun == Some(TableRecord) then false else begun == Some(ColumnRecord) || s.current.columns != []))
    ensures Tracks(t, lines, i + 1)
  {
    hide Opens, OpenSince, IsBlank;
    HeaderStepAt(lines, i);
    MentionStep(lines, i, VersionRecord, begun);
    MentionStep(lines, i, NextTableId, begun);
    OpenSinceStep(lines, i, TableRecord, {IndexRecord}, begun);
    OpenSinceStep(lines, i, ColumnRecord, {TableRecord, IndexRecord}, begun);
    OpenSinceStep(lines, i, ConstraintRecord, {TableRecord, ColumnRecord, IndexRecord}, begun);
    OpenSinceStep(lines, i, IndexRecord, {}, begun);
  }

  // ----- The theorem -----

  lemma StepAtBlank(s: State, lines: seq<string>, i: nat)
    requires Tracks(s, lines, i) && i < |lines| && IsBlank(lines[i])
    ensures Step(s, lines[i]) == Some(s) && Tracks(s, lines, i + 1)
  {
    hide Tracks, SplitWs, Keyword;
    TracksStep(s, s, lines, i, None);
  }

  lemma StepAtHeader(s: State, lines: seq<string>, i: nat)
    requires Tracks(s, lines, i) && i < |lines| && IsHeaderAt(lines, i)
    ensures Step(s, lines[i]).Some? <==> LineOk(lines, i)
    ensures Step(s, lines[i]).Some? ==> Tracks(Step(s, lines[i]).value, lines, i + 1)
  {
    hide SplitWs, Keyword, OpenSince, FieldsOk, PlaceOk;
    HeaderStepAt(lines, i);
    if Step(s, lines[i]).Some? {
      TracksStep(s, Step(s, lines[i]).value, lines, i, None);
    }
  }

  lemma OpensRecord(lines: seq<string>, i: nat)
    requires i < |lines| && !IsBlank(lines[i]) && !IsHeaderAt(lines, i)
    ensures forall q :: Opens(lines, i, q) <==> RecordOf(SplitWs(lines[i])[0]) == Some(q)
  {
    hide SplitWs, FindRecord, Keyword;
    var tok := SplitWs(lines[i])[0];
    forall q ensures Opens(lines, i, q) <==> RecordOf(tok) == Some(q) {
      RecordOfKeyword(q);
    }
  }

  lemma ReadyIsPlaced(s: State, lines: seq<string>, i: nat, r: Record)
    requires Tracks(s, lines, i)
    ensures Ready(s, r) <==> PlaceOk(lines, i, r)
  {
    hide OpenSince, Opens, IsBlank;
  }

  lemma StepAtRecord(s: State, lines: seq<string>, i: nat)
    requires Tracks(s, lines, i) && i < |lines| && !IsBlank(lines[i]) && !IsHeaderAt(lines, i)
    ensures Step(s, lines[i]).Some? <==> LineOk(lines, i)
    ensures Step(s, lines[i]).Some? ==> Tracks(Step(s, lines[i]).value, lines, i + 1)
  {
    hide Tracks, SplitWs, FindRecord, RecordOf, Opens, FieldsOk, PlaceOk, RecordStep, Ready, IsHeaderAt;
    OpensRecord(lines, i);
    HeaderStepAt(lines, i);
    SeenHeader(s, lines, i);
    var tok := SplitWs(lines[i]);
    var r := RecordOf(tok[0]);
    if r.Some? {
      assert Opens(lines, i, r.value);
      RecordAccepted(s, r.value, tok, lines[i]);
      ReadyIsPlaced(s, lines, i, r.value);
      if Step(s, lines[i]).Some? {
        RecordMoves(s, r.value, tok, lines[i]);
        TracksStep(s, Step(s, lines[i]).value, lines, i, r);
      }
    }
  }

  lemma SeenHeader(s: State, lines: seq<string>, i: nat)
    requires Tracks(s, lines, i) && i < |lines| && !IsBlank(lines[i]) && !IsHeaderAt(lines, i)
    ensures s.headerSeen
  {
    hide IsBlank, OpenSince, Opens;
    HeaderStepAt(lines, i);
  }

  lemma StartTracks(lines: seq<string>)
    ensures Tracks(START, lines, 0)
  {
  }

  lemma {:induction false} LinesAccepted(lines: seq<string>, i: nat)
    requires i <= |lines|
    ensures ReadLines(START, lines[..i]).Some? <==> forall j :: 0 <= j < i ==> LineOk(lines, j)
    ensures ReadLines(START, lines[..i]).Some? ==> Tracks(ReadLines(START, lines[..i]).value, lines, i)
  {
    hide Step, Tracks, LineOk, IsBlank, IsHeaderAt;
    if i == 0 {
      StartTracks(lines);
    } else {
      LinesAccepted(lines, i - 1);
      var front := lines[..i - 1];
      assert lines[..i] == front + [lines[i - 1]];
      ReadAppend(START, front, [lines[i - 1]]);
      if ReadLines(START, front).Some? {
        var s := ReadLines(START, front).value;
        ReadOne(s, lines[i - 1]);
        if IsBlank(lines[i - 1]) {
          StepAtBlank(s, lines, i - 1);
          BlankIsOk(lines, i - 1);
        } else if IsHeaderAt(lines, i - 1) {
          StepAtHeader(s, lines, i - 1);
        } else {
          StepAtRecord(s, lines, i - 1);
        }
      }
    }
  }

  lemma BlankIsOk(lines: seq<string>, i: nat)
    requires i < |lines| && IsBlank(lines[i])
    ensures LineOk(lines, i)
  {
  }

  /** The reader accepts exactly the snapshots. */
  lemma AcceptanceIsExact(text: string)
    ensures Deserialized(text).Some? <==> IsSnapshot(SplitLines(text))
  {
    hide ReadLines, SplitLines, LineOk, IsBlank, OpenSince, Opens, FlushTable, FlushIndex;
    var lines := SplitLines(text);
    LinesAccepted(lines, |lines|);
    assert lines[..|lines|] == lines;
    if ReadLines(START, lines).Some? {
      MentionedWithin(lines, VersionRecord);
      MentionedWithin(lines, NextTableId);
      VersionNeedsHeader(ReadLines(START, lines).value, lines);
    }
  }

  lemma MentionedWithin(lines: seq<string>, r: Record)
    ensures Mentions(lines, r) <==> exists j: nat :: j < |lines| && Opens(lines, j, r)
  {
    hide IsBlank, IsHeaderAt, SplitWs, Keyword;
  }

  lemma VersionNeedsHeader(s: State, lines: seq<string>)
    requires Tracks(s, lines, |lines|)
    ensures s.haveVersion ==> s.headerSeen
  {
    hide OpenSince, SplitWs, Keyword;
  }
}
