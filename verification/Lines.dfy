/** Lines and space-separated fields, as the snapshot reader takes text apart. */
module Lines {
  import opened Wrappers

  const NEWLINE: char := '\n'

  // ----- Fields -----

  function DropSpaces(s: string): (r: string)
    ensures |r| <= |s|
  {
    if s != [] && s[0] == ' ' then DropSpaces(s[1..]) else s
  }

  /** The leading run of characters that are not spaces. */
  function Word(s: string): (r: string)
    ensures |r| <= |s|
  {
    if s == [] || s[0] == ' ' then [] else [s[0]] + Word(s[1..])
  }

  /** What is dropped is all spaces and what is left opens with none. */
  lemma {:induction false} DroppedShape(s: string)
    ensures var r := DropSpaces(s);
            && (r == [] || r[0] != ' ') && r == s[|s| - |r|..]
            && forall i :: 0 <= i < |s| - |r| ==> s[i] == ' '
  {
    if s != [] && s[0] == ' ' {
      DroppedShape(s[1..]);
    }
  }

  /** The word is a prefix without spaces, and as long as possible. */
  lemma {:induction false} WordShape(s: string)
    ensures var r := Word(s);
            && r == s[..|r|] && (forall c <- r :: c != ' ') && (|r| < |s| ==> s[|r|] == ' ')
            && (s != [] && s[0] != ' ' ==> r != [])
  {
    if s != [] && s[0] != ' ' {
      WordShape(s[1..]);
    }
  }

  function AfterWord(s: string): (r: string)
    ensures DropSpaces(s) != [] ==> |r| < |s|
  {
    var t := DropSpaces(s);
    t[|Word(t)|..]
  }

  function SplitWs(line: string): seq<string>
    decreases |line|
  {
    if DropSpaces(line) == [] then []
    else [Word(DropSpaces(line))] + SplitWs(AfterWord(line))
  }

  /** Everything after the k-th field, without the spaces before it. */
  function RestAfter(line: string, k: nat): string
    decreases k
  {
    if k == 0 || DropSpaces(line) == [] then DropSpaces(line) else RestAfter(AfterWord(line), k - 1)
  }

  // ----- The loops -----

  method SkipSpaces(line: string, from: nat) returns (i: nat)
    requires from <= |line|
    ensures from <= i <= |line| && line[i..] == DropSpaces(line[from..])
  {
    i := from;
    while i < |line| && line[i] == ' '
      invariant from <= i <= |line| && DropSpaces(line[i..]) == DropSpaces(line[from..])
    {
      assert line[i..][1..] == line[i + 1..];
      i := i + 1;
    }
  }

  lemma WordLength(s: string)
    requires s != [] && s[0] != ' '
    ensures |Word(s)| == 1 + |Word(s[1..])|
  {
  }

  method SkipWord(line: string, from: nat) returns (i: nat)
    requires from <= |line|
    ensures from <= i <= |line| && i - from == |Word(line[from..])|
  {
    hide Word;
    i := from;
    while i < |line| && line[i] != ' '
      invariant from <= i <= |line| && (i - from) + |Word(line[i..])| == |Word(line[from..])|
    {
      WordLength(line[i..]);
      assert line[i..][1..] == line[i + 1..];
      i := i + 1;
    }
    NoWord(line[i..]);
  }

  lemma NoWord(s: string)
    requires s == [] || s[0] == ' '
    ensures Word(s) == []
  {
  }

  /** One field read from position `i`: it starts at `start` and ends before `end`. */
  lemma FieldAt(line: string, i: nat, start: nat, end: nat)
    requires i <= start <= end <= |line|
    requires line[start..] == DropSpaces(line[i..]) && end - start == |Word(line[start..])|
    ensures AfterWord(line[i..]) == line[end..]
    ensures DropSpaces(line[i..]) != [] ==> end > start
    ensures end == start ==> DropSpaces(line[i..]) == [] && start == |line|
    ensures Word(DropSpaces(line[i..])) == line[start..end]
  {
    hide Word, DropSpaces;
    var t := line[start..];
    DroppedShape(line[i..]);
    WordShape(t);
    assert t[end - start..] == line[end..];
    assert t[..end - start] == line[start..end];
  }

  lemma SplitStep(s: string)
    ensures SplitWs(s) == if DropSpaces(s) == [] then [] else [Word(DropSpaces(s))] + SplitWs(AfterWord(s))
  {
  }

  /** The next field from position `i` on, or an empty one at the end of the line. */
  method NextField(line: string, i: nat) returns (start: nat, end: nat)
    requires i <= |line|
    ensures i <= start <= end <= |line| && (start == end ==> end == |line|)
    ensures DropSpaces(line[i..]) == [] <==> start == end
    ensures Word(DropSpaces(line[i..])) == line[start..end] && AfterWord(line[i..]) == line[end..]
  {
    hide DropSpaces, Word, AfterWord;
    start := SkipSpaces(line, i);
    end := SkipWord(line, start);
    FieldAt(line, i, start, end);
  }

  method SplitFields(line: string) returns (out: seq<string>)
    ensures out == SplitWs(line)
  {
    hide SplitWs, DropSpaces, Word, AfterWord;
    out := [];
    var i := 0;
    assert line[0..] == line;
    while i < |line|
      invariant i <= |line| && out + SplitWs(line[i..]) == SplitWs(line)
      decreases |line| - i
    {
      SplitStep(line[i..]);
      var start, end := NextField(line, i);
      if end > start {
        out := out + [line[start..end]];
      } else {
        NothingLeft(line);
      }
      i := end;
    }
    NothingLeft(line);
  }

  lemma NothingLeft(line: string)
    ensures SplitWs(line[|line|..]) == [] && DropSpaces(line[|line|..]) == [] && line[|line|..] == []
  {
  }

  lemma RestStep(s: string, k: nat)
    requires k > 0
    ensures RestAfter(s, k) == if DropSpaces(s) == [] then [] else RestAfter(AfterWord(s), k - 1)
  {
  }

  lemma RestOfNothing(line: string, k: nat)
    ensures RestAfter(line[|line|..], k) == []
  {
  }

  method RestAfterFields(line: string, k: nat) returns (rest: string)
    ensures rest == RestAfter(line, k)
  {
    hide RestAfter, DropSpaces, Word, AfterWord;
    var i, fields := 0, 0;
    assert line[0..] == line;
    while i < |line| && fields < k
      invariant i <= |line| && fields <= k && RestAfter(line[i..], k - fields) == RestAfter(line, k)
      decreases |line| - i
    {
      RestStep(line[i..], k - fields);
      var start, end := NextField(line, i);
      if end > start {
        fields := fields + 1;
      } else {
        RestOfNothing(line, k - fields);
      }
      i := end;
    }
    if fields < k {
      RestOfNothing(line, k - fields);
    }
    RestNow(line[i..]);
    NothingLeft(line);
    i := SkipSpaces(line, i);
    rest := line[i..];
  }

  lemma RestNow(s: string)
    ensures RestAfter(s, 0) == DropSpaces(s)
  {
  }

  // ----- Writing fields and reading them back -----

  predicate IsWord(w: string) {
    w != [] && forall c <- w :: c != ' '
  }

  function Field(w: string, rest: string): string {
    w + " " + rest
  }

  /** Free text that a reader gives back unchanged: nothing in it ends a line, and it does not
      open with a space. */
  predicate IsText(s: string) {
    NEWLINE !in s && (s == [] || s[0] != ' ')
  }

  lemma {:induction false} WordOf(w: string, rest: string)
    requires forall c <- w :: c != ' '
    ensures Word(w + rest) == w + Word(rest)
  {
    if w == [] {
      assert w + rest == rest;
    } else {
      assert w == [w[0]] + w[1..] && w[0] in w;
      forall c | c in w[1..] ensures c != ' ' {
        assert c in w;
      }
      assert (w + rest)[1..] == w[1..] + rest;
      WordOf(w[1..], rest);
    }
  }

  lemma FieldParts(w: string, rest: string)
    requires IsWord(w)
    ensures DropSpaces(Field(w, rest)) == Field(w, rest) != []
    ensures Word(Field(w, rest)) == w && AfterWord(Field(w, rest)) == " " + rest
  {
    assert Field(w, rest) == w + (" " + rest);
    WordOf(w, " " + rest);
    NoWord(" " + rest);
    assert w + [] == w;
  }

  lemma DropFirst(rest: string)
    ensures DropSpaces(" " + rest) == DropSpaces(rest)
  {
    assert (" " + rest)[1..] == rest;
  }

  lemma ReadField(w: string, rest: string)
    requires IsWord(w)
    ensures SplitWs(Field(w, rest)) == [w] + SplitWs(rest)
    ensures forall k: nat :: k > 0 ==> RestAfter(Field(w, rest), k) == RestAfter(rest, k - 1)
  {
    hide SplitWs, DropSpaces, Word, AfterWord, RestAfter, Field;
    FieldParts(w, rest);
    SplitStep(Field(w, rest));
    SpacesFirst(rest);
    forall k: nat | k > 0 ensures RestAfter(Field(w, rest), k) == RestAfter(rest, k - 1) {
      RestStep(Field(w, rest), k);
    }
  }

  lemma SpacesFirst(rest: string)
    ensures SplitWs(" " + rest) == SplitWs(rest)
    ensures forall k: nat :: RestAfter(" " + rest, k) == RestAfter(rest, k)
  {
    hide DropSpaces, Word;
    DropFirst(rest);
    assert AfterWord(" " + rest) == AfterWord(rest);
  }

  lemma ReadLast(w: string)
    requires IsWord(w)
    ensures SplitWs(w) == [w]
  {
    WordOf(w, "");
    assert w + "" == w;
    assert w[|w|..] == "";
  }

  lemma ReadText(s: string)
    requires IsText(s)
    ensures RestAfter(s, 0) == s && (s != [] ==> SplitWs(s) != [])
  {
    hide Word, AfterWord;
  }

  lemma AfterWordWithin(line: string)
    requires NEWLINE !in line
    ensures NEWLINE !in AfterWord(line) && NEWLINE !in DropSpaces(line)
  {
  }

  /** Whatever is read as free text is text, on a line without a newline. */
  lemma {:induction false} RestIsText(line: string, k: nat)
    requires NEWLINE !in line
    ensures IsText(RestAfter(line, k))
    ensures |SplitWs(line)| > k ==> RestAfter(line, k) != []
    decreases k
  {
    hide Word, AfterWord;
    AfterWordWithin(line);
    DroppedShape(line);
    if k > 0 && DropSpaces(line) != [] {
      RestIsText(AfterWord(line), k - 1);
    }
  }

  // ----- Lines -----

  function FirstNewline(s: string): (r: nat)
    ensures r <= |s| && NEWLINE !in s[..r] && (r < |s| ==> s[r] == NEWLINE)
  {
    if s == [] || s[0] == NEWLINE then 0
    else
      var r := 1 + FirstNewline(s[1..]);
      assert s[..r] == [s[0]] + s[1..][..r - 1];
      r
  }

  method FindNewline(text: string, from: nat) returns (i: nat)
    requires from <= |text|
    ensures i == from + FirstNewline(text[from..]) && i <= |text|
  {
    i := from;
    while i < |text| && text[i] != NEWLINE
      invariant from <= i <= |text| && i + FirstNewline(text[i..]) == from + FirstNewline(text[from..])
    {
      assert text[i..][1..] == text[i + 1..];
      i := i + 1;
    }
  }

  /** The pieces between newlines; a text that ends with a newline ends with an empty piece. */
  function SplitLines(text: string): (r: seq<string>)
    ensures r != [] && forall l <- r :: NEWLINE !in l
    decreases |text|
  {
    var i := FirstNewline(text);
    if i == |text| then [text] else [text[..i]] + SplitLines(text[i + 1..])
  }

  function Unlines(lines: seq<string>): string {
    if lines == [] then "" else Unlines(lines[..|lines| - 1]) + lines[|lines| - 1] + [NEWLINE]
  }

  lemma {:induction false} UnlinesAppend(a: seq<string>, b: seq<string>)
    ensures Unlines(a + b) == Unlines(a) + Unlines(b)
  {
    if b == [] {
      assert a + b == a;
    } else {
      assert (a + b)[..|a + b| - 1] == a + b[..|b| - 1];
      UnlinesAppend(a, b[..|b| - 1]);
    }
  }

  lemma {:induction false} FirstNewlineIs(a: string, b: string)
    requires NEWLINE !in a
    ensures FirstNewline(a + [NEWLINE] + b) == |a|
  {
    if a != [] {
      assert (a + [NEWLINE] + b)[1..] == a[1..] + [NEWLINE] + b;
      FirstNewlineIs(a[1..], b);
    }
  }

  lemma SplitFirst(a: string, b: string)
    requires NEWLINE !in a
    ensures SplitLines(a + [NEWLINE] + b) == [a] + SplitLines(b)
  {
    FirstNewlineIs(a, b);
    var text := a + [NEWLINE] + b;
    assert text[..|a|] == a && text[|a| + 1..] == b;
  }

  lemma {:induction false} SplitUnlines(lines: seq<string>)
    requires forall l <- lines :: NEWLINE !in l
    ensures SplitLines(Unlines(lines)) == lines + [""]
    decreases |lines|
  {
    hide SplitLines;
    if lines == [] {
      SplitNothing();
    } else {
      var first, rest := lines[0], lines[1..];
      assert lines == [first] + rest;
      UnlinesAppend([first], rest);
      assert [first][..0] == [];
      assert Unlines([first]) == first + [NEWLINE];
      SplitUnlines(rest);
      SplitFirst(first, Unlines(rest));
    }
  }

  lemma SplitNothing()
    ensures SplitLines("") == [""]
  {
  }
}
