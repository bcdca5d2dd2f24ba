/** Lines and line breaks of text files, as Python reads, splits and writes them. */
module VersionLines {
  import opened Text

  /** The characters `str.splitlines` ends a line at. */
  predicate IsBreak(c: char) {
    || '\U{A}' <= c <= '\U{D}' || '\U{1C}' <= c <= '\U{1E}'
    || c == '\U{85}' || c == '\U{2028}' || c == '\U{2029}'
  }

  /** The characters one by one: line feed, vertical tab, form feed, carriage return, the separators, and three of Unicode. */
  lemma BreaksAre(c: char)
    ensures IsBreak(c) <==> c in "\n\U{B}\U{C}\r\U{1C}\U{1D}\U{1E}\U{85}\U{2028}\U{2029}"
  {}

  /** `read_text`: every carriage return, with the line feed after it if there is one, reads as a line feed. */
  function ReadText(raw: string): string {
    if raw == "" then ""
    else if raw[0] == '\r' then ['\n'] + ReadText(if |raw| > 1 && raw[1] == '\n' then raw[2..] else raw[1..])
    else [raw[0]] + ReadText(raw[1..])
  }

  /** Each of the three line ends reads as one line feed. */
  lemma LineEndsRead(rest: string)
    ensures ReadText("\n" + rest) == "\n" + ReadText(rest) && ReadText("\r\n" + rest) == "\n" + ReadText(rest)
    ensures rest == "" || rest[0] != '\n' ==> ReadText("\r" + rest) == "\n" + ReadText(rest)
    ensures forall c | c != '\r' :: ReadText([c] + rest) == [c] + ReadText(rest)
  {
    assert ("\n" + rest)[1..] == rest && ("\r\n" + rest)[2..] == rest && ("\r" + rest)[1..] == rest;
    forall c | c != '\r'
      ensures ReadText([c] + rest) == [c] + ReadText(rest)
    {
      assert ([c] + rest)[1..] == rest;
    }
  }

  lemma {:induction false} ReadingTwice(raw: string)
    ensures '\r' !in ReadText(raw)
    ensures ReadText(raw) == raw <==> '\r' !in raw
    decreases |raw|
  {
    if raw != "" {
      ReadingTwice(raw[1..]);
      if |raw| > 1 {
        ReadingTwice(raw[2..]);
      }
      assert raw == [raw[0]] + raw[1..];
      assert ReadText(raw)[1..] == if raw[0] != '\r' then ReadText(raw[1..]) else
                                   ReadText(if |raw| > 1 && raw[1] == '\n' then raw[2..] else raw[1..]);
    }
  }

  /** The length of the first line, its break included. */
  function LineLength(s: string): (n: nat)
    ensures n <= |s| && (s != "" ==> n > 0)
    ensures forall k | 0 <= k < n - 1 :: !IsBreak(s[k])
    ensures n < |s| ==> IsBreak(s[n - 1])
  {
    if s == "" then 0 else if IsBreak(s[0]) then 1 else 1 + LineLength(s[1..])
  }

  /** `splitlines(keepends=True)` of a text without carriage returns. */
  function SplitLines(s: string): seq<string>
    decreases |s|
  {
    if s == "" then [] else [s[..LineLength(s)]] + SplitLines(s[LineLength(s)..])
  }

  function JoinLines(lines: seq<string>): string {
    if lines == [] then "" else lines[0] + JoinLines(lines[1..])
  }

  /** Something, with no break before its last character. */
  ghost predicate IsLine(line: string) {
    line != "" && forall k | 0 <= k < |line| - 1 :: !IsBreak(line[k])
  }

  ghost predicate Terminated(line: string) {
    line != "" && IsBreak(line[|line| - 1])
  }

  /** Lines as a text has them: all but the last end in a break. */
  ghost predicate AreLines(lines: seq<string>) {
    && (forall k | 0 <= k < |lines| :: IsLine(lines[k]))
    && (forall k | 0 <= k < |lines| - 1 :: Terminated(lines[k]))
  }

  lemma {:induction false} SplittingGivesLines(s: string)
    ensures AreLines(SplitLines(s)) && JoinLines(SplitLines(s)) == s
    decreases |s|
  {
    hide SplitLines, AreLines;
    NothingSplits();
    if s != "" {
      var line, rest := FirstCut(s);
      SplittingGivesLines(rest);
      SplitOneLine(line, rest);
      ConsLines(line, SplitLines(rest));
    } else {
      NoLines();
    }
  }

  lemma NoLines()
    ensures AreLines([])
  {}

  lemma ConsLines(line: string, rest: seq<string>)
    requires IsLine(line) && AreLines(rest) && (rest != [] ==> Terminated(line))
    ensures AreLines([line] + rest) && JoinLines([line] + rest) == line + JoinLines(rest)
  {
    assert ([line] + rest)[1..] == rest;
  }

  lemma FirstLineOf(line: string, rest: string)
    requires IsLine(line) && (rest == "" || Terminated(line))
    ensures line != "" && LineLength(line + rest) == |line|
  {
    var s := line + rest;
    assert forall k | 0 <= k < |line| :: s[k] == line[k];
    if rest == "" {
      assert s == line;
    }
  }

  lemma SplitOneLine(line: string, rest: string)
    requires IsLine(line) && (rest == "" || Terminated(line))
    ensures SplitLines(line + rest) == [line] + SplitLines(rest)
  {
    hide IsLine, Terminated;
    FirstLineOf(line, rest);
    var s := line + rest;
    assert s[..|line|] == line && s[|line|..] == rest;
  }

  /** Cuts the first line off a text. */
  lemma FirstCut(s: string) returns (line: string, rest: string)
    requires s != ""
    ensures s == line + rest && |rest| < |s| && IsLine(line) && (rest == "" || Terminated(line))
    ensures rest != "" ==> (Terminated(rest) <==> Terminated(s))
  {
    hide IsBreak;
    var n := LineLength(s);
    line, rest := s[..n], s[n..];
    assert line[n - 1] == s[n - 1];
    if rest != "" {
      assert rest[|rest| - 1] == s[|s| - 1];
    }
  }

  lemma {:induction false} SplittingJoinedLines(lines: seq<string>)
    requires AreLines(lines)
    ensures SplitLines(JoinLines(lines)) == lines
  {
    hide SplitLines, IsLine, Terminated;
    if lines != [] {
      assert AreLines(lines[1..]) by {
        assert forall k | 0 <= k < |lines| - 1 :: lines[1..][k] == lines[k + 1];
      }
      SplittingJoinedLines(lines[1..]);
      NothingSplits();
      SplitOneLine(lines[0], JoinLines(lines[1..]));
      assert lines == [lines[0]] + lines[1..];
    } else {
      NothingSplits();
    }
  }

  lemma NothingSplits()
    ensures SplitLines("") == [] && JoinLines([]) == ""
  {}

  ghost predicate NoInnerBreak(s: string) {
    forall k | 0 <= k < |s| - 1 :: !IsBreak(s[k])
  }

  lemma JoinKeepsBreaksOut(a: string, b: string)
    requires (forall k | 0 <= k < |a| :: !IsBreak(a[k])) && NoInnerBreak(b)
    ensures NoInnerBreak(a + b) && (b != "" ==> (Terminated(a + b) <==> Terminated(b)))
  {
    var s := a + b;
    forall k | 0 <= k < |s| - 1
      ensures !IsBreak(s[k])
    {
      assert s[k] == if k < |a| then a[k] else b[k - |a|];
    }
  }

  lemma SuffixHasNoInnerBreak(head: string, rest: string)
    requires head != "" && !IsBreak(head[|head| - 1]) && NoInnerBreak(head + rest)
    ensures NoInnerBreak(rest) && (Terminated(rest) <==> Terminated(head + rest))
  {
    hide IsBreak;
    assert forall k | 0 <= k < |rest| :: rest[k] == (head + rest)[|head| + k];
  }

  ghost predicate HasBreak(s: string) {
    exists k | 0 <= k < |s| :: IsBreak(s[k])
  }

  lemma {:induction false} SplittingAfterABreak(a: string, b: string)
    requires a == "" || Terminated(a)
    ensures SplitLines(a + b) == SplitLines(a) + SplitLines(b)
    decreases |a|
  {
    hide SplitLines, IsLine, Terminated;
    NothingSplits();
    if a == "" {
      assert a + b == b;
    } else {
      var line, tail := FirstCut(a);
      if tail == "" {
        assert line == a;
        assert line + "" == line;
        assert IsLine(line) && Terminated(line);
        SplitOneLine(line, "");
        SplitOneLine(line, b);
      } else {
        SplittingAfterABreak(tail, b);
        SplitOneLine(line, tail);
        SplitOneLine(line, tail + b);
        Reassociate(line, tail, b);
      }
    }
  }

  // ---- Reading ----

  predicate EndsInReturn(s: string) {
    s != "" && s[|s| - 1] == '\r'
  }

  /** How many characters are read as one at the start. */
  function ReadStep(s: string): (n: nat)
    requires s != ""
    ensures 0 < n <= |s|
  {
    if s[0] == '\r' && |s| > 1 && s[1] == '\n' then 2 else 1
  }

  lemma ReadOneStep(s: string)
    requires s != ""
    ensures ReadText(s) == [if s[0] == '\r' then '\n' else s[0]] + ReadText(s[ReadStep(s)..])
  {}

  lemma StepOfJoined(a: string, b: string)
    requires a != "" && (EndsInReturn(a) ==> b == "" || b[0] != '\n')
    ensures (a + b)[0] == a[0] && ReadStep(a + b) == ReadStep(a) && (a + b)[ReadStep(a)..] == a[ReadStep(a)..] + b
    ensures EndsInReturn(a[ReadStep(a)..]) ==> EndsInReturn(a)
  {}

  /** Reading goes piece by piece, unless a carriage return and its line feed are torn apart. */
  lemma {:induction false} ReadingJoins(a: string, b: string)
    requires EndsInReturn(a) ==> b == "" || b[0] != '\n'
    ensures ReadText(a + b) == ReadText(a) + ReadText(b)
    decreases |a|
  {
    hide EndsInReturn, ReadStep;
    if a == "" {
      assert a + b == b && ReadText(a) == "";
    } else {
      var n, first := ReadStep(a), [if a[0] == '\r' then '\n' else a[0]];
      ReadOneStep(a);
      ReadOneStep(a + b);
      StepOfJoined(a, b);
      hide ReadText;
      ReadingJoins(a[n..], b);
      Reassociate(first, ReadText(a[n..]), ReadText(b));
    }
  }

  /** The length of the first line of a file's text, whose break may be a carriage return with its line feed. */
  function RawLength(raw: string): (n: nat)
    ensures n <= |raw| && (raw != "" ==> n > 0)
  {
    if raw == "" then 0
    else if raw[0] == '\r' && |raw| > 1 && raw[1] == '\n' then 2
    else if IsBreak(raw[0]) then 1
    else 1 + RawLength(raw[1..])
  }

  /** `splitlines(keepends=True)` of a text as it stands in the file. */
  function RawLines(raw: string): seq<string>
    decreases |raw|
  {
    if raw == "" then [] else [raw[..RawLength(raw)]] + RawLines(raw[RawLength(raw)..])
  }

  function ReadLines(lines: seq<string>): seq<string> {
    seq(|lines|, k requires 0 <= k < |lines| => ReadText(lines[k]))
  }

  /** The line ends in a carriage return, with or without a line feed. */
  predicate ReturnsCarriage(line: string) {
    EndsInReturn(line) || (|line| > 1 && line[|line| - 2] == '\r' && line[|line| - 1] == '\n')
  }

  /** A first line is text without a break, and then its break; only the last line of a text may lack one. */
  lemma {:induction false} RawLineParts(raw: string) returns (text: string, end: string)
    requires raw != ""
    ensures var n := RawLength(raw);
            && raw[..n] == text + end && (forall k | 0 <= k < |text| :: !IsBreak(text[k]))
            && (end == "" ==> n == |raw|)
            && (end == "" || end == "\r\n" || (|end| == 1 && IsBreak(end[0])))
            && (EndsInReturn(end) ==> n == |raw| || raw[n] != '\n')
  {
    if raw[0] == '\r' && |raw| > 1 && raw[1] == '\n' {
      text, end := "", "\r\n";
    } else if IsBreak(raw[0]) {
      text, end := "", [raw[0]];
    } else if |raw| == 1 {
      text, end := raw, "";
      assert raw[1..] == "";
    } else {
      var tail;
      tail, end := RawLineParts(raw[1..]);
      text := [raw[0]] + tail;
      assert raw[..RawLength(raw)] == [raw[0]] + raw[1..][..RawLength(raw[1..])];
    }
  }

  lemma {:induction false} ReadingPlainText(text: string)
    requires '\r' !in text
    ensures ReadText(text) == text
  {
    if text != "" {
      ReadingPlainText(text[1..]);
      assert text == [text[0]] + text[1..];
    }
  }

  lemma ReadingABreak(end: string)
    requires end == "" || end == "\r\n" || (|end| == 1 && IsBreak(end[0]))
    ensures ReadText(end) == if end == "\r\n" || end == "\r" then "\n" else end
  {
    if end == "\r\n" {
      assert end[2..] == "";
    } else if |end| == 1 {
      assert end[1..] == "" && end == [end[0]];
    }
  }

  /** A first line is read by itself, as a line; reading keeps it as it is unless it ends in a carriage return. */
  lemma FirstRawLine(raw: string)
    requires raw != ""
    ensures var line, rest := raw[..RawLength(raw)], raw[RawLength(raw)..];
            && ReadText(raw) == ReadText(line) + ReadText(rest)
            && IsLine(ReadText(line)) && (rest != "" ==> Terminated(ReadText(line)))
            && (ReadText(line) == line <==> !ReturnsCarriage(line))
  {
    hide RawLength, EndsInReturn;
    var n := RawLength(raw);
    var line, rest := raw[..n], raw[n..];
    var text, end := RawLineParts(raw);
    ReturnsByItsBreak(text, end);
    ReadLine(text, end);
    hide IsLine, Terminated, ReturnsCarriage, ReadText, IsBreak;
    assert raw == line + rest && (rest != "" ==> rest[0] == raw[n]);
    ReadingJoins(line, rest);
  }

  lemma ReadLine(text: string, end: string)
    requires text + end != "" && forall k | 0 <= k < |text| :: !IsBreak(text[k])
    requires end == "" || end == "\r\n" || (|end| == 1 && IsBreak(end[0]))
    ensures var read := ReadText(text + end);
            IsLine(read) && (end != "" ==> Terminated(read)) && (read == text + end <==> end != "\r\n" && end != "\r")
  {
    hide EndsInReturn, ReadText, IsLine, Terminated;
    TextHasNoReturn(text);
    ReadingJoins(text, end);
    ReadingPlainText(text);
    ReadingABreak(end);
    LineOf(text, ReadText(end));
    SameEnds(text, ReadText(end), end);
  }

  lemma TextHasNoReturn(text: string)
    requires forall k | 0 <= k < |text| :: !IsBreak(text[k])
    ensures '\r' !in text && !EndsInReturn(text)
  {
    assert IsBreak('\r');
  }

  lemma LineOf(text: string, end: string)
    requires text + end != "" && |end| <= 1
    requires (forall k | 0 <= k < |text| :: !IsBreak(text[k])) && forall k | 0 <= k < |end| :: IsBreak(end[k])
    ensures IsLine(text + end) && (end != "" ==> Terminated(text + end))
  {
    assert forall k | 0 <= k < |text| :: (text + end)[k] == text[k];
  }

  lemma SameEnds(text: string, a: string, b: string)
    ensures text + a == text + b <==> a == b
  {
    assert (text + a)[|text|..] == a && (text + b)[|text|..] == b;
  }

  lemma ReturnsByItsBreak(text: string, end: string)
    requires forall k | 0 <= k < |text| :: !IsBreak(text[k])
    requires end == "" || end == "\r\n" || (|end| == 1 && IsBreak(end[0]))
    ensures ReturnsCarriage(text + end) <==> end == "\r\n" || end == "\r"
    ensures EndsInReturn(text + end) ==> EndsInReturn(end)
  {
    var line := text + end;
    if |end| == 1 {
      assert end == [end[0]] && line[|line| - 1] == end[0];
      assert |line| > 1 ==> line[|line| - 2] == text[|text| - 1];
    } else if end == "" {
      assert line == text;
    } else {
      assert line[|line| - 2] == '\r' && line[|line| - 1] == '\n';
    }
  }

  /** Splitting what is read is reading what is split. */
  lemma {:induction false} SplittingTheRead(raw: string)
    ensures SplitLines(ReadText(raw)) == ReadLines(RawLines(raw))
    ensures JoinLines(RawLines(raw)) == raw
    ensures forall k | 0 <= k < |RawLines(raw)| ::
      ReadText(RawLines(raw)[k]) == RawLines(raw)[k] <==> !ReturnsCarriage(RawLines(raw)[k])
    decreases |raw|
  {
    hide SplitLines, ReadText, IsLine, Terminated, RawLength;
    NothingSplits();
    ReadingPlainText("");
    if raw != "" {
      var line, rest := raw[..RawLength(raw)], raw[RawLength(raw)..];
      FirstRawLine(raw);
      SplittingTheRead(rest);
      SplitOneLine(ReadText(line), ReadText(rest));
      assert RawLines(raw) == [line] + RawLines(rest);
      assert ReadLines([line] + RawLines(rest)) == [ReadText(line)] + ReadLines(RawLines(rest));
      assert ([line] + RawLines(rest))[1..] == RawLines(rest);
    }
  }
}
