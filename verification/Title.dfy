/** Cleaning a model-produced title before it enters metadata or paths (scrybe-core/src/notes.rs). */
module Title {
  import opened Wrappers
  import opened Text

  const MAX_CHARACTERS := 80

  predicate IsDecoration(c: char) {
    c == '"' || c == '\'' || c == '`' || c == '#' || c == '*' || c == '-' || c == ':' || c == ' '
  }

  function WithoutReturn(line: string): string {
    if line != "" && line[|line| - 1] == '\r' then line[..|line| - 1] else line
  }

  /** `str::lines`. */
  function Lines(s: string): seq<string>
    decreases |s|
  {
    if s == "" then []
    else
      match SplitOnce(s, '\n')
      case None => [s]
      case Some((line, rest)) => [WithoutReturn(line)] + Lines(rest)
  }

  /** The first line with anything on it, trimmed. */
  function FirstText(lines: seq<string>): Option<string> {
    if lines == [] then None
    else if Trim(lines[0]) != "" then Some(Trim(lines[0]))
    else FirstText(lines[1..])
  }

  function WordLength(s: string): (i: nat)
    ensures i <= |s| && forall k | 0 <= k < i :: !IsWhitespace(s[k])
    ensures i < |s| ==> IsWhitespace(s[i])
  {
    if s == "" || IsWhitespace(s[0]) then 0 else 1 + WordLength(s[1..])
  }

  /** `split_whitespace`. */
  function Words(s: string): seq<string>
    decreases |s|
  {
    if s == "" then []
    else if IsWhitespace(s[0]) then Words(s[1..])
    else [s[..WordLength(s)]] + Words(s[WordLength(s)..])
  }

  /** `join(" ")`. */
  function Join(words: seq<string>): string {
    if words == [] then ""
    else if |words| == 1 then words[0]
    else words[0] + " " + Join(words[1..])
  }

  function Clip(s: string): string {
    if |s| <= MAX_CHARACTERS then s else s[..MAX_CHARACTERS]
  }

  /** `alphanumeric` stands for the Unicode property of that name. */
  function CleanGeneratedTitle(raw: string, alphanumeric: char -> bool): Option<string> {
    match FirstText(Lines(raw))
    case None => None
    case Some(line) =>
      var collapsed := Join(Words(TrimMatches(line, IsDecoration)));
      var title := TrimMatches(Clip(collapsed), IsDecoration);
      if exists c | c in title :: alphanumeric(c) then Some(title) else None
  }

  // ---- What a cleaned title looks like ----

  /** Single plain spaces are the only whitespace. */
  predicate Spaced(s: string) {
    && (forall i | 0 <= i < |s| :: IsWhitespace(s[i]) ==> s[i] == ' ')
    && (forall i | 0 <= i < |s| - 1 :: s[i] == ' ' ==> s[i + 1] != ' ')
  }

  predicate Tidy(s: string) {
    Spaced(s) && Trimmed(s, IsWhitespace)
  }

  /** What a title is, said without cleaning anything. */
  ghost predicate IsTitle(title: string, alphanumeric: char -> bool) {
    && |title| <= MAX_CHARACTERS
    && (exists c | c in title :: alphanumeric(c))
    && Spaced(title)
    && Trimmed(title, IsDecoration)
  }

  predicate Solid(word: string) {
    word != "" && forall i | 0 <= i < |word| :: !IsWhitespace(word[i])
  }

  lemma {:induction false} WordsAreSolid(s: string)
    ensures forall word | word in Words(s) :: Solid(word)
    decreases |s|
  {
    if s != "" {
      if IsWhitespace(s[0]) {
        WordsAreSolid(s[1..]);
      } else {
        WordsAreSolid(s[WordLength(s)..]);
      }
    }
  }

  lemma {:induction false} JoinIsSpaced(words: seq<string>)
    requires forall word | word in words :: Solid(word)
    ensures Spaced(Join(words)) && (words != [] ==> Join(words) != "" && Join(words)[0] != ' ')
  {
    if |words| == 1 {
      assert Solid(words[0]);
    } else if words != [] {
      assert Solid(words[0]);
      JoinIsSpaced(words[1..]);
      var rest := Join(words[1..]);
      SpacedPair(words[0], rest);
    }
  }

  lemma SpacedPair(word: string, rest: string)
    requires Solid(word) && Spaced(rest) && rest != "" && rest[0] != ' '
    ensures Spaced(word + " " + rest)
  {
    var s := word + " " + rest;
    forall i | 0 <= i < |s|
      ensures IsWhitespace(s[i]) ==> s[i] == ' '
      ensures i < |s| - 1 && s[i] == ' ' ==> s[i + 1] != ' '
    {
      if i > |word| {
        assert s[i] == rest[i - |word| - 1];
        if i < |s| - 1 {
          assert s[i + 1] == rest[i - |word|];
        }
      }
    }
  }

  /** Splitting a tidy line into words and joining them again changes nothing. */
  lemma {:induction false} TidyIsFixed(s: string)
    requires Tidy(s)
    ensures Join(Words(s)) == s
    decreases |s|
  {
    hide Words, Join;
    Trivially();
    if s != "" {
      var i := WordLength(s);
      if i < |s| {
        TidyTail(s, i);
        TidyIsFixed(s[i + 1..]);
        WordsOfPair(s[..i], s[i + 1..]);
        assert s == s[..i] + " " + s[i + 1..];
        JoinOfPair(s[..i], Words(s[i + 1..]));
      } else {
        WordsOfPair(s, "");
        JoinOfOne(s);
      }
    }
  }

  lemma Trivially()
    ensures Words("") == [] && Join([]) == ""
  {}

  lemma JoinOfOne(word: string)
    ensures Join([word]) == word
  {}

  lemma TidyTail(s: string, i: nat)
    requires Tidy(s) && 0 < i < |s| && IsWhitespace(s[i])
    ensures s[i] == ' ' && i + 1 < |s| && Tidy(s[i + 1..]) && Words(s[i + 1..]) != []
  {
    assert s[i] == ' ';
    assert s[i + 1] != ' ';
    var tail := s[i + 1..];
    assert forall k | 0 <= k < |tail| :: tail[k] == s[i + 1 + k];
  }

  lemma JoinOfPair(word: string, rest: seq<string>)
    requires rest != []
    ensures Join([word] + rest) == word + " " + Join(rest)
  {
    assert ([word] + rest)[1..] == rest;
  }

  lemma WordsOfPair(word: string, rest: string)
    requires Solid(word)
    ensures Words(word) == [word]
    ensures Words(word + " " + rest) == [word] + Words(rest)
  {
    assert word[|word|..] == "" && word[..|word|] == word;
    var s := word + " " + rest;
    assert forall k | 0 <= k < |word| :: s[k] == word[k];
    assert s[|word|] == ' ';
    assert WordLength(s) == |word|;
    var tail := s[|word|..];
    assert s[..|word|] == word && tail[0] == ' ' && tail[1..] == rest;
  }

  /** Collapsing whitespace keeps the words, all of them and in order. */
  lemma {:induction false} CollapsingKeepsWords(words: seq<string>)
    requires forall word | word in words :: Solid(word)
    ensures Words(Join(words)) == words
  {
    if words != [] {
      assert Solid(words[0]);
      WordsOfPair(words[0], Join(words[1..]));
      if |words| > 1 {
        CollapsingKeepsWords(words[1..]);
        assert [words[0]] + words[1..] == words;
      }
    }
  }

  lemma PieceIsSpaced(s: string, i: nat, j: nat)
    requires Spaced(s) && i <= j <= |s|
    ensures Spaced(s[i..j])
  {
    var piece := s[i..j];
    assert forall k | 0 <= k < |piece| :: piece[k] == s[i + k];
  }

  /** Whatever text comes in, what comes out is a title. */
  lemma CleaningGivesATitle(raw: string, alphanumeric: char -> bool)
    requires CleanGeneratedTitle(raw, alphanumeric).Some?
    ensures IsTitle(CleanGeneratedTitle(raw, alphanumeric).value, alphanumeric)
  {
    var line := FirstText(Lines(raw)).value;
    var words := Words(TrimMatches(line, IsDecoration));
    WordsAreSolid(TrimMatches(line, IsDecoration));
    JoinIsSpaced(words);
    var collapsed := Join(words);
    var clipped := Clip(collapsed);
    PieceIsSpaced(collapsed, 0, |clipped|);
    assert collapsed[0..|clipped|] == clipped;
    var i, j := TrimMatchesIsPiece(clipped, IsDecoration);
    PieceIsSpaced(clipped, i, j);
  }

  /** A line without a line break is the only line of its text. */
  lemma OneLineOnly(s: string)
    requires s != "" && '\n' !in s
    ensures Lines(s) == [s]
  {
    assert Find(s, '\n') == |s|;
  }

  /** The titles are exactly the texts that cleaning returns unchanged. */
  lemma TitlesAreTheFixedPoints(title: string, alphanumeric: char -> bool)
    ensures IsTitle(title, alphanumeric) <==> CleanGeneratedTitle(title, alphanumeric) == Some(title)
  {
    if IsTitle(title, alphanumeric) {
      assert Tidy(title);
      OneLineOnly(title);
      TrimMatchesFixes(title, IsWhitespace);
      TrimMatchesFixes(title, IsDecoration);
      TidyIsFixed(title);
    } else if CleanGeneratedTitle(title, alphanumeric) == Some(title) {
      CleaningGivesATitle(title, alphanumeric);
    }
  }

  /** Cleaning a cleaned title again returns it unchanged. */
  lemma CleaningIsIdempotent(raw: string, alphanumeric: char -> bool)
    requires CleanGeneratedTitle(raw, alphanumeric).Some?
    ensures var title := CleanGeneratedTitle(raw, alphanumeric);
            CleanGeneratedTitle(title.value, alphanumeric) == title
  {
    CleaningGivesATitle(raw, alphanumeric);
    TitlesAreTheFixedPoints(CleanGeneratedTitle(raw, alphanumeric).value, alphanumeric);
  }

  // ---- What cleaning does, step by step, in terms of the characters ----

  ghost predicate AllBlank(s: string) {
    forall c | c in s :: IsWhitespace(c)
  }

  /** What is on the first line that has anything on it. */
  ghost predicate IsFirstText(raw: string, text: string) {
    exists before, gap, rest :: IsFirstTextBetween(raw, before, text, gap, rest)
  }

  /** Nothing but white space before it, and nothing but white space behind it on its line. */
  ghost predicate IsFirstTextBetween(raw: string, before: string, text: string, gap: string, rest: string) {
    && raw == before + text + gap + rest && AllBlank(before) && AllBlank(gap)
    && text != "" && Trimmed(text, IsWhitespace) && '\n' !in text && '\n' !in gap && (rest == "" || rest[0] == '\n')
  }

  ghost predicate Decorates(c: char) {
    c in "\"'`#*-: "
  }

  /** Words with something between each two of them. */
  ghost function Woven(gaps: seq<string>, words: seq<string>): string
    requires |gaps| == |words| + 1
    decreases |words|
  {
    if words == [] then gaps[0] else gaps[0] + words[0] + Woven(gaps[1..], words[1..])
  }

  ghost predicate IsWeave(s: string, gaps: seq<string>, words: seq<string>) {
    && |gaps| == |words| + 1 && s == Woven(gaps, words)
    && (forall k | 0 <= k < |gaps| :: AllBlank(gaps[k])) && (forall k | 0 <= k < |words| :: Solid(words[k]))
    && forall k | 0 < k < |words| :: gaps[k] != ""
  }

  /** No gap at either end, and a blank for every other. */
  ghost predicate AreBlanks(gaps: seq<string>) {
    forall k | 0 <= k < |gaps| :: gaps[k] == if k == 0 || k == |gaps| - 1 then "" else " "
  }

  /** The same words with one blank between each two. */
  ghost predicate IsCollapsed(s: string, t: string) {
    exists gaps, words, blanks :: IsWeave(s, gaps, words) && |blanks| == |words| + 1 && AreBlanks(blanks) && t == Woven(blanks, words)
  }

  /** The first text without its decoration, collapsed, cut at eighty characters, and without decoration again. */
  ghost predicate IsBareTitle(raw: string, title: string) {
    exists line, bare, collapsed, clipped ::
      && IsFirstText(raw, line) && IsTrimmedOf(line, Decorates, bare) && IsCollapsed(bare, collapsed)
      && clipped == (if |collapsed| <= 80 then collapsed else collapsed[..80]) && IsTrimmedOf(clipped, Decorates, title)
  }

  lemma LineIsBlankOrText(line: string, shown: string)
    requires '\n' !in line && (shown == line || shown + "\r" == line)
    ensures Trim(shown) == "" ==> AllBlank(line)
    ensures exists before, gap :: AllBlank(before) && AllBlank(gap) && line == before + Trim(shown) + gap
    ensures Trimmed(Trim(shown), IsWhitespace) && '\n' !in Trim(shown)
  {
    var text := Trim(shown);
    var before, after := TrimmedAround(shown);
    assert forall c | c in text :: c in shown;
    assert forall c | c in shown :: c in line;
    var gap := if shown == line then after else after + "\r";
    ReturnIsBlank(after);
    hide Trim, AllBlank, Trimmed;
    assert line == before + text + gap;
    BlanksJoin(before, gap);
    assert text == "" ==> line == before + gap;
  }

  lemma TrimmedAround(s: string) returns (before: string, after: string)
    ensures AllBlank(before) && AllBlank(after) && s == before + Trim(s) + after && Trimmed(Trim(s), IsWhitespace)
  {
    hide IsWhitespace;
    TrimCuts(s, IsWhitespace);
    before, after :| s == before + Trim(s) + after && (forall c | c in before :: IsWhitespace(c)) && (forall c | c in after :: IsWhitespace(c));
  }

  lemma ReturnIsBlank(gap: string)
    requires AllBlank(gap)
    ensures AllBlank(gap + "\r")
  {
    assert IsWhitespace('\r');
    hide IsWhitespace;
  }

  lemma BlanksJoin(a: string, b: string)
    requires AllBlank(a) && AllBlank(b)
    ensures AllBlank(a + b)
  {
    hide IsWhitespace;
  }

  lemma {:induction false} FirstTextIs(raw: string)
    ensures match FirstText(Lines(raw))
            case None => AllBlank(raw)
            case Some(text) => IsFirstText(raw, text)
    decreases |raw|
  {
    hide IsWhitespace, Trim, SplitOnce, IsFirstTextBetween, AllBlank;
    if raw == "" {
      NothingIsBlank();
    } else {
      SplitBack(raw);
      match SplitOnce(raw, '\n')
      case None =>
        assert [raw][1..] == [];
        LineIsBlankOrText(raw, raw);
        TextOnLine(raw, "", Trim(raw));
        assert raw + "" == raw;
      case Some((line, rest)) =>
        var shown := WithoutReturn(line);
        LineIsBlankOrText(line, shown);
        FirstTextIs(rest);
        assert ([shown] + Lines(rest))[1..] == Lines(rest);
        TextOnLine(line, "\n" + rest, Trim(shown));
        assert line + ("\n" + rest) == raw;
        BlankLineAbove(line, rest);
    }
  }

  lemma NothingIsBlank()
    ensures AllBlank("")
  {}

  lemma TextOnLine(line: string, rest: string, text: string)
    requires '\n' !in line && (rest == "" || rest[0] == '\n') && Trimmed(text, IsWhitespace) && '\n' !in text
    ensures text != "" && (exists before, gap :: AllBlank(before) && AllBlank(gap) && line == before + text + gap)
            ==> IsFirstText(line + rest, text)
  {
    hide AllBlank, Trimmed;
    if text != "" {
      if before, gap :| AllBlank(before) && AllBlank(gap) && line == before + text + gap {
        assert forall c | c in gap :: c in line;
        assert line + rest == before + text + gap + rest;
        assert IsFirstTextBetween(line + rest, before, text, gap, rest);
      }
    }
  }

  lemma BlankLineAbove(line: string, rest: string)
    ensures AllBlank(line) && AllBlank(rest) ==> AllBlank(line + "\n" + rest)
    ensures forall text | AllBlank(line) && IsFirstText(rest, text) :: IsFirstText(line + "\n" + rest, text)
  {
    assert IsWhitespace('\n');
    hide IsWhitespace;
    forall text | AllBlank(line) && IsFirstText(rest, text)
      ensures IsFirstText(line + "\n" + rest, text)
    {
      var before, gap, more :| IsFirstTextBetween(rest, before, text, gap, more);
      var longer := line + "\n" + before;
      assert AllBlank(longer);
      assert line + "\n" + rest == longer + text + gap + more;
      assert IsFirstTextBetween(line + "\n" + rest, longer, text, gap, more);
    }
  }

  lemma {:induction false} WordsAreWoven(s: string) returns (gaps: seq<string>)
    ensures IsWeave(s, gaps, Words(s))
    decreases |s|
  {
    hide IsWhitespace, Solid, AllBlank, IsWeave, Words;
    NoWords();
    if s == "" {
      gaps := [""];
    } else if IsWhitespace(s[0]) {
      var more := WordsAreWoven(s[1..]);
      OneMoreBlank(s, more);
      gaps := [[s[0]] + more[0]] + more[1..];
    } else {
      var n := WordLength(s);
      var more := WordsAreWoven(s[n..]);
      OneMoreWord(s, more);
      gaps := [""] + more;
    }
  }

  lemma NoWords()
    ensures IsWeave("", [""], Words(""))
  {}

  lemma OneMoreBlank(s: string, more: seq<string>)
    requires s != "" && IsWhitespace(s[0]) && IsWeave(s[1..], more, Words(s[1..]))
    ensures |more| > 0 && Words(s) == Words(s[1..]) && IsWeave(s, [[s[0]] + more[0]] + more[1..], Words(s))
  {
    hide IsWhitespace, Solid, AllBlank, Words, Woven;
    var gaps, words := [[s[0]] + more[0]] + more[1..], Words(s[1..]);
    BlankFirst(s);
    assert s == [s[0]] + s[1..];
    WovenBehind(s[0], more, words);
    BlankGrows(s[0], more[0]);
    forall k | 0 <= k < |gaps|
      ensures AllBlank(gaps[k]) && (0 < k < |words| ==> gaps[k] != "")
    {
      assert k > 0 ==> gaps[k] == more[k];
      assert AllBlank(more[k]);
    }
  }

  lemma BlankFirst(s: string)
    requires s != "" && IsWhitespace(s[0])
    ensures Words(s) == Words(s[1..])
  {}

  lemma BlankGrows(c: char, gap: string)
    requires IsWhitespace(c) && AllBlank(gap)
    ensures AllBlank([c] + gap)
  {}

  lemma WovenBehind(c: char, gaps: seq<string>, words: seq<string>)
    requires |gaps| == |words| + 1
    ensures Woven([[c] + gaps[0]] + gaps[1..], words) == [c] + Woven(gaps, words)
  {
    var longer := [[c] + gaps[0]] + gaps[1..];
    assert longer[1..] == gaps[1..];
    if words != [] {
      assert [c] + gaps[0] + words[0] + Woven(gaps[1..], words[1..]) == [c] + (gaps[0] + words[0] + Woven(gaps[1..], words[1..]));
    }
  }

  lemma OneMoreWord(s: string, more: seq<string>)
    requires s != "" && !IsWhitespace(s[0]) && IsWeave(s[WordLength(s)..], more, Words(s[WordLength(s)..]))
    ensures Words(s) == [s[..WordLength(s)]] + Words(s[WordLength(s)..]) && IsWeave(s, [""] + more, Words(s))
  {
    hide IsWhitespace, Words, AllBlank, Woven;
    var n := WordLength(s);
    var gaps, word, rest := [""] + more, s[..n], Words(s[n..]);
    WordFirst(s);
    NothingIsBlank();
    WovenWord(word, more, rest);
    assert s == word + s[n..];
    if rest != [] {
      WeaveStarts(s[n..], more, rest);
    }
    assert forall k | 0 < k < |gaps| :: gaps[k] == more[k - 1];
    assert forall k | 0 < k < |rest| + 1 :: ([word] + rest)[k] == rest[k - 1];
  }

  lemma WovenStep(gaps: seq<string>, words: seq<string>)
    requires |gaps| == |words| + 1 && words != []
    ensures Woven(gaps, words) == gaps[0] + words[0] + Woven(gaps[1..], words[1..])
  {}

  lemma WovenWord(word: string, gaps: seq<string>, words: seq<string>)
    requires |gaps| == |words| + 1
    ensures Woven([""] + gaps, [word] + words) == word + Woven(gaps, words)
  {
    var longer, all := [""] + gaps, [word] + words;
    assert longer[1..] == gaps && all[1..] == words && longer[0] == "" && all[0] == word;
    WovenStep(longer, all);
    assert "" + word == word;
  }

  lemma WordFirst(s: string)
    requires s != "" && !IsWhitespace(s[0])
    ensures Words(s) == [s[..WordLength(s)]] + Words(s[WordLength(s)..]) && Solid(s[..WordLength(s)])
    ensures WordLength(s) < |s| ==> IsWhitespace(s[WordLength(s)..][0])
  {
    hide IsWhitespace;
  }

  /** Without a gap in front a text starts with its first word. */
  lemma WeaveStarts(s: string, gaps: seq<string>, words: seq<string>)
    requires IsWeave(s, gaps, words) && words != []
    ensures gaps[0] == "" ==> s != "" && !IsWhitespace(s[0])
  {
    hide IsWhitespace;
    assert Solid(words[0]);
    assert gaps[0] == "" ==> s == words[0] + Woven(gaps[1..], words[1..]);
  }

  lemma {:induction false} JoinIsWoven(words: seq<string>) returns (blanks: seq<string>)
    ensures |blanks| == |words| + 1 && AreBlanks(blanks) && Join(words) == Woven(blanks, words)
  {
    hide Woven;
    if words == [] {
      blanks := [""];
      WovenNothing();
    } else if |words| == 1 {
      blanks := ["", ""];
      WovenNothing();
      WovenWord(words[0], [""], []);
      assert [""] + [""] == ["", ""] && [words[0]] + [] == words && words[0] + "" == words[0];
    } else {
      var more := JoinIsWoven(words[1..]);
      var later := [" "] + more[1..];
      blanks := [""] + later;
      SpaceInFront(more, words[1..]);
      WovenWord(words[0], later, words[1..]);
      assert [words[0]] + words[1..] == words;
      assert words[0] + " " + Woven(more, words[1..]) == words[0] + (" " + Woven(more, words[1..]));
      BlanksGrow(more);
    }
  }

  lemma WovenNothing()
    ensures Woven([""], []) == ""
  {}

  lemma BlanksGrow(blanks: seq<string>)
    requires |blanks| >= 2 && AreBlanks(blanks)
    ensures AreBlanks([""] + ([" "] + blanks[1..]))
  {
    var longer := [""] + ([" "] + blanks[1..]);
    forall k | 0 <= k < |longer|
      ensures longer[k] == if k == 0 || k == |longer| - 1 then "" else " "
    {
      assert k >= 2 ==> longer[k] == blanks[k - 1];
    }
  }

  lemma SpaceInFront(blanks: seq<string>, words: seq<string>)
    requires |blanks| == |words| + 1 && blanks[0] == "" && words != []
    ensures Woven([" "] + blanks[1..], words) == " " + Woven(blanks, words)
  {
    var later := [" "] + blanks[1..];
    assert later[1..] == blanks[1..];
    assert " " + words[0] + Woven(blanks[1..], words[1..]) == " " + ("" + words[0] + Woven(blanks[1..], words[1..]));
  }

  lemma SameDecoration(s: string, rest: string)
    ensures IsTrimmedOf(s, IsDecoration, rest) ==> IsTrimmedOf(s, Decorates, rest)
  {
    assert forall c :: IsDecoration(c) <==> Decorates(c);
  }

  /** The title that comes out, or nothing when there is no text or nothing alphanumeric is left. */
  lemma TitleIs(raw: string, alphanumeric: char -> bool)
    ensures match CleanGeneratedTitle(raw, alphanumeric)
            case Some(title) => IsBareTitle(raw, title) && exists c | c in title :: alphanumeric(c)
            case None => AllBlank(raw) || exists title :: IsBareTitle(raw, title) && !exists c | c in title :: alphanumeric(c)
  {
    hide AllBlank, IsFirstText, IsWeave, AreBlanks, IsDecoration, Decorates, TrimMatches, Words, Join, IsTrimmedOf;
    FirstTextIs(raw);
    if FirstText(Lines(raw)).Some? {
      var line := FirstText(Lines(raw)).value;
      var bare := TrimMatches(line, IsDecoration);
      TrimCuts(line, IsDecoration);
      SameDecoration(line, bare);
      var gaps := WordsAreWoven(bare);
      var blanks := JoinIsWoven(Words(bare));
      var collapsed := Join(Words(bare));
      assert IsCollapsed(bare, collapsed);
      var clipped := Clip(collapsed);
      var title := TrimMatches(clipped, IsDecoration);
      TrimCuts(clipped, IsDecoration);
      SameDecoration(clipped, title);
      assert IsBareTitle(raw, title);
    }
  }

  lemma SplitBack(s: string)
    ensures match SplitOnce(s, '\n')
            case None => '\n' !in s
            case Some((line, rest)) => s == line + "\n" + rest && '\n' !in line
  {}
}
