/**
  * Rewriting and repinning whole files: read with universal newlines, rewritten, and written back
  * (scripts/check-version-agreement.py).
  */
module VersionFiles {
  import opened Wrappers
  import opened Text
  import opened VersionLines
  import opened VersionTemplates
  import opened VersionSites
  import opened VersionPins
  import opened VersionBreaks
  import opened VersionWitness
  import opened VersionProbe

  /** What `rewrite` leaves in a file: nothing is written unless the text changes. */
  function RewrittenFile(site: Site, body: seq<Piece>, raw: string): string {
    var original := ReadText(raw);
    var updated := Sub(site, body, original, true);
    if updated == original then raw else updated
  }

  /** What `repin` leaves in a file. */
  function RepinnedFile(members: set<string>, body: seq<Piece>, raw: string): string {
    var lines := SplitLines(ReadText(raw));
    if RepinLines(lines, members, body) == lines then raw else Repinned(ReadText(raw), members, body)
  }

  // ---- What is read back ----

  /** The body as it reads once it has been written to a file. */
  function ReadPieces(body: seq<Piece>): seq<Piece> {
    if body == [] then []
    else if body[0] == Char('\r') then
      [Char('\n')] + ReadPieces(if |body| > 1 && body[1] == Char('\n') then body[2..] else body[1..])
    else [body[0]] + ReadPieces(body[1..])
  }

  ghost predicate Undisturbed(whole: string) {
    whole != "" && whole[0] != '\n' && '\r' !in whole
  }

  lemma {:induction false} ReadFill(body: seq<Piece>, whole: string)
    requires Undisturbed(whole)
    ensures ReadText(Fill(body, whole)) == Fill(ReadPieces(body), whole)
    decreases |body|
  {
    var all := Fill(body, whole);
    if body == [] {
    } else if body[0] == Char('\r') {
      assert all[1..] == Fill(body[1..], whole);
      if |body| > 1 && body[1] == Char('\n') {
        assert all[1] == '\n' && all[2..] == Fill(body[2..], whole);
        ReadFill(body[2..], whole);
      } else {
        assert |body| > 1 ==> all[1] == Written(body[1], whole)[0];
        ReadFill(body[1..], whole);
      }
      var rest := if |body| > 1 && body[1] == Char('\n') then body[2..] else body[1..];
      FillStep(Char('\n'), ReadPieces(rest), whole);
    } else {
      var first := Written(body[0], whole);
      ReadFill(body[1..], whole);
      assert '\r' !in first;
      ReadingPlainText(first);
      ReadingJoins(first, Fill(body[1..], whole));
      FillStep(body[0], ReadPieces(body[1..]), whole);
    }
  }

  lemma FillStep(piece: Piece, rest: seq<Piece>, whole: string)
    ensures Fill([piece] + rest, whole) == Written(piece, whole) + Fill(rest, whole)
  {
    assert ([piece] + rest)[1..] == rest;
  }

  lemma {:induction false} ReadPiecesKeeps(body: seq<Piece>)
    ensures IsQuoteFree(ReadPieces(body)) <==> IsQuoteFree(body)
    ensures BodyBreaks(ReadPieces(body)) <==> BodyBreaks(body)
    ensures !BodyBreaks(body) ==> ReadPieces(body) == body
    decreases |body|
  {
    if body != [] {
      var rest := if body[0] == Char('\r') && |body| > 1 && body[1] == Char('\n') then body[2..] else body[1..];
      var first := if body[0] == Char('\r') then Char('\n') else body[0];
      ReadPiecesKeeps(rest);
      var read := [first] + ReadPieces(rest);
      assert read[1..] == ReadPieces(rest) && body == [body[0]] + body[1..];
      BodyBreaksSplit(body);
      BodyBreaksSplit(read);
      QuoteFreeSplit(body);
      QuoteFreeSplit(read);
      if rest != body[1..] {
        QuoteFreeSplit(body[1..]);
      }
    }
  }

  lemma QuoteFreeSplit(body: seq<Piece>)
    requires body != []
    ensures IsQuoteFree(body) <==> body[0].Char? && body[0].c != '"' && IsQuoteFree(body[1..])
  {
    assert forall k | 0 <= k < |body| - 1 :: body[1..][k] == body[k + 1];
  }

  /** An opening that reading leaves alone. */
  ghost predicate Readable(site: Site) {
    Undisturbed(site.open)
  }

  /** Reading what was written is writing what would be read. */
  lemma {:induction false} ReadSub(site: Site, body: seq<Piece>, s: string, lineStart: bool)
    requires Readable(site) && '\r' !in s
    ensures ReadText(Sub(site, body, s, lineStart)) == Sub(site, ReadPieces(body), s, lineStart)
    ensures !EndsInReturn(Sub(site, body, s, lineStart))
    decreases |s|
  {
    hide Opens, Body, After, Fill, Matched, ReadPieces, EndsInReturn;
    if s == "" {
      NoReturn("");
    } else if MatchesHere(site, s, lineStart) {
      var rest := Sub(site, body, After(site, s), false);
      PartsAreUndisturbed(site, s);
      ReadSub(site, body, After(site, s), false);
      ReadFill(body, Matched(site, s));
      ReadWritten(site.open, Fill(body, Matched(site, s)), rest);
    } else {
      var rest := Sub(site, body, s[1..], s[0] == '\n');
      ReadSub(site, body, s[1..], s[0] == '\n');
      ReadOneMore(s[0], rest);
    }
  }

  lemma NoReturn(s: string)
    requires '\r' !in s
    ensures !EndsInReturn(s) && ReadText(s) == s
  {
    ReadingPlainText(s);
  }

  lemma ReadOneMore(c: char, rest: string)
    requires c != '\r' && !EndsInReturn(rest)
    ensures ReadText([c] + rest) == [c] + ReadText(rest) && !EndsInReturn([c] + rest)
  {
    assert ([c] + rest)[1..] == rest;
  }

  lemma ReadWritten(open: string, written: string, rest: string)
    requires '\r' !in open && !EndsInReturn(rest)
    ensures var all := open + written + "\"" + rest;
            ReadText(all) == open + ReadText(written) + "\"" + ReadText(rest) && !EndsInReturn(all)
  {
    hide ReadText, EndsInReturn;
    NoReturn(open);
    ReadOneMore('"', rest);
    assert "\"" + rest == ['"'] + rest;
    ReadingJoins(written, "\"" + rest);
    ReadingJoins(open, written + ("\"" + rest));
    var all := open + written + "\"" + rest;
    assert all == open + (written + ("\"" + rest));
    SameEnd(open + written, rest);
  }

  lemma SameEnd(head: string, rest: string)
    requires !EndsInReturn(rest)
    ensures !EndsInReturn(head + "\"" + rest)
  {
    var all := head + "\"" + rest;
    assert rest != "" ==> all[|all| - 1] == rest[|rest| - 1];
  }

  lemma PartsAreUndisturbed(site: Site, s: string)
    requires Readable(site) && '\r' !in s && Opens(site, s)
    ensures Undisturbed(Matched(site, s)) && '\r' !in After(site, s)
  {
    var rest, body := After(site, s), Body(site, s);
    assert forall k | 0 <= k < |rest| :: rest[k] == s[|s| - |rest| + k];
    assert forall k | 0 <= k < |body| :: body[k] == s[|site.open| + k];
    assert Matched(site, s)[0] == site.open[0];
  }

  // ---- Rewriting ----

  lemma {:induction false} ReadingShortens(raw: string)
    ensures |ReadText(raw)| <= |raw|
    decreases |raw|
  {
    if raw != "" {
      ReadingShortens(raw[1..]);
      if |raw| > 1 {
        ReadingShortens(raw[2..]);
      }
    }
  }

  lemma RewritingTwice(site: Site, body: seq<Piece>, raw: string)
    requires Readable(site) && IsQuoteFree(body)
    ensures RewrittenFile(site, body, RewrittenFile(site, body, raw)) == RewrittenFile(site, body, raw)
  {
    hide Sub, Fill, ReadText, IsQuoteFree;
    var text, read := ReadText(raw), ReadPieces(body);
    ReadingTwice(raw);
    ReadSub(site, body, text, true);
    ReadPiecesKeeps(body);
    LastWriteWins(site, read, body, text, true);
    QuoteFreeFill(body, site.open + Fill(read, "") + "\"");
  }

  lemma RewritingGrows(site: Site, body: seq<Piece>)
    requires Readable(site) && !IsQuoteFree(body)
    ensures var once := RewrittenFile(site, body, site.open + "\""); RewrittenFile(site, body, once) != once
  {
    hide Sub, Fill, ReadText, IsQuoteFree;
    var raw, read := site.open + "\"", ReadPieces(body);
    NoReturn(raw);
    ReadSub(site, body, raw, true);
    ReadPiecesKeeps(body);
    WritingOnce(site, body);
    WritingOnce(site, read);
    FillQuotes(body, raw);
    FillQuotes(read, raw);
    var once := Sub(site, body, raw, true);
    WritingGrows(site, body, Fill(read, raw));
    ReadingShortens(once);
    assert Fill(body, raw) != "";
    assert once != raw;
  }

  /**
    * Rewriting a file a second time changes nothing, whatever the file, exactly when the version's expansion has no
    * quote and does not refer to the match.
    */
  lemma RewritingAFileIsIdempotentIff(site: Site, version: string)
    requires Readable(site) && Expand(version).Some?
    ensures var body := Expand(version).value;
            (forall raw :: RewrittenFile(site, body, RewrittenFile(site, body, raw)) == RewrittenFile(site, body, raw))
            <==> IsQuoteFree(body)
  {
    hide Expand, RewrittenFile;
    var body := Expand(version).value;
    if IsQuoteFree(body) {
      forall raw
        ensures RewrittenFile(site, body, RewrittenFile(site, body, raw)) == RewrittenFile(site, body, raw)
      {
        RewritingTwice(site, body, raw);
      }
    } else {
      RewritingGrows(site, body);
    }
  }

  lemma SitesAreReadable()
    ensures Readable(HOST_SITE) && Readable(BUNDLE_SITE) && Readable(PIN_SITE)
    ensures '\\' !in HOST_SITE.open && '\\' !in BUNDLE_SITE.open && '\\' !in PIN_SITE.open
  {
    assert HOST_SITE.open == "version = \"" && BUNDLE_SITE.open == "\"version\": \"" && PIN_SITE.open == "version = \"=";
  }

  ghost predicate Unsettles(site: Site, body: seq<Piece>) {
    exists raw :: RewrittenFile(site, body, RewrittenFile(site, body, raw)) != RewrittenFile(site, body, raw)
  }

  /** Two versions without a quote in them that grow at every rewriting. */
  lemma EscapesGrow()
    ensures Expand("\\042").Some? && Unsettles(HOST_SITE, Expand("\\042").value)
    ensures Expand("\\g<0>").Some? && Unsettles(HOST_SITE, Expand("\\g<0>").value)
  {
    hide Expand, RewrittenFile;
    ExpandedQuote();
    ExpandedReference();
    SitesAreReadable();
    var quote, whole := [Char('"')], [Whole];
    assert quote[0].c == '"' && whole[0] == Whole;
    RewritingGrows(HOST_SITE, quote);
    RewritingGrows(HOST_SITE, whole);
  }

  // ---- Repinning ----

  lemma {:induction false} ReadLinesJoin(lines: seq<string>)
    requires forall line | line in lines :: !EndsInReturn(line)
    ensures ReadText(JoinLines(lines)) == JoinLines(ReadLines(lines))
  {
    hide ReadText, EndsInReturn;
    if lines == [] {
      NoReturn("");
      assert ReadLines(lines) == [];
    } else {
      ReadLinesJoin(lines[1..]);
      ReadingJoins(lines[0], JoinLines(lines[1..]));
      assert ReadLines(lines) == [ReadText(lines[0])] + ReadLines(lines[1..]);
      assert ReadLines(lines)[1..] == ReadLines(lines[1..]);
    }
  }

  lemma {:induction false} SplittingKeepsReturnsOut(s: string)
    requires '\r' !in s
    ensures forall line | line in SplitLines(s) :: '\r' !in line
    decreases |s|
  {
    if s != "" {
      SplittingKeepsReturnsOut(s[LineLength(s)..]);
    }
  }

  lemma ReadRepinned(members: set<string>, body: seq<Piece>, text: string)
    requires '\r' !in text
    ensures ReadText(Repinned(text, members, body)) == Repinned(text, members, ReadPieces(body))
  {
    hide Sub, Target, ReadText, EndsInReturn, SplitLines, ReadPieces;
    var lines, read := SplitLines(text), ReadPieces(body);
    var after := RepinLines(lines, members, body);
    SplittingKeepsReturnsOut(text);
    SitesAreReadable();
    forall k | 0 <= k < |lines|
      ensures !EndsInReturn(after[k]) && ReadText(after[k]) == RepinLine(lines[k], members, read)
    {
      assert lines[k] in lines;
      ReadSub(PIN_SITE, body, lines[k], true);
      NoReturn(lines[k]);
    }
    ReadLinesJoin(after);
    assert ReadLines(after) == RepinLines(lines, members, read);
  }

  /** The condition on a body: what it writes over the pin that says `path = `, as it reads. */
  predicate IsStable(body: seq<Piece>) {
    Settles(Fill(ReadPieces(body), Pin(VERSION)))
  }

  lemma ProbeBreaks(body: seq<Piece>)
    ensures var written := Fill(body, Pin(VERSION));
            (Broken(written) <==> BodyBreaks(body)) && ('"' in written <==> !IsQuoteFree(body))
  {
    hide Fill, Pin, Broken;
    VersionIsPlainText();
    PinHasNoBreak(VERSION);
    FillBreaks(body, Pin(VERSION));
    BrokenIff(Fill(body, Pin(VERSION)));
    PinStarts(VERSION);
    FillQuotes(body, Pin(VERSION));
  }

  lemma StableIsSettled(members: set<string>, body: seq<Piece>, raw: string)
    requires IsStable(body)
    ensures RepinnedFile(members, body, RepinnedFile(members, body, raw)) == RepinnedFile(members, body, raw)
  {
    hide ReadText, ReadPieces, Fill, Pin, RepinLines, SplitLines, Repinned, BodyBreaks, Settles, IsPlain;
    var text, read := ReadText(raw), ReadPieces(body);
    ReadingTwice(raw);
    ReadPiecesKeeps(body);
    ProbeBreaks(read);
    ReadRepinned(members, body, text);
    if BodyBreaks(body) {
      OnePinDecides(read);
      SplittingGivesLines(text);
      RepinnedIs(text, members, read);
      RepinnedLinesAreFixed(SplitLines(text), members, read, body);
    } else {
      StableWithoutBreaks(body);
      RepinningIsLineByLine(text, members, body);
      RepinningIsIdempotent(text, members, body);
      RepinningIsLineByLine(Repinned(text, members, body), members, body);
    }
  }

  lemma RepinnedIs(text: string, members: set<string>, body: seq<Piece>)
    ensures Repinned(text, members, body) == JoinLines(RepinLines(SplitLines(text), members, body))
  {}

  lemma StableWithoutBreaks(body: seq<Piece>)
    requires !BodyBreaks(body)
    ensures ReadPieces(body) == body && (IsStable(body) <==> IsQuoteFree(body)) && (IsStable(body) <==> IsPlain(body))
  {
    hide Fill, Pin, Broken;
    ReadPiecesKeeps(body);
    ProbeBreaks(body);
  }

  // ---- Where the condition fails ----

  /** Nothing on the way to the pin can open one, so it stays as it is. */
  lemma {:induction false} SubSkips(body: seq<Piece>, head: string, s: string, lineStart: bool, later: bool)
    requires 'v' !in head
    ensures Sub(PIN_SITE, body, head + s, lineStart) == head + Sub(PIN_SITE, body, s, later)
  {
    hide Opens, Fill, Body, After, Matched;
    PinParts();
    var all := head + s;
    if head == "" {
      assert all == s;
    } else {
      OpeningAt(all);
      TailOfConcat(head, s);
      SubSkips(body, head[1..], s, all[0] == '\n', later);
      assert head == [head[0]] + head[1..];
    }
  }

  lemma TailOfConcat(head: string, s: string)
    requires head != ""
    ensures (head + s)[0] == head[0] && head[0] in head && (head + s)[1..] == head[1..] + s
  {}

  lemma OneLine(line: string)
    requires line != "" && (forall k | 0 <= k < |line| :: !IsBreak(line[k]))
    ensures ReadText(line) == line && SplitLines(line) == [line]
  {
    assert '\r' !in line by { assert IsBreak('\r'); }
    NoReturn(line);
    NothingSplits();
    SplitOneLine(line, "");
    assert line + "" == line;
  }

  lemma RepinningOneLine(line: string, members: set<string>, body: seq<Piece>)
    requires line != "" && (forall k | 0 <= k < |line| :: !IsBreak(line[k])) && Touched(line, members)
    ensures RepinnedFile(members, body, line) == Sub(PIN_SITE, body, line, true)
    ensures Repinned(line, members, body) == Sub(PIN_SITE, body, line, true)
  {
    hide Sub, Touched, ReadText, SplitLines;
    OneLine(line);
    var after := Sub(PIN_SITE, body, line, true);
    assert RepinLines([line], members, body) == [after];
    assert [after][1..] == [] && after + "" == after;
    NothingSplits();
  }

  lemma WitnessIsOneLine()
    ensures forall k | 0 <= k < |Witness(VERSION)| :: !IsBreak(Witness(VERSION)[k])
    ensures Witness(VERSION) != ""
  {
    hide IsBreak;
    WitnessParts();
    TailParts();
    PinParts();
    QuoteIsNoBreak();
  }

  /** The first repinning of the witness. */
  lemma WitnessOnce(members: set<string>, body: seq<Piece>)
    requires "m" in members
    ensures RepinnedFile(members, body, Witness(VERSION)) == Witness(Fill(body, Pin(VERSION)))
    ensures Repinned(Witness(VERSION), members, body) == Witness(Fill(body, Pin(VERSION)))
  {
    hide Sub, Fill, IsBreak, HasPin, RepinnedFile, Repinned;
    var rest := PIN_SITE.open + VERSION + "\"" + TAIL;
    WitnessIsOneLine();
    WitnessParts();
    TailParts();
    PathHere(rest);
    RepinningOneLine(Witness(VERSION), members, body);
    SubSkips(body, PATH, rest, true, true);
    VersionIsPlainText();
    SubOfWritten(PIN_SITE, VERSION, body, TAIL, true);
    NoOpeningWithoutV(TAIL);
    NoPinNoChange(body, TAIL, false);
  }

  /** Every directory that a line of the text names. */
  function Targets(lines: seq<string>): set<string> {
    set line | line in lines && Target(line).Some? :: Target(line).value
  }

  lemma {:induction false} UnsettledLine(text: string) returns (line: string)
    requires !AllSettled(text)
    ensures line in SplitLines(text) && HasTarget(line) && HasPin(line)
    decreases |text|
  {
    hide HasPin, HasTarget, LineLength;
    var n := LineLength(text);
    if !Settled(text[..n]) {
      line := text[..n];
    } else {
      line := UnsettledLine(text[n..]);
    }
  }

  /** Repinning a text that is not settled makes more lines of it, in what is written and in what is read back. */
  lemma UnsettledGrows(members: set<string>, body: seq<Piece>, raw: string)
    requires BodyBreaks(body) && !AllSettled(ReadText(raw)) && Targets(SplitLines(ReadText(raw))) <= members
    ensures RepinnedFile(members, body, raw) != raw
  {
    hide SplitLines, AllSettled, HasPin, ReadText, BodyBreaks, RepinLines, Sub, Target, ReadPieces, Repinned;
    var text, read := ReadText(raw), ReadPieces(body);
    var lines := SplitLines(text);
    ReadingTwice(raw);
    var line := UnsettledLine(text);
    assert Target(line).value in Targets(lines);
    assert Touched(line, members);
    SplittingGivesLines(text);
    LinesOfAText(lines, members, body);
    ReadPiecesKeeps(body);
    LinesOfAText(lines, members, read);
    RepinnedIs(text, members, body);
    RepinnedIs(text, members, read);
    ReadRepinned(members, body, text);
  }

  lemma BrokenUnsettles(body: seq<Piece>)
    requires BodyBreaks(body) && !IsStable(body)
    ensures exists members, raw :: RepinnedFile(members, body, RepinnedFile(members, body, raw)) != RepinnedFile(members, body, raw)
  {
    hide Fill, Pin, Settles, Broken, AllSettled, BodyBreaks, RepinnedFile, Repinned, ReadText, Witness, SplitLines, Targets, ReadPieces;
    var read := ReadPieces(body);
    var text := Witness(Fill(read, Pin(VERSION)));
    ReadPiecesKeeps(body);
    ProbeBreaks(read);
    WitnessIsUnsettled(Fill(read, Pin(VERSION)));
    var members := Targets(SplitLines(text)) + {"m"};
    var raw := Witness(VERSION);
    WitnessOnce(members, body);
    WitnessOnce(members, read);
    WitnessIsOneLine();
    OneLine(raw);
    ReadingTwice(raw);
    ReadRepinned(members, body, raw);
    UnsettledGrows(members, body, RepinnedFile(members, body, raw));
  }

  lemma QuotedUnsettles(body: seq<Piece>)
    requires !BodyBreaks(body) && !IsQuoteFree(body)
    ensures exists members, raw :: RepinnedFile(members, body, RepinnedFile(members, body, raw)) != RepinnedFile(members, body, raw)
  {
    hide Fill, Sub, IsBreak, RepinnedFile, Target, BodyBreaks, IsQuoteFree;
    var members, pin := {"m"}, PIN_SITE.open + "\"";
    var written := Fill(body, pin);
    var raw, once := PATH + pin, PATH + (PIN_SITE.open + written + "\"");
    WitnessParts();
    PinParts();
    QuoteIsNoBreak();
    FillBreaks(body, pin);
    PathHere(pin);
    RepinningOneLine(raw, members, body);
    SubSkips(body, PATH, pin, true, true);
    WritingOnce(PIN_SITE, body);
    PathHere(PIN_SITE.open + written + "\"");
    assert once == PATH + PIN_SITE.open + written + "\"";
    RepinningOneLine(once, members, body);
    SubSkips(body, PATH, PIN_SITE.open + written + "\"", true, true);
    FillQuotes(body, pin);
    WritingGrows(PIN_SITE, body, written);
    assert RepinnedFile(members, body, raw) == once;
  }

  /**
    * Repinning a second time changes nothing, whatever the file and whatever the members, exactly when what the
    * version's expansion makes of the pin that says `path = ` settles.
    */
  lemma RepinningIsIdempotentIff(version: string)
    requires Expand(version).Some?
    ensures var body := Expand(version).value;
            (forall members, raw :: RepinnedFile(members, body, RepinnedFile(members, body, raw)) == RepinnedFile(members, body, raw))
            <==> IsStable(body)
  {
    hide Expand, RepinnedFile, IsStable, BodyBreaks;
    var body := Expand(version).value;
    if IsStable(body) {
      forall members, raw
        ensures RepinnedFile(members, body, RepinnedFile(members, body, raw)) == RepinnedFile(members, body, raw)
      {
        StableIsSettled(members, body, raw);
      }
    } else if BodyBreaks(body) {
      BrokenUnsettles(body);
    } else {
      StableWithoutBreaks(body);
      QuotedUnsettles(body);
    }
  }

  // ---- The condition in simpler cases ----

  ghost predicate EndsWith(s: string, suffix: string) {
    |suffix| <= |s| && s[|s| - |suffix|..] == suffix
  }

  const KEY: string := "version = "

  lemma {:induction false} OpeningAtTheEnd(s: string)
    requires '"' !in s
    ensures Occurs(PIN_SITE.open, s + "\"=") <==> EndsWith(s, KEY)
  {
    var t := s + "\"=";
    PinParts();
    assert PIN_SITE.open == KEY + "\"=" by { assert KEY == "version = "; }
    assert t[|s|] == '"' && forall k | 0 <= k < |s| :: t[k] == s[k];
    assert PIN_SITE.open <= t <==> s == KEY by {
      if PIN_SITE.open <= t {
        assert t[10] == '"' && |s| == 10;
        assert s == t[..10] == KEY;
      }
    }
    if s == "" {
      assert t[1..] == "=";
      if Occurs(PIN_SITE.open, t) {
        OccursFits(PIN_SITE.open, t);
      }
    } else {
      assert t[1..] == s[1..] + "\"=";
      OpeningAtTheEnd(s[1..]);
      EndsWithTail(s);
    }
  }

  lemma EndsWithTail(s: string)
    requires s != ""
    ensures EndsWith(s, KEY) <==> s == KEY || EndsWith(s[1..], KEY)
  {
    if |s| > 10 {
      assert s[|s| - 10..] == s[1..][|s| - 11..];
    }
  }

  lemma {:induction false} RestOfQuoteFree(written: string)
    requires '"' !in written
    ensures RestSettles(written) <==> !EndsWith(written, KEY)
    decreases |written|
  {
    hide HasPin, HasTarget, Occurs, LineLength;
    var n := LineLength(written);
    OpeningAtTheEnd(written);
    if Broken(written) {
      NoQuoteIsNoPin(written[..n]);
      RestOfQuoteFree(written[n..]);
      KeyBehindABreak(written, n);
    }
  }

  /** The key has no break, so it stands behind the last one. */
  lemma KeyBehindABreak(s: string, n: nat)
    requires 0 < n <= |s| && IsBreak(s[n - 1])
    ensures EndsWith(s, KEY) <==> EndsWith(s[n..], KEY)
  {
    assert KEY == "version = ";
    assert forall k | 0 <= k < 10 :: !IsBreak(KEY[k]);
    var m := |s| - 10;
    if n <= m {
      assert s[n..][m - n..] == s[m..];
    } else if m >= 0 {
      assert s[m..][n - 1 - m] == s[n - 1];
    }
  }

  /**
    * Without a break in it a body is stable just when it is text without a quote. Text without a quote is stable just
    * when it has no break or, as it reads, does not end in the key of a pin.
    */
  lemma StableInSimpleCases(body: seq<Piece>)
    ensures !BodyBreaks(body) ==> (IsStable(body) <==> IsQuoteFree(body))
    ensures IsQuoteFree(body) ==> (IsStable(body) <==> !BodyBreaks(body) || !EndsWith(Fill(ReadPieces(body), ""), KEY))
  {
    hide Fill, Pin, Broken, BodyBreaks, IsQuoteFree, LineLength, RestSettles;
    var read := ReadPieces(body);
    ReadPiecesKeeps(body);
    ProbeBreaks(read);
    if !BodyBreaks(body) {
      StableWithoutBreaks(body);
    } else if IsQuoteFree(body) {
      QuoteFreeFill(read, Pin(VERSION));
      var written := Fill(read, "");
      var n := LineLength(written);
      BrokenBehind(written);
      RestOfQuoteFree(written[n..]);
    }
  }

  lemma BrokenBehind(written: string)
    ensures var n := LineLength(written);
            ('"' !in written ==> '"' !in written[..n] && '"' !in written[n..])
            && (Broken(written) ==> (EndsWith(written, KEY) <==> EndsWith(written[n..], KEY)))
  {
    if Broken(written) {
      KeyBehindABreak(written, LineLength(written));
    }
  }

  /** A reference alone does no harm between two breaks: no line then has both a path and a pin. */
  lemma ReferenceBetweenBreaks()
    ensures IsStable([Char('\n'), Whole, Char('\n')])
  {
    var body := [Char('\n'), Whole, Char('\n')];
    assert body[1..] == [Whole, Char('\n')] && [Whole, Char('\n')][1..] == [Char('\n')] && [Char('\n')][1..] == [];
    assert ReadPieces(body) == body by {
      ReadPiecesPlain(body);
    }
    var pin := Pin(VERSION);
    var written, rest := "\n" + (pin + "\n"), pin + "\n";
    assert Fill(body, pin) == written by {
      FillStep(Char('\n'), [Whole, Char('\n')], pin);
      FillStep(Whole, [Char('\n')], pin);
      FillOfOne('\n', pin);
      assert body == [Char('\n')] + [Whole, Char('\n')] && [Whole] + [Char('\n')] == [Whole, Char('\n')];
    }
    FirstBreak('\n', rest);
    assert Broken(written) && LineLength(written) == 1;
    VersionIsPlainText();
    PinHasNoBreak(VERSION);
    FirstLineOfThese(pin, '\n', "");
    assert pin + ['\n'] + "" == rest;
    NoPathInAPin();
    EndSettles();
  }

  lemma {:induction false} ReadPiecesPlain(body: seq<Piece>)
    requires Char('\r') !in body
    ensures ReadPieces(body) == body
  {
    if body != [] {
      ReadPiecesPlain(body[1..]);
      assert body == [body[0]] + body[1..];
    }
  }

  lemma EndSettles()
    ensures RestSettles("")
  {
    OpeningAtTheEnd("");
    assert KEY == "version = ";
  }

  lemma NoPathInAPin()
    ensures !HasTarget(Pin(VERSION) + "\n")
  {
    VersionIsPlainText();
    assert "\n"[1..] == "" && !HasTarget("\n");
    if HasTarget(Pin(VERSION) + "\n") {
      PathBehindAPin(VERSION, "\n");
    }
  }

  // ---- Framing, down to the line breaks ----

  /** What becomes of a line of the file when the file is written. */
  function Image(members: set<string>, body: seq<Piece>, rawLine: string): string {
    RepinLine(ReadText(rawLine), members, body)
  }

  function Images(members: set<string>, body: seq<Piece>, rawLines: seq<string>): seq<string> {
    seq(|rawLines|, k requires 0 <= k < |rawLines| => Image(members, body, rawLines[k]))
  }

  /** Some pin on a line with a path into the workspace does not say what the version makes of it. */
  predicate SomePinMoves(members: set<string>, body: seq<Piece>, lines: seq<string>) {
    exists k | 0 <= k < |lines| :: Touched(lines[k], members) && !AllSay(PIN_SITE, body, Bodies(PIN_SITE, lines[k], true))
  }

  /** A file is written exactly when a pin moves. */
  predicate Wrote(members: set<string>, body: seq<Piece>, raw: string) {
    SomePinMoves(members, body, SplitLines(ReadText(raw)))
  }

  lemma LinesChangeIff(members: set<string>, body: seq<Piece>, lines: seq<string>)
    ensures RepinLines(lines, members, body) != lines <==> SomePinMoves(members, body, lines)
  {
    hide Sub, Touched, AllSay, Bodies;
    var after := RepinLines(lines, members, body);
    forall k | 0 <= k < |lines|
      ensures after[k] != lines[k] <==>
              Touched(lines[k], members) && !AllSay(PIN_SITE, body, Bodies(PIN_SITE, lines[k], true))
    {
      SubChangesNothingIff(PIN_SITE, body, lines[k], true);
    }
  }

  /** A written file is its lines' images, one after the other. */
  lemma WrittenLineByLine(members: set<string>, body: seq<Piece>, raw: string)
    ensures RepinnedFile(members, body, raw)
            == if Wrote(members, body, raw) then JoinLines(Images(members, body, RawLines(raw))) else raw
  {
    hide ReadText, SplitLines, RawLines, RepinLine, SomePinMoves;
    SplittingTheRead(raw);
    LinesChangeIff(members, body, SplitLines(ReadText(raw)));
    assert RepinLines(ReadLines(RawLines(raw)), members, body) == Images(members, body, RawLines(raw));
  }

  /** The line carries no path into the workspace. */
  predicate IsForeign(members: set<string>, rawLine: string) {
    !Touched(ReadText(rawLine), members)
  }

  ghost predicate ForeignLinesStay(members: set<string>, raw: string, file: string) {
    && |RawLines(file)| == |RawLines(raw)|
    && forall k | 0 <= k < |RawLines(raw)| && IsForeign(members, RawLines(raw)[k]) :: RawLines(file)[k] == RawLines(raw)[k]
  }

  ghost predicate SomeForeignLineReturns(members: set<string>, raw: string) {
    exists k | 0 <= k < |RawLines(raw)| && IsForeign(members, RawLines(raw)[k]) :: ReturnsCarriage(RawLines(raw)[k])
  }

  /**
    * The lines without a path into the workspace stay as they are and where they are, to the byte, exactly when no pin
    * moves or the version has no line break and none of those lines ends in a carriage return.
    */
  lemma ForeignLinesStayIff(members: set<string>, body: seq<Piece>, raw: string)
    ensures ForeignLinesStay(members, raw, RepinnedFile(members, body, raw))
            <==> !Wrote(members, body, raw)
                 || (!BodyBreaks(body) && !SomeForeignLineReturns(members, raw))
  {
    hide Wrote, BodyBreaks, RepinnedFile, SomeForeignLineReturns, ReadText, SplitLines, RawLines;
    WrittenLineByLine(members, body, raw);
    if Wrote(members, body, raw) {
      if BodyBreaks(body) {
        BreaksMakeLines(members, body, raw);
      } else {
        WithoutBreaksForeignLinesStayIff(members, body, raw);
      }
    }
  }

  lemma WithoutBreaksForeignLinesStayIff(members: set<string>, body: seq<Piece>, raw: string)
    requires !BodyBreaks(body) && Wrote(members, body, raw)
    ensures ForeignLinesStay(members, raw, RepinnedFile(members, body, raw)) <==> !SomeForeignLineReturns(members, raw)
  {
    hide ReadText, SplitLines, RawLines, Repinned, BodyBreaks, Sub, Target, ReturnsCarriage, ReadPieces, SomePinMoves;
    var text, after := ReadText(raw), RepinnedFile(members, body, raw);
    LinesChangeIff(members, body, SplitLines(text));
    SplittingTheRead(raw);
    RepinningIsLineByLine(text, members, body);
    ReadingTwice(raw);
    ReadPiecesKeeps(body);
    ReadRepinned(members, body, text);
    RawLinesOfRead(after);
    assert RawLines(after) == RepinLines(ReadLines(RawLines(raw)), members, body);
  }

  /** A version with a line break makes more lines of a file that it is written to. */
  lemma BreaksMakeLines(members: set<string>, body: seq<Piece>, raw: string)
    requires BodyBreaks(body) && Wrote(members, body, raw)
    ensures |RawLines(RepinnedFile(members, body, raw))| > |RawLines(raw)|
  {
    hide ReadText, SplitLines, RawLines, RepinLine, BodyBreaks, ReadPieces, SomePinMoves, Touched, HasPin;
    var text, after, read := ReadText(raw), RepinnedFile(members, body, raw), ReadPieces(body);
    var lines := SplitLines(text);
    LinesChangeIff(members, body, lines);
    var line := ChangedLine(members, body, lines);
    SplittingGivesLines(text);
    ReadPiecesKeeps(body);
    LinesOfAText(lines, members, read);
    ReadingTwice(raw);
    ReadRepinned(members, body, text);
    SplittingTheRead(raw);
    SplittingTheRead(after);
  }

  lemma ChangedLine(members: set<string>, body: seq<Piece>, lines: seq<string>) returns (line: string)
    requires RepinLines(lines, members, body) != lines
    ensures line in lines && Touched(line, members) && HasPin(line)
  {
    hide Touched, HasPin, Sub;
    var k :| 0 <= k < |lines| && RepinLine(lines[k], members, body) != lines[k];
    line := lines[k];
    if !HasPin(line) {
      NoPinNoChange(body, line, true);
    }
  }

  /** A text without carriage returns has the lines that are read. */
  lemma RawLinesOfRead(text: string)
    requires ReadText(text) == text
    ensures RawLines(text) == SplitLines(text)
  {
    hide ReadText, SplitLines, RawLines, ReturnsCarriage;
    SplittingTheRead(text);
    ReadingTwice(text);
    var lines := RawLines(text);
    PartsHaveNoReturn(lines);
    forall k | 0 <= k < |lines|
      ensures ReadText(lines[k]) == lines[k]
    {
      NoReturn(lines[k]);
    }
    assert ReadLines(lines) == lines;
  }

  lemma {:induction false} PartsHaveNoReturn(lines: seq<string>)
    requires '\r' !in JoinLines(lines)
    ensures forall line | line in lines :: '\r' !in line
  {
    if lines != [] {
      var first, rest := lines[0], JoinLines(lines[1..]);
      assert forall c | c in first :: c in first + rest;
      assert forall c | c in rest :: c in first + rest;
      PartsHaveNoReturn(lines[1..]);
    }
  }

  /** An empty line with a carriage return, above a pin that is moved: it loses the carriage return. */
  lemma ForeignLineChanges()
    ensures var raw, body := "\r\n" + (PATH + Pin("1")), Literal("2");
            && IsForeign({"m"}, RawLines(raw)[0]) && RawLines(raw)[0] == "\r\n"
            && RepinnedFile({"m"}, body, raw) == "\n" + (PATH + Pin("2"))
            && !ForeignLinesStay({"m"}, raw, RepinnedFile({"m"}, body, raw))
  {
    hide Sub, Pin, Target, ForeignLinesStay, IsBreak, RawLines, SplitLines, ReadText, Literal, ReturnsCarriage;
    var members, body := {"m"}, Literal("2");
    var line, after := PATH + Pin("1"), PATH + Pin("2");
    PinnedLine("1");
    PinnedLine("2");
    WritingPin(body);
    LineBehindABlank(line);
    BlankIsForeign();
    assert RepinLines(["\n", line], members, body) == ["\n", after];
    TwoLines("\n", after);
    PinsDiffer();
    PlainDigit();
    BlankReturns();
    LinesChangeIff(members, body, ["\n", line]);
    ForeignLinesStayIff(members, body, "\r\n" + line);
  }

  lemma LineBehindABlank(line: string)
    requires line != "" && (forall k | 0 <= k < |line| :: !IsBreak(line[k]))
    ensures var raw := "\r\n" + line;
            RawLines(raw) == ["\r\n", line] && ReadText(raw) == "\n" + line && SplitLines(ReadText(raw)) == ["\n", line]
    ensures ReadText("\r\n") == "\n"
  {
    var raw := "\r\n" + line;
    OneLine(line);
    RawLinesOfRead(line);
    assert raw[2..] == line && RawLength(raw) == 2 && raw[..2] == "\r\n";
    ReadingABreak("\r\n");
    FirstBreak('\n', line);
    assert "\n" + line == ['\n'] + line;
  }

  lemma TwoLines(one: string, other: string)
    ensures JoinLines([one, other]) == one + other
  {
    NothingSplits();
    assert [one, other][1..] == [other] && [other][1..] == [] && other + "" == other;
    assert JoinLines([other]) == other;
  }

  lemma PinsDiffer()
    ensures PATH + Pin("1") != PATH + Pin("2")
  {
    assert (PATH + Pin("1"))[|PATH| + 12] == '1' && (PATH + Pin("2"))[|PATH| + 12] == '2' by {
      PinParts();
    }
  }

  lemma BlankReturns()
    ensures ReturnsCarriage("\r\n")
  {}

  lemma PlainDigit()
    ensures !BodyBreaks(Literal("2"))
  {}

  lemma PinnedLine(version: string)
    requires version == "1" || version == "2"
    ensures var line := PATH + Pin(version);
            line != "" && Target(line) == Some("m") && forall k | 0 <= k < |line| :: !IsBreak(line[k])
  {
    PathHere(Pin(version));
    WitnessParts();
    PinHasNoBreak(version);
  }

  lemma WritingPin(body: seq<Piece>)
    requires body == Literal("2")
    ensures Sub(PIN_SITE, body, PATH + Pin("1"), true) == PATH + Pin("2")
  {
    WitnessParts();
    SubSkips(body, PATH, Pin("1"), true, true);
    SubOfWritten(PIN_SITE, "1", body, "", true);
    FillOfLiteral("2", Pin("1"));
    SubOfNothing(PIN_SITE, body);
    assert Pin("1") + "" == Pin("1") && Pin("2") + "" == Pin("2");
  }

  lemma BlankIsForeign()
    ensures Target("\n") == None
  {
    assert "\n"[1..] == "";
  }
}
