/** Which texts can pass for several chunks once they are in a transcript (scrybe-core/src/notes.rs). */
module TranscriptForgery {
  import opened Wrappers
  import opened Text
  import opened Transcript

  // ---- Heads that chunks have ----

  const LABELS: set<string> := {"Me", "Them", "Named", "Unknown"}

  /** What follows a head that some chunk renders, at the start of `s`. */
  function BehindHead(s: string): (rest: Option<string>)
    ensures rest.Some? ==> |rest.value| < |s|
  {
    match Fields(s, "**", '*', "* [", ']', ": ")
    case None => None
    case Some((speaker, stamp, rest)) =>
      FieldsBack(s, "**", '*', "* [", ']', ": ");
      if speaker in LABELS && ParseHms(stamp).Some? && FormatHms(1000 * ParseHms(stamp).value) == stamp then Some(rest) else None
  }

  lemma FieldsBack(line: string, open: string, c: char, middle: string, d: char, close: string)
    requires Fields(line, open, c, middle, d, close).Some?
    ensures var (a, b, t) := Fields(line, open, c, middle, d, close).value;
            line == open + (a + ([c] + (middle + (b + ([d] + (close + t))))))
  {
    hide SplitOnce, StripPrefix;
    var body := StripPrefix(line, open).value;
    var (first, rest) := SplitOnce(body, c).value;
    var stamped := StripPrefix(rest, middle).value;
    var (second, tail) := SplitOnce(stamped, d).value;
    StripPrefixBack(line, open);
    SplitOnceBack(body, c);
    StripPrefixBack(rest, middle);
    SplitOnceBack(stamped, d);
    StripPrefixBack(tail, close);
  }

  lemma StripPrefixBack(s: string, prefix: string)
    ensures StripPrefix(s, prefix).Some? ==> s == prefix + StripPrefix(s, prefix).value
  {}

  lemma SplitOnceBack(s: string, c: char)
    ensures SplitOnce(s, c).Some? ==> s == SplitOnce(s, c).value.0 + ([c] + SplitOnce(s, c).value.1)
  {}

  lemma HeadFields(chunk: AttributedChunk, text: string)
    ensures Fields(Head(chunk) + text, "**", '*', "* [", ']', ": ")
            == Some((LabelFor(chunk.speaker), FormatHms(chunk.startMs), text))
  {
    hide Fields, FormatHms;
    var speaker, stamp := LabelFor(chunk.speaker), FormatHms(chunk.startMs);
    StampCharacters(chunk.startMs);
    assert '*' !in speaker && ']' !in stamp;
    FieldsOf("**", speaker, '*', "* [", stamp, ']', ": ", text);
    HeadOf(chunk, text);
  }

  lemma HeadIsFound(chunk: AttributedChunk, text: string)
    ensures BehindHead(Head(chunk) + text) == Some(text)
  {
    hide Fields, ParseHms, Head;
    HeadFields(chunk, text);
    TimestampRoundTrips(chunk.startMs);
    assert LabelFor(chunk.speaker) in LABELS;
    assert 1000 * (chunk.startMs / 1000) / 1000 == chunk.startMs / 1000;
  }

  /** The speaker with a given label. */
  function SpeakerOf(name: string): (speaker: SpeakerLabel)
    requires name in LABELS
    ensures LabelFor(speaker) == name
  {
    if name == "Me" then Me else if name == "Them" then Them else if name == "Named" then Named("") else Unknown
  }

  lemma FoundIsHead(s: string) returns (chunk: AttributedChunk)
    requires BehindHead(s).Some?
    ensures s == Head(chunk) + BehindHead(s).value
  {
    hide Fields, ParseHms, FormatHms, SpeakerOf, LabelFor;
    var (speaker, stamp, rest) := Fields(s, "**", '*', "* [", ']', ": ").value;
    FieldsBack(s, "**", '*', "* [", ']', ": ");
    chunk := AttributedChunk(SpeakerOf(speaker), 1000 * ParseHms(stamp).value, "");
    HeadOf(chunk, rest);
  }

  lemma HeadOf(chunk: AttributedChunk, text: string)
    ensures Head(chunk) + text ==
            "**" + (LabelFor(chunk.speaker) + (['*'] + ("* [" + (FormatHms(chunk.startMs) + ([']'] + (": " + text))))))
  {
    hide FormatHms, LabelFor;
    NestLine("**", LabelFor(chunk.speaker), '*', "* [", FormatHms(chunk.startMs), ']', ": ", text);
    assert ['*'] + "* [" == "** [" && [']'] + ": " == "]: ";
  }

  // ---- Forged texts ----

  /** A rendered head and text behind it; or, for an empty text, a line feed and the next chunk. */
  predicate Opened(s: string)
    decreases |s|
  {
    match BehindHead(s)
    case None => false
    case Some(rest) => rest != "" && (!IsWhitespace(rest[0]) || (rest[0] == '\n' && Opened(rest[1..])))
  }

  /** Behind text and a line feed another chunk seems to open. */
  predicate Forged(text: string) {
    exists i | 0 <= i < |text| :: ForgedAt(text, i)
  }

  predicate ForgedAt(text: string, i: nat)
    requires i < |text|
  {
    text[i] == '\n' && (i == 0 || !IsWhitespace(text[i - 1])) && Opened(text[i + 1..])
  }

  /** A text that is trimmed ends in something else than white space. */
  ghost predicate EndsWell(s: string) {
    s != "" && !IsWhitespace(s[|s| - 1])
  }

  lemma TrimIsTrimmed(s: string)
    ensures Trimmed(Trim(s), IsWhitespace)
  {
    var _, _ := TrimMatchesIsPiece(s, IsWhitespace);
  }

  lemma HeadEnds(chunk: AttributedChunk)
    ensures Head(chunk) != "" && Head(chunk)[|Head(chunk)| - 1] == ' ' && '\n' !in Head(chunk)
  {
    HeadIsRead(chunk, "");
  }

  lemma RenderFirst(chunks: seq<AttributedChunk>)
    requires chunks != []
    ensures Render(chunks) == Head(chunks[0]) + (Trim(chunks[0].text) + "\n" + Render(chunks[1..]))
  {
    hide Head, Trim, RenderLine, LineBody;
    BodyIsHeadAndText(chunks[0]);
    var head, text, rest := Head(chunks[0]), Trim(chunks[0].text), Render(chunks[1..]);
    Reassociate(head, text, "\n");
    Reassociate(head, text + "\n", rest);
  }

  /** What a rendering starts with, up to a line feed, seems to open a chunk, unless it ends in white space. */
  lemma {:induction false} RenderedIsOpened(chunks: seq<AttributedChunk>, s: string, more: string)
    requires s + "\n" + more == Render(chunks) && EndsWell(s)
    ensures Opened(s)
    decreases |chunks|
  {
    hide Head, Trim, BehindHead, Render;
    NothingRendered();
    var chunk := chunks[0];
    var head, text, rest := Head(chunk), Trim(chunk.text), Render(chunks[1..]);
    RenderFirst(chunks);
    HeadEnds(chunk);
    TrimIsTrimmed(chunk.text);
    HeadComesFirst(s, more, head, text + "\n" + rest);
    var behind := s[|head|..];
    assert EndsWell(behind) && behind[|behind| - 1] == s[|s| - 1];
    HeadIsFound(chunk, behind);
    if text == "" {
      EmptyTextBehind(behind, more, rest);
      RenderedIsOpened(chunks[1..], behind[1..], more);
    } else {
      assert behind[0] == (behind + "\n" + more)[0] == text[0];
    }
  }

  lemma EmptyTextBehind(behind: string, more: string, rest: string)
    requires behind + "\n" + more == "" + "\n" + rest && EndsWell(behind)
    ensures behind[0] == '\n' && EndsWell(behind[1..]) && behind[1..] + "\n" + more == rest
  {
    var all := behind + "\n" + more;
    assert all[0] == behind[0] == '\n' && IsWhitespace('\n');
    assert all[1..] == behind[1..] + "\n" + more && all[1..] == rest;
  }

  lemma NothingRendered()
    ensures Render([]) == ""
  {}

  lemma NothingOnlyOfNothing(chunks: seq<AttributedChunk>)
    ensures Render(chunks) == "" <==> chunks == []
  {
    if chunks != [] {
      RenderFirst(chunks);
      HeadEnds(chunks[0]);
    }
  }

  /** A head has no line feed, so it stands within a text that ends before one; and it is not all of that text. */
  lemma HeadComesFirst(s: string, more: string, head: string, tail: string)
    requires s + "\n" + more == head + tail && EndsWell(s)
    requires head != "" && head[|head| - 1] == ' ' && '\n' !in head
    ensures |head| < |s| && s == head + s[|head|..] && s[|head|..] + "\n" + more == tail
  {
    var all := s + "\n" + more;
    assert all[|s|] == '\n';
    assert forall k | 0 <= k < |head| :: all[k] == head[k] && head[k] in head;
    assert |s| >= |head|;
    assert all[|head| - 1] == ' ' && IsWhitespace(' ');
    assert all[|s| - 1] == s[|s| - 1];
    assert s[..|head|] == head by {
      assert forall k | 0 <= k < |head| :: s[k] == all[k];
    }
    assert all[|head|..] == tail && all[|head|..] == s[|head|..] + "\n" + more;
  }

  /** A text that goes on where a shorter one is followed by chunks is forged. */
  lemma LongerIsForged(text: string, more: string, shorter: string, chunks: seq<AttributedChunk>)
    requires text + "\n" + more == shorter + "\n" + Render(chunks) && |shorter| < |text|
    requires Trimmed(text, IsWhitespace) && Trimmed(shorter, IsWhitespace)
    ensures Forged(text)
  {
    hide Opened, Render;
    var all, i := text + "\n" + more, |shorter|;
    assert all[i] == '\n' && text[i] == all[i] && IsWhitespace('\n');
    assert forall k | 0 <= k < i :: shorter[k] == all[k] && text[k] == all[k];
    assert i > 0 && !IsWhitespace(text[i - 1]) && i + 1 < |text|;
    var s := text[i + 1..];
    assert s[|s| - 1] == text[|text| - 1];
    assert all[i + 1..] == s + "\n" + more && all[i + 1..] == Render(chunks);
    RenderedIsOpened(chunks, s, more);
    assert ForgedAt(text, i);
  }

  /** Equal transcripts start with the same label and second, and go on alike. */
  lemma SameHeads(a: AttributedChunk, x: string, b: AttributedChunk, y: string)
    requires Head(a) + x == Head(b) + y
    ensures LabelFor(a.speaker) == LabelFor(b.speaker) && a.startMs / 1000 == b.startMs / 1000 && x == y
  {
    hide Head, Fields, FormatHms, ParseHms;
    HeadFields(a, x);
    HeadFields(b, y);
    TimestampRoundTrips(a.startMs);
    TimestampRoundTrips(b.startMs);
  }

  // ---- Unique decodability ----

  /** If no text is forged, equal transcripts are exactly the pointwise equal ones. */
  lemma {:induction false} TranscriptIsUniquelyDecodable(a: seq<AttributedChunk>, b: seq<AttributedChunk>)
    requires forall i | 0 <= i < |a| :: !Forged(Trim(a[i].text))
    requires forall i | 0 <= i < |b| :: !Forged(Trim(b[i].text))
    ensures Render(a) == Render(b) <==> Views(a) == Views(b)
    decreases |a|
  {
    hide Head, Trim, Forged, View, Render;
    NothingRendered();
    if Views(a) == Views(b) {
      RenderSeesOnlyViews(a, b);
    } else if Render(a) == Render(b) {
      SameFirst(a, b);
      TranscriptIsUniquelyDecodable(a[1..], b[1..]);
      ViewsSplit(a);
      ViewsSplit(b);
    }
  }

  lemma ViewsSplit(chunks: seq<AttributedChunk>)
    requires chunks != []
    ensures Views(chunks) == [View(chunks[0])] + Views(chunks[1..])
  {}

  lemma SameFirst(a: seq<AttributedChunk>, b: seq<AttributedChunk>)
    requires Render(a) == Render(b) && Views(a) != Views(b)
    requires forall i | 0 <= i < |a| :: !Forged(Trim(a[i].text))
    requires forall i | 0 <= i < |b| :: !Forged(Trim(b[i].text))
    ensures a != [] && b != [] && View(a[0]) == View(b[0]) && Render(a[1..]) == Render(b[1..])
  {
    hide Head, Trim, Forged, Render;
    NothingRendered();
    if a != [] { RenderFirst(a); HeadEnds(a[0]); }
    if b != [] { RenderFirst(b); HeadEnds(b[0]); }
    assert a != [] && b != [] by {
      assert a == [] && b == [] ==> Views(a) == [] && Views(b) == [];
    }
    var s, t, x, y := Trim(a[0].text), Trim(b[0].text), Render(a[1..]), Render(b[1..]);
    SameHeads(a[0], s + "\n" + x, b[0], t + "\n" + y);
    TrimIsTrimmed(a[0].text);
    TrimIsTrimmed(b[0].text);
    if |s| < |t| {
      LongerIsForged(t, y, s, a[1..]);
    } else if |t| < |s| {
      LongerIsForged(s, x, t, b[1..]);
    }
    SameLengthSameText(s, x, t, y);
  }

  lemma SameLengthSameText(s: string, x: string, t: string, y: string)
    requires s + "\n" + x == t + "\n" + y && |s| == |t|
    ensures s == t && x == y
  {
    var all := s + "\n" + x;
    assert s == all[..|s|] && x == all[|s| + 1..] && t == (t + "\n" + y)[..|t|] && y == (t + "\n" + y)[|t| + 1..];
  }

  /** The chunks that a text seems to open, rendered, are that text. */
  lemma {:induction false} OpenedIsRendered(s: string) returns (chunks: seq<AttributedChunk>)
    requires Opened(s) && EndsWell(s)
    ensures chunks != [] && Render(chunks) == s + "\n"
    decreases |s|
  {
    hide Head, Trim, BehindHead, Render;
    var chunk := FoundIsHead(s);
    var rest := BehindHead(s).value;
    assert rest[|rest| - 1] == s[|s| - 1];
    NothingRendered();
    var text := if rest[0] == '\n' then "" else rest;
    var later: seq<AttributedChunk> := [];
    if rest[0] == '\n' {
      assert IsWhitespace('\n') && rest[1..] != "" && rest[1..][|rest| - 2] == s[|s| - 1] by {
        NotOpenedIsNothing();
      }
      later := OpenedIsRendered(rest[1..]);
    }
    TrimFixes(text);
    chunks := [chunk.(text := text)] + later;
    RenderFirst(chunks);
    SameHead(chunk, text);
    assert chunks[1..] == later;
    assert text + "\n" + Render(later) == rest + "\n";
  }

  lemma NotOpenedIsNothing()
    ensures !Opened("")
  {}

  lemma TrimFixes(text: string)
    requires Trimmed(text, IsWhitespace)
    ensures Trim(text) == text
  {
    TrimMatchesFixes(text, IsWhitespace);
  }

  lemma SameHead(chunk: AttributedChunk, text: string)
    ensures Head(chunk.(text := text)) == Head(chunk)
  {}

  /** A chunk whose transcript is no other list's, up to what can be read, is exactly one whose text is not forged. */
  lemma ChunkIsUniqueIff(chunk: AttributedChunk)
    ensures (forall others :: Render(others) == Render([chunk]) ==> Views(others) == Views([chunk])) <==> !Forged(Trim(chunk.text))
  {
    hide Trim, Forged, Render, View;
    if Forged(Trim(chunk.text)) {
      var others := Forgery(chunk);
      assert |Views(others)| > 1 && |Views([chunk])| == 1;
    } else {
      forall others | Render(others) == Render([chunk])
        ensures Views(others) == Views([chunk])
      {
        OnlyItself(chunk, others);
      }
    }
  }

  /** A forged text has a list of chunks that it passes for. */
  lemma Forgery(chunk: AttributedChunk) returns (others: seq<AttributedChunk>)
    requires Forged(Trim(chunk.text))
    ensures |others| > 1 && Render(others) == Render([chunk])
  {
    hide Trim, Render, Head, Opened;
    var text := Trim(chunk.text);
    var i :| 0 <= i < |text| && ForgedAt(text, i);
    TrimIsTrimmed(chunk.text);
    assert IsWhitespace('\n');
    var s := text[i + 1..];
    assert s != "" && s[|s| - 1] == text[|text| - 1] by {
      NotOpenedIsNothing();
    }
    var later := OpenedIsRendered(s);
    var first := text[..i];
    assert Trimmed(first, IsWhitespace);
    TrimFixes(first);
    others := [chunk.(text := first)] + later;
    RenderFirst(others);
    RenderFirst([chunk]);
    SameHead(chunk, first);
    NothingRendered();
    assert others[1..] == later && [chunk][1..] == [];
    assert first + "\n" + (s + "\n") == text + "\n" + "";
  }

  lemma OnlyItself(chunk: AttributedChunk, others: seq<AttributedChunk>)
    requires !Forged(Trim(chunk.text)) && Render(others) == Render([chunk])
    ensures Views(others) == Views([chunk])
  {
    hide Trim, Forged, Render, Head;
    NothingRendered();
    RenderFirst([chunk]);
    HeadEnds(chunk);
    assert [chunk][1..] == [];
    RenderFirst(others);
    var s, t, x := Trim(chunk.text), Trim(others[0].text), Render(others[1..]);
    SameHeads(chunk, s + "\n" + "", others[0], t + "\n" + x);
    TrimIsTrimmed(chunk.text);
    TrimIsTrimmed(others[0].text);
    if |t| < |s| {
      LongerIsForged(s, "", t, others[1..]);
    }
    assert |s + "\n" + ""| == |t + "\n" + x|;
    SameLengthSameText(s, "", t, x);
    NothingOnlyOfNothing(others[1..]);
    ViewsSplit(others);
    ViewsSplit([chunk]);
  }

  /** Where the reader can fold a text back, the text is not forged. */
  lemma FoldableIsNotForged(chunk: AttributedChunk)
    requires Foldable(chunk)
    ensures !Forged(Trim(chunk.text))
  {
    hide Trim, Opened, SplitOnce, NoHeads;
    var text := Trim(chunk.text);
    if Forged(text) {
      var i :| 0 <= i < |text| && ForgedAt(text, i);
      var first, s := text[..i], text[i + 1..];
      assert text == first + "\n" + s;
      OpenedHasAHead(s);
      LaterLines(first, s);
      assert false;
    }
  }

  lemma OpenedHasAHead(s: string)
    requires Opened(s)
    ensures !NoHeads(s)
  {
    hide Head, ParseLine, SplitOnce, BehindHead;
    var chunk := FoundIsHead(s);
    var rest := BehindHead(s).value;
    SplitBack(rest);
    match SplitOnce(rest, '\n')
    case None =>
      HeadIsRead(chunk, rest);
      NoBreakNoSplit(s);
    case Some((line, later)) =>
      HeadIsRead(chunk, line);
      assert s == Head(chunk) + line + "\n" + later;
      SplitLine(Head(chunk) + line, later);
  }

  lemma NoBreakNoSplit(s: string)
    ensures '\n' !in s ==> SplitOnce(s, '\n').None?
  {}

  lemma LaterLines(first: string, s: string)
    ensures SplitOnce(first + "\n" + s, '\n').Some?
    ensures NoHeads(SplitOnce(first + "\n" + s, '\n').value.1) ==> NoHeads(s)
  {
    hide SplitOnce, ParseLine;
    SplitBack(first);
    match SplitOnce(first, '\n')
    case None => SplitLine(first, s);
    case Some((line, later)) =>
      assert first + "\n" + s == line + "\n" + (later + "\n" + s);
      SplitLine(line, later + "\n" + s);
      LaterHeadsShow(later, s);
  }

  lemma {:induction false} LaterHeadsShow(lines: string, later: string)
    ensures NoHeads(lines + "\n" + later) ==> NoHeads(later)
    decreases |lines|
  {
    hide ParseLine, SplitOnce;
    SplitBack(lines);
    match SplitOnce(lines, '\n')
    case None => SplitLine(lines, later);
    case Some((line, rest)) =>
      assert lines + "\n" + later == line + "\n" + (rest + "\n" + later);
      SplitLine(line, rest + "\n" + later);
      LaterHeadsShow(rest, later);
  }

  /** A rendered chunk behind another makes a forged text, whatever the two are. */
  lemma LineBreakForgesAChunk(a: AttributedChunk, b: AttributedChunk)
    requires Trim(a.text) != "" && Trim(b.text) != ""
    ensures var forged := a.(text := Trim(a.text) + "\n" + LineBody(b));
            Render([forged]) == Render([a, b]) && Views([forged]) != Views([a, b]) && Forged(Trim(forged.text))
  {
    hide LineBody, RenderLine, View, Trim, BehindHead;
    var forged := a.(text := Trim(a.text) + "\n" + LineBody(b));
    JoinedLinesStayTrimmed(a, b);
    ForgedLine(a, b);
    RenderOfOne(forged);
    RenderOfOne(b);
    assert [a, b][1..] == [b];
    assert |Views([forged])| == 1 && |Views([a, b])| == 2;
    BodyIsHeadAndText(b);
    HeadIsFound(b, Trim(b.text));
    TrimIsTrimmed(a.text);
    TrimIsTrimmed(b.text);
    var text, i := Trim(forged.text), |Trim(a.text)|;
    assert text[i] == '\n' && text[i - 1] == Trim(a.text)[i - 1] && text[i + 1..] == LineBody(b);
    assert ForgedAt(text, i);
  }

  lemma ForgedLine(a: AttributedChunk, b: AttributedChunk)
    requires Trim(Trim(a.text) + "\n" + LineBody(b)) == Trim(a.text) + "\n" + LineBody(b)
    ensures RenderLine(a.(text := Trim(a.text) + "\n" + LineBody(b))) == RenderLine(a) + RenderLine(b)
  {
    hide Trim, FormatHms;
    var forged := a.(text := Trim(a.text) + "\n" + LineBody(b));
    var head := "**" + LabelFor(a.speaker) + "** [" + FormatHms(a.startMs) + "]: ";
    Reassociate(head, Trim(a.text) + "\n", LineBody(b));
    Reassociate(head, Trim(a.text), "\n");
    assert LineBody(forged) == LineBody(a) + "\n" + LineBody(b);
    Reassociate(LineBody(a) + "\n", LineBody(b), "\n");
  }

  lemma RenderOfOne(chunk: AttributedChunk)
    ensures Render([chunk]) == RenderLine(chunk)
  {
    assert [chunk][1..] == [];
  }

  lemma JoinedLinesStayTrimmed(a: AttributedChunk, b: AttributedChunk)
    requires Trim(a.text) != "" && Trim(b.text) != ""
    ensures Trim(Trim(a.text) + "\n" + LineBody(b)) == Trim(a.text) + "\n" + LineBody(b)
  {
    hide TrimMatches, LabelFor, FormatHms, IsWhitespace;
    var _, _ := TrimMatchesIsPiece(a.text, IsWhitespace);
    var _, _ := TrimMatchesIsPiece(b.text, IsWhitespace);
    BodyIsHeadAndText(b);
    TrimmedEnds(Trim(a.text), "\n" + Head(b), Trim(b.text), IsWhitespace);
    assert Trim(a.text) + ("\n" + Head(b)) + Trim(b.text) == Trim(a.text) + "\n" + LineBody(b);
    TrimMatchesFixes(Trim(a.text) + "\n" + LineBody(b), IsWhitespace);
  }

  lemma TrimmedEnds(a: string, middle: string, b: string, p: char -> bool)
    requires a != "" && b != "" && Trimmed(a, p) && Trimmed(b, p)
    ensures Trimmed(a + middle + b, p)
  {}
}
