/**
  * When a second repinning finds something to do: what a body that is written into a pin leaves on the lines it makes.
  */
module VersionBreaks {
  import opened Wrappers
  import opened Text
  import opened VersionLines
  import opened VersionTemplates
  import opened VersionSites
  import opened VersionPins

  // ---- Lines that repinning would change ----

  predicate HasPin(s: string) {
    s != "" && (Opens(PIN_SITE, s) || HasPin(s[1..]))
  }

  predicate HasTarget(line: string) {
    Target(line).Some?
  }

  /** Without a path or without a pin the line is left alone, whatever the members are. */
  predicate Settled(line: string) {
    !(HasTarget(line) && HasPin(line))
  }

  predicate AllSettled(text: string)
    decreases |text|
  {
    text == "" || (Settled(text[..LineLength(text)]) && AllSettled(text[LineLength(text)..]))
  }

  /** The first line of the text has a break. */
  predicate Broken(s: string) {
    s != "" && IsBreak(s[LineLength(s) - 1])
  }

  predicate Occurs(x: string, s: string) {
    x <= s || (s != "" && Occurs(x, s[1..]))
  }

  /**
    * The condition on what is written between a pin's quotes. Without a break it needs to have no quote. With one, no
    * quote may close the pin before the break, no whole line of it may have both a path and a pin, and its last line
    * may not be about to open a pin.
    */
  predicate Settles(written: string) {
    if Broken(written) then '"' !in written[..LineLength(written)] && RestSettles(written[LineLength(written)..])
    else '"' !in written
  }

  predicate RestSettles(written: string)
    decreases |written|
  {
    if Broken(written) then Settled(written[..LineLength(written)]) && RestSettles(written[LineLength(written)..])
    else !Occurs(PIN_SITE.open, written + "\"=")
  }

  /** A pin as it stands in a line. */
  function Pin(version: string): string {
    PIN_SITE.open + version + "\""
  }

  ghost predicate IsPlainText(s: string) {
    '"' !in s && forall k | 0 <= k < |s| :: !IsBreak(s[k])
  }

  /** Whatever the pin it is written over. */
  ghost predicate AlwaysSettles(body: seq<Piece>) {
    forall version | IsPlainText(version) :: Settles(Fill(body, Pin(version)))
  }

  // ---- Small facts ----

  lemma {:induction false} LineLengthAfter(head: string, rest: string)
    requires forall k | 0 <= k < |head| :: !IsBreak(head[k])
    ensures LineLength(head + rest) == |head| + LineLength(rest)
  {
    if head == "" {
      assert head + rest == rest;
    } else {
      assert (head + rest)[1..] == head[1..] + rest;
      LineLengthAfter(head[1..], rest);
    }
  }

  lemma {:induction false} LineLengthWithin(s: string, rest: string)
    requires Broken(s)
    ensures LineLength(s + rest) == LineLength(s)
  {
    if !IsBreak(s[0]) {
      assert (s + rest)[1..] == s[1..] + rest;
      LineLengthWithin(s[1..], rest);
    }
  }

  lemma {:induction false} BrokenIff(s: string)
    ensures Broken(s) <==> HasBreak(s)
  {
    if HasBreak(s) {
      var k :| 0 <= k < |s| && IsBreak(s[k]);
    }
  }

  lemma PinParts()
    ensures |PIN_SITE.open| == 12 && PIN_SITE.open[0] == 'v' && PIN_SITE.open[10] == '"' && PIN_SITE.open[11] == '='
    ensures forall k | 0 <= k < 12 :: !IsBreak(PIN_SITE.open[k]) && (PIN_SITE.open[k] == '"' <==> k == 10)
  {
    assert PIN_SITE.open == "version = \"=";
  }

  /** The characters of an opening, and its closing quote. */
  lemma OpeningAt(s: string)
    ensures Opens(PIN_SITE, s) ==> |s| > 12 && (forall k | 0 <= k < 12 :: s[k] == PIN_SITE.open[k]) && '"' in s[12..]
  {
    PinParts();
    if Opens(PIN_SITE, s) {
      ClosesIffQuoted(s[12..]);
    }
  }

  lemma OpensFurther(a: string, b: string)
    requires Opens(PIN_SITE, a)
    ensures Opens(PIN_SITE, a + b)
  {
    var n := |PIN_SITE.open|;
    assert (a + b)[n..] == a[n..] + b;
    ClosesIffQuoted(a[n..]);
    ClosesIffQuoted(a[n..] + b);
  }

  lemma {:induction false} PinBehind(a: string, b: string)
    requires HasPin(b)
    ensures HasPin(a + b)
  {
    if a == "" {
      assert a + b == b;
    } else {
      assert (a + b)[1..] == a[1..] + b;
      PinBehind(a[1..], b);
    }
  }

  lemma {:induction false} TargetBehind(a: string, b: string)
    requires HasTarget(b)
    ensures HasTarget(a + b)
  {
    if a == "" {
      assert a + b == b;
    } else {
      assert (a + b)[1..] == a[1..] + b;
      TargetBehind(a[1..], b);
    }
  }

  /** A pin takes two quotes. */
  lemma {:induction false} OneQuoteIsNoPin(a: string, b: string)
    requires '"' !in a && '"' !in b
    ensures !HasPin(a + "\"" + b)
  {
    var s := a + "\"" + b;
    PinParts();
    OpeningAt(s);
    assert s[|a|] == '"' && (forall k | 0 <= k < |a| :: s[k] == a[k]) && (forall k | |a| < k < |s| :: s[k] == b[k - |a| - 1]);
    if a == "" {
      assert s[1..] == b;
      NoQuoteIsNoPin(b);
    } else {
      assert s[1..] == a[1..] + "\"" + b;
      OneQuoteIsNoPin(a[1..], b);
    }
  }

  lemma {:induction false} NoQuoteIsNoPin(s: string)
    requires '"' !in s
    ensures !HasPin(s)
  {
    PinParts();
    if s != "" {
      OpeningAt(s);
      assert forall k | 0 <= k < |s| :: s[k] in s;
      NoQuoteIsNoPin(s[1..]);
    }
  }

  /** A pin that starts before a quote opens in what precedes that quote and an equals sign. */
  lemma {:induction false} NoPinAcross(a: string, b: string)
    requires !Occurs(PIN_SITE.open, a + "\"=") && !HasPin(b)
    ensures !HasPin(a + "\"" + b)
  {
    var s, t := a + "\"" + b, a + "\"=";
    NoOpeningAcross(a, b);
    hide Opens;
    if a == "" {
      assert s[1..] == b;
    } else {
      assert s[1..] == a[1..] + "\"" + b && t[1..] == a[1..] + "\"=";
      NoPinAcross(a[1..], b);
    }
  }

  lemma NoOpeningAcross(a: string, b: string)
    requires !(PIN_SITE.open <= a + "\"=")
    ensures !Opens(PIN_SITE, a + "\"" + b)
  {
    hide Opens;
    PinParts();
    var s, t := a + "\"" + b, a + "\"=";
    OpeningAt(s);
    assert s[|a|] == '"' && t[|a|] == '"' && t[|a| + 1] == '=' && forall k | 0 <= k < |a| :: s[k] == a[k] == t[k];
    assert |t| >= 12 && t[..12] == PIN_SITE.open ==> PIN_SITE.open <= t;
  }

  lemma {:induction false} NoPinNoChange(body: seq<Piece>, s: string, lineStart: bool)
    requires !HasPin(s)
    ensures Sub(PIN_SITE, body, s, lineStart) == s
  {
    if s != "" {
      NoPinNoChange(body, s[1..], s[0] == '\n');
      assert s == [s[0]] + s[1..];
    }
  }

  // ---- What repinning leaves behind ----

  /** The first line has no pin, and the others are settled. */
  predicate Calm(text: string) {
    text == "" || (!HasPin(text[..LineLength(text)]) && AllSettled(text[LineLength(text)..]))
  }

  /** Text before a first line becomes part of it. */
  lemma FirstLineGrows(head: string, text: string)
    requires forall k | 0 <= k < |head| :: !IsBreak(head[k])
    ensures var n, first := LineLength(head + text), text[..LineLength(text)];
            && (head + text)[..n] == head + first && (head + text)[n..] == text[LineLength(text)..]
  {
    LineLengthAfter(head, text);
  }

  lemma FirstAndRest(text: string, n: nat)
    requires text != "" && n == LineLength(text)
    ensures AllSettled(text) <==> Settled(text[..n]) && AllSettled(text[n..])
  {}

  /** Behind the first of its breaks the written body ends up in lines of its own; the last one goes on with the text. */
  lemma {:induction false} RestIsSettled(written: string, text: string)
    requires RestSettles(written) && Calm(text)
    ensures AllSettled(written + "\"" + text)
    decreases |written|
  {
    hide HasPin, Settled, Opens, Occurs, LineLength, AllSettled;
    var all, n := written + "\"" + text, LineLength(written);
    if Broken(written) {
      RestIsSettled(written[n..], text);
      assert all == written + ("\"" + text);
      LineLengthWithin(written, "\"" + text);
      assert all[..n] == written[..n] && all[n..] == written[n..] + "\"" + text;
      FirstAndRest(all, n);
    } else {
      BrokenIff(written);
      QuoteIsNoBreak();
      FirstLineGrows(written + "\"", text);
      NoPinInLine(written, text);
      FirstAndRest(all, LineLength(all));
    }
  }

  lemma QuoteIsNoBreak()
    ensures !IsBreak('"')
  {}

  lemma NoPinInLine(written: string, text: string)
    requires !Occurs(PIN_SITE.open, written + "\"=") && Calm(text)
    ensures Settled(written + "\"" + text[..LineLength(text)]) && AllSettled(text[LineLength(text)..])
  {
    NoPinAcross(written, text[..LineLength(text)]);
    NoQuoteIsNoPin("");
  }

  lemma WrittenIsCalm(written: string, text: string)
    requires Broken(written) && Settles(written) && Calm(text)
    ensures Calm(PIN_SITE.open + written + "\"" + text)
  {
    hide HasPin, AllSettled, RestSettles, Settled, LineLength;
    var n := LineLength(written);
    var open, all := PIN_SITE.open, PIN_SITE.open + written + "\"" + text;
    PinParts();
    RestIsSettled(written[n..], text);
    LineLengthWithin(written, "\"" + text);
    LineLengthAfter(open, written + ("\"" + text));
    assert all == open + (written + ("\"" + text));
    assert all[..12 + n] == open + written[..n] && all[12 + n..] == written[n..] + "\"" + text;
    assert open + written[..n] == open[..10] + "\"" + (open[11..] + written[..n]);
    OneQuoteIsNoPin(open[..10], open[11..] + written[..n]);
  }

  lemma CalmIsSettled(text: string)
    requires Calm(text)
    ensures AllSettled(text)
  {}

  lemma ConsIsCalm(c: char, text: string)
    requires !Opens(PIN_SITE, [c] + text) && Calm(text)
    ensures Calm([c] + text)
  {
    hide LineLength;
    var n, all := LineLength(text), [c] + text;
    if IsBreak(c) {
      CalmIsSettled(text);
      FirstBreak(c, text);
      NoPinInOne(c);
    } else {
      FirstLineGrows([c], text);
      var first := text[..n];
      assert [c] + first + text[n..] == all;
      if Opens(PIN_SITE, [c] + first) {
        OpensFurther([c] + first, text[n..]);
      }
      assert ([c] + first)[1..] == first;
      hide Opens;
      NoQuoteIsNoPin("");
    }
  }

  lemma FirstBreak(c: char, text: string)
    requires IsBreak(c)
    ensures LineLength([c] + text) == 1 && ([c] + text)[..1] == [c] && ([c] + text)[1..] == text
  {}

  lemma NoPinInOne(c: char)
    ensures !HasPin([c])
  {
    PinParts();
    assert [c][1..] == "";
  }

  /** Every match of a line is written over; the text that comes out is calm. */
  lemma {:induction false} SubIsCalm(body: seq<Piece>, s: string, lineStart: bool)
    requires AlwaysSettles(body) && BodyBreaks(body) && NoInnerBreak(s)
    ensures Calm(Sub(PIN_SITE, body, s, lineStart))
    decreases |s|
  {
    hide Opens, Body, After, Fill, Calm, AlwaysSettles, BodyBreaks, NoInnerBreak;
    if s == "" {
      NothingIsCalm();
    } else if MatchesHere(PIN_SITE, s, lineStart) {
      PinParts();
      AfterHasNoInnerBreak(PIN_SITE, s);
      SubIsCalm(body, After(PIN_SITE, s), false);
      BodyIsPlainText(s);
      WrittenSettles(body, Body(PIN_SITE, s));
      WrittenIsCalm(Fill(body, Matched(PIN_SITE, s)), Sub(PIN_SITE, body, After(PIN_SITE, s), false));
    } else {
      var rest := Sub(PIN_SITE, body, s[1..], s[0] == '\n');
      TailHasNoInnerBreak(s);
      SubIsCalm(body, s[1..], s[0] == '\n');
      SubKeepsStart(PIN_SITE, body, s[1..], s[0] == '\n');
      SameStartSameMatch(PIN_SITE, s[0], s[1..], rest, lineStart);
      assert [s[0]] + s[1..] == s;
      ConsIsCalm(s[0], rest);
    }
  }

  lemma NothingIsCalm()
    ensures Calm("")
  {}

  lemma TailHasNoInnerBreak(s: string)
    requires s != "" && NoInnerBreak(s)
    ensures NoInnerBreak(s[1..])
  {}

  lemma BodyIsPlainText(s: string)
    requires Opens(PIN_SITE, s) && NoInnerBreak(s)
    ensures IsPlainText(Body(PIN_SITE, s)) && Matched(PIN_SITE, s) == Pin(Body(PIN_SITE, s))
  {
    var n, body := |PIN_SITE.open|, Body(PIN_SITE, s);
    assert forall k | 0 <= k < |body| :: body[k] == s[n + k];
  }

  lemma PinHasNoBreak(version: string)
    requires IsPlainText(version)
    ensures forall k | 0 <= k < |Pin(version)| :: !IsBreak(Pin(version)[k])
  {
    PinParts();
  }

  lemma WrittenSettles(body: seq<Piece>, version: string)
    requires AlwaysSettles(body) && BodyBreaks(body) && IsPlainText(version)
    ensures Broken(Fill(body, Pin(version))) && Settles(Fill(body, Pin(version)))
  {
    hide Settles, Broken, Pin, BodyBreaks;
    PinHasNoBreak(version);
    FillBreaks(body, Pin(version));
    BrokenIff(Fill(body, Pin(version)));
  }

  lemma {:induction false} SettledLinesAreFixed(text: string, members: set<string>, body: seq<Piece>)
    requires AllSettled(text)
    ensures RepinLines(SplitLines(text), members, body) == SplitLines(text)
    decreases |text|
  {
    hide Sub, HasPin, Target;
    if text != "" {
      var n := LineLength(text);
      SettledLinesAreFixed(text[n..], members, body);
      if !HasPin(text[..n]) {
        NoPinNoChange(body, text[..n], true);
      }
      assert RepinLines(SplitLines(text), members, body) == [RepinLine(text[..n], members, body)] + RepinLines(SplitLines(text[n..]), members, body);
    }
  }

  lemma {:induction false} SubKeepsTermination(body: seq<Piece>, s: string, lineStart: bool)
    requires Terminated(s)
    ensures Terminated(Sub(PIN_SITE, body, s, lineStart))
    decreases |s|
  {
    hide Fill, Matched, Opens, Body, After, IsBreak;
    if MatchesHere(PIN_SITE, s, lineStart) {
      TerminatedBehind(PIN_SITE.open + Body(PIN_SITE, s), After(PIN_SITE, s));
      SubKeepsTermination(body, After(PIN_SITE, s), false);
    } else if |s| > 1 {
      SubKeepsTermination(body, s[1..], s[0] == '\n');
    }
  }

  lemma TerminatedBehind(head: string, rest: string)
    requires Terminated(head + "\"" + rest)
    ensures Terminated(rest)
  {
    var s := head + "\"" + rest;
    assert s[|s| - 1] == if rest == "" then '"' else rest[|rest| - 1];
  }

  /** A line, repinned or left alone, does not unsettle a text: the lines it leaves are not changed by repinning. */
  lemma RepinnedLineIsFixed(line: string, members: set<string>, first: seq<Piece>, second: seq<Piece>)
    requires AlwaysSettles(first) && BodyBreaks(first) && IsLine(line)
    ensures var pieces := SplitLines(RepinLine(line, members, first));
            RepinLines(pieces, members, second) == pieces
    ensures Terminated(line) ==> Terminated(RepinLine(line, members, first))
  {
    hide AlwaysSettles, BodyBreaks, SplitLines, Sub;
    if Touched(line, members) {
      SubIsCalm(first, line, true);
      CalmIsSettled(Sub(PIN_SITE, first, line, true));
      SettledLinesAreFixed(Sub(PIN_SITE, first, line, true), members, second);
      if Terminated(line) { SubKeepsTermination(first, line, true); }
    } else {
      NothingSplits();
      SplitOneLine(line, "");
      assert line + "" == line;
      assert RepinLines([line], members, second) == [line];
    }
  }

  lemma {:induction false} RepinnedLinesAreFixed(lines: seq<string>, members: set<string>, first: seq<Piece>, second: seq<Piece>)
    requires AreLines(lines) && AlwaysSettles(first) && BodyBreaks(first)
    ensures var pieces := SplitLines(JoinLines(RepinLines(lines, members, first)));
            RepinLines(pieces, members, second) == pieces
  {
    hide Terminated, IsLine, AlwaysSettles, BodyBreaks, RepinLine, SplitLines;
    NothingSplits();
    var after := RepinLines(lines, members, first);
    if lines == [] {
      assert after == [];
    } else {
      var head := RepinLine(lines[0], members, first);
      RepinnedLineIsFixed(lines[0], members, first, second);
      TailAreLines(lines);
      RepinnedLinesAreFixed(lines[1..], members, first, second);
      var rest := RepinLines(lines[1..], members, first);
      assert after == [head] + rest && after[1..] == rest;
      SplitAfterFirst(lines, head, rest);
      var left, right := SplitLines(head), SplitLines(JoinLines(rest));
      assert RepinLines(left + right, members, second) == RepinLines(left, members, second) + RepinLines(right, members, second);
    }
  }

  lemma TailAreLines(lines: seq<string>)
    requires AreLines(lines) && lines != []
    ensures AreLines(lines[1..]) && (|lines| > 1 ==> Terminated(lines[0]))
  {
    assert forall k | 0 <= k < |lines| - 1 :: lines[1..][k] == lines[k + 1];
  }

  lemma SplitAfterFirst(lines: seq<string>, head: string, rest: seq<string>)
    requires lines != [] && |rest| == |lines| - 1 && (|lines| > 1 ==> Terminated(head))
    ensures SplitLines(head + JoinLines(rest)) == SplitLines(head) + SplitLines(JoinLines(rest))
  {
    hide SplitLines, Terminated;
    NothingSplits();
    if |lines| > 1 {
      SplittingAfterABreak(head, JoinLines(rest));
    } else {
      assert rest == [] && head + "" == head && SplitLines(head) + [] == SplitLines(head);
    }
  }

  // ---- A body with a break makes lines ----

  /** Repinning a line never makes fewer lines of it, and makes more where it writes a break. */
  lemma LinesOfALine(line: string, members: set<string>, body: seq<Piece>)
    requires IsLine(line) && BodyBreaks(body)
    ensures |SplitLines(RepinLine(line, members, body))| >= 1
    ensures Touched(line, members) && HasPin(line) ==> |SplitLines(RepinLine(line, members, body))| >= 2
    ensures Terminated(line) ==> Terminated(RepinLine(line, members, body))
  {
    hide Sub, HasPin, BodyBreaks;
    if Touched(line, members) {
      SubKeepsSomething(PIN_SITE, body, line, true);
      if Terminated(line) { SubKeepsTermination(body, line, true); }
      if HasPin(line) {
        SubBreaksInside(body, line, true);
        var x := Sub(PIN_SITE, body, line, true);
        assert LineLength(x) < |x|;
        assert SplitLines(x[LineLength(x)..]) != [];
      }
    }
  }

  lemma {:induction false} SubBreaksInside(body: seq<Piece>, s: string, lineStart: bool)
    requires HasPin(s) && BodyBreaks(body) && NoInnerBreak(s)
    ensures !NoInnerBreak(Sub(PIN_SITE, body, s, lineStart))
    decreases |s|
  {
    hide Fill, BodyBreaks, Opens, Body, After, Matched, HasBreak, NoInnerBreak;
    if Opens(PIN_SITE, s) {
      MatchHasNoBreak(PIN_SITE, s);
      WritesABreak(body, Matched(PIN_SITE, s));
      BreakInside(PIN_SITE.open, Fill(body, Matched(PIN_SITE, s)), Sub(PIN_SITE, body, After(PIN_SITE, s), false));
    } else {
      TailHasNoInnerBreak(s);
      SubBreaksInside(body, s[1..], s[0] == '\n');
      BreakBehind(s[0], Sub(PIN_SITE, body, s[1..], s[0] == '\n'));
    }
  }

  lemma WritesABreak(body: seq<Piece>, whole: string)
    requires !HasBreak(whole) && BodyBreaks(body)
    ensures HasBreak(Fill(body, whole))
  {
    FillBreaks(body, whole);
  }

  lemma BreakInside(open: string, written: string, rest: string)
    requires HasBreak(written)
    ensures !NoInnerBreak(open + written + "\"" + rest)
  {
    var k :| 0 <= k < |written| && IsBreak(written[k]);
    assert (open + written + "\"" + rest)[|open| + k] == written[k];
  }

  lemma BreakBehind(c: char, rest: string)
    requires !NoInnerBreak(rest)
    ensures !NoInnerBreak([c] + rest)
  {
    var k :| 0 <= k < |rest| - 1 && IsBreak(rest[k]);
    assert ([c] + rest)[k + 1] == rest[k];
  }

  lemma {:induction false} LinesOfAText(lines: seq<string>, members: set<string>, body: seq<Piece>)
    requires AreLines(lines) && BodyBreaks(body)
    ensures var after := SplitLines(JoinLines(RepinLines(lines, members, body)));
            && |after| >= |lines|
            && ((exists line | line in lines :: Touched(line, members) && HasPin(line)) ==> |after| > |lines|)
  {
    hide Terminated, IsLine, BodyBreaks, RepinLine, SplitLines, Touched, HasPin;
    NothingSplits();
    var after := RepinLines(lines, members, body);
    if lines == [] {
      assert after == [];
    } else {
      var head := RepinLine(lines[0], members, body);
      LinesOfALine(lines[0], members, body);
      TailAreLines(lines);
      LinesOfAText(lines[1..], members, body);
      var rest := RepinLines(lines[1..], members, body);
      assert after == [head] + rest && after[1..] == rest;
      SplitAfterFirst(lines, head, rest);
      assert forall line | line in lines :: line == lines[0] || line in lines[1..];
    }
  }
}
