/** Moving the exact pins between workspace members, line by line (scripts/check-version-agreement.py). */
module VersionPins {
  import opened Wrappers
  import opened Text
  import opened VersionLines
  import opened VersionTemplates
  import opened VersionSites

  /** The directory `path = "../…"` names, by the first such text on the line. */
  function Target(line: string): Option<string> {
    if line == "" then None
    else if PATH_OPEN <= line && 0 < Find(line[|PATH_OPEN|..], '"') < |line| - |PATH_OPEN| then
      Some(line[|PATH_OPEN|..][..Find(line[|PATH_OPEN|..], '"')])
    else Target(line[1..])
  }

  predicate Touched(line: string, members: set<string>) {
    Target(line).Some? && Target(line).value in members
  }

  function RepinLine(line: string, members: set<string>, body: seq<Piece>): string {
    if Touched(line, members) then Sub(PIN_SITE, body, line, true) else line
  }

  function RepinLines(lines: seq<string>, members: set<string>, body: seq<Piece>): seq<string> {
    seq(|lines|, k requires 0 <= k < |lines| => RepinLine(lines[k], members, body))
  }

  function Repinned(text: string, members: set<string>, body: seq<Piece>): string {
    JoinLines(RepinLines(SplitLines(text), members, body))
  }

  /** The body is text that can stand in a quoted string on one line. */
  predicate IsPlain(body: seq<Piece>) {
    forall k | 0 <= k < |body| :: body[k].Char? && body[k].c != '"' && !IsBreak(body[k].c)
  }

  lemma {:induction false} PlainFill(body: seq<Piece>, whole: string)
    requires IsPlain(body)
    ensures IsQuoteFree(body) && forall k | 0 <= k < |Fill(body, whole)| :: !IsBreak(Fill(body, whole)[k])
  {
    if body != [] {
      PlainFill(body[1..], whole);
    }
  }

  // ---- Line breaks in what a body writes ----

  /** A break in a body is in everything it writes. */
  ghost predicate BodyBreaks(body: seq<Piece>) {
    exists k | 0 <= k < |body| :: body[k].Char? && IsBreak(body[k].c)
  }

  lemma {:induction false} FillBreaks(body: seq<Piece>, whole: string)
    requires forall k | 0 <= k < |whole| :: !IsBreak(whole[k])
    ensures HasBreak(Fill(body, whole)) <==> BodyBreaks(body)
  {
    if body != [] {
      FillBreaks(body[1..], whole);
      var first, rest := Written(body[0], whole), Fill(body[1..], whole);
      assert HasBreak(first + rest) <==> HasBreak(first) || HasBreak(rest) by {
        BreaksJoin(first, rest);
      }
      BodyBreaksSplit(body);
      assert HasBreak(first) <==> body[0].Char? && IsBreak(body[0].c) by {
        assert body[0].Char? ==> first == [body[0].c] && first[0] == body[0].c;
      }
    }
  }

  lemma BodyBreaksSplit(body: seq<Piece>)
    requires body != []
    ensures BodyBreaks(body) <==> (body[0].Char? && IsBreak(body[0].c)) || BodyBreaks(body[1..])
  {
    assert forall k | 0 <= k < |body| - 1 :: body[1..][k] == body[k + 1];
    if BodyBreaks(body) {
      var k :| 0 <= k < |body| && body[k].Char? && IsBreak(body[k].c);
      assert k > 0 ==> body[1..][k - 1] == body[k];
    }
  }

  lemma BreaksJoin(a: string, b: string)
    ensures HasBreak(a + b) <==> HasBreak(a) || HasBreak(b)
  {
    assert forall k | 0 <= k < |a| :: (a + b)[k] == a[k];
    assert forall k | 0 <= k < |b| :: (a + b)[|a| + k] == b[k];
    if HasBreak(a + b) {
      var k :| 0 <= k < |a + b| && IsBreak((a + b)[k]);
      assert if k < |a| then IsBreak(a[k]) else IsBreak(b[k - |a|]);
    }
  }

  /** A match is within its line. */
  lemma MatchHasNoBreak(site: Site, s: string)
    requires Opens(site, s) && NoInnerBreak(s)
    ensures !HasBreak(Matched(site, s))
  {
    var matched := Matched(site, s);
    assert s == matched + After(site, s) && matched[|matched| - 1] == '"';
    assert forall k | 0 <= k < |matched| - 1 :: matched[k] == s[k];
  }

  lemma AfterHasNoInnerBreak(site: Site, s: string)
    requires Opens(site, s) && NoInnerBreak(s)
    ensures NoInnerBreak(After(site, s)) && (Terminated(After(site, s)) <==> Terminated(s))
  {
    hide Opens, Body, After, NoInnerBreak, Terminated;
    SuffixHasNoInnerBreak(site.open + Body(site, s) + "\"", After(site, s));
  }

  /** Writing a version without a line break into a line leaves it a line, whatever else the version says. */
  lemma {:induction false} SubKeepsLine(site: Site, body: seq<Piece>, s: string, lineStart: bool)
    requires !BodyBreaks(body) && NoInnerBreak(s) && forall k | 0 <= k < |site.open| :: !IsBreak(site.open[k])
    ensures NoInnerBreak(Sub(site, body, s, lineStart))
    ensures Terminated(Sub(site, body, s, lineStart)) <==> Terminated(s)
    decreases |s|
  {
    hide Opens, Body, After, Fill, Matched, BodyBreaks;
    if s != "" {
      if MatchesHere(site, s, lineStart) {
        MatchHasNoBreak(site, s);
        FillBreaks(body, Matched(site, s));
        AfterHasNoInnerBreak(site, s);
        SubKeepsLine(site, body, After(site, s), false);
        JoinKeepsBreaksOut(site.open + Fill(body, Matched(site, s)) + "\"", Sub(site, body, After(site, s), false));
      } else {
        var rest := Sub(site, body, s[1..], s[0] == '\n');
        assert NoInnerBreak(s[1..]) && (s[1..] != "" ==> (Terminated(s[1..]) <==> Terminated(s)));
        SubKeepsLine(site, body, s[1..], s[0] == '\n');
        SubKeepsSomething(site, body, s[1..], s[0] == '\n');
        if s[1..] != "" {
          JoinKeepsBreaksOut([s[0]], rest);
        } else {
          assert rest == "" && [s[0]] == s;
        }
      }
    }
  }

  lemma PinSiteHasNoBreak()
    ensures forall k | 0 <= k < |PIN_SITE.open| :: !IsBreak(PIN_SITE.open[k])
  {
    assert PIN_SITE.open == "version = \"=";
  }

  lemma RepinLineKeepsLine(line: string, members: set<string>, body: seq<Piece>)
    requires !BodyBreaks(body) && IsLine(line)
    ensures var after := RepinLine(line, members, body);
            IsLine(after) && (Terminated(after) <==> Terminated(line))
  {
    PinSiteHasNoBreak();
    SubKeepsLine(PIN_SITE, body, line, true);
    SubKeepsSomething(PIN_SITE, body, line, true);
  }

  /** Without a line break in the version a rewritten manifest has the same lines, each as `RepinLine` leaves it. */
  lemma RepinningIsLineByLine(text: string, members: set<string>, body: seq<Piece>)
    requires !BodyBreaks(body)
    ensures SplitLines(Repinned(text, members, body)) == RepinLines(SplitLines(text), members, body)
  {
    hide RepinLine, IsLine, Terminated, BodyBreaks;
    var lines := SplitLines(text);
    var after := RepinLines(lines, members, body);
    SplittingGivesLines(text);
    forall k | 0 <= k < |lines|
      ensures IsLine(after[k]) && (Terminated(after[k]) <==> Terminated(lines[k]))
    {
      RepinLineKeepsLine(lines[k], members, body);
    }
    SplittingJoinedLines(after);
  }

  /** A line that carries no path into the workspace is left as it is; on the others every exact pin becomes the version. */
  lemma RepinningIsFramed(text: string, members: set<string>, body: seq<Piece>, k: nat)
    requires IsPlain(body) && k < |SplitLines(text)|
    ensures |SplitLines(Repinned(text, members, body))| == |SplitLines(text)|
    ensures var line, after := SplitLines(text)[k], SplitLines(Repinned(text, members, body))[k];
            && (!Touched(line, members) ==> after == line)
            && (Touched(line, members) ==>
                  && (forall w | IsQuoteFree(w) :: Sub(PIN_SITE, w, after, true) == Sub(PIN_SITE, w, line, true))
                  && |Bodies(PIN_SITE, after, true)| == |Bodies(PIN_SITE, line, true)|
                  && (forall pin | pin in Bodies(PIN_SITE, after, true) :: pin == Fill(body, "")))
  {
    hide SplitLines, Repinned;
    RepinningIsLineByLine(text, members, body);
    var line := SplitLines(text)[k];
    if Touched(line, members) {
      PlainFill(body, "");
      forall w | IsQuoteFree(w)
        ensures Sub(PIN_SITE, w, Sub(PIN_SITE, body, line, true), true) == Sub(PIN_SITE, w, line, true)
      {
        LastWriteWins(PIN_SITE, body, w, line, true);
        QuoteFreeFill(w, PIN_SITE.open + Fill(body, "") + "\"");
      }
      EveryBodyIsTheVersion(PIN_SITE, body, line, true);
    }
  }

  /** Repinning twice with one version is repinning once. */
  lemma RepinningIsIdempotent(text: string, members: set<string>, body: seq<Piece>)
    requires IsPlain(body)
    ensures Repinned(Repinned(text, members, body), members, body) == Repinned(text, members, body)
  {
    hide Touched, SplitLines, Sub;
    PlainFill(body, "");
    RepinningIsLineByLine(text, members, body);
    var once := RepinLines(SplitLines(text), members, body);
    forall k | 0 <= k < |once|
      ensures RepinLine(once[k], members, body) == once[k]
    {
      WritingAgain(PIN_SITE, body, SplitLines(text)[k], true);
    }
    assert RepinLines(once, members, body) == once;
  }
}
