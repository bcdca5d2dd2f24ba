/** Substituting a version wherever a pattern of check-version-agreement.py finds one. */
module VersionSites {
  import opened Wrappers
  import opened Text
  import opened VersionTemplates

  /** Where a version stands: after `open`, up to the next quote; `atLineStart` is the pattern's `(?m)^`. */
  datatype Site = Site(open: string, atLineStart: bool)

  const HOST_SITE := Site("version = \"", true)
  const BUNDLE_SITE := Site("\"version\": \"", false)
  const PIN_SITE := Site("version = \"=", false)
  const PATH_OPEN: string := "path = \"../"

  // ---- Substitution ----

  /** `s` starts with the opening, and a quote closes it. */
  predicate Opens(site: Site, s: string) {
    site.open <= s && Find(s[|site.open|..], '"') < |s| - |site.open|
  }

  /** The pattern matches at the start of `s`; `lineStart` says whether a line starts there. */
  predicate MatchesHere(site: Site, s: string, lineStart: bool) {
    (site.atLineStart ==> lineStart) && Opens(site, s)
  }

  function Body(site: Site, s: string): string
    requires Opens(site, s)
  {
    s[|site.open|..][..Find(s[|site.open|..], '"')]
  }

  function After(site: Site, s: string): (rest: string)
    requires Opens(site, s)
    ensures |rest| < |s| && s == site.open + Body(site, s) + "\"" + rest
  {
    s[|site.open|..][Find(s[|site.open|..], '"') + 1..]
  }

  /** The whole match. */
  function Matched(site: Site, s: string): string
    requires Opens(site, s)
  {
    site.open + Body(site, s) + "\""
  }

  /** `re.sub` with a template that puts `body` between the opening and the closing quote. */
  function Sub(site: Site, body: seq<Piece>, s: string, lineStart: bool): string
    decreases |s|
  {
    if s == "" then ""
    else if MatchesHere(site, s, lineStart) then
      site.open + Fill(body, Matched(site, s)) + "\"" + Sub(site, body, After(site, s), false)
    else [s[0]] + Sub(site, body, s[1..], s[0] == '\n')
  }

  /** What the matches say, in order. */
  function Bodies(site: Site, s: string, lineStart: bool): seq<string>
    decreases |s|
  {
    if s == "" then []
    else if MatchesHere(site, s, lineStart) then [Body(site, s)] + Bodies(site, After(site, s), false)
    else Bodies(site, s[1..], s[0] == '\n')
  }

  // ---- No match straddles a replacement's edge ----

  /** How far two texts are the same for sure, and that a quote past that point is in both or neither. */
  ghost predicate SameStart(a: string, b: string, n: nat) {
    || a == b
    || (n <= |a| && n <= |b| && a[..n] == b[..n] && '"' in a[n..] && '"' in b[n..])
  }

  /** Up to the end of the first opening nothing changes, and the closing quotes stay. */
  lemma {:induction false} SubKeepsStart(site: Site, body: seq<Piece>, s: string, lineStart: bool)
    ensures SameStart(s, Sub(site, body, s, lineStart), |site.open|)
    decreases |s|
  {
    hide Body, Find, After, Fill, Matched;
    if s != "" {
      var n := |site.open|;
      if MatchesHere(site, s, lineStart) {
        ClosesIffQuoted(s[n..]);
        var written := Fill(body, Matched(site, s));
        var tail := written + "\"" + Sub(site, body, After(site, s), false);
        assert tail[|written|] == '"';
        assert Sub(site, body, s, lineStart) == site.open + tail;
      } else {
        SubKeepsStart(site, body, s[1..], s[0] == '\n');
        ConsKeepsStart(s[0], s[1..], Sub(site, body, s[1..], s[0] == '\n'), n);
        assert s == [s[0]] + s[1..];
      }
    }
  }

  lemma ConsKeepsStart(c: char, a: string, b: string, n: nat)
    requires SameStart(a, b, n)
    ensures SameStart([c] + a, [c] + b, n)
  {
    if a != b && n > 0 {
      assert ([c] + a)[..n] == [c] + a[..n][..n - 1];
      assert ([c] + b)[..n] == [c] + b[..n][..n - 1];
      assert ([c] + a)[n + 1..] == a[n..] && ([c] + b)[n + 1..] == b[n..];
      QuoteSurvives([c] + a, n, n + 1);
      QuoteSurvives([c] + b, n, n + 1);
    }
  }

  lemma QuoteSurvives(s: string, m: nat, n: nat)
    requires m <= n <= |s| && '"' in s[n..]
    ensures '"' in s[m..]
  {
    var k :| 0 <= k < |s| - n && s[n..][k] == '"';
    assert s[m..][n - m + k] == '"';
  }

  lemma ClosesIffQuoted(s: string)
    ensures Find(s, '"') < |s| <==> '"' in s
  {
    if '"' in s {
      var k :| 0 <= k < |s| && s[k] == '"';
    }
  }

  lemma SameStartSameMatch(site: Site, c: char, a: string, b: string, lineStart: bool)
    requires SameStart(a, b, |site.open|)
    ensures MatchesHere(site, [c] + a, lineStart) <==> MatchesHere(site, [c] + b, lineStart)
  {
    var n := |site.open|;
    ConsKeepsStart(c, a, b, n);
    var p, q := [c] + a, [c] + b;
    if p != q {
      assert site.open <= p <==> site.open == p[..n];
      assert site.open <= q <==> site.open == q[..n];
      ClosesIffQuoted(p[n..]);
      ClosesIffQuoted(q[n..]);
    }
  }

  /** A written version is one match, if it has no quote, and its body is that version. */
  lemma WrittenMatches(site: Site, version: string, rest: string, lineStart: bool)
    requires '"' !in version && (site.atLineStart ==> lineStart)
    ensures var s := site.open + version + "\"" + rest;
            MatchesHere(site, s, lineStart) && Body(site, s) == version && After(site, s) == rest
  {
    var s := site.open + version + "\"" + rest;
    var tail := version + (['"'] + rest);
    assert s == site.open + tail;
    assert s[|site.open|..] == tail;
    SplitOnceOf(version, '"', rest);
    assert SplitOnce(tail, '"') == Some((version, rest));
  }

  lemma SubOfWritten(site: Site, v: string, body: seq<Piece>, rest: string, lineStart: bool)
    requires '"' !in v && (site.atLineStart ==> lineStart)
    ensures var s := site.open + v + "\"" + rest;
            && Sub(site, body, s, lineStart) == site.open + Fill(body, site.open + v + "\"") + "\"" + Sub(site, body, rest, false)
            && Bodies(site, s, lineStart) == [v] + Bodies(site, rest, false)
  {
    hide Opens, Body, After, Fill;
    WrittenMatches(site, v, rest, lineStart);
  }

  /** Where nothing matches, the first character stays and still nothing matches. */
  lemma SubOfUnmatched(site: Site, first: seq<Piece>, second: seq<Piece>, s: string, lineStart: bool)
    requires s != "" && !MatchesHere(site, s, lineStart)
    ensures var rest := Sub(site, first, s[1..], s[0] == '\n');
            && Sub(site, second, [s[0]] + rest, lineStart) == [s[0]] + Sub(site, second, rest, s[0] == '\n')
            && Bodies(site, [s[0]] + rest, lineStart) == Bodies(site, rest, s[0] == '\n')
  {
    hide Opens, Body, After, SameStart, Fill, Matched;
    var rest := Sub(site, first, s[1..], s[0] == '\n');
    SubKeepsStart(site, first, s[1..], s[0] == '\n');
    SameStartSameMatch(site, s[0], s[1..], rest, lineStart);
    assert [s[0]] + s[1..] == s;
    assert ([s[0]] + rest)[1..] == rest;
  }

  /** The body is text without a quote: it writes the same over every match, and what it writes is one match. */
  predicate IsQuoteFree(body: seq<Piece>) {
    forall k | 0 <= k < |body| :: body[k].Char? && body[k].c != '"'
  }

  lemma {:induction false} QuoteFreeFill(body: seq<Piece>, whole: string)
    requires IsQuoteFree(body)
    ensures '"' !in Fill(body, whole) && Fill(body, whole) == Fill(body, "") && body == Literal(Fill(body, ""))
  {
    if body != [] {
      QuoteFreeFill(body[1..], whole);
      assert body == [body[0]] + body[1..];
    }
  }

  lemma {:induction false} FillOfLiteral(v: string, whole: string)
    ensures Fill(Literal(v), whole) == v
  {
    if v != "" {
      FillOfLiteral(v[1..], whole);
      assert Literal(v)[1..] == Literal(v[1..]);
    }
  }

  /**
    * The last version written wins: writing a body over a text into which quote-free text was written leaves the
    * openings, the closing quotes and everything between the matches as they were. No match appears or disappears.
    */
  lemma {:induction false} LastWriteWins(site: Site, v: seq<Piece>, body: seq<Piece>, s: string, lineStart: bool)
    requires IsQuoteFree(v)
    ensures Sub(site, body, Sub(site, v, s, lineStart), lineStart)
            == Sub(site, Literal(Fill(body, site.open + Fill(v, "") + "\"")), s, lineStart)
    decreases |s|
  {
    hide Opens, Body, After, Fill, Matched, IsQuoteFree;
    var text := Fill(v, "");
    var wins := Fill(body, site.open + text + "\"");
    if s != "" {
      if MatchesHere(site, s, lineStart) {
        LastWriteWins(site, v, body, After(site, s), false);
        QuoteFreeFill(v, Matched(site, s));
        SubOfWritten(site, text, body, Sub(site, v, After(site, s), false), lineStart);
        FillOfLiteral(wins, Matched(site, s));
      } else {
        LastWriteWins(site, v, body, s[1..], s[0] == '\n');
        SubOfUnmatched(site, v, body, s, lineStart);
      }
    }
  }

  /** Writing the same quote-free text once more changes nothing. */
  lemma WritingAgain(site: Site, v: seq<Piece>, s: string, lineStart: bool)
    requires IsQuoteFree(v)
    ensures Sub(site, v, Sub(site, v, s, lineStart), lineStart) == Sub(site, v, s, lineStart)
  {
    LastWriteWins(site, v, v, s, lineStart);
    QuoteFreeFill(v, site.open + Fill(v, "") + "\"");
  }

  /** Every match ends up saying the version, and there are as many as before. */
  lemma {:induction false} EveryBodyIsTheVersion(site: Site, v: seq<Piece>, s: string, lineStart: bool)
    requires IsQuoteFree(v)
    ensures var after := Bodies(site, Sub(site, v, s, lineStart), lineStart);
            |after| == |Bodies(site, s, lineStart)| && forall k | 0 <= k < |after| :: after[k] == Fill(v, "")
    decreases |s|
  {
    hide Opens, Body, After, Fill, Matched, IsQuoteFree;
    if s != "" {
      if MatchesHere(site, s, lineStart) {
        EveryBodyIsTheVersion(site, v, After(site, s), false);
        QuoteFreeFill(v, Matched(site, s));
        SubOfWritten(site, Fill(v, ""), v, Sub(site, v, After(site, s), false), lineStart);
      } else {
        EveryBodyIsTheVersion(site, v, s[1..], s[0] == '\n');
        SubOfUnmatched(site, v, v, s, lineStart);
      }
    }
  }

  lemma {:induction false} SubKeepsSomething(site: Site, body: seq<Piece>, s: string, lineStart: bool)
    ensures s != "" ==> Sub(site, body, s, lineStart) != ""
    decreases |s|
  {}

  // ---- Bodies that grow ----

  /** Over a longer match a body writes no less. */
  lemma {:induction false} FillGrows(body: seq<Piece>, short: string, long: string)
    requires |short| <= |long|
    ensures |Fill(body, short)| <= |Fill(body, long)|
  {
    if body != [] {
      FillGrows(body[1..], short, long);
    }
  }

  /** A quote in what a body writes comes from a quote of its own or from the match. */
  lemma {:induction false} FillQuotes(body: seq<Piece>, whole: string)
    requires '"' in whole
    ensures '"' in Fill(body, whole) <==> !IsQuoteFree(body)
  {
    if body != [] {
      FillQuotes(body[1..], whole);
      assert body == [body[0]] + body[1..];
    }
  }

  /** What a body writes over an empty version, when that has a quote in it: written over once more it is longer. */
  lemma WritingGrows(site: Site, body: seq<Piece>, read: string)
    requires '"' in read
    ensures |Sub(site, body, site.open + read + "\"", true)| > |site.open + Fill(body, site.open + "\"") + "\""|
  {
    hide Sub, Fill;
    ClosesIffQuoted(read);
    var head, tail := SplitOnce(read, '"').value.0, SplitOnce(read, '"').value.1;
    var rest := tail + "\"";
    assert read == head + "\"" + tail;
    assert site.open + read + "\"" == site.open + head + "\"" + rest;
    SubOfWritten(site, head, body, rest, true);
    SubKeepsSomething(site, body, rest, false);
    FillGrows(body, site.open + "\"", site.open + head + "\"");
  }

  /** Writing over an empty version. */
  lemma WritingOnce(site: Site, body: seq<Piece>)
    ensures Sub(site, body, site.open + "\"", true) == site.open + Fill(body, site.open + "\"") + "\""
  {
    hide Sub, Fill;
    var s := site.open + "\"";
    SubOfWritten(site, "", body, "", true);
    assert site.open + "" + "\"" + "" == s && site.open + "" + "\"" == s;
    SubOfNothing(site, body);
    var once := site.open + Fill(body, s) + "\"";
    assert once + "" == once;
  }

  lemma SubOfNothing(site: Site, body: seq<Piece>)
    ensures Sub(site, body, "", false) == ""
  {}

  /**
    * Rewriting is idempotent on every text exactly when the replacement's body has no quote in it and does not
    * refer to the match.
    */
  lemma RewritingIsIdempotentIff(site: Site, body: seq<Piece>)
    ensures (forall s :: Sub(site, body, Sub(site, body, s, true), true) == Sub(site, body, s, true))
            <==> IsQuoteFree(body)
  {
    if IsQuoteFree(body) {
      forall s
        ensures Sub(site, body, Sub(site, body, s, true), true) == Sub(site, body, s, true)
      {
        WritingAgain(site, body, s, true);
      }
    } else {
      var s := site.open + "\"";
      FillQuotes(body, s);
      WritingOnce(site, body);
      WritingGrows(site, body, Fill(body, s));
    }
  }

  // ---- When writing changes nothing ----

  /** Every match already says what would be written over it. */
  predicate AllSay(site: Site, body: seq<Piece>, versions: seq<string>) {
    forall k | 0 <= k < |versions| :: Fill(body, site.open + versions[k] + "\"") == versions[k]
  }

  /** A text stays as it is exactly when all its matches say what the body makes of them. */
  lemma SubChangesNothingIff(site: Site, body: seq<Piece>, s: string, lineStart: bool)
    ensures Sub(site, body, s, lineStart) == s <==> AllSay(site, body, Bodies(site, s, lineStart))
  {
    if IsQuoteFree(body) {
      QuoteFreeChangesNothingIff(site, body, s, lineStart);
    } else {
      QuotesGrow(site, body, s, lineStart);
      NoMatchNoChange(site, body, s, lineStart);
    }
  }

  lemma AllSaySplit(site: Site, body: seq<Piece>, first: string, rest: seq<string>)
    ensures AllSay(site, body, [first] + rest) <==> Fill(body, site.open + first + "\"") == first && AllSay(site, body, rest)
  {
    hide Fill;
    var all := [first] + rest;
    assert all[0] == first && forall k | 0 <= k < |rest| :: all[k + 1] == rest[k];
  }

  lemma {:induction false} QuoteFreeChangesNothingIff(site: Site, body: seq<Piece>, s: string, lineStart: bool)
    requires IsQuoteFree(body)
    ensures Sub(site, body, s, lineStart) == s <==> AllSay(site, body, Bodies(site, s, lineStart))
    decreases |s|
  {
    hide Opens, Body, After, Fill, IsQuoteFree, AllSay;
    if s == "" {
      NothingSays(site, body);
    } else if MatchesHere(site, s, lineStart) {
      QuoteFreeChangesNothingIff(site, body, After(site, s), false);
      AllSaySplit(site, body, Body(site, s), Bodies(site, After(site, s), false));
      QuoteFreeFill(body, Matched(site, s));
      BodyHasNoQuote(site, s);
      SameAtTheQuote(site.open, Fill(body, Matched(site, s)), Sub(site, body, After(site, s), false), Body(site, s), After(site, s));
    } else {
      QuoteFreeChangesNothingIff(site, body, s[1..], s[0] == '\n');
      ConsSame(s[0], Sub(site, body, s[1..], s[0] == '\n'), s);
    }
  }

  lemma NothingSays(site: Site, body: seq<Piece>)
    ensures AllSay(site, body, [])
  {}

  lemma ConsSame(c: char, rest: string, s: string)
    requires s != "" && s[0] == c
    ensures [c] + rest == s <==> rest == s[1..]
  {
    assert ([c] + rest)[1..] == rest && [c] + s[1..] == s;
  }

  lemma BodyHasNoQuote(site: Site, s: string)
    requires Opens(site, s)
    ensures '"' !in Body(site, s)
  {}

  lemma SameAtTheQuote(open: string, a: string, x: string, b: string, y: string)
    requires '"' !in a && '"' !in b
    ensures open + a + "\"" + x == open + b + "\"" + y <==> a == b && x == y
  {
    hide SplitOnce;
    SplitOnceOf(a, '"', x);
    SplitOnceOf(b, '"', y);
    var p, q := a + (['"'] + x), b + (['"'] + y);
    assert open + a + "\"" + x == open + p && open + b + "\"" + y == open + q;
    assert (open + p)[|open|..] == p && (open + q)[|open|..] == q;
  }

  function Quotes(s: string): nat {
    multiset(s)['"']
  }

  /** A body that writes a quote makes more quotes of every match. */
  lemma {:induction false} QuotesGrow(site: Site, body: seq<Piece>, s: string, lineStart: bool)
    requires !IsQuoteFree(body)
    ensures var versions := Bodies(site, s, lineStart);
            && Quotes(Sub(site, body, s, lineStart)) >= Quotes(s)
            && (versions != [] ==> Quotes(Sub(site, body, s, lineStart)) > Quotes(s) && !AllSay(site, body, versions))
    decreases |s|
  {
    hide Opens, Body, After, Fill, IsQuoteFree, AllSay, Quotes;
    if s == "" {
    } else if MatchesHere(site, s, lineStart) {
      QuotesGrow(site, body, After(site, s), false);
      AllSaySplit(site, body, Body(site, s), Bodies(site, After(site, s), false));
      FillQuotes(body, Matched(site, s));
      BodyHasNoQuote(site, s);
      MoreQuotes(site.open, Fill(body, Matched(site, s)), Sub(site, body, After(site, s), false), Body(site, s), After(site, s));
    } else {
      QuotesGrow(site, body, s[1..], s[0] == '\n');
      QuotesJoin([s[0]], s[1..]);
      QuotesJoin([s[0]], Sub(site, body, s[1..], s[0] == '\n'));
      assert [s[0]] + s[1..] == s;
    }
  }

  lemma QuotesJoin(a: string, b: string)
    ensures Quotes(a + b) == Quotes(a) + Quotes(b)
  {}

  lemma MoreQuotes(open: string, a: string, x: string, b: string, y: string)
    requires '"' in a && '"' !in b && Quotes(x) >= Quotes(y)
    ensures Quotes(open + a + "\"" + x) > Quotes(open + b + "\"" + y)
  {
    assert Quotes(a) > 0 && Quotes(b) == 0;
    hide Quotes;
    QuotesJoin(open + a + "\"", x);
    QuotesJoin(open + a, "\"");
    QuotesJoin(open, a);
    QuotesJoin(open + b + "\"", y);
    QuotesJoin(open + b, "\"");
    QuotesJoin(open, b);
  }

  lemma {:induction false} NoMatchNoChange(site: Site, body: seq<Piece>, s: string, lineStart: bool)
    ensures Bodies(site, s, lineStart) == [] ==> Sub(site, body, s, lineStart) == s && AllSay(site, body, [])
    decreases |s|
  {
    hide Opens, Body, After;
    if s != "" && !MatchesHere(site, s, lineStart) {
      NoMatchNoChange(site, body, s[1..], s[0] == '\n');
    }
  }
}
