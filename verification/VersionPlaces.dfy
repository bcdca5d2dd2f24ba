/**
  * Where check-version-agreement.py finds its patterns, in terms of the text alone: the leftmost places that do not
  * overlap; and when the pattern that starts a line can be read line by line.
  */
module VersionPlaces {
  import opened Wrappers
  import opened Text
  import opened VersionLines
  import opened VersionTemplates
  import opened VersionSites

  /** From the first character of a match to behind its last. */
  datatype Place = Place(start: nat, end: nat)

  /** The opening, text without a quote, and a quote; at the start of a line if that is asked for. */
  ghost predicate IsPlace(open: string, startsLine: bool, text: string, p: Place) {
    && p.start + |open| < p.end <= |text|
    && text[p.start..p.start + |open|] == open && text[p.end - 1] == '"'
    && (forall k | p.start + |open| <= k < p.end - 1 :: text[k] != '"')
    && (startsLine ==> p.start == 0 || text[p.start - 1] == '\n')
  }

  /** No match starts from `i` on and before `j`. */
  ghost predicate NoneStarts(open: string, startsLine: bool, text: string, i: nat, j: nat) {
    forall p: Place | i <= p.start < j :: !IsPlace(open, startsLine, text, p)
  }

  /** All matches from `from` on: each is the leftmost there is behind the one before. */
  ghost predicate ArePlaces(open: string, startsLine: bool, text: string, from: nat, places: seq<Place>)
    decreases |places|
  {
    if places == [] then NoneStarts(open, startsLine, text, from, |text|)
    else
      && from <= places[0].start && IsPlace(open, startsLine, text, places[0])
      && NoneStarts(open, startsLine, text, from, places[0].start)
      && ArePlaces(open, startsLine, text, places[0].end, places[1..])
  }

  /** The text from `from` on, with the opening, what the body writes and a quote at each of the places. */
  ghost function Replaced(open: string, startsLine: bool, body: seq<Piece>, text: string, from: nat, places: seq<Place>): string
    requires from <= |text| && ArePlaces(open, startsLine, text, from, places)
    decreases |places|
  {
    if places == [] then text[from..]
    else
      text[from..places[0].start] + (open + Fill(body, text[places[0].start..places[0].end]) + "\""
                                     + Replaced(open, startsLine, body, text, places[0].end, places[1..]))
  }

  predicate StartsLine(text: string, i: nat)
    requires i <= |text|
  {
    i == 0 || text[i - 1] == '\n'
  }

  lemma FirstQuote(s: string, m: nat)
    requires m < |s| && s[m] == '"' && forall k | 0 <= k < m :: s[k] != '"'
    ensures Find(s, '"') == m
  {}

  /** A match at the start of what is left is a place. */
  lemma MatchIsPlace(site: Site, text: string, i: nat)
    requires i <= |text| && MatchesHere(site, text[i..], StartsLine(text, i))
    ensures var end := |text| - |After(site, text[i..])|;
            && i + |site.open| < end && IsPlace(site.open, site.atLineStart, text, Place(i, end))
            && Matched(site, text[i..]) == text[i..end] && After(site, text[i..]) == text[end..]
  {
    var s, n := text[i..], |site.open|;
    var matched, rest, end := Matched(site, s), After(site, s), |text| - |After(site, s)|;
    MatchParts(site, s);
    hide Opens, Body, After, Matched;
    assert s == matched + rest && |s| == |matched| + |rest|;
    assert text[i..end] == s[..|matched|] && text[end..] == s[|matched|..];
    assert text[i..i + n] == s[..n] == matched[..n];
    assert text[end - 1] == matched[|matched| - 1];
    forall k | i + n <= k < end - 1
      ensures text[k] != '"'
    {
      assert text[k] == matched[k - i];
    }
  }

  lemma MatchParts(site: Site, s: string)
    requires Opens(site, s)
    ensures var matched := Matched(site, s);
            && |matched| > |site.open| && matched[..|site.open|] == site.open && matched[|matched| - 1] == '"'
            && (forall k | |site.open| <= k < |matched| - 1 :: matched[k] != '"') && s == matched + After(site, s)
  {
    var body, matched := Body(site, s), Matched(site, s);
    assert forall k | |site.open| <= k < |matched| - 1 :: matched[k] == body[k - |site.open|];
  }

  /** And a place is a match. */
  lemma PlaceIsMatch(site: Site, text: string, p: Place)
    requires IsPlace(site.open, site.atLineStart, text, p)
    ensures MatchesHere(site, text[p.start..], StartsLine(text, p.start))
  {
    var s, n := text[p.start..], |site.open|;
    assert s[..n] == text[p.start..p.start + n];
    var m := p.end - 1 - p.start;
    assert s[m] == '"' && forall k | n <= k < m :: s[k] == text[p.start + k];
    FirstQuote(s[n..], m - n);
  }

  lemma NoMatchNoPlace(site: Site, text: string, i: nat)
    requires i <= |text| && !MatchesHere(site, text[i..], StartsLine(text, i))
    ensures NoneStarts(site.open, site.atLineStart, text, i, i + 1)
  {
    forall p: Place | p.start == i
      ensures !IsPlace(site.open, site.atLineStart, text, p)
    {
      if IsPlace(site.open, site.atLineStart, text, p) {
        PlaceIsMatch(site, text, p);
      }
    }
  }

  /** What substitution writes, and where. */
  lemma {:induction false} SubReplaces(site: Site, body: seq<Piece>, text: string, from: nat) returns (places: seq<Place>)
    requires from <= |text|
    ensures ArePlaces(site.open, site.atLineStart, text, from, places)
    ensures Sub(site, body, text[from..], StartsLine(text, from))
            == Replaced(site.open, site.atLineStart, body, text, from, places)
    ensures |places| == |Bodies(site, text[from..], StartsLine(text, from))|
    decreases |text| - from
  {
    hide Opens, Body, After, Fill, Matched, IsPlace, NoneStarts, StartsLine;
    var s := text[from..];
    if s == "" {
      places := [];
      NoPlaceAtTheEnd(site, text);
    } else if MatchesHere(site, s, StartsLine(text, from)) {
      MatchIsPlace(site, text, from);
      var end := |text| - |After(site, s)|;
      var rest := SubReplaces(site, body, text, end);
      EndIsNoLineStart(site.open, site.atLineStart, text, Place(from, end));
      places := [Place(from, end)] + rest;
      assert places[1..] == rest;
      NoneFromHereToHere(site, text, from);
      assert text[from..from] == "";
      SubHere(site, body, s, StartsLine(text, from));
    } else {
      places := SubReplaces(site, body, text, from + 1);
      NoMatchNoPlace(site, text, from);
      SubThere(site, body, text, from);
      LaterPlaces(site.open, site.atLineStart, body, text, from, places);
    }
  }

  lemma NoPlaceAtTheEnd(site: Site, text: string)
    ensures ArePlaces(site.open, site.atLineStart, text, |text|, [])
  {}

  lemma NoneFromHereToHere(site: Site, text: string, i: nat)
    ensures NoneStarts(site.open, site.atLineStart, text, i, i)
  {}

  lemma SubHere(site: Site, body: seq<Piece>, s: string, lineStart: bool)
    requires MatchesHere(site, s, lineStart) && s != ""
    ensures Sub(site, body, s, lineStart)
            == "" + (site.open + Fill(body, Matched(site, s)) + "\"" + Sub(site, body, After(site, s), false))
    ensures |Bodies(site, s, lineStart)| == 1 + |Bodies(site, After(site, s), false)|
  {
    hide Opens, Body, After, Matched, Fill;
  }

  lemma SubThere(site: Site, body: seq<Piece>, text: string, i: nat)
    requires i < |text| && !MatchesHere(site, text[i..], StartsLine(text, i))
    ensures Sub(site, body, text[i..], StartsLine(text, i)) == [text[i]] + Sub(site, body, text[i + 1..], StartsLine(text, i + 1))
    ensures Bodies(site, text[i..], StartsLine(text, i)) == Bodies(site, text[i + 1..], StartsLine(text, i + 1))
  {
    hide Opens, Body, After, Matched, Fill;
    assert text[i..][1..] == text[i + 1..] && text[i..][0] == text[i];
  }

  lemma EndIsNoLineStart(open: string, startsLine: bool, text: string, p: Place)
    requires IsPlace(open, startsLine, text, p)
    ensures p.start < p.end <= |text| && !StartsLine(text, p.end)
  {}

  lemma LaterPlaces(open: string, startsLine: bool, body: seq<Piece>, text: string, from: nat, places: seq<Place>)
    requires from < |text| && ArePlaces(open, startsLine, text, from + 1, places)
    requires NoneStarts(open, startsLine, text, from, from + 1)
    ensures ArePlaces(open, startsLine, text, from, places)
    ensures Replaced(open, startsLine, body, text, from, places)
            == [text[from]] + Replaced(open, startsLine, body, text, from + 1, places)
  {
    if places != [] {
      var p := places[0];
      EndIsNoLineStart(open, startsLine, text, p);
      NoneStartsSooner(open, startsLine, text, from, p.start);
      hide IsPlace, NoneStarts, Fill;
      assert text[from..p.start] == [text[from]] + text[from + 1..p.start];
      var more := open + Fill(body, text[p.start..p.end]) + "\"" + Replaced(open, startsLine, body, text, p.end, places[1..]);
      Reassociate([text[from]], text[from + 1..p.start], more);
    } else {
      NoneStartsSooner(open, startsLine, text, from, |text|);
      assert text[from..] == [text[from]] + text[from + 1..];
    }
  }

  lemma NoneStartsSooner(open: string, startsLine: bool, text: string, i: nat, j: nat)
    requires NoneStarts(open, startsLine, text, i, i + 1) && NoneStarts(open, startsLine, text, i + 1, j)
    ensures NoneStarts(open, startsLine, text, i, j)
  {
    hide IsPlace;
  }

  /** Which places there are is a matter of the text alone. */
  lemma {:induction false} PlacesAreUnique(open: string, startsLine: bool, text: string, from: nat, a: seq<Place>, b: seq<Place>)
    requires ArePlaces(open, startsLine, text, from, a) && ArePlaces(open, startsLine, text, from, b)
    ensures a == b
    decreases |a|
  {
    hide IsPlace;
    if a != [] { EndIsNoLineStart(open, startsLine, text, a[0]); }
    if b != [] { EndIsNoLineStart(open, startsLine, text, b[0]); }
    if a != [] && b != [] {
      OnePlaceAtAStart(open, startsLine, text, a[0], b[0]);
      PlacesAreUnique(open, startsLine, text, a[0].end, a[1..], b[1..]);
      assert a == [a[0]] + a[1..] && b == [b[0]] + b[1..];
    }
  }

  lemma OnePlaceAtAStart(open: string, startsLine: bool, text: string, p: Place, q: Place)
    requires IsPlace(open, startsLine, text, p) && IsPlace(open, startsLine, text, q)
    ensures p.start == q.start ==> p == q
  {
    EndOfPlace(open, startsLine, text, p);
    EndOfPlace(open, startsLine, text, q);
  }

  lemma EndOfPlace(open: string, startsLine: bool, text: string, p: Place)
    requires IsPlace(open, startsLine, text, p)
    ensures p.start + |open| <= |text| && p.end == p.start + |open| + Find(text[p.start + |open|..], '"') + 1
  {
    var i := p.start + |open|;
    assert text[i..][p.end - 1 - i] == '"' && forall k | 0 <= k < p.end - 1 - i :: text[i..][k] == text[i + k];
    FirstQuote(text[i..], p.end - 1 - i);
  }

  /** The text, written over at all of its places. */
  ghost predicate WrittenOver(open: string, startsLine: bool, body: seq<Piece>, text: string, written: string) {
    exists places: seq<Place> ::
      ArePlaces(open, startsLine, text, 0, places) && written == Replaced(open, startsLine, body, text, 0, places)
  }

  lemma SubWritesOver(site: Site, body: seq<Piece>, text: string)
    ensures forall written :: WrittenOver(site.open, site.atLineStart, body, text, written) <==> written == Sub(site, body, text, true)
  {
    hide Sub, ArePlaces, Replaced;
    var places := SubReplaces(site, body, text, 0);
    assert text[0..] == text;
    forall written
      ensures WrittenOver(site.open, site.atLineStart, body, text, written) <==> written == Sub(site, body, text, true)
    {
      if WrittenOver(site.open, site.atLineStart, body, text, written) {
        var others: seq<Place> :| ArePlaces(site.open, site.atLineStart, text, 0, others)
                                  && written == Replaced(site.open, site.atLineStart, body, text, 0, others);
        PlacesAreUnique(site.open, site.atLineStart, text, 0, places, others);
      }
    }
  }

  // ---- Line by line ----

  /** The length of the first line, its line feed included. */
  function FeedLength(s: string): (n: nat)
    ensures n <= |s| && (s != "" ==> n > 0)
    ensures forall k | 0 <= k < n - 1 :: s[k] != '\n'
    ensures n < |s| ==> s[n - 1] == '\n'
  {
    if s == "" then 0 else if s[0] == '\n' then 1 else 1 + FeedLength(s[1..])
  }

  /** The lines of a text, cut behind its line feeds. */
  function FeedLines(s: string): seq<string>
    decreases |s|
  {
    if s == "" then [] else [s[..FeedLength(s)]] + FeedLines(s[FeedLength(s)..])
  }

  /** A line that has the opening at its start and is closed gets what the body writes there; any other line stays. */
  ghost predicate OwnLine(open: string, body: seq<Piece>, line: string, after: string) {
    && (forall version, rest | '"' !in version && line == open + version + "\"" + rest ::
          after == open + Fill(body, open + version + "\"") + "\"" + rest)
    && ((forall version, rest | '"' !in version :: line != open + version + "\"" + rest) ==> after == line)
  }

  ghost predicate LineByLine(open: string, body: seq<Piece>, text: string, written: string) {
    exists after: seq<string> :: AreOwnLines(open, body, FeedLines(text), after) && JoinLines(after) == written
  }

  ghost predicate AreOwnLines(open: string, body: seq<Piece>, lines: seq<string>, after: seq<string>) {
    |after| == |lines| && forall k | 0 <= k < |lines| :: OwnLine(open, body, lines[k], after[k])
  }

  /** Whatever starts a line and is closed at all is closed on its line. */
  ghost predicate ClosedOnLine(open: string, text: string) {
    forall i | 0 <= i <= |text| && StartsLine(text, i) :: !RunsOver(open, text[i..])
  }

  /** The opening stands here, and the next quote behind it is on a later line. */
  predicate RunsOver(open: string, s: string) {
    open <= s && Find(s[|open|..], '"') < |s| - |open| && '\n' in s[|open|..][..Find(s[|open|..], '"')]
  }

  /** Behind a line's own match, or without one, nothing changes up to the next line. */
  lemma {:induction false} RestOfLineStays(open: string, body: seq<Piece>, head: string, s: string)
    requires forall k | 0 <= k < |head| - 1 :: head[k] != '\n'
    requires head == "" || s == "" || head[|head| - 1] == '\n'
    ensures var site := Site(open, true); Sub(site, body, head + s, false) == head + Sub(site, body, s, head != "")
    decreases |head|
  {
    hide Opens, Body, After, Matched, Fill;
    if head == "" {
      assert head + s == s;
    } else if |head| == 1 {
      assert (head + s)[1..] == s && (head + s)[0] == head[0];
      SubAtTheEnd(open, body, head[0] == '\n');
      assert [head[0]] == head;
    } else {
      assert (head + s)[1..] == head[1..] + s && (head + s)[0] == head[0];
      RestOfLineStays(open, body, head[1..], s);
      assert [head[0]] + head[1..] == head;
    }
  }

  lemma SubAtTheEnd(open: string, body: seq<Piece>, lineStart: bool)
    ensures Sub(Site(open, true), body, "", lineStart) == ""
  {}

  /** One line: what is written over it, and what of the text is left. */
  lemma FirstLineOwn(open: string, body: seq<Piece>, text: string) returns (after: string)
    requires text != "" && open != "" && '\n' !in open && !RunsOver(open, text)
    ensures var n, site := FeedLength(text), Site(open, true);
            && OwnLine(open, body, text[..n], after)
            && Sub(site, body, text, true) == after + Sub(site, body, text[n..], true)
  {
    hide Sub, Fill, RunsOver, OwnLine, Opens;
    var n, site := FeedLength(text), Site(open, true);
    var line, later := text[..n], text[n..];
    assert text == line + later;
    if Opens(site, text) {
      var version, rest := WrittenLine(open, text);
      after := WrittenOwn(open, body, version, rest, later);
      Reassociate(open + version + "\"", rest, later);
    } else {
      after := line;
      NotWritten(open, body, text, line, later);
      NoneOnLine(open, body, line, later);
    }
  }

  lemma WrittenOwn(open: string, body: seq<Piece>, version: string, rest: string, later: string) returns (after: string)
    requires '"' !in version && (forall k | 0 <= k < |rest| - 1 :: rest[k] != '\n')
    requires later != "" ==> rest != "" && rest[|rest| - 1] == '\n'
    ensures OwnLine(open, body, open + version + "\"" + rest, after)
    ensures var site := Site(open, true);
            Sub(site, body, open + version + "\"" + (rest + later), true) == after + Sub(site, body, later, true)
  {
    hide Sub, Fill, OwnLine;
    var site, head := Site(open, true), open + Fill(body, open + version + "\"") + "\"";
    after := head + rest;
    SubOfWritten(site, version, body, rest + later, true);
    RestOfLineStays(open, body, rest, later);
    SubAtTheEnd(open, body, true);
    SubAtTheEnd(open, body, false);
    OnlyWritten(open, body, version, rest);
    Reassociate(head, rest, Sub(site, body, later, true));
  }

  /** A match that is closed on the first line. */
  lemma WrittenLine(open: string, text: string) returns (version: string, rest: string)
    requires Opens(Site(open, true), text) && '\n' !in open && !RunsOver(open, text)
    ensures var n := FeedLength(text);
            && '"' !in version && text[..n] == open + version + "\"" + rest
            && (forall k | 0 <= k < |rest| - 1 :: rest[k] != '\n')
            && (n < |text| ==> rest != "" && rest[|rest| - 1] == '\n')
  {
    var after: string;
    version, after := MatchOf(open, text);
    rest := RestOfLine(open + version + "\"", after);
    HeadHasNoFeed(open, version);
  }

  lemma MatchOf(open: string, text: string) returns (version: string, after: string)
    requires Opens(Site(open, true), text) && !RunsOver(open, text)
    ensures '"' !in version && '\n' !in version && text == open + version + "\"" + after
  {
    var site := Site(open, true);
    version, after := Body(site, text), After(site, text);
    BodyHasNoQuote(site, text);
  }

  /** The first line of a text that goes on behind something without a line feed. */
  lemma RestOfLine(head: string, after: string) returns (rest: string)
    ensures var text, n := head + after, FeedLength(head + after);
            (forall k | 0 <= k < |head| :: head[k] != '\n') ==>
              && text[..n] == head + rest && (forall k | 0 <= k < |rest| - 1 :: rest[k] != '\n')
              && (n < |text| ==> rest != "" && rest[|rest| - 1] == '\n')
  {
    var m := FeedLength(after);
    rest := after[..m];
    assert (head + after)[..|head| + m] == head + rest;
    if forall k | 0 <= k < |head| :: head[k] != '\n' {
      FeedBehind(head, after);
    }
  }

  lemma HeadHasNoFeed(open: string, version: string)
    requires '\n' !in open && '\n' !in version
    ensures var head := open + version + "\""; forall k | 0 <= k < |head| :: head[k] != '\n'
  {
    assert forall k | 0 <= k < |open| :: open[k] in open;
    assert forall k | 0 <= k < |version| :: version[k] in version;
  }

  lemma {:induction false} FeedBehind(head: string, rest: string)
    requires forall k | 0 <= k < |head| :: head[k] != '\n'
    ensures FeedLength(head + rest) == |head| + FeedLength(rest)
  {
    if head == "" {
      assert head + rest == rest;
    } else {
      assert (head + rest)[1..] == head[1..] + rest;
      FeedBehind(head[1..], rest);
    }
  }

  lemma OnlyWritten(open: string, body: seq<Piece>, version: string, rest: string)
    requires '"' !in version
    ensures OwnLine(open, body, open + version + "\"" + rest, open + Fill(body, open + version + "\"") + "\"" + rest)
  {
    hide Fill;
    var line := open + version + "\"" + rest;
    forall v, r | '"' !in v && line == open + v + "\"" + r
      ensures v == version && r == rest
    {
      SameAtTheQuote(open, v, r, version, rest);
    }
  }

  lemma NotWritten(open: string, body: seq<Piece>, text: string, line: string, later: string)
    requires text == line + later && !Opens(Site(open, true), text)
    ensures OwnLine(open, body, line, line)
  {
    hide Opens, Body, After, Matched;
    forall version, rest
      ensures '"' !in version ==> line != open + version + "\"" + rest
    {
      if '"' !in version {
        WrittenMatches(Site(open, true), version, rest + later, true);
      }
      assert open + version + "\"" + rest + later == open + version + "\"" + (rest + later);
    }
  }

  /** A line that does not open a match stays. */
  lemma NoneOnLine(open: string, body: seq<Piece>, line: string, later: string)
    requires line != "" && !Opens(Site(open, true), line + later)
    requires (forall k | 0 <= k < |line| - 1 :: line[k] != '\n') && (later == "" || line[|line| - 1] == '\n')
    ensures var site := Site(open, true); Sub(site, body, line + later, true) == line + Sub(site, body, later, true)
  {
    hide Opens, Body, After, Matched, Fill;
    var text := line + later;
    assert text[1..] == line[1..] + later && text[0] == line[0] && [line[0]] + line[1..] == line;
    if |line| > 1 {
      RestOfLineStays(open, body, line[1..], later);
    } else {
      assert line[1..] + later == later;
    }
    SubAtTheEnd(open, body, true);
    SubAtTheEnd(open, body, false);
  }

  lemma {:induction false} ClosedIsLineByLine(open: string, body: seq<Piece>, text: string)
    requires open != "" && '\n' !in open && ClosedOnLine(open, text)
    ensures LineByLine(open, body, text, Sub(Site(open, true), body, text, true))
    decreases |text|
  {
    hide Sub, OwnLine, RunsOver;
    if text == "" {
      SubAtTheEnd(open, body, true);
      NothingByLines(open, body);
    } else {
      var n := FeedLength(text);
      assert text[0..] == text;
      var first := FirstLineOwn(open, body, text);
      ClosedBehind(open, text, n);
      ClosedIsLineByLine(open, body, text[n..]);
      var rest: seq<string> :| AreOwnLines(open, body, FeedLines(text[n..]), rest)
                               && JoinLines(rest) == Sub(Site(open, true), body, text[n..], true);
      var after := [first] + rest;
      assert after[1..] == rest;
      assert AreOwnLines(open, body, FeedLines(text), after);
    }
  }

  lemma NothingByLines(open: string, body: seq<Piece>)
    ensures LineByLine(open, body, "", "")
  {
    assert AreOwnLines(open, body, FeedLines(""), []) && JoinLines([]) == "";
  }

  lemma ClosedBehind(open: string, text: string, n: nat)
    requires ClosedOnLine(open, text) && n <= |text| && (n < |text| ==> n > 0 && text[n - 1] == '\n')
    ensures ClosedOnLine(open, text[n..])
  {
    hide RunsOver;
    forall i | 0 <= i <= |text| - n && StartsLine(text[n..], i)
      ensures !RunsOver(open, text[n..][i..])
    {
      assert text[n..][i..] == text[n + i..];
      if n + i < |text| {
        assert StartsLine(text, n + i);
      } else {
        NothingRunsOver(open);
      }
    }
  }

  lemma NothingRunsOver(open: string)
    ensures !RunsOver(open, "")
  {}

  // ---- Where the lines do not tell ----

  function Feeds(s: string): nat {
    multiset(s)['\n']
  }

  lemma FeedsJoin(a: string, b: string)
    ensures Feeds(a + b) == Feeds(a) + Feeds(b)
  {}

  /** An empty version takes the line feeds out that its matches have within. */
  lemma {:induction false} EmptyTakesFeeds(open: string, s: string, lineStart: bool)
    ensures Feeds(Sub(Site(open, true), [], s, lineStart)) <= Feeds(s)
    decreases |s|
  {
    hide Opens, Body, After, Matched, Feeds;
    var site := Site(open, true);
    if s == "" {
    } else if MatchesHere(site, s, lineStart) {
      EmptyTakesFeeds(open, After(site, s), false);
      FewerFeeds(open, Body(site, s), After(site, s), Sub(site, [], After(site, s), false));
      EmptyFill(Matched(site, s));
    } else {
      EmptyTakesFeeds(open, s[1..], s[0] == '\n');
      FeedsJoin([s[0]], s[1..]);
      FeedsJoin([s[0]], Sub(site, [], s[1..], s[0] == '\n'));
      assert [s[0]] + s[1..] == s;
    }
  }

  lemma EmptyFill(whole: string)
    ensures Fill([], whole) == ""
  {}

  lemma FewerFeeds(open: string, version: string, rest: string, after: string)
    requires Feeds(after) <= Feeds(rest)
    ensures Feeds(open + "" + "\"" + after) <= Feeds(open + version + "\"" + rest)
    ensures '\n' in version || Feeds(after) < Feeds(rest) ==> Feeds(open + "" + "\"" + after) < Feeds(open + version + "\"" + rest)
  {
    assert '\n' in version ==> Feeds(version) > 0;
    assert Feeds("") == 0;
    hide Feeds;
    FeedsJoin(open + "" + "\"", after);
    FeedsJoin(open + "", "\"");
    FeedsJoin(open, "");
    FeedsJoin(open + version + "\"", rest);
    FeedsJoin(open + version, "\"");
    FeedsJoin(open, version);
  }

  /** An opening that runs over a line is within a match that does. */
  lemma {:induction false} RunningOverTakesFeeds(open: string, s: string, lineStart: bool, i: nat)
    requires open != "" && '\n' !in open && i <= |s| && (if i == 0 then lineStart else s[i - 1] == '\n') && RunsOver(open, s[i..])
    ensures Feeds(Sub(Site(open, true), [], s, lineStart)) < Feeds(s)
    decreases |s|
  {
    hide Opens, Body, After, Matched, Feeds, RunsOver;
    var site := Site(open, true);
    NothingRunsOver(open);
    if MatchesHere(site, s, lineStart) {
      var version, rest := Body(site, s), After(site, s);
      EmptyTakesFeeds(open, rest, false);
      if '\n' !in version {
        FeedBehindMatch(open, s, i);
        assert s[i..] == rest[i - (|s| - |rest|)..];
        RunningOverTakesFeeds(open, rest, false, i - (|s| - |rest|));
      }
      FewerFeeds(open, version, rest, Sub(site, [], rest, false));
      EmptyFill(Matched(site, s));
    } else {
      RunningOverOpens(open, s[i..]);
      assert i > 0 by { assert s[0..] == s; }
      assert s[1..][i - 1..] == s[i..];
      RunningOverTakesFeeds(open, s[1..], s[0] == '\n', i - 1);
      FeedsJoin([s[0]], s[1..]);
      FeedsJoin([s[0]], Sub(site, [], s[1..], s[0] == '\n'));
      assert [s[0]] + s[1..] == s;
    }
  }

  lemma RunningOverOpens(open: string, s: string)
    requires RunsOver(open, s)
    ensures Opens(Site(open, true), s) && '\n' in Body(Site(open, true), s)
  {}

  /** The line starts behind a match without a line feed in it. */
  lemma FeedBehindMatch(open: string, s: string, i: nat)
    requires Opens(Site(open, true), s) && '\n' !in open && '\n' !in Body(Site(open, true), s)
    requires i <= |s| && RunsOver(open, s[i..]) && (i > 0 ==> s[i - 1] == '\n')
    ensures var rest := After(Site(open, true), s);
            |s| - |rest| < i && s[i - 1] == '\n' && rest[i - 1 - (|s| - |rest|)] == '\n' && rest == s[|s| - |rest|..]
  {
    var site := Site(open, true);
    var version, rest := Body(site, s), After(site, s);
    var head := open + version + "\"";
    HeadHasNoFeed(open, version);
    RunningOverOpens(open, s[i..]);
    assert s == head + rest && s[0..] == s;
    hide Opens, Body, After, RunsOver;
    assert forall k | 0 <= k < |head| :: s[k] == head[k];
    assert i != 0;
  }

  lemma {:induction false} LinesKeepFeeds(open: string, text: string, after: seq<string>)
    requires '\n' !in open && AreOwnLines(open, [], FeedLines(text), after)
    ensures Feeds(JoinLines(after)) == Feeds(text)
    decreases |text|
  {
    hide Feeds, OwnLine, FeedLines, AreOwnLines;
    FirstOwnLine(open, text, after);
    if text != "" {
      var n := FeedLength(text);
      var line := text[..n];
      OwnLineKeepsFeeds(open, line, after[0]);
      LinesKeepFeeds(open, text[n..], after[1..]);
      FeedsJoin(line, text[n..]);
      FeedsJoin(after[0], JoinLines(after[1..]));
      assert text == line + text[n..];
    }
  }

  lemma FirstOwnLine(open: string, text: string, after: seq<string>)
    requires AreOwnLines(open, [], FeedLines(text), after)
    ensures text == "" ==> after == []
    ensures text != "" ==> after != [] && OwnLine(open, [], text[..FeedLength(text)], after[0])
                           && AreOwnLines(open, [], FeedLines(text[FeedLength(text)..]), after[1..])
  {
    hide OwnLine;
    if text != "" {
      var lines := FeedLines(text);
      assert lines[0] == text[..FeedLength(text)] && lines[1..] == FeedLines(text[FeedLength(text)..]);
    }
  }

  lemma OwnLineKeepsFeeds(open: string, line: string, after: string)
    requires OwnLine(open, [], line, after) && '\n' !in open && forall k | 0 <= k < |line| - 1 :: line[k] != '\n'
    ensures Feeds(after) == Feeds(line)
  {
    hide Feeds;
    if version, rest :| '"' !in version && line == open + version + "\"" + rest {
      var n := |open|;
      assert forall k | 0 <= k < |version| :: line[n + k] == version[k];
      EmptyFill(open + version + "\"");
      SameFeeds(open, version, rest);
    }
  }

  lemma SameFeeds(open: string, version: string, rest: string)
    requires '\n' !in version
    ensures Feeds(open + "" + "\"" + rest) == Feeds(open + version + "\"" + rest)
  {
    assert Feeds(version) == 0 && Feeds("") == 0;
    hide Feeds;
    FeedsJoin(open + "" + "\"", rest);
    FeedsJoin(open + "", "\"");
    FeedsJoin(open, "");
    FeedsJoin(open + version + "\"", rest);
    FeedsJoin(open + version, "\"");
    FeedsJoin(open, version);
  }

  /**
    * A pattern that starts a line is written over line by line, whatever is written, exactly when each of its openings
    * that is closed at all is closed on its own line.
    */
  lemma LineByLineIff(open: string, text: string)
    requires open != "" && '\n' !in open
    ensures (forall body, written :: WrittenOver(open, true, body, text, written) ==> LineByLine(open, body, text, written))
            <==> ClosedOnLine(open, text)
  {
    hide Sub, RunsOver, WrittenOver, AreOwnLines, Feeds;
    if ClosedOnLine(open, text) {
      forall body, written | WrittenOver(open, true, body, text, written)
        ensures LineByLine(open, body, text, written)
      {
        SubWritesOver(Site(open, true), body, text);
        ClosedIsLineByLine(open, body, text);
      }
    } else {
      var i :| 0 <= i <= |text| && StartsLine(text, i) && RunsOver(open, text[i..]);
      var written := Sub(Site(open, true), [], text, true);
      SubWritesOver(Site(open, true), [], text);
      RunningOverTakesFeeds(open, text, true, i);
      if LineByLine(open, [], text, written) {
        var after: seq<string> :| AreOwnLines(open, [], FeedLines(text), after) && JoinLines(after) == written;
        LinesKeepFeeds(open, text, after);
        assert false;
      }
    }
  }
}
