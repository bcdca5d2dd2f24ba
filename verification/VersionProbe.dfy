/** What a body writes over the pin that says `path = ` decides for every pin. */
module VersionProbe {
  import opened Wrappers
  import opened Text
  import opened VersionLines
  import opened VersionTemplates
  import opened VersionSites
  import opened VersionPins
  import opened VersionBreaks
  import opened VersionWitness

  lemma {:induction false} FillSplit(a: seq<Piece>, b: seq<Piece>, whole: string)
    ensures Fill(a + b, whole) == Fill(a, whole) + Fill(b, whole)
  {
    if a == [] {
      assert a + b == b;
    } else {
      assert (a + b)[1..] == a[1..] + b;
      FillSplit(a[1..], b, whole);
    }
  }

  /** What a body writes starts alike over every pin, up to a quote: `q`, then something, then a quote. */
  predicate Runs(q: string, s: string) {
    q <= s && |q| < |s| && s[|q|] != '"' && '"' in s[|q|..]
  }

  lemma {:induction false} RunsAlike(q: string, body: seq<Piece>, version: string)
    requires 'v' !in q && IsPlainText(version) && Runs(q, Fill(body, Pin(version)))
    ensures Runs(q, Fill(body, Pin(VERSION)))
    decreases |q|
  {
    hide IsPlainText, Pin, Runs;
    PinStarts(version);
    PinStarts(VERSION);
    if q == "" {
      SomethingRuns(body, version);
    } else {
      RunsOneMore(q, Fill(body, Pin(version)));
      if body[0].Char? {
        assert Fill(body, Pin(version))[1..] == Fill(body[1..], Pin(version));
        RunsAlike(q[1..], body[1..], version);
        assert Fill(body, Pin(VERSION))[1..] == Fill(body[1..], Pin(VERSION));
        RunsOneMore(q, Fill(body, Pin(VERSION)));
      }
    }
  }

  lemma PinStarts(version: string)
    ensures Pin(version) != "" && Pin(version)[0] == 'v' && '"' in Pin(version)
  {
    PinParts();
    assert Pin(version)[10] == '"';
  }

  lemma RunsOneMore(q: string, s: string)
    requires q != ""
    ensures Runs(q, s) <==> s != "" && s[0] == q[0] && Runs(q[1..], s[1..])
  {
    if s != "" && |q| < |s| {
      assert s[1..][|q| - 1..] == s[|q|..];
      assert q <= s <==> s[..|q|] == q;
      assert q == [q[0]] + q[1..] && s[..|q|] == [s[0]] + s[1..][..|q| - 1];
    }
  }

  lemma SomethingRuns(body: seq<Piece>, version: string)
    requires Runs("", Fill(body, Pin(version)))
    ensures Runs("", Fill(body, Pin(VERSION)))
  {
    var a, b := Fill(body, Pin(version)), Fill(body, Pin(VERSION));
    assert a[0..] == a && b[0..] == b;
    PinStarts(version);
    PinStarts(VERSION);
    FillQuotes(body, Pin(version));
    FillQuotes(body, Pin(VERSION));
  }

  /** A path starts here. */
  lemma PathRuns(s: string)
    ensures Runs(PATH_OPEN, s) ==> HasTarget(s)
    ensures HasTarget(s) ==> s != "" && (Runs(PATH_OPEN, s) || HasTarget(s[1..]))
  {
    assert |PATH_OPEN| == 11 by { assert PATH_OPEN == "path = \"../"; }
    if PATH_OPEN <= s {
      ClosesIffQuoted(s[11..]);
    }
  }

  lemma {:induction false} PathFurther(s: string)
    requires s != "" && HasTarget(s[1..])
    ensures HasTarget(s)
  {
    TargetBehind([s[0]], s[1..]);
    assert s == [s[0]] + s[1..];
  }

  /** A path over the first quote: what is behind the quote goes on with it. */
  lemma {:induction false} PathAcross(a: string, b: string)
    requires '"' !in a && HasTarget(a + "\"" + b)
    ensures HasTarget(b) || (|a| >= 7 && a[|a| - 7..] == VERSION && Runs("../", b))
  {
    hide HasTarget, Runs;
    var s := a + "\"" + b;
    PathRuns(s);
    if a == "" {
      assert s[0] == '"' && s[1..] == b;
      NoPathAtAQuote(s);
    } else {
      assert s[1..] == a[1..] + "\"" + b;
      PathBeforeAQuote(a, b);
      if HasTarget(s[1..]) {
        PathAcross(a[1..], b);
      }
    }
  }

  lemma NoPathAtAQuote(s: string)
    requires s != "" && s[0] == '"'
    ensures !Runs(PATH_OPEN, s)
  {
    assert PATH_OPEN[0] == 'p';
  }

  lemma PathBeforeAQuote(a: string, b: string)
    requires '"' !in a
    ensures Runs(PATH_OPEN, a + "\"" + b) ==> a == VERSION && Runs("../", b)
  {
    var s := a + "\"" + b;
    PathOpenParts();
    assert s[|a|] == '"' && forall k | 0 <= k < |a| :: s[k] == a[k] && s[k] != '"';
    if Runs(PATH_OPEN, s) {
      assert forall k | 0 <= k < 11 :: s[k] == PATH_OPEN[k];
      assert s[7] == PATH_OPEN[7];
      assert |a| < 11 && s[|a|] == PATH_OPEN[|a|];
      assert |a| == 7 && s[8..] == b;
      assert a == PATH_OPEN[..7];
      assert b[..3] == PATH_OPEN[8..] by {
        assert forall k | 0 <= k < 3 :: b[k] == s[8 + k];
      }
      assert s[11..] == b[3..];
    }
  }

  lemma PathOpenParts()
    ensures |PATH_OPEN| == 11 && PATH_OPEN == VERSION + "\"" + "../" && PATH_OPEN[..7] == VERSION && PATH_OPEN[8..] == "../"
    ensures 'v' !in PATH_OPEN && forall k | 0 <= k < 11 :: PATH_OPEN[k] == '"' <==> k == 7
  {
    assert PATH_OPEN == "path = \"../";
  }

  /** Over the pin that says `path = ` a body makes a path wherever it makes one over any pin. */
  lemma {:induction false} PathSurvives(body: seq<Piece>, version: string)
    requires IsPlainText(version) && HasTarget(Fill(body, Pin(version)))
    ensures HasTarget(Fill(body, Pin(VERSION)))
  {
    hide HasTarget, Runs, Pin, IsPlainText;
    var a, b := Fill(body, Pin(version)), Fill(body, Pin(VERSION));
    PathOpenParts();
    PathRuns(a);
    PathRuns(b);
    if Runs(PATH_OPEN, a) {
      RunsAlike(PATH_OPEN, body, version);
    } else {
      var rest, rest' := Fill(body[1..], Pin(version)), Fill(body[1..], Pin(VERSION));
      if body[0].Char? {
        assert a[1..] == rest && b[1..] == rest';
        PathSurvives(body[1..], version);
        PathFurther(b);
      } else {
        PathBehindAPin(version, rest);
        if HasTarget(rest) {
          PathSurvives(body[1..], version);
          TargetBehind(Pin(VERSION), rest');
        } else {
          NoVInDots();
          RunsAlike("../", body[1..], version);
          PinMakesAPath(rest');
        }
      }
    }
  }

  lemma NoVInDots()
    ensures 'v' !in "../"
  {}

  lemma PathBehindAPin(version: string, rest: string)
    requires IsPlainText(version) && HasTarget(Pin(version) + rest)
    ensures HasTarget(rest) || Runs("../", rest)
  {
    hide HasTarget;
    var head, middle := "version = ", "=" + version;
    assert PIN_SITE.open == head + "\"" + "=";
    assert Pin(version) + rest == head + "\"" + (middle + "\"" + rest);
    assert (middle + "\"" + rest)[0] == '=';
    PathAcross(head, middle + "\"" + rest);
    assert '"' !in middle;
    PathAcross(middle, rest);
  }

  lemma PinMakesAPath(rest: string)
    requires Runs("../", rest)
    ensures HasTarget(Pin(VERSION) + rest)
  {
    hide HasTarget;
    var s := VERSION + "\"" + rest;
    PathOpenParts();
    assert s[..8] == VERSION + "\"" && s[8..] == rest && rest[..3] == "../";
    assert s[..11] == PATH_OPEN by {
      assert s[..11] == s[..8] + rest[..3];
    }
    assert s[11..] == rest[3..];
    PathRuns(s);
    TargetBehind(PIN_SITE.open, s);
    assert PIN_SITE.open + s == Pin(VERSION) + rest;
  }

  /** A reference writes a pin. */
  lemma {:induction false} ReferenceWritesAPin(body: seq<Piece>, version: string)
    requires Whole in body
    ensures Occurs(PIN_SITE.open, Fill(body, Pin(version))) && HasPin(Fill(body, Pin(version)))
    ensures '"' in Fill(body, Pin(version))
  {
    hide Opens, HasPin;
    var rest := Fill(body[1..], Pin(version));
    if body[0] == Whole {
      assert Fill(body, Pin(version)) == PIN_SITE.open + (version + ("\"" + rest));
      assert (version + ("\"" + rest))[|version|] == '"';
      QuotedPin(version + ("\"" + rest));
    } else {
      ReferenceWritesAPin(body[1..], version);
      assert Fill(body, Pin(version))[1..] == rest;
      PinBehind([body[0].c], rest);
    }
  }

  lemma {:induction false} NoReferenceNoDifference(body: seq<Piece>, one: string, other: string)
    requires Whole !in body
    ensures Fill(body, one) == Fill(body, other)
  {
    if body != [] {
      NoReferenceNoDifference(body[1..], one, other);
    }
  }

  lemma SettledSurvives(body: seq<Piece>, version: string)
    requires IsPlainText(version) && Settled(Fill(body, Pin(VERSION)))
    ensures Settled(Fill(body, Pin(version)))
  {
    hide HasPin, HasTarget, Pin;
    if Whole in body {
      ReferenceWritesAPin(body, VERSION);
      if HasTarget(Fill(body, Pin(version))) {
        PathSurvives(body, version);
      }
    } else {
      NoReferenceNoDifference(body, Pin(version), Pin(VERSION));
    }
  }

  /** The pieces up to the first break, which make the first line whatever the match is. */
  lemma {:induction false} FirstPieces(body: seq<Piece>, whole: string) returns (n: nat)
    requires BodyBreaks(body) && forall k | 0 <= k < |whole| :: !IsBreak(whole[k])
    ensures 0 < n <= |body| && body[n - 1].Char? && IsBreak(body[n - 1].c)
    ensures forall k | 0 <= k < n - 1 :: !(body[k].Char? && IsBreak(body[k].c))
    ensures var all, first := Fill(body, whole), Fill(body[..n], whole);
            Broken(all) && LineLength(all) == |first| && all[..|first|] == first && all[|first|..] == Fill(body[n..], whole)
  {
    hide Broken, LineLength;
    n := FirstBreakPiece(body);
    var head, c := body[..n - 1], body[n - 1].c;
    assert body == body[..n] + body[n..] && body[..n] == head + [Char(c)];
    FillSplit(body[..n], body[n..], whole);
    FillSplit(head, [Char(c)], whole);
    FillOfOne(c, whole);
    HeadFillHasNoBreak(head, whole);
    FirstLineOfThese(Fill(head, whole), c, Fill(body[n..], whole));
  }

  lemma FillOfOne(c: char, whole: string)
    ensures Fill([Char(c)], whole) == [c]
  {
    assert [Char(c)][1..] == [];
  }

  lemma FirstLineOfThese(text: string, c: char, rest: string)
    requires IsBreak(c) && forall k | 0 <= k < |text| :: !IsBreak(text[k])
    ensures var all, first := text + [c] + rest, text + [c];
            Broken(all) && LineLength(all) == |first| && all[..|first|] == first && all[|first|..] == rest
  {
    var all := text + [c] + rest;
    assert all == text + ([c] + rest);
    LineLengthAfter(text, [c] + rest);
    FirstBreak(c, rest);
    assert all[|text|] == c;
  }

  lemma HeadFillHasNoBreak(head: seq<Piece>, whole: string)
    requires forall k | 0 <= k < |whole| :: !IsBreak(whole[k])
    requires forall k | 0 <= k < |head| :: !(head[k].Char? && IsBreak(head[k].c))
    ensures forall k | 0 <= k < |Fill(head, whole)| :: !IsBreak(Fill(head, whole)[k])
  {
    FillBreaks(head, whole);
  }

  lemma {:induction false} FirstBreakPiece(body: seq<Piece>) returns (n: nat)
    requires BodyBreaks(body)
    ensures 0 < n <= |body| && body[n - 1].Char? && IsBreak(body[n - 1].c)
    ensures forall k | 0 <= k < n - 1 :: !(body[k].Char? && IsBreak(body[k].c))
  {
    if body[0].Char? && IsBreak(body[0].c) {
      n := 1;
    } else {
      BodyBreaksSplit(body);
      var m := FirstBreakPiece(body[1..]);
      n := m + 1;
      assert forall k | 0 < k < n :: body[k] == body[1..][k - 1];
    }
  }

  /** The cut does not depend on the match. */
  lemma SameFirstPieces(body: seq<Piece>, one: string, other: string) returns (n: nat)
    requires BodyBreaks(body)
    requires forall k | 0 <= k < |one| :: !IsBreak(one[k])
    requires forall k | 0 <= k < |other| :: !IsBreak(other[k])
    ensures 0 < n <= |body|
    ensures var all, first := Fill(body, one), Fill(body[..n], one);
            Broken(all) && LineLength(all) == |first| && all[..|first|] == first && all[|first|..] == Fill(body[n..], one)
    ensures var all, first := Fill(body, other), Fill(body[..n], other);
            Broken(all) && LineLength(all) == |first| && all[..|first|] == first && all[|first|..] == Fill(body[n..], other)
  {
    hide Fill, Broken, LineLength;
    n := FirstPieces(body, one);
    var m := FirstPieces(body, other);
    assert !(m < n) && !(n < m);
  }

  lemma {:induction false} RestSettlesSurvives(body: seq<Piece>, version: string)
    requires IsPlainText(version) && RestSettles(Fill(body, Pin(VERSION)))
    ensures RestSettles(Fill(body, Pin(version)))
    decreases |body|
  {
    hide Fill, Broken, LineLength, Settled, Occurs, Pin, IsPlainText, BodyBreaks;
    VersionIsPlainText();
    PinHasNoBreak(version);
    PinHasNoBreak(VERSION);
    FillBreaks(body, Pin(version));
    FillBreaks(body, Pin(VERSION));
    BrokenIff(Fill(body, Pin(version)));
    BrokenIff(Fill(body, Pin(VERSION)));
    if BodyBreaks(body) {
      var n := SameFirstPieces(body, Pin(VERSION), Pin(version));
      SettledSurvives(body[..n], version);
      RestSettlesSurvives(body[n..], version);
    } else if Whole in body {
      ReferenceWritesAPin(body, VERSION);
      OccursFurther(PIN_SITE.open, Fill(body, Pin(VERSION)), "\"=");
    } else {
      NoReferenceNoDifference(body, Pin(version), Pin(VERSION));
    }
  }

  lemma VersionIsPlainText()
    ensures IsPlainText(VERSION)
  {
    assert VERSION == "path = ";
  }

  lemma {:induction false} OccursFurther(x: string, a: string, b: string)
    requires Occurs(x, a)
    ensures Occurs(x, a + b)
  {
    if !(x <= a) {
      assert (a + b)[1..] == a[1..] + b;
      OccursFurther(x, a[1..], b);
    }
  }

  lemma SettlesSurvives(body: seq<Piece>, version: string)
    requires IsPlainText(version) && Settles(Fill(body, Pin(VERSION)))
    ensures Settles(Fill(body, Pin(version)))
  {
    hide Fill, Broken, LineLength, RestSettles, Pin, IsPlainText, BodyBreaks;
    VersionIsPlainText();
    PinHasNoBreak(version);
    PinHasNoBreak(VERSION);
    FillBreaks(body, Pin(version));
    FillBreaks(body, Pin(VERSION));
    BrokenIff(Fill(body, Pin(version)));
    BrokenIff(Fill(body, Pin(VERSION)));
    var first := body;
    if BodyBreaks(body) {
      var n := SameFirstPieces(body, Pin(VERSION), Pin(version));
      first := body[..n];
      RestSettlesSurvives(body[n..], version);
    }
    if Whole in first {
      ReferenceWritesAPin(first, VERSION);
    } else {
      NoReferenceNoDifference(first, Pin(version), Pin(VERSION));
    }
  }

  /** So one pin decides for all. */
  lemma OnePinDecides(body: seq<Piece>)
    ensures AlwaysSettles(body) <==> Settles(Fill(body, Pin(VERSION)))
  {
    hide Settles, Fill, Pin, IsPlainText;
    VersionIsPlainText();
    if Settles(Fill(body, Pin(VERSION))) {
      forall version | IsPlainText(version)
        ensures Settles(Fill(body, Pin(version)))
      {
        SettlesSurvives(body, version);
      }
    }
  }
}
