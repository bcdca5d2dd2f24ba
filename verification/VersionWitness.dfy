/** A line that repinning unsettles whenever the condition on what is written fails. */
module VersionWitness {
  import opened Wrappers
  import opened Text
  import opened VersionLines
  import opened VersionTemplates
  import opened VersionSites
  import opened VersionPins
  import opened VersionBreaks

  const PATH: string := "path = \"../m\""
  const TAIL: string := "=z\" path = \"../m\""
  const VERSION: string := "path = "

  /** A line with a path, a pin, and something that looks like a pin's end before another path. */
  function Witness(written: string): string {
    PATH + (PIN_SITE.open + written + "\"" + TAIL)
  }

  lemma WitnessParts()
    ensures |PATH| == 13 && 'v' !in PATH && IsPlainText(VERSION)
    ensures forall k | 0 <= k < |PATH| :: !IsBreak(PATH[k])
  {
    assert PATH == "path = \"../m\"";
  }

  lemma TailParts()
    ensures 'v' !in TAIL && TAIL == "=z\" " + PATH && |TAIL| > 3 && TAIL[0] == '=' && '"' in TAIL[1..]
    ensures forall k | 0 <= k < |TAIL| :: !IsBreak(TAIL[k])
  {
    assert TAIL == "=z\" path = \"../m\"" && PATH == "path = \"../m\"";
    assert TAIL[1..][1] == '"';
  }

  lemma {:induction false} NoOpeningWithoutV(s: string)
    requires 'v' !in s
    ensures !HasPin(s)
  {
    PinParts();
    if s != "" {
      OpeningAt(s);
      assert forall k | 0 <= k < |s| :: s[k] in s;
      NoOpeningWithoutV(s[1..]);
    }
  }

  lemma PathHere(rest: string)
    ensures Target(PATH + rest) == Some("m")
  {
    var line := PATH + rest;
    assert PATH == "path = \"../m\"";
    assert PATH_OPEN == "path = \"../";
    assert line[..11] == PATH_OPEN && line[11..] == "m" + (['"'] + rest);
    SplitOnceOf("m", '"', rest);
    assert SplitOnce(line[11..], '"') == Some(("m", rest));
  }

  /** Where the condition fails, the witness has an unsettled line behind its first break. */
  lemma {:induction false} RestIsUnsettled(written: string)
    requires !RestSettles(written)
    ensures !AllSettled(written + "\"" + TAIL)
    decreases |written|
  {
    hide HasPin, HasTarget, Opens, LineLength;
    var all, n := written + "\"" + TAIL, LineLength(written);
    if Broken(written) {
      assert all == written + ("\"" + TAIL);
      LineLengthWithin(written, "\"" + TAIL);
      assert all[..n] == written[..n] && all[n..] == written[n..] + "\"" + TAIL;
      if Settled(written[..n]) {
        RestIsUnsettled(written[n..]);
      }
    } else {
      LastLineIsUnsettled(written);
    }
  }

  lemma LastLineIsUnsettled(written: string)
    requires !Broken(written) && Occurs(PIN_SITE.open, written + "\"=")
    ensures !AllSettled(written + "\"" + TAIL)
  {
    hide HasPin, HasTarget, Occurs;
    BrokenIff(written);
    QuoteIsNoBreak();
    TailParts();
    OccurringPin(written, TAIL);
    PathBehind(written + "\"" + "=z\" ");
    assert written + "\"" + "=z\" " + PATH == written + "\"" + TAIL;
    OneLineUnsettled(written + "\"" + TAIL);
  }

  lemma OneLineUnsettled(line: string)
    requires line != "" && !Settled(line) && forall k | 0 <= k < |line| :: !IsBreak(line[k])
    ensures !AllSettled(line)
  {
    hide Settled, LineLength;
    WholeLine(line);
    FirstAndRest(line, |line|);
  }

  lemma WholeLine(line: string)
    requires forall k | 0 <= k < |line| :: !IsBreak(line[k])
    ensures LineLength(line) == |line| && line[..|line|] == line
  {
    LineLengthAfter(line, "");
    assert line + "" == line;
  }

  lemma PathBehind(head: string)
    ensures HasTarget(head + PATH)
  {
    PathHere("");
    assert PATH + "" == PATH;
    TargetBehind(head, PATH);
  }

  lemma {:induction false} OccursFits(x: string, s: string)
    requires Occurs(x, s)
    ensures |x| <= |s|
  {
    if !(x <= s) {
      OccursFits(x, s[1..]);
    }
  }

  lemma OpeningIsClosed(t: string, rest: string)
    requires PIN_SITE.open <= t && '"' in rest
    ensures Opens(PIN_SITE, t + rest)
  {
    hide Find;
    PinParts();
    assert (t + rest)[12..] == t[12..] + rest;
    ClosesIffQuoted((t + rest)[12..]);
  }

  /** An opening in the last line is closed by the pin's own quote, or by the one after it. */
  lemma {:induction false} OccurringPin(written: string, tail: string)
    requires Occurs(PIN_SITE.open, written + "\"=") && tail != "" && tail[0] == '=' && '"' in tail[1..]
    ensures HasPin(written + "\"" + tail)
  {
    hide Opens;
    var t, all := written + "\"=", written + "\"" + tail;
    PinParts();
    assert all == t + tail[1..];
    OccursFits(PIN_SITE.open, t);
    if PIN_SITE.open <= t {
      OpeningIsClosed(t, tail[1..]);
    } else if written != "" {
      assert t[1..] == written[1..] + "\"=" && all[1..] == written[1..] + "\"" + tail;
      OccurringPin(written[1..], tail);
    }
  }

  /** The witness as a whole. */
  lemma WitnessIsUnsettled(written: string)
    requires Broken(written) && !Settles(written)
    ensures !AllSettled(Witness(written))
  {
    hide HasPin, HasTarget, RestSettles, Opens, LineLength, AllSettled, Settled, Witness, Broken;
    var n, k := LineLength(written), |PATH + PIN_SITE.open|;
    WitnessLines(written);
    FirstAndRest(Witness(written), k + n);
    if '"' in written[..n] {
      FirstLineIsUnsettled(written[..n]);
    } else {
      RestIsUnsettled(written[n..]);
    }
  }

  lemma WitnessLines(written: string)
    requires Broken(written)
    ensures var n, k := LineLength(written), |PATH + PIN_SITE.open|;
            && k + n <= |Witness(written)| && LineLength(Witness(written)) == k + n
            && Witness(written)[..k + n] == PATH + (PIN_SITE.open + written[..n])
            && Witness(written)[k + n..] == written[n..] + "\"" + TAIL
  {
    hide LineLength, Broken, IsBreak;
    var tail := "\"" + TAIL;
    HeadHasNoBreak();
    FirstLineBehind(PATH, PIN_SITE.open, written, tail);
    Reassociate(PIN_SITE.open, written, "\"" + TAIL);
    Reassociate(PIN_SITE.open + written, "\"", TAIL);
    assert written[LineLength(written)..] + tail == written[LineLength(written)..] + "\"" + TAIL;
  }

  lemma FirstLineBehind(a: string, b: string, written: string, tail: string)
    requires Broken(written) && forall k | 0 <= k < |a + b| :: !IsBreak((a + b)[k])
    ensures var all, n, k := a + (b + (written + tail)), LineLength(written), |a + b|;
            && k + n <= |all| && LineLength(all) == k + n
            && all[..k + n] == a + (b + written[..n]) && all[k + n..] == written[n..] + tail
  {
    hide LineLength, Broken;
    var n := LineLength(written);
    LineLengthAfter(a + b, written + tail);
    LineLengthWithin(written, tail);
    CutBehind(a + b, written, tail, n);
    Reassociate(a, b, written + tail);
    Reassociate(a, b, written[..n]);
  }

  lemma HeadHasNoBreak()
    ensures forall k | 0 <= k < |PATH + PIN_SITE.open| :: !IsBreak((PATH + PIN_SITE.open)[k])
  {
    WitnessParts();
    PinParts();
  }

  lemma CutBehind(head: string, written: string, tail: string, n: nat)
    requires n <= |written|
    ensures var all := head + (written + tail);
            all[..|head| + n] == head + written[..n] && all[|head| + n..] == written[n..] + tail
  {}

  lemma FirstLineIsUnsettled(first: string)
    requires '"' in first
    ensures !Settled(PATH + (PIN_SITE.open + first))
  {
    hide HasPin;
    PathHere(PIN_SITE.open + first);
    QuotedPin(first);
    PinBehind(PATH, PIN_SITE.open + first);
  }

  lemma QuotedPin(s: string)
    requires '"' in s
    ensures HasPin(PIN_SITE.open + s)
  {
    PinParts();
    assert (PIN_SITE.open + s)[12..] == s;
    ClosesIffQuoted(s);
  }
}
