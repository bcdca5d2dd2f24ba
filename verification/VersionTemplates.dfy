/**
  * What `re.subn` makes of the replacement text that check-version-agreement.py gives it: a template, with escapes and
  * references. Its patterns have no groups, so only the whole match can be referred to.
  */
module VersionTemplates {
  import opened Wrappers

  datatype Piece = Char(c: char) | Whole

  /** What a template writes over a match. */
  function Fill(pieces: seq<Piece>, whole: string): string {
    if pieces == [] then "" else Written(pieces[0], whole) + Fill(pieces[1..], whole)
  }

  function Written(piece: Piece, whole: string): string {
    if piece.Char? then [piece.c] else whole
  }

  function Literal(s: string): (pieces: seq<Piece>)
    ensures |pieces| == |s| && forall k | 0 <= k < |s| :: pieces[k] == Char(s[k])
  {
    seq(|s|, k requires 0 <= k < |s| => Char(s[k]))
  }

  // ---- Escapes ----

  predicate IsDigit(c: char) {
    '0' <= c <= '9'
  }

  predicate IsOctal(c: char) {
    '0' <= c <= '7'
  }

  predicate IsAsciiLetter(c: char) {
    'a' <= c <= 'z' || 'A' <= c <= 'Z'
  }

  function OctalDigit(c: char): (d: nat)
    requires IsOctal(c)
    ensures d < 8
  {
    c as int - '0' as int
  }

  function OctalValue(s: string): nat
    requires forall k | 0 <= k < |s| :: IsOctal(s[k])
  {
    if s == "" then 0 else 8 * OctalValue(s[..|s| - 1]) + OctalDigit(s[|s| - 1])
  }

  /** The octal digits at the start, `most` at most. */
  function OctalRun(s: string, most: nat): (n: nat)
    ensures n <= |s| && n <= most && forall k | 0 <= k < n :: IsOctal(s[k])
  {
    if s == "" || most == 0 || !IsOctal(s[0]) then 0 else 1 + OctalRun(s[1..], most - 1)
  }

  function Zeros(s: string): (n: nat)
    ensures n <= |s| && forall k | 0 <= k < n :: s[k] == '0'
  {
    if s == "" || s[0] != '0' then 0 else 1 + Zeros(s[1..])
  }

  /** The control characters that have a letter of their own, and the backslash. */
  function NamedEscape(c: char): Option<char> {
    match c
    case 'a' => Some('\U{7}')
    case 'b' => Some('\U{8}')
    case 't' => Some('\t')
    case 'n' => Some('\n')
    case 'v' => Some('\U{B}')
    case 'f' => Some('\U{C}')
    case 'r' => Some('\r')
    case '\\' => Some('\\')
    case _ => None
  }

  /** What an escape stands for, and how long it is. */
  datatype Escaped = Escaped(pieces: seq<Piece>, length: nat)

  predicate StartsEscape(s: string) {
    s != "" && s[0] == '\\'
  }

  /** The escape at the start of `s`, or nothing when Python refuses it. */
  function Escape(s: string): (e: Option<Escaped>)
    requires StartsEscape(s)
    ensures e.Some? ==> e.value.pieces != [] && 2 <= e.value.length <= |s|
  {
    if |s| == 1 then None
    else if s[1] == 'g' then GroupReference(s)
    else if s[1] == '0' then
      var n := OctalRun(s[2..], 2);
      OctalBelow(s[2..][..n]);
      Some(Escaped([Char(OctalValue(s[2..][..n]) as char)], 2 + n))
    else if IsDigit(s[1]) then
      if OctalRun(s[1..], 3) == 3 && OctalValue(s[1..4]) <= 255 then Some(Escaped([Char(OctalValue(s[1..4]) as char)], 4)) else None
    else if NamedEscape(s[1]).Some? then Some(Escaped([Char(NamedEscape(s[1]).value)], 2))
    else if IsAsciiLetter(s[1]) then None
    else Some(Escaped([Char('\\'), Char(s[1])], 2))
  }

  /** `\g<0>`, with any number of zeros; every other name or number is of a group that the patterns do not have. */
  function GroupReference(s: string): (e: Option<Escaped>)
    requires |s| > 1
    ensures e.Some? ==> e.value.pieces != [] && 2 <= e.value.length <= |s|
  {
    if |s| > 2 && s[2] == '<' then
      var n := Zeros(s[3..]);
      if n > 0 && 3 + n < |s| && s[3 + n] == '>' then Some(Escaped([Whole], 4 + n)) else None
    else None
  }

  lemma {:induction false} OctalBelow(s: string)
    requires |s| <= 2 && forall k | 0 <= k < |s| :: IsOctal(s[k])
    ensures OctalValue(s) < if s == "" then 1 else if |s| == 1 then 8 else 64
  {
    if s != "" {
      OctalBelow(s[..|s| - 1]);
    }
  }

  /** A whole template, or nothing when `re` raises an error. */
  function Template(s: string): Option<seq<Piece>>
    decreases |s|
  {
    if s == "" then Some([])
    else if s[0] != '\\' then Behind([Char(s[0])], Template(s[1..]))
    else
      match Escape(s)
      case None => None
      case Some(e) => Behind(e.pieces, Template(s[e.length..]))
  }

  function Behind(pieces: seq<Piece>, rest: Option<seq<Piece>>): Option<seq<Piece>> {
    if rest.Some? then Some(pieces + rest.value) else None
  }

  // ---- A version in its template ----

  /** What stands for a version between the opening of a template and its closing quote. */
  function Expand(version: string): Option<seq<Piece>> {
    match Template(version + "\"")
    case None => None
    case Some(pieces) => ClosingQuoteStays(version); Some(pieces[..|pieces| - 1])
  }

  /** An escape does not swallow the closing quote, unless as the character behind a lone backslash, which keeps it. */
  lemma EscapeStops(version: string)
    requires StartsEscape(version) && Escape(version + "\"").Some?
    ensures var e := Escape(version + "\"").value;
            e.length <= |version| || (version == "\\" && e == Escaped([Char('\\'), Char('"')], 2))
  {
    var s := version + "\"";
    assert forall k | 0 <= k < |version| :: s[k] == version[k];
    assert s[|version|] == '"';
  }

  lemma {:induction false} ClosingQuoteStays(version: string)
    requires Template(version + "\"").Some?
    ensures var pieces := Template(version + "\"").value; pieces != [] && pieces[|pieces| - 1] == Char('"')
    decreases |version|
  {
    var s := version + "\"";
    if version == "" {
      assert s[1..] == "";
    } else if version[0] != '\\' {
      assert s[1..] == version[1..] + "\"";
      ClosingQuoteStays(version[1..]);
    } else {
      EscapeStops(version);
      var n := Escape(s).value.length;
      if n <= |version| {
        assert s[n..] == version[n..] + "\"";
        ClosingQuoteStays(version[n..]);
      } else {
        assert s[n..] == "";
      }
    }
  }

  /** The template the script builds expands to its own opening, the version's expansion and the closing quote. */
  lemma {:induction false} TemplateOfASite(open: string, version: string)
    requires '\\' !in open
    ensures Template(open + version + "\"")
            == match Expand(version)
               case None => None
               case Some(body) => Some(Literal(open) + body + [Char('"')])
  {
    var s := open + version + "\"";
    if open == "" {
      assert s == version + "\"";
      if Template(s).Some? {
        ClosingQuoteStays(version);
        var pieces := Template(s).value;
        assert Literal("") + pieces[..|pieces| - 1] + [Char('"')] == pieces;
      }
    } else {
      TemplateOfASite(open[1..], version);
      assert s[1..] == open[1..] + version + "\"";
      if Expand(version).Some? {
        var rest := Literal(open[1..]) + Expand(version).value + [Char('"')];
        assert [Char(open[0])] + rest == Literal(open) + Expand(version).value + [Char('"')];
      }
    }
  }

  lemma JustTheQuote()
    ensures Template("\"") == Some([Char('"')]) && Expand("") == Some([])
  {
    assert "\""[1..] == "" && "" + "\"" == "\"";
    assert [Char('"')] + [] == [Char('"')];
  }

  lemma EscapeThenQuote(escape: string, pieces: seq<Piece>)
    requires StartsEscape(escape) && Escape(escape + "\"") == Some(Escaped(pieces, |escape|))
    ensures Expand(escape) == Some(pieces)
  {
    JustTheQuote();
    assert (escape + "\"")[|escape|..] == "\"";
    assert pieces + [Char('"')] == Template(escape + "\"").value;
  }

  /** A version without a backslash stands for itself. */
  lemma PlainTextExpandsToItself(version: string)
    requires '\\' !in version
    ensures Expand(version) == Some(Literal(version))
  {
    TemplateOfASite(version, "");
    JustTheQuote();
    assert version + "" + "\"" == version + "\"";
    var pieces := Literal(version) + [] + [Char('"')];
    assert Template(version + "\"") == Some(pieces) && pieces[..|pieces| - 1] == Literal(version);
  }

  /** An octal escape can be a quote. */
  lemma ExpandedQuote()
    ensures Expand("\\042") == Some([Char('"')])
  {
    var quote := "\\042\"";
    assert "\\042" + "\"" == quote;
    assert quote[2..][..2] == "42";
    assert OctalRun(quote[2..], 2) == 2 by {
      assert quote[2..][1..][1..] == "\"";
    }
    assert OctalValue("42") == 34 by {
      assert "42"[..1] == "4" && "4"[..0] == "";
    }
    EscapeThenQuote("\\042", [Char('"')]);
  }

  /** A reference to the match. */
  lemma ExpandedReference()
    ensures Expand("\\g<0>") == Some([Whole])
  {
    var whole := "\\g<0>\"";
    assert "\\g<0>" + "\"" == whole;
    assert Zeros(whole[3..]) == 1 by { assert whole[3..][1..] == ">\""; }
    EscapeThenQuote("\\g<0>", [Whole]);
  }

  // ---- Every kind of escape ----

  /** An escape with some text behind it. */
  lemma EscapeInFront(escape: string, pieces: seq<Piece>, rest: string)
    requires StartsEscape(escape + rest) && Escape(escape + rest) == Some(Escaped(pieces, |escape|))
    ensures Template(escape + rest) == if Template(rest).Some? then Some(pieces + Template(rest).value) else None
  {
    assert (escape + rest)[|escape|..] == rest;
  }

  /** The eight letters and the backslash stand for one character each, whatever follows. */
  lemma LettersEscape(rest: string)
    ensures forall letter, c |
      (letter, c) in [('a', '\U{7}'), ('b', '\U{8}'), ('t', '\t'), ('n', '\n'), ('v', '\U{B}'), ('f', '\U{C}'), ('r', '\r'), ('\\', '\\')] ::
        Template(['\\', letter] + rest) == if Template(rest).Some? then Some([Char(c)] + Template(rest).value) else None
  {
    forall letter, c |
      (letter, c) in [('a', '\U{7}'), ('b', '\U{8}'), ('t', '\t'), ('n', '\n'), ('v', '\U{B}'), ('f', '\U{C}'), ('r', '\r'), ('\\', '\\')]
      ensures Template(['\\', letter] + rest) == if Template(rest).Some? then Some([Char(c)] + Template(rest).value) else None
    {
      EscapeInFront(['\\', letter], [Char(c)], rest);
    }
  }

  lemma NoTemplate(s: string)
    requires StartsEscape(s) && Escape(s).None?
    ensures Template(s) == None
  {}

  ghost predicate AllZeros(s: string) {
    forall k | 0 <= k < |s| :: s[k] == '0'
  }

  /** `\g` refers to the match by zeros in angle brackets. */
  lemma ZeroRefersToTheMatch(zeros: string, rest: string)
    requires zeros != "" && AllZeros(zeros)
    ensures Template("\\g<" + zeros + ">" + rest) == if Template(rest).Some? then Some([Whole] + Template(rest).value) else None
  {
    hide Template;
    var s := "\\g<" + zeros + ">" + rest;
    assert s[3..] == zeros + (">" + rest);
    ZerosOf(zeros, ">" + rest);
    EscapeInFront("\\g<" + zeros + ">", [Whole], rest);
  }

  /** With anything else behind it, it is refused. */
  lemma OtherReferencesAreRefused(behind: string)
    requires forall zeros, rest | zeros != "" && AllZeros(zeros) :: behind != "<" + zeros + ">" + rest
    ensures Template("\\g" + behind) == None
  {
    hide Template;
    var s := "\\g" + behind;
    if Escape(s).Some? {
      var n := Zeros(s[3..]);
      var zeros, rest := s[3..3 + n], s[4 + n..];
      AnglesAround(behind, n);
    } else {
      NoTemplate(s);
    }
  }

  lemma AnglesAround(behind: string, n: nat)
    requires 0 < n && 1 + n < |behind| && behind[0] == '<' && behind[1 + n] == '>' && n == Zeros(("\\g" + behind)[3..])
    ensures exists zeros, rest :: zeros != "" && AllZeros(zeros) && behind == "<" + zeros + ">" + rest
  {
    assert ("\\g" + behind)[3..] == behind[1..];
    var zeros, rest := behind[1..1 + n], behind[2 + n..];
    assert behind == "<" + zeros + ">" + rest;
    assert forall k | 0 <= k < n :: zeros[k] == behind[1..][k];
  }

  lemma {:induction false} ZerosOf(zeros: string, rest: string)
    requires AllZeros(zeros) && rest != "" && rest[0] != '0'
    ensures Zeros(zeros + rest) == |zeros|
  {
    if zeros == "" {
      assert zeros + rest == rest;
    } else {
      assert (zeros + rest)[1..] == zeros[1..] + rest && (zeros + rest)[0] == zeros[0];
      ZerosOf(zeros[1..], rest);
    }
  }

  /** Any other letter is refused, and so is a backslash with nothing behind it. */
  lemma OtherLettersAreRefused(c: char, rest: string)
    ensures ('a' <= c <= 'z' || 'A' <= c <= 'Z') && c !in "abtnvfrg" ==> Template(['\\', c] + rest) == None
    ensures Template("\\") == None
  {
    hide Template, OctalRun, GroupReference;
    var s := ['\\', c] + rest;
    assert s[0] == '\\' && s[1] == c;
    if ('a' <= c <= 'z' || 'A' <= c <= 'Z') && c !in "abtnvfrg" {
      NoTemplate(s);
    }
    NoTemplate("\\");
  }

  /** Behind anything that is neither a letter nor a digit nor a backslash the backslash stays. */
  lemma OthersKeepTheBackslash(c: char, rest: string)
    requires !('a' <= c <= 'z') && !('A' <= c <= 'Z') && !('0' <= c <= '9') && c != '\\'
    ensures Template(['\\', c] + rest) == if Template(rest).Some? then Some([Char('\\'), Char(c)] + Template(rest).value) else None
  {
    EscapeInFront(['\\', c], [Char('\\'), Char(c)], rest);
  }

  /** The digits other than zero are refused, unless three octal ones give at most 255. */
  lemma OtherDigitsAreRefused(c: char, rest: string)
    requires '1' <= c <= '9' && (c > '3' || |rest| < 2 || !('0' <= rest[0] <= '7' && '0' <= rest[1] <= '7'))
    ensures Template(['\\', c] + rest) == None
  {
    hide Template, OctalRun, OctalValue;
    var s := ['\\', c] + rest;
    assert s[1..] == [c] + rest && (|s| >= 4 ==> s[1..4] == s[1..][..3]);
    OctalRunOf(c, rest);
    NoTemplate(s);
  }

  /** Three octal digits are a character by its code. */
  lemma OctalsEscape(a: char, b: char, c: char, rest: string)
    requires '0' <= a <= '3' && '0' <= b <= '7' && '0' <= c <= '7'
    ensures Template(['\\', a, b, c] + rest) == if Template(rest).Some? then Some([Char(CodeOf(a, b, c))] + Template(rest).value) else None
  {
    hide Template, OctalValue;
    var s := ['\\', a, b, c] + rest;
    assert s[1..] == [a] + ([b] + ([c] + rest)) && s[2..] == [b] + ([c] + rest);
    RunOfThree(a, b, c, rest);
    assert s[1..4] == [a, b, c] && s[2..][..2] == [b, c];
    OctalsAddUp(a, b, c);
    EscapeInFront(['\\', a, b, c], [Char(CodeOf(a, b, c))], rest);
  }

  function CodeOf(a: char, b: char, c: char): char
    requires '0' <= a <= '3' && '0' <= b <= '7' && '0' <= c <= '7'
  {
    (64 * (a as int - 48) + 8 * (b as int - 48) + (c as int - 48)) as char
  }

  lemma RunOfThree(a: char, b: char, c: char, rest: string)
    requires '0' <= a <= '7' && '0' <= b <= '7' && '0' <= c <= '7'
    ensures OctalRun([a] + ([b] + ([c] + rest)), 3) == 3 && OctalRun([b] + ([c] + rest), 2) == 2
  {
    var s := [c] + rest;
    assert ([b] + s)[1..] == s && ([a] + ([b] + s))[1..] == [b] + s && s[0] == c;
    assert OctalRun(s, 1) == 1 by { assert OctalRun(s[1..], 0) == 0; }
  }

  lemma OctalStep(s: string, d: char)
    requires (forall k | 0 <= k < |s| :: IsOctal(s[k])) && IsOctal(d)
    ensures OctalValue(s + [d]) == 8 * OctalValue(s) + (d as int - 48)
  {
    assert (s + [d])[..|s|] == s && (s + [d])[|s|] == d;
  }

  lemma OctalsAddUp(a: char, b: char, c: char)
    requires '0' <= a <= '7' && '0' <= b <= '7' && '0' <= c <= '7'
    ensures OctalValue([a, b, c]) == 64 * (a as int - 48) + 8 * (b as int - 48) + (c as int - 48)
    ensures OctalValue([b, c]) == 8 * (b as int - 48) + (c as int - 48)
  {
    assert OctalValue("") == 0;
    hide OctalValue;
    OctalStep("", a);
    OctalStep([a], b);
    OctalStep([a, b], c);
    OctalStep("", b);
    OctalStep([b], c);
    assert "" + [a] == [a] && [a] + [b] == [a, b] && [a, b] + [c] == [a, b, c] && "" + [b] == [b] && [b] + [c] == [b, c];
  }

  lemma OctalRunOf(c: char, rest: string)
    ensures OctalRun([c] + rest, 3) == 3 ==>
      && |rest| >= 2 && '0' <= c <= '7' && '0' <= rest[0] <= '7' && '0' <= rest[1] <= '7'
      && OctalValue(([c] + rest)[..3]) == 64 * (c as int - 48) + 8 * (rest[0] as int - 48) + (rest[1] as int - 48)
  {
    var s := [c] + rest;
    assert s[1..] == rest;
    if OctalRun(s, 3) == 3 {
      assert s[..3] == [c, rest[0], rest[1]];
      OctalsAddUp(c, rest[0], rest[1]);
    }
  }
}
