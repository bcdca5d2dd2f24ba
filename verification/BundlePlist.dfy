/** The property list of the bundle: its template, and the two strings read back from it (scrybe-cli/src/macos_bundle.rs). */
module BundlePlist {
  import opened Wrappers
  import opened Text

  const BUNDLE_IDENTIFIER := "dev.scrybe.scrybe"
  const BUNDLE_IDENTIFIER_KEY := "<key>CFBundleIdentifier</key>"
  const BUNDLE_VERSION_KEY := "<key>CFBundleShortVersionString</key>"
  const STRING_OPEN := "<string>"
  const STRING_CLOSE := "</string>"

  /** What follows the first `separator`, and what precedes it. */
  function SplitAt(s: string, separator: string): Option<(string, string)> {
    if separator <= s then Some(("", s[|separator|..]))
    else if s == "" then None
    else
      match SplitAt(s[1..], separator)
      case None => None
      case Some((before, after)) => Some(([s[0]] + before, after))
  }

  /** The separator found is the first there is, and it is missed only if there is none. */
  lemma {:induction false} SplitAtIsFirst(s: string, separator: string)
    ensures match SplitAt(s, separator)
            case Some((before, after)) =>
              s == before + separator + after && forall i | 0 <= i < |before| :: !(separator <= s[i..])
            case None => forall i | 0 <= i <= |s| :: !(separator <= s[i..])
  {
    assert s[0..] == s;
    if separator <= s {
      assert s == "" + separator + s[|separator|..];
    } else if s != "" {
      SplitAtIsFirst(s[1..], separator);
      assert s == [s[0]] + s[1..];
      hide SplitAt;
      forall i | 0 < i <= |s|
        ensures s[i..] == s[1..][i - 1..]
      {}
    }
  }

  function PlistStringAfterKey(plist: string, key: string): Option<string> {
    match SplitAt(plist, key)
    case None => None
    case Some((_, afterKey)) =>
      match SplitAt(afterKey, STRING_OPEN)
      case None => None
      case Some((_, rest)) =>
        match SplitAt(rest, STRING_CLOSE)
        case None => None
        case Some((value, _)) => Some(Trim(value))
  }

  /** The two parts of a text around the first `separator`. */
  ghost predicate CutAtFirst(s: string, separator: string, before: string, after: string) {
    s == before + separator + after && forall i | 0 <= i < |before| :: !(separator <= s[i..])
  }

  /** Behind the first such key the next string, up to its closing tag, is the value with white space around it. */
  ghost predicate Reads(plist: string, key: string, value: string) {
    exists head, behindKey, between, behindOpen, inner, tail ::
      && CutAtFirst(plist, key, head, behindKey)
      && CutAtFirst(behindKey, "<string>", between, behindOpen)
      && CutAtFirst(behindOpen, "</string>", inner, tail)
      && Trim(inner) == value
  }

  /** The property list names this program and the version. */
  ghost predicate Says(plist: string, version: string) {
    && Reads(plist, "<key>CFBundleIdentifier</key>", "dev.scrybe.scrybe")
    && Reads(plist, "<key>CFBundleShortVersionString</key>", version)
    && version != ""
  }

  lemma FirstCut(s: string, separator: string, before: string, after: string)
    ensures CutAtFirst(s, separator, before, after) <==> SplitAt(s, separator) == Some((before, after))
  {
    SplitAtIsFirst(s, separator);
    hide SplitAt;
    if CutAtFirst(s, separator, before, after) {
      SeparatorAt(s, before, separator, after);
      var found := SplitAt(s, separator).value;
      SeparatorAt(s, found.0, separator, found.1);
    }
  }

  lemma SeparatorAt(s: string, before: string, separator: string, after: string)
    requires s == before + separator + after
    ensures |before| <= |s| && separator <= s[|before|..] && before == s[..|before|] && after == s[|before|..][|separator|..]
  {
    assert s[|before|..] == separator + after;
  }

  lemma StringIsRead(plist: string, key: string, value: string)
    ensures PlistStringAfterKey(plist, key) == Some(value) <==> Reads(plist, key, value)
  {
    hide SplitAt, Trim, CutAtFirst;
    forall s, separator, before, after
      ensures CutAtFirst(s, separator, before, after) <==> SplitAt(s, separator) == Some((before, after))
    {
      FirstCut(s, separator, before, after);
    }
  }

  lemma SaysIs(plist: string, version: string)
    ensures Says(plist, version) <==>
            && PlistStringAfterKey(plist, BUNDLE_IDENTIFIER_KEY) == Some(BUNDLE_IDENTIFIER)
            && PlistStringAfterKey(plist, BUNDLE_VERSION_KEY) == Some(version)
            && version != ""
  {
    hide PlistStringAfterKey, Reads;
    StringIsRead(plist, BUNDLE_IDENTIFIER_KEY, BUNDLE_IDENTIFIER);
    StringIsRead(plist, BUNDLE_VERSION_KEY, version);
  }

  // ---- The template ----

  /** The template, cut at its two placeholders: the build version's and, behind the version's key, the version's. */
  datatype PlistTemplate = PlistTemplate(head: string, gap: string, indent: string, tail: string) {
    function Middle(): string {
      STRING_CLOSE + gap + BUNDLE_VERSION_KEY + indent + STRING_OPEN
    }

    /** `render_plist`. */
    function Render(version: string): string {
      head + version + Middle() + version + STRING_CLOSE + tail
    }

    /** What the shipped template satisfies: the identifier comes first, and only white space around the version's key. */
    predicate Fits() {
      && PlistStringAfterKey(head, BUNDLE_IDENTIFIER_KEY) == Some(BUNDLE_IDENTIFIER)
      && SplitAt(head, BUNDLE_VERSION_KEY).None?
      && |head| >= 8 && head[|head| - 8..] == STRING_OPEN
      && '<' !in gap && '<' !in indent
    }
  }

  /** `str::replace`: every occurrence of the pattern, from left to right, is replaced. */
  function Replace(s: string, pattern: string, other: string): string
    requires pattern != ""
  {
    if s == "" then ""
    else if pattern <= s then other + Replace(s[|pattern|..], pattern, other)
    else [s[0]] + Replace(s[1..], pattern, other)
  }

  /** Text that does not have the pattern's first character is passed over. */
  lemma {:induction false} ReplaceSkips(text: string, rest: string, pattern: string, other: string)
    requires pattern != "" && pattern[0] !in text
    ensures Replace(text + rest, pattern, other) == text + Replace(rest, pattern, other)
  {
    if text == "" {
      assert text + rest == rest;
    } else {
      assert (text + rest)[1..] == text[1..] + rest && (text + rest)[0] in text;
      ReplaceSkips(text[1..], rest, pattern, other);
    }
  }

  lemma ReplaceHere(rest: string, pattern: string, other: string)
    requires pattern != ""
    ensures Replace(pattern + rest, pattern, other) == other + Replace(rest, pattern, other)
  {
    assert (pattern + rest)[|pattern|..] == rest;
  }

  /** Rendering is the replacement of the two placeholders in the template's text. */
  lemma RenderReplaces(template: PlistTemplate, version: string)
    requires '{' !in template.head && '{' !in template.Middle() && '{' !in template.tail
    ensures Replace(template.head + "{{VERSION}}" + template.Middle() + "{{VERSION}}" + "</string>" + template.tail, "{{VERSION}}", version)
            == template.Render(version)
  {
    assert '{' !in "</string>" + template.tail && "{{VERSION}}"[0] == '{' && STRING_CLOSE == "</string>";
    hide Replace, PlistTemplate.Middle;
    ReplacesTwo(template.head, template.Middle(), "</string>" + template.tail, "{{VERSION}}", version);
    Nest(template.head, "{{VERSION}}", template.Middle(), "</string>", template.tail);
    Nest(template.head, version, template.Middle(), "</string>", template.tail);
  }

  lemma Nest(a: string, b: string, c: string, d: string, e: string)
    ensures a + b + c + b + d + e == a + (b + (c + (b + (d + e))))
  {}

  lemma ReplacesTwo(a: string, b: string, c: string, pattern: string, other: string)
    requires pattern != "" && pattern[0] !in a && pattern[0] !in b && pattern[0] !in c
    ensures Replace(a + (pattern + (b + (pattern + c))), pattern, other) == a + (other + (b + (other + c)))
  {
    hide Replace;
    ReplaceSkips(a, pattern + (b + (pattern + c)), pattern, other);
    ReplaceHere(b + (pattern + c), pattern, other);
    ReplaceSkips(b, pattern + c, pattern, other);
    ReplaceHere(c, pattern, other);
    ReplaceSkips(c, "", pattern, other);
    ReplaceOfNothing(pattern, other);
    assert c + "" == c;
  }

  lemma ReplaceOfNothing(pattern: string, other: string)
    requires pattern != ""
    ensures Replace("", pattern, other) == ""
  {}

  /** The version survives being written between tags and trimmed when it is read. */
  predicate Sayable(version: string) {
    && version != "" && Trim(version) == version
    && SplitAt(version, STRING_CLOSE).None?
    && match SplitAt(version, BUNDLE_VERSION_KEY)
       case None => true
       case Some((_, rest)) => SplitAt(rest, STRING_OPEN).None?
  }

  // ---- First occurrences in what is joined ----

  /** What is found in a text is found in a longer one. */
  lemma {:induction false} SplitFurther(a: string, b: string, separator: string)
    requires SplitAt(a, separator).Some?
    ensures var (before, after) := SplitAt(a, separator).value; SplitAt(a + b, separator) == Some((before, after + b))
  {
    if separator <= a {
      assert separator <= a + b && (a + b)[|separator|..] == a[|separator|..] + b;
    } else {
      assert (a + b)[1..] == a[1..] + b;
      SplitFurther(a[1..], b, separator);
      if separator <= a + b {
        SplitLongEnough(a[1..], separator);
      }
    }
  }

  lemma {:induction false} SplitLongEnough(s: string, separator: string)
    requires SplitAt(s, separator).Some?
    ensures |separator| <= |s|
  {
    if !(separator <= s) {
      SplitLongEnough(s[1..], separator);
    }
  }

  /** The separator does not stand across the seam of `a` and `b`. */
  ghost predicate Seamless(a: string, b: string, separator: string) {
    forall i | 0 <= i < |a| :: separator <= (a + b)[i..] ==> separator <= a[i..]
  }

  /** What is not in the first text is looked for in the second. */
  lemma {:induction false} SplitBehind(a: string, b: string, separator: string)
    requires SplitAt(a, separator).None? && separator != "" && Seamless(a, b, separator)
    ensures SplitAt(a + b, separator)
            == match SplitAt(b, separator)
               case None => None
               case Some((before, after)) => Some((a + before, after))
  {
    if a == "" {
      assert a + b == b;
      match SplitAt(b, separator) {
        case Some((before, after)) => assert a + before == before;
        case None =>
      }
    } else {
      assert (a + b)[0..] == a + b && a[0..] == a;
      assert (a + b)[1..] == a[1..] + b;
      assert Seamless(a[1..], b, separator) by {
        forall i | 0 <= i < |a| - 1
          ensures (a[1..] + b)[i..] == (a + b)[i + 1..] && a[1..][i..] == a[i + 1..]
        {}
      }
      SplitBehind(a[1..], b, separator);
      match SplitAt(b, separator) {
        case Some((before, after)) => assert [a[0]] + (a[1..] + before) == a + before;
        case None =>
      }
    }
  }

  /** A tag does not stand across a seam where another tag starts that differs from it in its second or third character. */
  lemma SeamBeforeAClose(a: string, b: string, separator: string)
    requires separator == STRING_OPEN || separator == STRING_CLOSE || separator == BUNDLE_VERSION_KEY
    requires STRING_CLOSE <= b
    ensures Seamless(a, b, separator)
  {
    TagParts();
    forall i | 0 <= i < |a| && separator <= (a + b)[i..]
      ensures separator <= a[i..]
    {
      var j := |a| - i;
      assert forall k | 0 <= k < |separator| :: (a + b)[i + k] == separator[k];
      assert (a + b)[i + j] == b[0] && (a + b)[i + j + 2] == b[2] && b[0] == STRING_CLOSE[0] && b[2] == STRING_CLOSE[2];
      assert j >= |separator|;
      assert a[i..] == (a + b)[i..][..j];
    }
  }

  lemma TagParts()
    ensures |STRING_OPEN| == 8 && (forall k | 0 <= k < 8 :: STRING_OPEN[k] == '<' <==> k == 0)
    ensures |STRING_CLOSE| == 9 && STRING_CLOSE[2] == 's' && (forall k | 0 <= k < 9 :: STRING_CLOSE[k] == '<' <==> k == 0)
    ensures |BUNDLE_VERSION_KEY| == 37 && BUNDLE_VERSION_KEY[33] == 'k'
    ensures forall k | 0 <= k < 37 :: BUNDLE_VERSION_KEY[k] == '<' <==> k == 0 || k == 31
    ensures forall k | 0 <= k < 37 :: BUNDLE_VERSION_KEY[k] == '>' <==> k == 4 || k == 36
  {
    assert BUNDLE_VERSION_KEY == "<key>CFBundleShortVersionString</key>";
  }

  // ---- What the rendered template says ----

  lemma SplitHere(before: string, separator: string, after: string)
    requires SplitAt(before, separator).None? && separator != "" && Seamless(before, separator + after, separator)
    ensures SplitAt(before + (separator + after), separator) == Some((before, after))
  {
    var b := separator + after;
    assert separator <= b && b[|separator|..] == after;
    assert SplitAt(b, separator) == Some(("", after));
    SplitBehind(before, b, separator);
    assert before + "" == before;
  }

  /** The identifier that is read is the template's. */
  lemma IdentifierIsRead(template: PlistTemplate, version: string)
    requires template.Fits()
    ensures PlistStringAfterKey(template.Render(version), BUNDLE_IDENTIFIER_KEY) == Some(BUNDLE_IDENTIFIER)
  {
    hide SplitAt;
    var head, rest := template.head, version + template.Middle() + version + STRING_CLOSE + template.tail;
    assert template.Render(version) == head + rest;
    SplitFurther(head, rest, BUNDLE_IDENTIFIER_KEY);
    var afterKey := SplitAt(head, BUNDLE_IDENTIFIER_KEY).value.1;
    SplitFurther(afterKey, rest, STRING_OPEN);
    var afterOpen := SplitAt(afterKey, STRING_OPEN).value.1;
    SplitFurther(afterOpen, rest, STRING_CLOSE);
  }

  /** The version's key is looked for behind the head. */
  lemma SeamBehindTheHead(template: PlistTemplate, rest: string)
    requires template.Fits()
    ensures Seamless(template.head, rest, BUNDLE_VERSION_KEY)
  {
    hide SplitAt;
    var head := template.head;
    EndOfAnOpening(head);
    forall i | 0 <= i < |head| && BUNDLE_VERSION_KEY <= (head + rest)[i..]
      ensures BUNDLE_VERSION_KEY <= head[i..]
    {
      KeyBeforeTheEnd(head, rest, i);
      assert head[i..] == (head + rest)[i..][..|head| - i];
    }
  }

  lemma EndOfAnOpening(head: string)
    requires |head| >= 8 && head[|head| - 8..] == STRING_OPEN
    ensures head[|head| - 1] == '>' && head[|head| - 5] == 'r'
  {
    assert STRING_OPEN == "<string>";
    var end := head[|head| - 8..];
    assert head[|head| - 1] == end[7] && head[|head| - 5] == end[3];
  }

  lemma KeyBeforeTheEnd(head: string, rest: string, i: nat)
    requires |head| >= 8 && head[|head| - 1] == '>' && head[|head| - 5] == 'r'
    requires i < |head| && BUNDLE_VERSION_KEY <= (head + rest)[i..]
    ensures |head| - i >= 37
  {
    hide *;
    TagParts();
    var s, n := head + rest, |head| - i;
    assert forall k | 0 <= k < 37 :: s[i..][k] == s[i + k];
    assert n < 38 ==> s[i..][n - 1] == head[|head| - 1];
    assert s[i..][0] == head[i];
  }

  /** Text in which no tag of a kind starts. */
  ghost predicate Free(text: string, separator: string) {
    separator != "" && forall i: nat, rest: string | i < |text| :: !(separator <= (text + rest)[i..])
  }

  lemma FreeIsNone(text: string, rest: string, separator: string)
    requires Free(text, separator)
    ensures SplitAt(text, separator).None? && Seamless(text, rest, separator)
  {
    hide SplitAt;
    FoundThere(text, separator);
    forall i: nat | i < |text|
      ensures !(separator <= text[i..])
    {
      assert text + "" == text && (text + "")[i..] == text[i..];
    }
    forall i: nat | i < |text|
      ensures !(separator <= (text + rest)[i..])
    {}
  }

  lemma FoundThere(s: string, separator: string)
    requires separator != ""
    ensures match SplitAt(s, separator)
            case None => true
            case Some((before, after)) => |before| < |s| && separator <= s[|before|..]
  {
    SplitAtIsFirst(s, separator);
    match SplitAt(s, separator)
    case None =>
    case Some((before, after)) => assert s[|before|..] == separator + after;
  }

  /** A closing tag and then text without a tag. */
  lemma CloseIsFree(gap: string, separator: string)
    requires '<' !in gap && (separator == BUNDLE_VERSION_KEY || separator == STRING_OPEN)
    ensures Free(STRING_CLOSE + gap, separator)
  {
    TagStarts();
    var x := STRING_CLOSE + gap;
    TagParts();
    forall i: nat, rest: string | i < |x|
      ensures !(separator <= (x + rest)[i..])
    {
      assert (x + rest)[i] == x[i] && (i >= 9 ==> x[i] == gap[i - 9] && gap[i - 9] in gap);
      assert i == 0 ==> (x + rest)[i..][1] == '/';
    }
  }

  lemma TagStarts()
    ensures STRING_CLOSE[1] == '/' && STRING_OPEN[0] == '<' && STRING_OPEN[1] == 's'
    ensures BUNDLE_VERSION_KEY[0] == '<' && BUNDLE_VERSION_KEY[1] == 'k' && BUNDLE_VERSION_KEY[32] == '/'
  {
    assert BUNDLE_VERSION_KEY == "<key>CFBundleShortVersionString</key>";
  }

  /** No string starts in the version's key with white space around it. */
  lemma KeyIsFree(gap: string, indent: string)
    requires '<' !in gap && '<' !in indent
    ensures Free(STRING_CLOSE + gap + BUNDLE_VERSION_KEY + indent, STRING_OPEN)
  {
    TagStarts();
    TagParts();
    var x, n := STRING_CLOSE + gap + BUNDLE_VERSION_KEY + indent, 9 + |gap|;
    forall i: nat, rest: string | i < |x|
      ensures !(STRING_OPEN <= (x + rest)[i..])
    {
      var s := x + rest;
      assert s[i] == x[i] && (9 <= i < n ==> x[i] == gap[i - 9] && gap[i - 9] in gap);
      assert n <= i < n + 37 ==> x[i] == BUNDLE_VERSION_KEY[i - n];
      assert n + 37 <= i ==> x[i] == indent[i - n - 37] && indent[i - n - 37] in indent;
      assert s[1] == '/' && s[n + 1] == 'k' && s[n + 32] == '/';
      assert |s[i..]| > 1 ==> s[i..][1] == s[i + 1];
    }
  }

  lemma TrimShortens(s: string)
    ensures |Trim(s)| <= |s|
  {
    var i, j := TrimMatchesIsPiece(s, IsWhitespace);
  }

  /** What is read of a value, however it goes on. */
  lemma ValueIsRead(value: string, after: string)
    ensures var split := SplitAt(value + (STRING_CLOSE + after), STRING_CLOSE);
            && split.Some? && |split.value.0| <= |value|
            && (Trim(split.value.0) == value <==> Trim(value) == value && SplitAt(value, STRING_CLOSE).None?)
  {
    hide SplitAt, Trim, Seamless;
    TagParts();
    if SplitAt(value, STRING_CLOSE).None? {
      SeamBeforeAClose(value, STRING_CLOSE + after, STRING_CLOSE);
      SplitHere(value, STRING_CLOSE, after);
    } else {
      SplitAtIsFirst(value, STRING_CLOSE);
      SplitFurther(value, STRING_CLOSE + after, STRING_CLOSE);
      TrimShortens(SplitAt(value, STRING_CLOSE).value.0);
    }
  }

  /** Behind text without a string, the next string is the value. */
  lemma StringBehind(before: string, value: string, after: string)
    requires Free(before, STRING_OPEN)
    ensures SplitAt(before + (STRING_OPEN + (value + (STRING_CLOSE + after))), STRING_OPEN)
            == Some((before, value + (STRING_CLOSE + after)))
  {
    hide SplitAt, Seamless, Free;
    TagParts();
    FreeIsNone(before, STRING_OPEN + (value + (STRING_CLOSE + after)), STRING_OPEN);
    SplitHere(before, STRING_OPEN, value + (STRING_CLOSE + after));
  }

  lemma IndentIsFree(indent: string)
    requires '<' !in indent
    ensures Free(indent, STRING_OPEN)
  {
    TagStarts();
    forall i: nat, rest: string | i < |indent|
      ensures !(STRING_OPEN <= (indent + rest)[i..])
    {
      assert (indent + rest)[i..][0] == indent[i] && indent[i] in indent;
    }
  }

  /** What stands behind the first version key of the rendered template. */
  lemma KeyIsFound(template: PlistTemplate, version: string)
    requires template.Fits()
    ensures var value := STRING_OPEN + (version + (STRING_CLOSE + template.tail));
            var after := match SplitAt(version, BUNDLE_VERSION_KEY)
                         case None => template.indent + value
                         case Some((_, rest)) => rest + (template.Middle() + (version + (STRING_CLOSE + template.tail)));
            var found := SplitAt(template.Render(version), BUNDLE_VERSION_KEY); found.Some? && found.value.1 == after
  {
    hide SplitAt, Seamless, Free, Trim;
    var tail, middle := version + (STRING_CLOSE + template.tail), template.Middle();
    var body := version + (middle + tail);
    TagParts();
    SeamBehindTheHead(template, body);
    SplitBehind(template.head, body, BUNDLE_VERSION_KEY);
    assert template.Render(version) == template.head + body;
    if SplitAt(version, BUNDLE_VERSION_KEY).None? {
      var gap, after := STRING_CLOSE + template.gap, template.indent + (STRING_OPEN + tail);
      assert middle + tail == gap + (BUNDLE_VERSION_KEY + after);
      assert STRING_CLOSE <= middle + tail by {
        assert middle + tail == STRING_CLOSE + (template.gap + (BUNDLE_VERSION_KEY + after));
      }
      SeamBeforeAClose(version, middle + tail, BUNDLE_VERSION_KEY);
      SplitBehind(version, middle + tail, BUNDLE_VERSION_KEY);
      CloseIsFree(template.gap, BUNDLE_VERSION_KEY);
      FreeIsNone(gap, BUNDLE_VERSION_KEY + after, BUNDLE_VERSION_KEY);
      SplitHere(gap, BUNDLE_VERSION_KEY, after);
    } else {
      SplitFurther(version, middle + tail, BUNDLE_VERSION_KEY);
    }
  }

  /** The rendered template says a version exactly when the version survives the tags and the trimming. */
  lemma RenderedSaysIff(template: PlistTemplate, version: string)
    requires template.Fits()
    ensures Says(template.Render(version), version) <==> Sayable(version)
  {
    hide SplitAt, Seamless, Free, Trim, PlistTemplate.Fits, Says;
    SaysIs(template.Render(version), version);
    var tail := STRING_CLOSE + template.tail;
    IdentifierIsRead(template, version);
    KeyIsFound(template, version);
    ValueIsRead(version, template.tail);
    PartsOfFit(template);
    if SplitAt(version, BUNDLE_VERSION_KEY).None? {
      IndentIsFree(template.indent);
      StringBehind(template.indent, version, template.tail);
    } else {
      var rest := SplitAt(version, BUNDLE_VERSION_KEY).value.1;
      StringBehindTheKey(template, version, rest);
      SplitAtIsFirst(version, BUNDLE_VERSION_KEY);
    }
  }

  lemma PartsOfFit(template: PlistTemplate)
    requires template.Fits()
    ensures '<' !in template.gap && '<' !in template.indent
  {}

  /** When a version has the key in it: its own string, if it has one, or the template's. */
  lemma StringBehindTheKey(template: PlistTemplate, version: string, rest: string)
    requires '<' !in template.gap && '<' !in template.indent
    ensures var tail := version + (STRING_CLOSE + template.tail);
            var found := SplitAt(rest + (template.Middle() + tail), STRING_OPEN);
            && found.Some?
            && (SplitAt(rest, STRING_OPEN).None? ==> found.value.1 == tail)
            && (SplitAt(rest, STRING_OPEN).Some? ==>
                  var value := SplitAt(found.value.1, STRING_CLOSE); value.Some? && |Trim(value.value.0)| <= |rest|)
  {
    hide SplitAt, Seamless, Free, Trim;
    var tail := version + (STRING_CLOSE + template.tail);
    var gap := STRING_CLOSE + template.gap + BUNDLE_VERSION_KEY + template.indent;
    var more := template.Middle() + tail;
    var behind := template.gap + BUNDLE_VERSION_KEY + template.indent + STRING_OPEN + tail;
    assert more == gap + (STRING_OPEN + tail) && more == STRING_CLOSE + behind;
    TagParts();
    if SplitAt(rest, STRING_OPEN).None? {
      SeamBeforeAClose(rest, more, STRING_OPEN);
      SplitBehind(rest, more, STRING_OPEN);
      KeyIsFree(template.gap, template.indent);
      StringBehind(gap, version, template.tail);
    } else {
      SplitFurther(rest, more, STRING_OPEN);
      SplitAtIsFirst(rest, STRING_OPEN);
      var y := SplitAt(rest, STRING_OPEN).value.1;
      ValueIsRead(y, behind);
      TrimShortens(SplitAt(y + more, STRING_CLOSE).value.0);
    }
  }
}
