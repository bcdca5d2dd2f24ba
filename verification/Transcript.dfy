/** The lines of `transcript.md` (scrybe-core/src/notes.rs), and the reader they determine. */
module Transcript {
  import opened Wrappers
  import opened Text
  import opened Ordering

  datatype SpeakerLabel = Me | Them | Named(name: string) | Unknown

  datatype AttributedChunk = AttributedChunk(speaker: SpeakerLabel, startMs: nat, text: string)

  function LabelFor(speaker: SpeakerLabel): string {
    match speaker
    case Me => "Me"
    case Them => "Them"
    case Named(_) => "Named"
    case Unknown => "Unknown"
  }

  /** `{n:02}`. */
  function TwoDigits(n: nat): string {
    if n < 10 then "0" + Decimal(n) else Decimal(n)
  }

  function FormatHms(startMs: nat): string {
    var totalSecs := startMs / 1000;
    TwoDigits(totalSecs / 3600) + ":" + TwoDigits(totalSecs % 3600 / 60) + ":" + TwoDigits(totalSecs % 60)
  }

  function RenderLine(chunk: AttributedChunk): string {
    "**" + LabelFor(chunk.speaker) + "** [" + FormatHms(chunk.startMs) + "]: " + Trim(chunk.text) + "\n"
  }

  /** The transcript body: one rendered line appended per chunk. */
  function Render(chunks: seq<AttributedChunk>): string {
    if chunks == [] then "" else RenderLine(chunks[0]) + Render(chunks[1..])
  }

  // ---- What a line says ----

  /** Everything a reader can recover: the printed label, the whole second, the trimmed text. */
  datatype Entry = Entry(speaker: string, second: nat, text: string)

  function View(chunk: AttributedChunk): Entry {
    var printed := if chunk.speaker.Me? then "Me" else if chunk.speaker.Them? then "Them"
                   else if chunk.speaker.Named? then "Named" else "Unknown";
    Entry(printed, chunk.startMs / 1000, Trim(chunk.text))
  }

  lemma ViewIs(chunk: AttributedChunk)
    ensures View(chunk) == Entry(LabelFor(chunk.speaker), chunk.startMs / 1000, Trim(chunk.text))
  {}

  function Views(chunks: seq<AttributedChunk>): seq<Entry> {
    seq(|chunks|, i requires 0 <= i < |chunks| => View(chunks[i]))
  }

  /** The reader below finds the end of the text: no later line of it reads as the head of a chunk. */
  predicate Foldable(chunk: AttributedChunk) {
    match SplitOnce(Trim(chunk.text), '\n')
    case None => true
    case Some((_, later)) => NoHeads(later)
  }

  predicate NoHeads(lines: string)
    decreases |lines|
  {
    match SplitOnce(lines, '\n')
    case None => ParseLine(lines).None?
    case Some((line, later)) => ParseLine(line).None? && NoHeads(later)
  }

  // ---- The reader ----

  function ParseNumber(s: string): Option<nat> {
    if s != [] && AllDigits(s) then Some(ParseDecimal(s)) else None
  }

  function ParseHms(s: string): Option<nat> {
    match SplitOnce(s, ':')
    case None => None
    case Some((hours, rest)) =>
      match SplitOnce(rest, ':')
      case None => None
      case Some((minutes, seconds)) =>
        match (ParseNumber(hours), ParseNumber(minutes), ParseNumber(seconds))
        case (Some(h), Some(m), Some(s)) => Some(h * 3600 + m * 60 + s)
        case _ => None
  }

  /** Cuts a line at its fixed parts: `open`, then `c` and `middle`, then `d` and `close`. */
  function Fields(line: string, open: string, c: char, middle: string, d: char, close: string)
    : Option<(string, string, string)>
  {
    match StripPrefix(line, open)
    case None => None
    case Some(body) =>
      match SplitOnce(body, c)
      case None => None
      case Some((first, rest)) =>
        match StripPrefix(rest, middle)
        case None => None
        case Some(stamped) =>
          match SplitOnce(stamped, d)
          case None => None
          case Some((second, tail)) =>
            match StripPrefix(tail, close)
            case None => None
            case Some(third) => Some((first, second, third))
  }

  /** Reads one line, without its line break. */
  function ParseLine(line: string): Option<Entry> {
    match Fields(line, "**", '*', "* [", ']', ": ")
    case None => None
    case Some((speaker, stamp, text)) =>
      match ParseHms(stamp)
      case None => None
      case Some(second) => Some(Entry(speaker, second, text))
  }

  /** The lines up to the next head, which go on with the text above them, and what stands behind them. */
  function Fold(s: string): (folded: (string, string))
    ensures |folded.1| <= |s|
    decreases |s|
  {
    match SplitOnce(s, '\n')
    case None => ("", s)
    case Some((line, later)) =>
      if ParseLine(line).Some? then ("", s) else ("\n" + line + Fold(later).0, Fold(later).1)
  }

  function Parse(s: string): Option<seq<Entry>>
    decreases |s|
  {
    if s == "" then Some([])
    else
      match SplitOnce(s, '\n')
      case None => None
      case Some((line, later)) =>
        match (ParseLine(line), Parse(Fold(later).1))
        case (Some(entry), Some(entries)) => Some([entry.(text := entry.text + Fold(later).0)] + entries)
        case _ => None
  }

  // ---- Round trips ----

  lemma TwoDigitsParses(n: nat)
    ensures AllDigits(TwoDigits(n)) && TwoDigits(n) != "" && ParseDecimal(TwoDigits(n)) == n
    ensures forall c | c in TwoDigits(n) :: '0' <= c <= '9'
  {
    DecimalParses(n);
    if n < 10 {
      assert TwoDigits(n) == ['0', Digit(n)];
      assert TwoDigits(n)[..1] == ['0'];
      assert ParseDecimal(['0']) == 0;
    }
  }

  lemma HmsParses(h: string, m: string, s: string)
    requires h != "" && m != "" && s != "" && AllDigits(h) && AllDigits(m) && AllDigits(s)
    ensures ParseHms(h + ":" + m + ":" + s) == Some(ParseDecimal(h) * 3600 + ParseDecimal(m) * 60 + ParseDecimal(s))
  {
    hide SplitOnce, ParseDecimal;
    var rest := m + ([':'] + s);
    NestColons(h, m, s);
    SplitOnceOf(h, ':', rest);
    SplitOnceOf(m, ':', s);
  }

  lemma NestColons(h: string, m: string, s: string)
    ensures h + ":" + m + ":" + s == h + ([':'] + (m + ([':'] + s)))
  {
    var colon := [':'];
    Reassociate(h + colon + m, colon, s);
    Reassociate(h + colon, m, colon + s);
    Reassociate(h, colon, m + (colon + s));
  }

  /** The timestamp reads back as the whole second it was made from. */
  lemma TimestampRoundTrips(startMs: nat)
    ensures ParseHms(FormatHms(startMs)) == Some(startMs / 1000)
  {
    hide TwoDigits, ParseHms, ParseDecimal;
    var total := startMs / 1000;
    TwoDigitsParses(total / 3600);
    TwoDigitsParses(total % 3600 / 60);
    TwoDigitsParses(total % 60);
    HmsParses(TwoDigits(total / 3600), TwoDigits(total % 3600 / 60), TwoDigits(total % 60));
    HmsAddsUp(total);
  }

  lemma HmsAddsUp(total: nat)
    ensures total / 3600 * 3600 + total % 3600 / 60 * 60 + total % 60 == total
  {
    assert total % 3600 % 60 == total % 60;
  }

  lemma StampCharacters(startMs: nat)
    ensures forall c | c in FormatHms(startMs) :: '0' <= c <= ':'
  {
    var total := startMs / 1000;
    TwoDigitsParses(total / 3600);
    TwoDigitsParses(total % 3600 / 60);
    TwoDigitsParses(total % 60);
  }

  lemma FieldsOf(open: string, a: string, c: char, middle: string, b: string, d: char, close: string, t: string)
    requires c !in a && d !in b
    ensures Fields(open + (a + ([c] + (middle + (b + ([d] + (close + t)))))), open, c, middle, d, close) == Some((a, b, t))
  {
    StripPrefixOf(open, a + ([c] + (middle + (b + ([d] + (close + t))))));
    SplitOnceOf(a, c, middle + (b + ([d] + (close + t))));
    StripPrefixOf(middle, b + ([d] + (close + t)));
    SplitOnceOf(b, d, close + t);
    StripPrefixOf(close, t);
  }

  lemma NestLine(open: string, a: string, c: char, middle: string, b: string, d: char, close: string, t: string)
    ensures open + a + ([c] + middle) + b + ([d] + close) + t ==
            open + (a + ([c] + (middle + (b + ([d] + (close + t))))))
  {
    Reassociate(open + a + ([c] + middle) + b, [d] + close, t);
    Reassociate(open + a + ([c] + middle), b, ([d] + close) + t);
    Reassociate([d], close, t);
    var tail := b + ([d] + (close + t));
    Reassociate(open + a, [c] + middle, tail);
    Reassociate(open, a, ([c] + middle) + tail);
    Reassociate([c], middle, tail);
  }

  /** A rendered line without its line break. */
  function LineBody(chunk: AttributedChunk): (line: string)
    ensures RenderLine(chunk) == line + "\n"
  {
    "**" + LabelFor(chunk.speaker) + "** [" + FormatHms(chunk.startMs) + "]: " + Trim(chunk.text)
  }

  /** What stands before the text of a rendered line. */
  function Head(chunk: AttributedChunk): string {
    "**" + LabelFor(chunk.speaker) + "** [" + FormatHms(chunk.startMs) + "]: "
  }

  lemma HeadIsRead(chunk: AttributedChunk, text: string)
    ensures ParseLine(Head(chunk) + text) == Some(Entry(LabelFor(chunk.speaker), chunk.startMs / 1000, text))
    ensures '\n' !in Head(chunk)
  {
    hide Fields, FormatHms, ParseHms;
    var speaker, stamp := LabelFor(chunk.speaker), FormatHms(chunk.startMs);
    StampCharacters(chunk.startMs);
    TimestampRoundTrips(chunk.startMs);
    assert '*' !in speaker && ']' !in stamp && '\n' !in speaker && '\n' !in stamp;
    FieldsOf("**", speaker, '*', "* [", stamp, ']', ": ", text);
    NestLine("**", speaker, '*', "* [", stamp, ']', ": ", text);
    assert ['*'] + "* [" == "** [" && [']'] + ": " == "]: ";
  }

  /** Nothing, or a chunk's first line. */
  predicate StartsAfresh(s: string) {
    s == "" || (SplitOnce(s, '\n').Some? && ParseLine(SplitOnce(s, '\n').value.0).Some?)
  }

  lemma SplitBack(s: string)
    ensures match SplitOnce(s, '\n')
            case None => '\n' !in s
            case Some((line, later)) => s == line + "\n" + later && '\n' !in line
  {}

  lemma SplitLine(line: string, later: string)
    requires '\n' !in line
    ensures SplitOnce(line + "\n" + later, '\n') == Some((line, later))
  {
    Reassociate(line, "\n", later);
    SplitOnceOf(line, '\n', later);
  }

  /** Lines without a head go on with the text above them. */
  lemma {:induction false} FoldingLines(lines: string, rest: string)
    requires NoHeads(lines) && StartsAfresh(rest)
    ensures Fold(lines + "\n" + rest) == ("\n" + lines, rest)
    decreases |lines|
  {
    hide ParseLine, SplitOnce;
    SplitBack(lines);
    match SplitOnce(lines, '\n')
    case None =>
      SplitLine(lines, rest);
      FoldingNothing(rest);
      assert "\n" + lines + "" == "\n" + lines;
    case Some((line, later)) =>
      SplitLine(line, later + "\n" + rest);
      assert lines + "\n" + rest == line + "\n" + (later + "\n" + rest);
      FoldingLines(later, rest);
      assert "\n" + line + ("\n" + later) == "\n" + lines;
  }

  lemma FoldingNothing(rest: string)
    requires StartsAfresh(rest)
    ensures Fold(rest) == ("", rest)
  {}

  /** One chunk at the front of what is read. */
  lemma ChunkIsRead(chunk: AttributedChunk, rest: string)
    requires Foldable(chunk) && StartsAfresh(rest) && Parse(rest).Some?
    ensures Parse(LineBody(chunk) + "\n" + rest) == Some([View(chunk)] + Parse(rest).value)
    ensures StartsAfresh(LineBody(chunk) + "\n" + rest)
  {
    ViewIs(chunk);
    hide ParseLine, SplitOnce, Head, Trim, FormatHms, LabelFor, View;
    var text := Trim(chunk.text);
    var all := LineBody(chunk) + "\n" + rest;
    BodyIsHeadAndText(chunk);
    SplitBack(text);
    match SplitOnce(text, '\n')
    case None =>
      HeadIsRead(chunk, text);
      SplitLine(Head(chunk) + text, rest);
      FoldingNothing(rest);
      assert text + "" == text;
    case Some((line, later)) =>
      HeadIsRead(chunk, line);
      SplitLine(Head(chunk) + line, later + "\n" + rest);
      assert all == Head(chunk) + line + "\n" + (later + "\n" + rest);
      FoldingLines(later, rest);
      assert line + ("\n" + later) == text;
  }

  lemma BodyIsHeadAndText(chunk: AttributedChunk)
    ensures LineBody(chunk) == Head(chunk) + Trim(chunk.text)
  {
    hide FormatHms, Trim;
  }

  /** Reading an appended transcript gives back every chunk's label, second and text, in order. */
  lemma {:induction false} TranscriptRoundTrips(chunks: seq<AttributedChunk>)
    requires forall i | 0 <= i < |chunks| :: Foldable(chunks[i])
    ensures Parse(Render(chunks)) == Some(Views(chunks)) && StartsAfresh(Render(chunks))
  {
    hide ParseLine, RenderLine, LineBody, View, Foldable, SplitOnce, Fold;
    if chunks != [] {
      TranscriptRoundTrips(chunks[1..]);
      ChunkIsRead(chunks[0], Render(chunks[1..]));
      assert Views(chunks) == [View(chunks[0])] + Views(chunks[1..]);
    } else {
      assert Views(chunks) == [];
    }
  }

  lemma SameViewSameLine(a: AttributedChunk, b: AttributedChunk)
    ensures View(a) == View(b) ==> RenderLine(a) == RenderLine(b)
  {
    hide LabelFor, Trim, View;
    ViewIs(a);
    ViewIs(b);
  }

  lemma {:induction false} RenderSeesOnlyViews(a: seq<AttributedChunk>, b: seq<AttributedChunk>)
    requires Views(a) == Views(b)
    ensures Render(a) == Render(b)
  {
    hide View, RenderLine;
    assert |Views(a)| == |a| && |Views(b)| == |b|;
    if a != [] {
      SameViewSameLine(a[0], b[0]);
      assert Views(a)[0] == View(a[0]) && Views(b)[0] == View(b[0]);
      assert Views(a)[1..] == Views(a[1..]) && Views(b)[1..] == Views(b[1..]);
      RenderSeesOnlyViews(a[1..], b[1..]);
    }
  }

  // ---- String order and time order ----

  lemma {:induction false} LessOfConcat(a: string, b: string, p: string, q: string)
    requires |a| == |b|
    ensures Less(a + p, b + q) <==> Less(a, b) || (a == b && Less(p, q))
  {
    if a == "" {
      assert a + p == p && b + q == q;
    } else {
      LessOfConcat(a[1..], b[1..], p, q);
      assert (a + p)[1..] == a[1..] + p && (b + q)[1..] == b[1..] + q;
      assert a == [a[0]] + a[1..] && b == [b[0]] + b[1..];
    }
  }

  lemma TwoDigitsOrder(m: nat, n: nat)
    requires m < 100 && n < 100
    ensures |TwoDigits(m)| == |TwoDigits(n)| == 2
    ensures Less(TwoDigits(m), TwoDigits(n)) <==> m < n
    ensures TwoDigits(m) == TwoDigits(n) <==> m == n
  {
    TwoDigitsShape(m);
    TwoDigitsShape(n);
    var a, b := TwoDigits(m), TwoDigits(n);
    assert a[1..] == [Digit(m % 10)] && b[1..] == [Digit(n % 10)];
    assert Less(a[1..], b[1..]) <==> m % 10 < n % 10 by {
      assert a[1..][1..] == "" && b[1..][1..] == "";
    }
  }

  lemma TwoDigitsShape(n: nat)
    requires n < 100
    ensures TwoDigits(n) == [Digit(n / 10), Digit(n % 10)]
  {
    if n >= 10 {
      assert Decimal(n / 10) == [Digit(n / 10)];
    }
  }

  lemma LessOfColon(a: string, b: string, p: string, q: string)
    requires |a| == |b|
    ensures Less(a + ([':'] + p), b + ([':'] + q)) <==> Less(a, b) || (a == b && Less(p, q))
  {
    var colon := [':'];
    LessIsStrict(colon, colon);
    LessOfConcat(a, b, colon + p, colon + q);
    LessOfConcat(colon, colon, p, q);
  }

  lemma HmsOrder(h: string, m: string, s: string, h': string, m': string, s': string)
    requires |h| == |h'| && |m| == |m'|
    ensures Less(h + ":" + m + ":" + s, h' + ":" + m' + ":" + s') <==>
            Less(h, h') || (h == h' && (Less(m, m') || (m == m' && Less(s, s'))))
  {
    hide Less;
    NestColons(h, m, s);
    NestColons(h', m', s');
    LessOfColon(h, h', m + ([':'] + s), m' + ([':'] + s'));
    LessOfColon(m, m', s, s');
  }

  /** Below one hundred hours, sorting timestamps as text sorts them in time. */
  lemma TimestampOrderIsTimeOrder(a: nat, b: nat)
    requires a / 1000 < 360000 && b / 1000 < 360000
    ensures Less(FormatHms(a), FormatHms(b)) <==> a / 1000 < b / 1000
  {
    var s, t := a / 1000, b / 1000;
    TwoDigitsOrder(s / 3600, t / 3600);
    TwoDigitsOrder(s % 3600 / 60, t % 3600 / 60);
    TwoDigitsOrder(s % 60, t % 60);
    HmsOrder(TwoDigits(s / 3600), TwoDigits(s % 3600 / 60), TwoDigits(s % 60),
             TwoDigits(t / 3600), TwoDigits(t % 3600 / 60), TwoDigits(t % 60));
    HmsAddsUp(s);
    HmsAddsUp(t);
  }

  /** At one hundred hours the hour field widens and the two orders part. */
  lemma HundredHoursSortFirst()
    ensures Less(FormatHms(360000000), FormatHms(359999000))
  {
    TwoDigitsShape(99);
    assert Decimal(10)[0] == Digit(1);
    assert TwoDigits(100)[0] == Decimal(100)[0] == Digit(1);
    assert FormatHms(360000000)[0] == TwoDigits(100)[0];
    assert FormatHms(359999000)[0] == TwoDigits(99)[0];
  }

  ghost predicate SortInTime(limit: nat) {
    forall a: nat, b: nat | a / 1000 < limit && b / 1000 < limit :: Less(FormatHms(a), FormatHms(b)) <==> a / 1000 < b / 1000
  }

  /** One hundred hours are the exact limit: timestamps below a limit sort in time just when it is not beyond that. */
  lemma TimestampOrderEndsAtHundredHours(limit: nat)
    ensures SortInTime(limit) <==> limit <= 360000
  {
    hide FormatHms, Less;
    if limit <= 360000 {
      forall a: nat, b: nat | a / 1000 < limit && b / 1000 < limit
        ensures Less(FormatHms(a), FormatHms(b)) <==> a / 1000 < b / 1000
      {
        TimestampOrderIsTimeOrder(a, b);
      }
    } else {
      HundredHoursSortFirst();
      assert 360000000 / 1000 == 360000 && 359999000 / 1000 == 359999;
    }
  }
}
