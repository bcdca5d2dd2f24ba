/** Reading a content security policy back out of a built executable (scripts/qualify-desktop-app.py). */
module PolicyExtractor {
  import opened Wrappers

  // ---- Patterns, matched as a backtracking engine matches them ----

  datatype Class = Exactly(c: char) | Letter | NameCharacter | NotQuote | Plain {
    predicate Has(x: char) {
      match this
      case Exactly(c) => x == c
      case Letter => 'a' <= x <= 'z'
      case NameCharacter => 'a' <= x <= 'z' || '0' <= x <= '9' || x == '-'
      case NotQuote => x != '\''
      case Plain => x != ' ' && x != ';' && x != '\''
    }
  }

  datatype Pattern =
    | Nothing
    | One(of: Class)
    | Then(first: Pattern, second: Pattern)
    | Either(preferred: Pattern, other: Pattern)
    | Many(body: Pattern)

  /** Every end of a match of `r` at `i`, in the order the engine tries them: the first is its answer. */
  function Ends(r: Pattern, s: string, i: nat): (ends: seq<nat>)
    requires i <= |s|
    ensures forall k | 0 <= k < |ends| :: i <= ends[k] <= |s|
    decreases |s| - i, r, 1, 0
  {
    match r
    case Nothing => [i]
    case One(c) => if i < |s| && c.Has(s[i]) then [i + 1] else []
    case Either(a, b) => Ends(a, s, i) + Ends(b, s, i)
    case Then(a, b) => Resume(Ends(a, s, i), b, s, i)
    case Many(a) => Again(Ends(a, s, i), r, s, i) + [i]
  }

  function Resume(ends: seq<nat>, r: Pattern, s: string, i: nat): (all: seq<nat>)
    requires i <= |s| && forall k | 0 <= k < |ends| :: i <= ends[k] <= |s|
    ensures forall k | 0 <= k < |all| :: i <= all[k] <= |s|
    decreases |s| - i, r, 2, |ends|
  {
    if ends == [] then [] else Ends(r, s, ends[0]) + Resume(ends[1..], r, s, i)
  }

  /** One more round of a repetition from each end that moved on. */
  function Again(ends: seq<nat>, r: Pattern, s: string, i: nat): (all: seq<nat>)
    requires i <= |s| && forall k | 0 <= k < |ends| :: i <= ends[k] <= |s|
    ensures forall k | 0 <= k < |all| :: i <= all[k] <= |s|
    decreases |s| - i, r, 0, |ends|
  {
    if ends == [] then []
    else (if ends[0] > i then Ends(r, s, ends[0]) else []) + Again(ends[1..], r, s, i)
  }

  /** `match`: the engine's first answer. */
  function Match(r: Pattern, s: string, i: nat): Option<nat>
    requires i <= |s|
  {
    if Ends(r, s, i) == [] then None else Some(Ends(r, s, i)[0])
  }

  const QUOTED := Then(One(Exactly('\'')), Then(Many(One(NotQuote)), One(Exactly('\''))))
  const UNQUOTED := Then(One(Plain), Many(One(Plain)))
  const SOURCE := Then(One(Exactly(' ')), Either(QUOTED, UNQUOTED))
  const DIRECTIVE := Then(One(Letter), Then(Many(One(NameCharacter)), Many(SOURCE)))
  const GAP := Either(One(Exactly(' ')), Nothing)
  const FURTHER := Then(One(Exactly(';')), Then(GAP, DIRECTIVE))
  const POLICY := Then(DIRECTIVE, Many(FURTHER))

  // ---- The same grammar read from left to right, never going back ----

  function RunEnd(c: Class, s: string, i: nat): (e: nat)
    requires i <= |s|
    ensures i <= e <= |s| && forall k | i <= k < e :: c.Has(s[k])
    ensures e < |s| ==> !c.Has(s[e])
    decreases |s| - i
  {
    if i < |s| && c.Has(s[i]) then RunEnd(c, s, i + 1) else i
  }

  function ScanQuoted(s: string, i: nat): (e: Option<nat>)
    requires i <= |s|
    ensures e.Some? ==> i < e.value <= |s|
  {
    if i < |s| && s[i] == '\'' then
      var close := RunEnd(NotQuote, s, i + 1);
      if close < |s| then Some(close + 1) else None
    else None
  }

  function ScanUnquoted(s: string, i: nat): (e: Option<nat>)
    requires i <= |s|
    ensures e.Some? ==> i < e.value <= |s|
  {
    if i < |s| && Plain.Has(s[i]) then Some(RunEnd(Plain, s, i + 1)) else None
  }

  function ScanSource(s: string, i: nat): (e: Option<nat>)
    requires i <= |s|
    ensures e.Some? ==> i < e.value <= |s|
  {
    if i < |s| && s[i] == ' ' then
      var quoted := ScanQuoted(s, i + 1);
      if quoted.Some? then quoted else ScanUnquoted(s, i + 1)
    else None
  }

  function ScanSources(s: string, i: nat): (e: nat)
    requires i <= |s|
    ensures i <= e <= |s|
    decreases |s| - i
  {
    var source := ScanSource(s, i);
    if source.Some? then ScanSources(s, source.value) else i
  }

  function ScanDirective(s: string, i: nat): (e: Option<nat>)
    requires i <= |s|
    ensures e.Some? ==> i < e.value <= |s|
  {
    if i < |s| && Letter.Has(s[i]) then Some(ScanSources(s, RunEnd(NameCharacter, s, i + 1))) else None
  }

  function ScanFurther(s: string, i: nat): (e: Option<nat>)
    requires i <= |s|
    ensures e.Some? ==> i < e.value <= |s|
  {
    if i < |s| && s[i] == ';' then
      ScanDirective(s, if i + 1 < |s| && s[i + 1] == ' ' then i + 2 else i + 1)
    else None
  }

  function ScanRest(s: string, i: nat): (e: nat)
    requires i <= |s|
    ensures i <= e <= |s|
    decreases |s| - i
  {
    var further := ScanFurther(s, i);
    if further.Some? then ScanRest(s, further.value) else i
  }

  function ScanPolicy(s: string, i: nat): (e: Option<nat>)
    requires i <= |s|
    ensures e.Some? ==> i < e.value <= |s|
  {
    var first := ScanDirective(s, i);
    if first.Some? then Some(ScanRest(s, first.value)) else None
  }

  // ---- Backtracking never changes the answer ----

  lemma ThenFirst(a: Pattern, b: Pattern, s: string, i: nat, e: nat)
    requires i <= |s| && Match(a, s, i) == Some(e) && e <= |s| && Match(b, s, e).Some?
    ensures Match(Then(a, b), s, i) == Match(b, s, e)
  {
    var ends := Ends(a, s, i);
    assert Ends(Then(a, b), s, i) == Resume(ends, b, s, i);
    assert Resume(ends, b, s, i) == Ends(b, s, e) + Resume(ends[1..], b, s, i);
  }

  lemma ThenFails(a: Pattern, b: Pattern, s: string, i: nat)
    requires i <= |s| && Match(a, s, i).None?
    ensures Match(Then(a, b), s, i).None?
  {
    assert Ends(Then(a, b), s, i) == Resume(Ends(a, s, i), b, s, i);
  }

  /** A second part that fails after every first one makes the whole fail. */
  lemma ThenFailsLate(a: Pattern, b: Pattern, s: string, i: nat)
    requires i <= |s| && forall e | i <= e <= |s| && e in Ends(a, s, i) :: Match(b, s, e).None?
    ensures Match(Then(a, b), s, i).None?
  {
    ResumeFails(Ends(a, s, i), b, s, i);
    assert Ends(Then(a, b), s, i) == Resume(Ends(a, s, i), b, s, i);
  }

  /** A second part that fails from every end of the first makes the whole fail. */
  lemma {:induction false} ResumeFails(ends: seq<nat>, b: Pattern, s: string, i: nat)
    requires i <= |s| && forall k | 0 <= k < |ends| :: i <= ends[k] <= |s|
    requires forall k | 0 <= k < |ends| :: Match(b, s, ends[k]).None?
    ensures Resume(ends, b, s, i) == []
  {
    if ends != [] {
      assert Match(b, s, ends[0]).None?;
      ResumeFails(ends[1..], b, s, i);
    }
  }

  lemma ManyFirst(a: Pattern, s: string, i: nat)
    requires i <= |s|
    requires Match(a, s, i).Some? ==> i < Match(a, s, i).value
    ensures Match(Many(a), s, i).Some?
    ensures Match(a, s, i).None? ==> Match(Many(a), s, i) == Some(i)
    ensures Match(a, s, i).Some? && Match(Many(a), s, Match(a, s, i).value).Some? ==>
            Match(Many(a), s, i) == Match(Many(a), s, Match(a, s, i).value)
  {
    var ends := Ends(a, s, i);
    assert Ends(Many(a), s, i) == Again(ends, Many(a), s, i) + [i];
    if ends != [] {
      assert Again(ends, Many(a), s, i) == Ends(Many(a), s, ends[0]) + Again(ends[1..], Many(a), s, i);
    }
  }

  /** A repeated class stops first at the end of its run, and never beyond it. */
  lemma {:induction false} RunIsGreedy(c: Class, s: string, i: nat)
    requires i <= |s|
    ensures Match(Many(One(c)), s, i) == Some(RunEnd(c, s, i))
    ensures forall k | 0 <= k < |Ends(Many(One(c)), s, i)| :: Ends(Many(One(c)), s, i)[k] <= RunEnd(c, s, i)
    decreases |s| - i
  {
    ManyFirst(One(c), s, i);
    var r := Many(One(c));
    if i < |s| && c.Has(s[i]) {
      RunIsGreedy(c, s, i + 1);
      EndsOfOneRound(c, s, i);
    }
  }

  lemma EndsOfOneRound(c: Class, s: string, i: nat)
    requires i < |s| && c.Has(s[i])
    ensures Ends(Many(One(c)), s, i) == Ends(Many(One(c)), s, i + 1) + [i]
  {
    var r := Many(One(c));
    assert Ends(r, s, i) == Again([i + 1], r, s, i) + [i];
    assert Again([i + 1], r, s, i) == Ends(r, s, i + 1) + Again([i + 1][1..], r, s, i);
    assert Again([], r, s, i) == [];
  }

  lemma QuotedMatches(s: string, i: nat)
    requires i <= |s|
    ensures Match(QUOTED, s, i) == ScanQuoted(s, i)
  {
    var close := One(Exactly('\''));
    var body := Many(One(NotQuote));
    var tail := Then(body, close);
    if i < |s| && s[i] == '\'' {
      RunIsGreedy(NotQuote, s, i + 1);
      var e := RunEnd(NotQuote, s, i + 1);
      if e < |s| {
        ThenFirst(body, close, s, i + 1, e);
        ThenFirst(close, tail, s, i, i + 1);
      } else {
        ThenFailsLate(body, close, s, i + 1);
        ThenFailsLate(close, tail, s, i);
      }
    } else {
      ThenFails(close, tail, s, i);
    }
  }

  lemma UnquotedMatches(s: string, i: nat)
    requires i <= |s|
    ensures Match(UNQUOTED, s, i) == ScanUnquoted(s, i)
  {
    if i < |s| && Plain.Has(s[i]) {
      RunIsGreedy(Plain, s, i + 1);
      ThenFirst(One(Plain), Many(One(Plain)), s, i, i + 1);
    } else {
      ThenFails(One(Plain), Many(One(Plain)), s, i);
    }
  }

  lemma SourceMatches(s: string, i: nat)
    requires i <= |s|
    ensures Match(SOURCE, s, i) == ScanSource(s, i)
  {
    var space, expression := One(Exactly(' ')), Either(QUOTED, UNQUOTED);
    if i < |s| && s[i] == ' ' {
      QuotedMatches(s, i + 1);
      UnquotedMatches(s, i + 1);
      assert Ends(space, s, i) == [i + 1];
      if Match(expression, s, i + 1).Some? {
        ThenFirst(space, expression, s, i, i + 1);
      } else {
        ThenFailsLate(space, expression, s, i);
      }
    } else {
      ThenFails(space, expression, s, i);
    }
  }

  lemma {:induction false} SourcesMatch(s: string, i: nat)
    requires i <= |s|
    ensures Match(Many(SOURCE), s, i) == Some(ScanSources(s, i))
    decreases |s| - i
  {
    SourceMatches(s, i);
    ManyFirst(SOURCE, s, i);
    if ScanSource(s, i).Some? {
      SourcesMatch(s, ScanSource(s, i).value);
    }
  }

  lemma DirectiveMatches(s: string, i: nat)
    requires i <= |s|
    ensures Match(DIRECTIVE, s, i) == ScanDirective(s, i)
  {
    var tail := Then(Many(One(NameCharacter)), Many(SOURCE));
    if i < |s| && Letter.Has(s[i]) {
      RunIsGreedy(NameCharacter, s, i + 1);
      var e := RunEnd(NameCharacter, s, i + 1);
      SourcesMatch(s, e);
      ThenFirst(Many(One(NameCharacter)), Many(SOURCE), s, i + 1, e);
      ThenFirst(One(Letter), tail, s, i, i + 1);
    } else {
      ThenFails(One(Letter), tail, s, i);
    }
  }

  lemma FurtherMatches(s: string, i: nat)
    requires i <= |s|
    ensures Match(FURTHER, s, i) == ScanFurther(s, i)
  {
    var semicolon := One(Exactly(';'));
    var tail := Then(GAP, DIRECTIVE);
    if i < |s| && s[i] == ';' {
      AfterSemicolon(s, i + 1);
      assert Ends(semicolon, s, i) == [i + 1];
      if Match(tail, s, i + 1).Some? {
        ThenFirst(semicolon, tail, s, i, i + 1);
      } else {
        ThenFailsLate(semicolon, tail, s, i);
      }
    } else {
      ThenFails(semicolon, tail, s, i);
    }
  }

  /** The optional space is taken when there is one; giving it back cannot help, as no name starts with it. */
  lemma AfterSemicolon(s: string, i: nat)
    requires i <= |s|
    ensures Match(Then(GAP, DIRECTIVE), s, i) == ScanDirective(s, if i < |s| && s[i] == ' ' then i + 1 else i)
  {
    var next := if i < |s| && s[i] == ' ' then i + 1 else i;
    DirectiveMatches(s, i);
    DirectiveMatches(s, next);
    assert Ends(GAP, s, i) == if i < |s| && s[i] == ' ' then [i + 1, i] else [i];
    if ScanDirective(s, next).Some? {
      ThenFirst(GAP, DIRECTIVE, s, i, next);
    } else {
      ThenFailsLate(GAP, DIRECTIVE, s, i);
    }
  }

  lemma {:induction false} RestMatches(s: string, i: nat)
    requires i <= |s|
    ensures Match(Many(FURTHER), s, i) == Some(ScanRest(s, i))
    decreases |s| - i
  {
    FurtherMatches(s, i);
    ManyFirst(FURTHER, s, i);
    if ScanFurther(s, i).Some? {
      RestMatches(s, ScanFurther(s, i).value);
    }
  }

  /** The engine's answer is what one pass from left to right finds. */
  lemma PolicyMatches(s: string, i: nat)
    requires i <= |s|
    ensures Match(POLICY, s, i) == ScanPolicy(s, i)
  {
    DirectiveMatches(s, i);
    if ScanDirective(s, i).Some? {
      var e := ScanDirective(s, i).value;
      RestMatches(s, e);
      ThenFirst(DIRECTIVE, Many(FURTHER), s, i, e);
    } else {
      ThenFails(DIRECTIVE, Many(FURTHER), s, i);
    }
  }

  // ---- Policies as the grammar describes them ----

  /** A lower-case letter, a digit or a hyphen. */
  ghost predicate InAName(c: char) {
    'a' <= c <= 'z' || '0' <= c <= '9' || c == '-'
  }

  /** Neither a space nor a semicolon nor a quote. */
  ghost predicate InAWord(c: char) {
    c != ' ' && c != ';' && c != '\''
  }

  datatype Source = Quoted(body: string) | Word(text: string) {
    /** A source that ends before `j` does not run on there: only a word can. */
    ghost predicate StopsAt(s: string, j: nat) {
      Quoted? || (j < |s| ==> !InAWord(s[j]))
    }

    ghost predicate Valid() {
      match this
      case Quoted(body) => forall k | 0 <= k < |body| :: body[k] != '\''
      case Word(text) => text != "" && forall k | 0 <= k < |text| :: InAWord(text[k])
    }

    function Render(): string {
      match this
      case Quoted(body) => ['\''] + body + ['\'']
      case Word(text) => text
    }
  }

  function RenderSources(sources: seq<Source>): string {
    if sources == [] then "" else [' '] + sources[0].Render() + RenderSources(sources[1..])
  }

  datatype Directive = Directive(name: string, sources: seq<Source>) {
    ghost predicate Valid() {
      && name != "" && 'a' <= name[0] <= 'z'
      && (forall k | 0 <= k < |name| :: InAName(name[k]))
      && forall k | 0 <= k < |sources| :: sources[k].Valid()
    }

    function Render(): string {
      name + RenderSources(sources)
    }

    /** Nor does a directive, by its last source or, without one, by its name. */
    ghost predicate StopsAt(s: string, j: nat) {
      if sources == [] then j < |s| ==> !InAName(s[j]) else sources[|sources| - 1].StopsAt(s, j)
    }
  }

  /** A directive after a semicolon, with or without a space between. */
  datatype Link = Link(spaced: bool, directive: Directive) {
    function Render(): string {
      (if spaced then [';', ' '] else [';']) + directive.Render()
    }
  }

  function RenderLinks(links: seq<Link>): string {
    if links == [] then "" else links[0].Render() + RenderLinks(links[1..])
  }

  datatype Policy = Policy(first: Directive, rest: seq<Link>) {
    ghost predicate Valid() {
      first.Valid() && forall k | 0 <= k < |rest| :: rest[k].directive.Valid()
    }

    function Render(): string {
      first.Render() + RenderLinks(rest)
    }

    ghost predicate StopsAt(s: string, j: nat) {
      if rest == [] then first.StopsAt(s, j) else rest[|rest| - 1].directive.StopsAt(s, j)
    }
  }

  // ---- Scanning a rendered policy ----

  /** `x` stands in `s` from `i` on. */
  ghost predicate At(s: string, i: nat, x: string) {
    i + |x| <= |s| && s[i..i + |x|] == x
  }

  lemma AtSplit(s: string, i: nat, x: string, y: string)
    requires At(s, i, x + y)
    ensures At(s, i, x) && At(s, i + |x|, y)
    ensures forall k | 0 <= k < |x| :: s[i + k] == x[k]
  {
    assert s[i..i + |x|] == (x + y)[..|x|];
    assert s[i + |x|..i + |x| + |y|] == (x + y)[|x|..];
    forall k | 0 <= k < |x|
      ensures s[i + k] == x[k]
    {
      assert s[i..i + |x|][k] == x[k];
    }
  }

  lemma Characters(s: string, i: nat, x: string)
    requires At(s, i, x)
    ensures forall k | i <= k < i + |x| :: s[k] == x[k - i]
  {
    forall k | i <= k < i + |x|
      ensures s[k] == x[k - i]
    {
      assert s[i..i + |x|][k - i] == x[k - i];
    }
  }

  /** No word or name can run on past `j`. */
  ghost predicate Boundary(s: string, j: nat) {
    j == |s| || (j < |s| && (s[j] == ' ' || s[j] == ';'))
  }

  lemma SourceScans(source: Source, s: string, i: nat)
    requires source.Valid() && At(s, i, [' '] + source.Render())
    ensures ScanSource(s, i).Some? && ScanSource(s, i).value >= i + 1 + |source.Render()|
    ensures source.StopsAt(s, i + 1 + |source.Render()|) <==> ScanSource(s, i) == Some(i + 1 + |source.Render()|)
  {
    AtSplit(s, i, [' '], source.Render());
    AtStart(s, i, [' ']);
    match source
    case Quoted(body) => QuotedScans(body, s, i + 1);
    case Word(text) => WordScans(text, s, i + 1);
  }

  lemma QuotedScans(body: string, s: string, i: nat)
    requires Quoted(body).Valid() && At(s, i, ['\''] + body + ['\''])
    ensures ScanQuoted(s, i) == Some(i + |body| + 2)
  {
    AtSplit(s, i, ['\''] + body, ['\'']);
    AtSplit(s, i, ['\''], body);
    AtStart(s, i, ['\'']);
    AtStart(s, i + 1 + |body|, ['\'']);
    Characters(s, i + 1, body);
    assert RunEnd(NotQuote, s, i + 1) == i + 1 + |body|;
  }

  lemma WordScans(text: string, s: string, i: nat)
    requires Word(text).Valid() && At(s, i, text)
    ensures ScanQuoted(s, i).None? && ScanUnquoted(s, i).Some? && ScanUnquoted(s, i).value >= i + |text|
    ensures (i + |text| < |s| ==> !InAWord(s[i + |text|])) <==> ScanUnquoted(s, i) == Some(i + |text|)
  {
    Characters(s, i, text);
    assert s[i] == text[0];
  }

  lemma SpaceAfter(s: string, i: nat, source: Source, rest: seq<Source>)
    requires At(s, i, RenderSources([source] + rest))
    ensures At(s, i, [' '] + source.Render())
    ensures At(s, i + 1 + |source.Render()|, RenderSources(rest))
    ensures rest != [] ==> Boundary(s, i + 1 + |source.Render()|)
  {
    hide Source.Render, At;
    assert ([source] + rest)[1..] == rest;
    AtSplit(s, i, [' '] + source.Render(), RenderSources(rest));
    if rest != [] {
      SourcesStart(rest);
      AtStart(s, i + 1 + |source.Render()|, RenderSources(rest));
    }
  }

  lemma {:induction false} SourcesScan(sources: seq<Source>, s: string, i: nat)
    requires (forall k | 0 <= k < |sources| :: sources[k].Valid()) && At(s, i, RenderSources(sources))
    ensures ScanSources(s, i) >= i + |RenderSources(sources)|
    ensures var j := i + |RenderSources(sources)|;
            if sources == [] || sources[|sources| - 1].StopsAt(s, j) then ScanSources(s, i) == ScanSources(s, j)
            else ScanSources(s, i) > j
  {
    hide At, ScanSource, Source.Valid, Source.Render;
    if sources != [] {
      assert sources == [sources[0]] + sources[1..];
      SpaceAfter(s, i, sources[0], sources[1..]);
      SourceScans(sources[0], s, i);
      if |sources| > 1 {
        SourcesScan(sources[1..], s, i + 1 + |sources[0].Render()|);
      } else {
        assert RenderSources(sources[1..]) == "";
      }
    }
  }

  lemma DirectiveScans(d: Directive, s: string, i: nat)
    requires d.Valid() && At(s, i, d.Render())
    ensures ScanDirective(s, i).Some? && ScanDirective(s, i).value >= i + |d.Render()|
    ensures var j := i + |d.Render()|;
            if d.StopsAt(s, j) then ScanDirective(s, i) == Some(ScanSources(s, j)) else ScanDirective(s, i).value > j
  {
    hide ScanSources, RenderSources;
    AtSplit(s, i, d.name, RenderSources(d.sources));
    NameScans(d, s, i);
    SourcesScan(d.sources, s, i + |d.name|);
    if d.sources == [] { NoSources(); }
  }

  lemma NoSources()
    ensures RenderSources([]) == ""
  {}

  lemma NoSourceHere(s: string, i: nat)
    requires i < |s| && s[i] != ' '
    ensures ScanSources(s, i) == i
  {}

  lemma NameScans(d: Directive, s: string, i: nat)
    requires d.Valid() && At(s, i, d.name) && At(s, i + |d.name|, RenderSources(d.sources))
    ensures i < |s| && Letter.Has(s[i]) && RunEnd(NameCharacter, s, i + 1) >= i + |d.name|
    ensures d.sources != [] || (i + |d.name| < |s| ==> !InAName(s[i + |d.name|])) <==> RunEnd(NameCharacter, s, i + 1) == i + |d.name|
  {
    hide RenderSources, RunEnd;
    var j := i + |d.name|;
    Characters(s, i, d.name);
    RunsUpTo(NameCharacter, s, i + 1, j);
    if d.sources != [] {
      SourcesStart(d.sources);
      AtStart(s, j, RenderSources(d.sources));
      NoNameAtASpace(s, j);
    }
  }

  lemma RunsUpTo(c: Class, s: string, i: nat, j: nat)
    requires i <= j <= |s| && forall k | i <= k < j :: c.Has(s[k])
    ensures RunEnd(c, s, i) >= j && ((j < |s| ==> !c.Has(s[j])) <==> RunEnd(c, s, i) == j)
  {
    var e := RunEnd(c, s, i);
    assert e < |s| ==> !c.Has(s[e]);
  }

  lemma NoNameAtASpace(s: string, j: nat)
    requires j < |s| && s[j] == ' '
    ensures !InAName(s[j]) && !NameCharacter.Has(s[j])
  {}

  lemma SourcesStart(sources: seq<Source>)
    requires sources != []
    ensures RenderSources(sources) != "" && RenderSources(sources)[0] == ' '
  {}

  lemma AtStart(s: string, i: nat, x: string)
    requires At(s, i, x) && x != ""
    ensures i < |s| && s[i] == x[0]
  {
    assert s[i..i + |x|][0] == x[0];
  }

  lemma LinkScans(link: Link, s: string, i: nat)
    requires link.directive.Valid() && At(s, i, link.Render())
    ensures ScanSources(s, i) == i
    ensures ScanRest(s, i) >= i + |link.Render()|
    ensures var j := i + |link.Render()|;
            if link.directive.StopsAt(s, j) then ScanRest(s, i) == ScanRest(s, ScanSources(s, j)) else ScanRest(s, i) > j
  {
    hide ScanSources, ScanDirective, RenderSources;
    var head := if link.spaced then [';', ' '] else [';'];
    AtSplit(s, i, head, link.directive.Render());
    AtStart(s, i, head);
    NoSourceHere(s, i);
    var next := i + |head|;
    DirectiveScans(link.directive, s, next);
    DirectiveStart(link.directive);
    AtStart(s, next, link.directive.Render());
    if link.spaced {
      assert s[i + 1] == head[1];
    }
  }

  lemma DirectiveStart(d: Directive)
    requires d.Valid()
    ensures d.Render() != "" && Letter.Has(d.Render()[0])
  {}

  lemma LinksStart(links: seq<Link>)
    requires links != []
    ensures RenderLinks(links) != "" && RenderLinks(links)[0] == ';'
  {}

  lemma {:induction false} LinksScan(links: seq<Link>, s: string, i: nat)
    requires (forall k | 0 <= k < |links| :: links[k].directive.Valid()) && At(s, i, RenderLinks(links))
    ensures ScanRest(s, ScanSources(s, i)) >= i + |RenderLinks(links)|
    ensures var j := i + |RenderLinks(links)|;
            if links == [] || links[|links| - 1].directive.StopsAt(s, j) then
              ScanRest(s, ScanSources(s, i)) == ScanRest(s, ScanSources(s, j))
            else ScanRest(s, ScanSources(s, i)) > j
  {
    hide At, ScanSources, ScanRest, Link.Render, Directive.Valid;
    if links != [] {
      AtSplit(s, i, links[0].Render(), RenderLinks(links[1..]));
      LinkScans(links[0], s, i);
      if |links| > 1 {
        var j := i + |links[0].Render()|;
        LinksStart(links[1..]);
        AtStart(s, j, RenderLinks(links[1..]));
        LinksScan(links[1..], s, j);
      } else {
        assert RenderLinks(links[1..]) == "";
      }
    }
  }

  lemma PolicyScans(p: Policy, s: string, i: nat)
    requires p.Valid() && At(s, i, p.Render())
    ensures ScanPolicy(s, i).Some? && ScanPolicy(s, i).value >= i + |p.Render()|
    ensures var j := i + |p.Render()|;
            if p.StopsAt(s, j) then ScanPolicy(s, i) == Some(ScanRest(s, ScanSources(s, j))) else ScanPolicy(s, i).value > j
  {
    hide ScanSources, ScanDirective, ScanRest, RenderLinks, Directive.Render, Directive.Valid, Boundary;
    AtSplit(s, i, p.first.Render(), RenderLinks(p.rest));
    var j := i + |p.first.Render()|;
    if p.rest != [] {
      LinksStart(p.rest);
      AtStart(s, j, RenderLinks(p.rest));
    }
    DirectiveScans(p.first, s, i);
    LinksScan(p.rest, s, j);
    NoLinks();
    BoundaryAt(s, j);
    if Boundary(s, j) { BoundaryStops(p.first, s, j); }
  }

  lemma NoLinks()
    ensures RenderLinks([]) == ""
  {}

  lemma BoundaryAt(s: string, j: nat)
    ensures j < |s| && s[j] == ';' ==> Boundary(s, j)
  {}

  /** At a space, a semicolon or the end no word or name goes on. */
  lemma BoundaryStops(d: Directive, s: string, j: nat)
    requires Boundary(s, j)
    ensures j < |s| ==> !InAWord(s[j]) && !InAName(s[j])
    ensures d.StopsAt(s, j)
  {}

  // ---- What the extractor returns ----

  /** Something at `j` carries a policy on: one more source, or a semicolon and one more directive. */
  ghost predicate Continues(s: string, j: nat) {
    || (j + 1 < |s| && s[j] == ' ' && InAWord(s[j + 1]))
    || (j + 1 < |s| && s[j] == ' ' && s[j + 1] == '\'' && exists k | j + 2 <= k < |s| :: s[k] == '\'')
    || (j + 1 < |s| && s[j] == ';' && 'a' <= s[j + 1] <= 'z')
    || (j + 2 < |s| && s[j] == ';' && s[j + 1] == ' ' && 'a' <= s[j + 2] <= 'z')
  }

  lemma ContinuesIsProgress(s: string, j: nat)
    requires j <= |s|
    ensures ScanRest(s, ScanSources(s, j)) == j <==> !Continues(s, j)
  {
    if j < |s| && s[j] == ' ' && j + 1 < |s| && s[j + 1] == '\'' {
      var close := RunEnd(NotQuote, s, j + 2);
      if exists k | j + 2 <= k < |s| :: s[k] == '\'' {
        var k :| j + 2 <= k < |s| && s[k] == '\'';
        assert NotQuote.Has(s[k]) ==> false;
        assert close <= k;
      }
    }
  }

  /**
    * The answer is the policy and nothing more, exactly when its last word or name does not run on in what follows
    * and nothing there carries it on.
    */
  lemma ExtractionIsExact(p: Policy, s: string)
    requires p.Valid() && At(s, 0, p.Render())
    ensures Match(POLICY, s, 0) == Some(|p.Render()|) <==> p.StopsAt(s, |p.Render()|) && !Continues(s, |p.Render()|)
  {
    PolicyMatches(s, 0);
    PolicyScans(p, s, 0);
    ContinuesIsProgress(s, |p.Render()|);
  }

  /** Maximal munch: no policy at the start of the text is longer than the answer. */
  lemma ExtractionIsLongest(p: Policy, s: string)
    requires p.Valid() && At(s, 0, p.Render())
    ensures Match(POLICY, s, 0).Some? && |p.Render()| <= Match(POLICY, s, 0).value
  {
    PolicyMatches(s, 0);
    PolicyScans(p, s, 0);
  }

  /** An appended directive always changes the answer. */
  lemma AppendedDirectiveShows(p: Policy, link: Link, tail: string)
    requires p.Valid() && link.directive.Valid()
    ensures var s := p.Render() + link.Render() + tail;
            Match(POLICY, s, 0).Some? && |p.Render()| < Match(POLICY, s, 0).value <= |s|
  {
    hide Directive.Render, Directive.Valid, RenderLinks, Link.Render, POLICY;
    var s := p.Render() + link.Render() + tail;
    LinkIsNotEmpty(link);
    var longer := p.(rest := p.rest + [link]);
    RenderLinksAppend(p.rest, link);
    assert longer.Render() == p.Render() + link.Render();
    assert At(s, 0, longer.Render());
    ExtractionIsLongest(longer, s);
  }

  lemma LinkIsNotEmpty(link: Link)
    ensures link.Render() != ""
  {}

  lemma {:induction false} RenderLinksAppend(links: seq<Link>, link: Link)
    ensures RenderLinks(links + [link]) == RenderLinks(links) + link.Render()
  {
    hide Link.Render;
    if links == [] {
      assert links + [link] == [link] && [link][1..] == [];
    } else {
      RenderLinksAppend(links[1..], link);
      assert (links + [link])[0] == links[0] && (links + [link])[1..] == links[1..] + [link];
    }
  }

  // ---- The answer is always a policy ----

  lemma Cut(s: string, i: nat, j: nat, e: nat)
    requires i <= j <= e <= |s|
    ensures s[i..e] == s[i..j] + s[j..e]
  {}

  lemma SourceOf(s: string, i: nat) returns (source: Source)
    requires i <= |s| && ScanSource(s, i).Some?
    ensures source.Valid() && s[i..ScanSource(s, i).value] == [' '] + source.Render()
  {
    var e := ScanSource(s, i).value;
    if ScanQuoted(s, i + 1).Some? {
      var body := s[i + 2..e - 1];
      source := Quoted(body);
      assert s[i..e] == [' '] + (['\''] + body + ['\'']);
    } else {
      var text := s[i + 1..e];
      source := Word(text);
      forall k | 0 <= k < |text|
        ensures Plain.Has(text[k])
      {
        assert text[k] == s[i + 1 + k];
      }
      assert s[i..e] == [s[i]] + text;
    }
  }

  lemma {:induction false} SourcesOf(s: string, i: nat) returns (sources: seq<Source>)
    requires i <= |s|
    ensures forall k | 0 <= k < |sources| :: sources[k].Valid()
    ensures s[i..ScanSources(s, i)] == RenderSources(sources)
    decreases |s| - i
  {
    hide ScanSource, Source.Valid, Source.Render;
    if ScanSource(s, i).Some? {
      var j := ScanSource(s, i).value;
      var source := SourceOf(s, i);
      var rest := SourcesOf(s, j);
      sources := [source] + rest;
      assert sources[1..] == rest;
      Cut(s, i, j, ScanSources(s, j));
    } else {
      sources := [];
    }
  }

  lemma DirectiveOf(s: string, i: nat) returns (d: Directive)
    requires i <= |s| && ScanDirective(s, i).Some?
    ensures d.Valid() && s[i..ScanDirective(s, i).value] == d.Render()
  {
    hide ScanSources, RenderSources;
    var j := RunEnd(NameCharacter, s, i + 1);
    var sources := SourcesOf(s, j);
    d := Directive(s[i..j], sources);
    assert forall k | i <= k < j :: NameCharacter.Has(s[k]);
    Cut(s, i, j, ScanSources(s, j));
  }

  lemma {:induction false} LinksOf(s: string, i: nat) returns (links: seq<Link>)
    requires i <= |s|
    ensures forall k | 0 <= k < |links| :: links[k].directive.Valid()
    ensures s[i..ScanRest(s, i)] == RenderLinks(links)
    decreases |s| - i
  {
    hide ScanDirective, Directive.Valid, Directive.Render;
    if ScanFurther(s, i).Some? {
      var j := ScanFurther(s, i).value;
      var spaced := s[i + 1] == ' ';
      var next := if spaced then i + 2 else i + 1;
      var d := DirectiveOf(s, next);
      var rest := LinksOf(s, j);
      var link := Link(spaced, d);
      links := [link] + rest;
      assert links[1..] == rest;
      Cut(s, i, next, j);
      assert s[i..next] == if spaced then [';', ' '] else [';'];
      Cut(s, i, j, ScanRest(s, j));
    } else {
      links := [];
    }
  }

  /** Whatever the engine returns is a policy of the grammar. */
  lemma ExtractionIsSound(s: string) returns (p: Policy)
    requires Match(POLICY, s, 0).Some?
    ensures p.Valid() && s[..Match(POLICY, s, 0).value] == p.Render()
  {
    PolicyMatches(s, 0);
    var j, e := ScanDirective(s, 0).value, ScanPolicy(s, 0).value;
    var first := DirectiveOf(s, 0);
    var rest := LinksOf(s, j);
    p := Policy(first, rest);
    Cut(s, 0, j, e);
  }

  // ---- The whole image ----

  newtype byte = x: int | 0 <= x < 256

  const POLICY_WINDOW := 4096
  const MARKER: string := "default-src"

  /** `decode("ascii", errors="replace")`. */
  function Decode(bytes: seq<byte>): string {
    seq(|bytes|, k requires 0 <= k < |bytes| => if bytes[k] < 128 then bytes[k] as char else '\U{FFFD}')
  }

  /** `default-src` and then a space or a semicolon. */
  predicate MarkerAt(image: seq<byte>, i: nat) {
    && i + |MARKER| < |image|
    && (forall k | 0 <= k < |MARKER| :: image[i + k] as int == MARKER[k] as int)
    && (image[i + |MARKER|] == ' ' as int as byte || image[i + |MARKER|] == ';' as int as byte)
  }

  function Window(image: seq<byte>, i: nat): string
    requires i <= |image|
  {
    Decode(image[i..if i + POLICY_WINDOW <= |image| then i + POLICY_WINDOW else |image|])
  }

  /** Every place a marker stands, from `i` on. */
  function Markers(image: seq<byte>, i: nat): (places: seq<nat>)
    ensures forall m :: m in places <==> i <= m && MarkerAt(image, m)
    decreases |image| - i
  {
    if i >= |image| then []
    else (if MarkerAt(image, i) then [i] else []) + Markers(image, i + 1)
  }

  lemma MarkerStartsAPolicy(image: seq<byte>, i: nat)
    requires MarkerAt(image, i)
    ensures i <= |image| && Match(POLICY, Window(image, i), 0).Some?
  {
    PolicyMatches(Window(image, i), 0);
    assert image[i + 0] as int == MARKER[0] as int;
    assert Window(image, i)[0] == 'd';
  }

  function PolicyAt(image: seq<byte>, i: nat): string
    requires MarkerAt(image, i)
  {
    MarkerStartsAPolicy(image, i);
    var window := Window(image, i);
    window[..Match(POLICY, window, 0).value]
  }

  function PoliciesAt(image: seq<byte>, places: seq<nat>): seq<string>
    requires forall m | m in places :: MarkerAt(image, m)
  {
    seq(|places|, k requires 0 <= k < |places| => PolicyAt(image, places[k]))
  }

  /** Two markers cannot overlap, so looking for the next one past the last loses none. */
  lemma MarkersStandApart(image: seq<byte>, i: nat, j: nat)
    requires MarkerAt(image, i) && i < j <= i + |MARKER|
    ensures !MarkerAt(image, j)
  {
    assert MARKER[0] == 'd';
    if j < i + |MARKER| {
      assert image[i + (j - i)] as int == MARKER[j - i] as int;
    }
    MarkerHead(image, j);
  }

  lemma MarkerHead(image: seq<byte>, j: nat)
    ensures MarkerAt(image, j) ==> image[j] as int == 'd' as int
  {
    if MarkerAt(image, j) {
      assert image[j + 0] as int == MARKER[0] as int;
    }
  }

  lemma {:induction false} SkipToNextMarker(image: seq<byte>, i: nat, j: nat)
    requires i <= j && forall m | i <= m < j :: !MarkerAt(image, m)
    ensures Markers(image, i) == Markers(image, j)
    decreases j - i
  {
    if i < j {
      SkipToNextMarker(image, i + 1, j);
    }
  }

  lemma MarkersStep(image: seq<byte>, i: nat)
    requires i < |image|
    ensures !MarkerAt(image, i) ==> Markers(image, i) == Markers(image, i + 1)
    ensures MarkerAt(image, i) ==> Markers(image, i) == [i] + Markers(image, i + |MARKER| + 1)
  {
    if MarkerAt(image, i) {
      forall m | i + 1 <= m < i + |MARKER| + 1
        ensures !MarkerAt(image, m)
      {
        MarkersStandApart(image, i, m);
      }
      SkipToNextMarker(image, i + 1, i + |MARKER| + 1);
    }
  }

  lemma NoPolicies(image: seq<byte>)
    ensures PoliciesAt(image, []) == []
  {}

  lemma PoliciesStep(image: seq<byte>, i: nat, rest: seq<nat>)
    requires MarkerAt(image, i) && forall m | m in rest :: MarkerAt(image, m)
    ensures PoliciesAt(image, [i] + rest) == [PolicyAt(image, i)] + PoliciesAt(image, rest)
  {
    hide PolicyAt, MarkerAt;
    assert forall k | 0 <= k < |rest| :: ([i] + rest)[k + 1] == rest[k];
  }

  // ---- What is shipped, in terms of the bytes ----

  /** `default-src` and then a space or a semicolon. */
  ghost predicate MarkedAt(image: seq<byte>, m: nat) {
    && m + 11 < |image| && (forall k | 0 <= k < 11 :: image[m + k] as int == "default-src"[k] as int)
    && (image[m + 11] == 0x20 || image[m + 11] == 0x3B)
  }

  /** At most 4096 bytes from there on, read as ASCII with a replacement for every other byte. */
  ghost predicate Shown(image: seq<byte>, m: nat, window: string) {
    && m <= |image| && |window| == (if |image| - m < 4096 then |image| - m else 4096)
    && forall k | 0 <= k < |window| :: window[k] == if image[m + k] < 128 then image[m + k] as char else '\U{FFFD}'
  }

  /** The longest policy that the text starts with. */
  ghost predicate IsLongestPolicy(window: string, x: string) {
    && x <= window && (exists p: Policy :: p.Valid() && p.Render() == x)
    && forall p: Policy | p.Valid() && p.Render() <= window :: |p.Render()| <= |x|
  }

  ghost predicate PolicyFrom(image: seq<byte>, m: nat, x: string) {
    exists window: string :: Shown(image, m, window) && IsLongestPolicy(window, x)
  }

  /** One policy for each marker, in order of place. */
  ghost predicate AreShipped(image: seq<byte>, places: seq<nat>, found: seq<string>) {
    && (forall m: nat :: m in places <==> MarkedAt(image, m))
    && Ascends(places) && |found| == |places| && forall k | 0 <= k < |found| :: PolicyFrom(image, places[k], found[k])
  }

  lemma MarkersAreMarked(image: seq<byte>, m: nat)
    ensures MarkerAt(image, m) <==> MarkedAt(image, m)
  {
    assert |MARKER| == 11;
  }

  lemma {:induction false} MarkersAscend(image: seq<byte>, i: nat)
    ensures Ascends(Markers(image, i))
    decreases |image| - i
  {
    hide MarkerAt, Ascends;
    if i < |image| {
      MarkersAscend(image, i + 1);
      InFront(i, Markers(image, i + 1));
      assert [] + Markers(image, i + 1) == Markers(image, i + 1);
    } else {
      NothingAscends();
    }
  }

  ghost predicate Ascends(places: seq<nat>) {
    forall j, k | 0 <= j < k < |places| :: places[j] < places[k]
  }

  lemma NothingAscends()
    ensures Ascends([])
  {}

  lemma InFront(i: nat, places: seq<nat>)
    requires Ascends(places) && forall m | m in places :: i < m
    ensures Ascends([i] + places)
  {
    var longer := [i] + places;
    forall j, k | 0 <= j < k < |longer|
      ensures longer[j] < longer[k]
    {
      assert longer[k] == places[k - 1] && places[k - 1] in places;
      assert j > 0 ==> longer[j] == places[j - 1];
    }
  }

  lemma WindowIsShown(image: seq<byte>, m: nat)
    requires m <= |image|
    ensures forall window: string :: Shown(image, m, window) <==> window == Window(image, m)
  {}

  /** There is only one longest policy, and the engine finds it. */
  lemma LongestIsMatched(window: string, x: string)
    requires Match(POLICY, window, 0).Some?
    ensures IsLongestPolicy(window, x) <==> x == window[..Match(POLICY, window, 0).value]
  {
    hide Match, Policy.Valid, Policy.Render;
    var e := MatchEnds(window);
    var own := ExtractionIsSound(window);
    forall p: Policy | p.Valid() && p.Render() <= window
      ensures |p.Render()| <= e
    {
      assert At(window, 0, p.Render());
      ExtractionIsLongest(p, window);
    }
    if IsLongestPolicy(window, x) {
      var p: Policy :| p.Valid() && p.Render() == x;
      assert own.Render() <= window;
      assert |x| == e;
    }
  }

  lemma MatchEnds(window: string) returns (e: nat)
    requires Match(POLICY, window, 0).Some?
    ensures e == Match(POLICY, window, 0).value <= |window|
  {
    e := Match(POLICY, window, 0).value;
  }

  lemma PolicyIsFrom(image: seq<byte>, m: nat)
    requires MarkerAt(image, m)
    ensures forall x :: PolicyFrom(image, m, x) <==> x == PolicyAt(image, m)
  {
    hide Match, IsLongestPolicy, Shown, MarkerAt;
    MarkerStartsAPolicy(image, m);
    WindowIsShown(image, m);
    var window := Window(image, m);
    assert Shown(image, m, window);
    forall x
      ensures IsLongestPolicy(window, x) <==> x == PolicyAt(image, m)
    {
      LongestIsMatched(window, x);
    }
  }

  lemma PoliciesAreShipped(image: seq<byte>)
    ensures AreShipped(image, Markers(image, 0), PoliciesAt(image, Markers(image, 0)))
  {
    hide MarkerAt, MarkedAt, PolicyFrom, PolicyAt;
    var places := Markers(image, 0);
    MarkersAscend(image, 0);
    forall m: nat
      ensures m in places <==> MarkedAt(image, m)
    {
      MarkersAreMarked(image, m);
    }
    forall k | 0 <= k < |places|
      ensures PolicyFrom(image, places[k], PoliciesAt(image, places)[k])
    {
      assert places[k] in places;
      PolicyIsFrom(image, places[k]);
    }
  }

  /** Every policy the image carries: one per marker, in order of place. */
  method ShippedPolicies(image: seq<byte>) returns (found: seq<string>)
    ensures found == PoliciesAt(image, Markers(image, 0))
    ensures exists places: seq<nat> :: AreShipped(image, places, found)
  {
    PoliciesAreShipped(image);
    hide MarkerAt, PoliciesAt, AreShipped;
    found := [];
    var i := 0;
    NoPolicies(image);
    while i < |image|
      invariant 0 <= i
      invariant PoliciesAt(image, Markers(image, 0)) == found + PoliciesAt(image, Markers(image, i))
      decreases |image| - i
    {
      MarkersStep(image, i);
      if MarkerAt(image, i) {
        PoliciesStep(image, i, Markers(image, i + |MARKER| + 1));
        found := found + [PolicyAt(image, i)];
        i := i + |MARKER| + 1;
      } else {
        i := i + 1;
      }
    }
    assert Markers(image, i) == [];
  }

  /**
    * The comparison the caller makes, `found == [expected]`, holds exactly when the image has one marker,
    * the expected policy starts there, and nothing after it carries the policy on.
    */
  lemma VerdictIsExact(image: seq<byte>, places: seq<nat>, found: seq<string>, p: Policy)
    requires p.Valid() && AreShipped(image, places, found)
    ensures found == [p.Render()] <==>
            exists m: nat, window: string ::
              && places == [m] && Shown(image, m, window) && p.Render() <= window
              && p.StopsAt(window, |p.Render()|) && !Continues(window, |p.Render()|)
  {
    if |places| == 1 {
      var m := places[0];
      assert places == [m] && m in places;
      MarkersAreMarked(image, m);
      MarkerStartsAPolicy(image, m);
      WindowIsShown(image, m);
      PolicyIsFrom(image, m);
      VerdictOnWindow(Window(image, m), p);
    }
  }

  lemma VerdictOnWindow(window: string, p: Policy)
    requires p.Valid() && Match(POLICY, window, 0).Some?
    ensures window[..Match(POLICY, window, 0).value] == p.Render() <==>
            p.Render() <= window && p.StopsAt(window, |p.Render()|) && !Continues(window, |p.Render()|)
  {
    hide Match, Policy.Valid, Policy.Render, Policy.StopsAt, Continues;
    var e := MatchEnds(window);
    if p.Render() <= window {
      assert At(window, 0, p.Render());
      ExtractionIsExact(p, window);
    }
  }
}
