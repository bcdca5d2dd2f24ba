/** Trimming, splitting and decimal numerals, as the Rust standard library has them. */
module Text {
  import opened Wrappers

  /** `char::is_whitespace`: the Unicode White_Space property. */
  predicate IsWhitespace(c: char) {
    || '\U{9}' <= c <= '\U{D}' || c == ' ' || c == '\U{85}' || c == '\U{A0}' || c == '\U{1680}'
    || '\U{2000}' <= c <= '\U{200A}' || c == '\U{2028}' || c == '\U{2029}' || c == '\U{202F}'
    || c == '\U{205F}' || c == '\U{3000}'
  }

  // ---- Trimming ----

  function TrimStart(s: string, p: char -> bool): string {
    if s != [] && p(s[0]) then TrimStart(s[1..], p) else s
  }

  function TrimEnd(s: string, p: char -> bool): string {
    if s != [] && p(s[|s| - 1]) then TrimEnd(s[..|s| - 1], p) else s
  }

  /** `trim_matches`. */
  function TrimMatches(s: string, p: char -> bool): string {
    TrimEnd(TrimStart(s, p), p)
  }

  /** `trim`. */
  function Trim(s: string): string {
    TrimMatches(s, IsWhitespace)
  }

  /** No character at either end satisfies `p`. */
  predicate Trimmed(s: string, p: char -> bool) {
    s != [] ==> !p(s[0]) && !p(s[|s| - 1])
  }

  lemma {:induction false} TrimStartIsSuffix(s: string, p: char -> bool) returns (i: nat)
    ensures i <= |s| && TrimStart(s, p) == s[i..]
    ensures i < |s| ==> !p(s[i])
  {
    if s != [] && p(s[0]) {
      var j := TrimStartIsSuffix(s[1..], p);
      i := j + 1;
    } else {
      i := 0;
    }
  }

  lemma {:induction false} TrimEndIsPrefix(s: string, p: char -> bool) returns (j: nat)
    ensures j <= |s| && TrimEnd(s, p) == s[..j]
    ensures j > 0 ==> !p(s[j - 1])
  {
    if s != [] && p(s[|s| - 1]) {
      j := TrimEndIsPrefix(s[..|s| - 1], p);
      assert s[..|s| - 1][..j] == s[..j];
    } else {
      j := |s|;
    }
  }

  /** Trimming returns a piece of the string that has nothing left to trim. */
  lemma TrimMatchesIsPiece(s: string, p: char -> bool) returns (i: nat, j: nat)
    ensures i <= j <= |s| && TrimMatches(s, p) == s[i..j]
    ensures Trimmed(TrimMatches(s, p), p)
  {
    i := TrimStartIsSuffix(s, p);
    var k := TrimEndIsPrefix(s[i..], p);
    j := i + k;
    assert s[i..][..k] == s[i..j];
  }

  /** What is cut off on both sides satisfies `p` throughout, and what is left does not at its ends. */
  ghost predicate IsTrimmedOf(s: string, p: char -> bool, rest: string) {
    exists before, after ::
      && s == before + rest + after && (forall c | c in before :: p(c)) && (forall c | c in after :: p(c)) && Trimmed(rest, p)
  }

  lemma {:induction false} TrimStartCuts(s: string, p: char -> bool) returns (before: string)
    ensures s == before + TrimStart(s, p) && forall c | c in before :: p(c)
  {
    before := "";
    if s != [] && p(s[0]) {
      var more := TrimStartCuts(s[1..], p);
      before := [s[0]] + more;
      assert s == [s[0]] + s[1..];
    }
  }

  lemma {:induction false} TrimEndCuts(s: string, p: char -> bool) returns (after: string)
    ensures s == TrimEnd(s, p) + after && forall c | c in after :: p(c)
  {
    after := "";
    if s != [] && p(s[|s| - 1]) {
      var more := TrimEndCuts(s[..|s| - 1], p);
      after := more + [s[|s| - 1]];
      assert s == s[..|s| - 1] + [s[|s| - 1]];
    }
  }

  /** Trimming cuts off all that it may, and nothing else. */
  lemma TrimCuts(s: string, p: char -> bool)
    ensures IsTrimmedOf(s, p, TrimMatches(s, p))
  {
    var before := TrimStartCuts(s, p);
    var after := TrimEndCuts(TrimStart(s, p), p);
    var _, _ := TrimMatchesIsPiece(s, p);
    assert s == before + TrimMatches(s, p) + after;
  }

  /** Nothing is left just when everything is cut off. */
  lemma TrimsAwayIff(s: string, p: char -> bool)
    ensures TrimMatches(s, p) == "" <==> forall c | c in s :: p(c)
  {
    TrimCuts(s, p);
    var before, after :| s == before + TrimMatches(s, p) + after && (forall c | c in before :: p(c)) && (forall c | c in after :: p(c));
    if TrimMatches(s, p) != "" {
      assert TrimMatches(s, p)[0] in s;
      var _, _ := TrimMatchesIsPiece(s, p);
    }
  }

  /** The White_Space characters, one by one. */
  lemma WhitespaceIs(c: char)
    ensures IsWhitespace(c) <==>
            c in "\U{9}\U{A}\U{B}\U{C}\U{D} \U{85}\U{A0}\U{1680}\U{2000}\U{2001}\U{2002}\U{2003}\U{2004}\U{2005}\U{2006}"
                 + "\U{2007}\U{2008}\U{2009}\U{200A}\U{2028}\U{2029}\U{202F}\U{205F}\U{3000}"
  {}

  /** A string with nothing to trim is left alone. */
  lemma TrimMatchesFixes(s: string, p: char -> bool)
    requires Trimmed(s, p)
    ensures TrimMatches(s, p) == s
  {}

  // ---- Searching ----

  /** The index of the first `c`, or the length when there is none. */
  function Find(s: string, c: char): (i: nat)
    ensures i <= |s| && forall k | 0 <= k < i :: s[k] != c
    ensures i < |s| ==> s[i] == c
  {
    if s == [] || s[0] == c then 0 else 1 + Find(s[1..], c)
  }

  /** What stands before and after the first `c`. */
  function SplitOnce(s: string, c: char): Option<(string, string)> {
    var i := Find(s, c);
    if i == |s| then None else Some((s[..i], s[i + 1..]))
  }

  lemma SplitOnceOf(a: string, c: char, b: string)
    requires c !in a
    ensures SplitOnce(a + ([c] + b), c) == Some((a, b))
  {
    var s := a + ([c] + b);
    assert s[|a|] == c && s[..|a|] == a && s[|a| + 1..] == b;
    assert forall k | 0 <= k < |a| :: s[k] == a[k];
  }

  function StripPrefix(s: string, prefix: string): Option<string> {
    if prefix <= s then Some(s[|prefix|..]) else None
  }

  lemma StripPrefixOf(prefix: string, rest: string)
    ensures StripPrefix(prefix + rest, prefix) == Some(rest)
  {
    assert (prefix + rest)[|prefix|..] == rest;
  }

  lemma Reassociate(a: string, b: string, c: string)
    ensures (a + b) + c == a + (b + c)
  {}

  // ---- Numerals ----

  function Digit(d: nat): (c: char)
    requires d < 10
    ensures '0' <= c <= '9' && DigitValue(c) == d
  {
    ('0' as int + d) as char
  }

  function DigitValue(c: char): (d: nat)
    requires '0' <= c <= '9'
    ensures d < 10
  {
    c as int - '0' as int
  }

  predicate AllDigits(s: string) {
    forall i | 0 <= i < |s| :: '0' <= s[i] <= '9'
  }

  function Decimal(n: nat): (s: string)
    ensures s != [] && AllDigits(s)
  {
    if n < 10 then [Digit(n)] else Decimal(n / 10) + [Digit(n % 10)]
  }

  function ParseDecimal(s: string): nat
    requires AllDigits(s)
  {
    if s == [] then 0 else 10 * ParseDecimal(s[..|s| - 1]) + DigitValue(s[|s| - 1])
  }

  lemma {:induction false} DecimalParses(n: nat)
    ensures ParseDecimal(Decimal(n)) == n && (Decimal(n)[0] == '0' ==> Decimal(n) == "0")
  {
    if n >= 10 {
      DecimalParses(n / 10);
      assert Decimal(n)[..|Decimal(n)| - 1] == Decimal(n / 10);
    }
  }
}
