/** Session identities and the storage root they are confined to (scrybe-application/src/identity.rs). */
module Identity {
  import opened Wrappers
  import Text

  /** In the order in which the rules are tried. */
  datatype Rejection = Empty | Control | Absolute | Traversal | Separator | DriveOrStream | HomeRelative

  datatype Convention = Unix | Windows

  // ---- Characters and segments ----

  /** `char::is_control`: the Unicode category Cc. */
  predicate IsControl(c: char) {
    '\U{0}' <= c <= '\U{1F}' || '\U{7F}' <= c <= '\U{9F}'
  }

  predicate IsEitherSeparator(c: char) {
    c == '/' || c == '\\'
  }

  predicate IsSeparator(convention: Convention, c: char) {
    c == '/' || (convention == Windows && c == '\\')
  }

  /** `split`: the stretches between separators, empty ones included. */
  function Segments(s: string, separator: char -> bool): (segments: seq<string>)
    ensures segments != []
  {
    if s == [] then [[]]
    else
      var before, c := Segments(s[..|s| - 1], separator), s[|s| - 1];
      if separator(c) then before + [[]]
      else before[..|before| - 1] + [before[|before| - 1] + [c]]
  }

  predicate IsDots(segment: string) {
    segment == "." || segment == ".."
  }

  // ---- Validation ----

  /** `Path::is_absolute` of each platform. */
  predicate IsAbsolute(convention: Convention, s: string) {
    match convention
    case Unix => s != [] && s[0] == '/'
    case Windows =>
      (HasDrive(s) && |s| > 2 && IsEitherSeparator(s[2])) || ServerPrefix(s) > 0
  }

  predicate IsLetter(c: char) {
    'a' <= c <= 'z' || 'A' <= c <= 'Z'
  }

  predicate HasDrive(s: string) {
    |s| > 1 && IsLetter(s[0]) && s[1] == ':'
  }

  predicate StartsTwice(s: string) {
    |s| > 1 && IsEitherSeparator(s[0]) && IsEitherSeparator(s[1])
  }

  /** Up to the first separator. */
  function Until(s: string): (n: nat)
    ensures n <= |s| && (forall k | 0 <= k < n :: !IsEitherSeparator(s[k])) && (n < |s| ==> IsEitherSeparator(s[n]))
  {
    if s == "" || IsEitherSeparator(s[0]) then 0 else 1 + Until(s[1..])
  }

  /** The length of a server, a separator and a share; zero when they are not there. */
  function ShareEnd(s: string): (n: nat)
    ensures n <= |s|
  {
    var server := Until(s);
    if server == 0 || server == |s| then 0
    else
      var share := Until(s[server + 1..]);
      if share == 0 then 0 else server + 1 + share
  }

  /** The length of a network prefix, which is those behind two separators; zero when there is none. */
  function ServerPrefix(s: string): (n: nat)
    ensures n <= |s| && (n > 0 ==> n > 2)
  {
    if !StartsTwice(s) || ShareEnd(s[2..]) == 0 then 0 else 2 + ShareEnd(s[2..])
  }

  /** A path that stops behind the server's name; with one more name it becomes a network prefix. */
  predicate IsLoneServer(s: string) {
    StartsTwice(s) && var server := Until(s[2..]); server > 0 && |s| <= 3 + server
  }

  predicate Breaks(rule: Rejection, s: string, absolute: bool) {
    match rule
    case Empty => Text.Trim(s) == ""
    case Control => exists i | 0 <= i < |s| :: IsControl(s[i])
    case Absolute => (s != [] && IsEitherSeparator(s[0])) || absolute
    case Traversal => exists segment | segment in Segments(s, IsEitherSeparator) :: IsDots(segment)
    case Separator => '/' in s || '\\' in s
    case DriveOrStream => ':' in s
    case HomeRelative => s != [] && s[0] == '~'
  }

  /** `validate`, given what the platform says of the candidate. */
  function Validate(s: string, absolute: bool): Result<(), Rejection> {
    if Breaks(Empty, s, absolute) then Failure(Empty)
    else if Breaks(Control, s, absolute) then Failure(Control)
    else if Breaks(Absolute, s, absolute) then Failure(Absolute)
    else if Breaks(Traversal, s, absolute) then Failure(Traversal)
    else if Breaks(Separator, s, absolute) then Failure(Separator)
    else if Breaks(DriveOrStream, s, absolute) then Failure(DriveOrStream)
    else if Breaks(HomeRelative, s, absolute) then Failure(HomeRelative)
    else Success(())
  }

  datatype SessionRef = SessionRef(text: string)

  function ParseSession(convention: Convention, s: string): Result<SessionRef, Rejection> {
    match Validate(s, IsAbsolute(convention, s))
    case Success(_) => Success(SessionRef(s))
    case Failure(rejection) => Failure(rejection)
  }

  // ---- Paths ----

  datatype Component = Prefix(drive: string) | RootDir | CurDir | ParentDir | Normal(name: string)

  /** What one segment contributes; a dot counts only at the very start. */
  function Contribution(segment: string, first: bool): seq<Component> {
    if segment == "" then []
    else if segment == "." then if first then [CurDir] else []
    else if segment == ".." then [ParentDir]
    else [Normal(segment)]
  }

  function Contributions(segments: seq<string>): seq<Component> {
    if segments == [] then []
    else Contributions(segments[..|segments| - 1]) + Contribution(segments[|segments| - 1], |segments| == 1)
  }

  /** The drive or the network prefix that a path starts with. */
  function PrefixLength(convention: Convention, s: string): (n: nat)
    ensures n <= |s|
  {
    if convention == Unix then 0 else if HasDrive(s) then 2 else ServerPrefix(s)
  }

  function RelativeComponents(convention: Convention, s: string): seq<Component> {
    (if s != [] && IsSeparator(convention, s[0]) then [RootDir] else [])
    + Contributions(Segments(s, c => IsSeparator(convention, c)))
  }

  /** What follows a prefix; a network prefix is rooted even when nothing does. */
  function ComponentsBehind(convention: Convention, n: nat, rest: string): seq<Component> {
    if n > 2 && rest == "" then [RootDir] else RelativeComponents(convention, rest)
  }

  /** `Path::components`. */
  function Components(convention: Convention, s: string): seq<Component> {
    var n := PrefixLength(convention, s);
    (if n > 0 then [Prefix(s[..n])] else []) + ComponentsBehind(convention, n, s[n..])
  }

  /** `Path::join`. */
  function Join(convention: Convention, root: string, path: string): string {
    if IsAbsolute(convention, path) || PrefixLength(convention, path) > 0 then path
    else if path != [] && IsSeparator(convention, path[0]) then root[..PrefixLength(convention, root)] + path
    else if root == "" || IsSeparator(convention, root[|root| - 1]) || IsDrive(convention, root) then root + path
    else root + [MainSeparator(convention)] + path
  }

  /** A drive and nothing else. */
  predicate IsDrive(convention: Convention, s: string) {
    convention == Windows && HasDrive(s) && |s| == 2
  }

  /** A path that Windows does not normalise, which this model does not follow. */
  predicate IsVerbatim(convention: Convention, s: string) {
    convention == Windows && "\\\\?\\" <= s
  }

  function MainSeparator(convention: Convention): char {
    if convention == Windows then '\\' else '/'
  }

  datatype StorageRoot = StorageRoot(path: string) {
    function Resolve(convention: Convention, id: SessionRef): string {
      Join(convention, path, id.text)
    }
  }

  // ---- What validation accepts ----

  lemma {:induction false} NoSeparatorOneSegment(s: string, separator: char -> bool)
    requires forall i | 0 <= i < |s| :: !separator(s[i])
    ensures Segments(s, separator) == [s]
  {
    if s == [] {
      assert [s] == [[]];
    } else {
      NoSeparatorOneSegment(s[..|s| - 1], separator);
      assert s[..|s| - 1] + [s[|s| - 1]] == s;
      assert [s[..|s| - 1]][..0] + [s] == [s];
    }
  }

  /** A single path component, in the character-level terms of the source's own promise. */
  predicate IsPlainName(s: string) {
    && Text.Trim(s) != "" && !IsDots(s) && s[..1] != "~"
    && forall i | 0 <= i < |s| :: !IsControl(s[i]) && !IsEitherSeparator(s[i]) && s[i] != ':'
  }

  /**
    * Acceptance does not depend on the platform: whatever it calls absolute breaks another rule too. So does every
    * traversal with a separator, which leaves only the two names made of dots.
    */
  lemma AcceptedNamesArePlain(convention: Convention, s: string)
    ensures Validate(s, IsAbsolute(convention, s)).Success? <==> IsPlainName(s)
  {
    hide Text.Trim, IsControl, IsAbsolute, Segments, IsDots;
    AbsoluteHasASeparator(convention, s);
    DotsAlone(s);
    TrimOfNothing();
  }

  lemma AbsoluteHasASeparator(convention: Convention, s: string)
    ensures IsAbsolute(convention, s) || (s != "" && IsEitherSeparator(s[0])) ==> '/' in s || '\\' in s
  {}

  /** Without a separator the only traversals are the names made of dots. */
  lemma DotsAlone(s: string)
    ensures '/' !in s && '\\' !in s ==> (Breaks(Traversal, s, false) <==> IsDots(s))
  {
    if '/' !in s && '\\' !in s {
      NoSeparatorOneSegment(s, IsEitherSeparator);
    }
  }

  lemma TrimOfNothing()
    ensures Text.Trim("") == ""
  {}

  // ---- The reason, in terms of the characters ----

  /** A stretch without a separator, between two of them or between one and an end of the text. */
  ghost predicate IsStretch(s: string, separator: char -> bool, i: nat, j: nat) {
    && i <= j <= |s| && (i == 0 || separator(s[i - 1])) && (j == |s| || separator(s[j]))
    && forall k | i <= k < j :: !separator(s[k])
  }

  /** The segments of a text and those of all but its last character. */
  lemma OneMoreInSegments(s: string, separator: char -> bool)
    requires s != []
    ensures var n, segments := |s| - 1, Segments(s, separator);
            var before := Segments(s[..n], separator);
            && (separator(s[n]) ==> segments[..|segments| - 1] == before && segments[|segments| - 1] == "")
            && (!separator(s[n]) ==> |segments| == |before| && segments[..|segments| - 1] == before[..|before| - 1]
                                     && segments[|segments| - 1] == before[|before| - 1] + [s[n]])
  {
    var n, segments := |s| - 1, Segments(s, separator);
    var before := Segments(s[..n], separator);
    hide Segments;
  }

  lemma StretchOfShorter(s: string, separator: char -> bool, i: nat, j: nat)
    requires s != [] && j < |s|
    ensures IsStretch(s[..|s| - 1], separator, i, j) <==> IsStretch(s, separator, i, j) || (j == |s| - 1 && IsOpen(s, separator, i))
    ensures i <= j ==> s[..|s| - 1][i..j] == s[i..j]
  {}

  /** No separator from `i` on up to the last character, which is none either. */
  ghost predicate IsOpen(s: string, separator: char -> bool, i: nat)
    requires s != []
  {
    && i < |s| && !separator(s[|s| - 1]) && (i == 0 || separator(s[i - 1])) && forall k | i <= k < |s| - 1 :: !separator(s[k])
  }

  lemma OpenIsLast(s: string, separator: char -> bool, i: nat)
    requires s != [] && !separator(s[|s| - 1])
    ensures IsOpen(s, separator, i) <==> IsStretch(s, separator, i, |s|)
    ensures i < |s| ==> s[i..|s|] == s[..|s| - 1][i..|s| - 1] + [s[|s| - 1]]
  {}

  lemma {:induction false} StretchIsSegment(s: string, separator: char -> bool, i: nat, j: nat)
    requires IsStretch(s, separator, i, j)
    ensures var segments := Segments(s, separator);
            if j == |s| then segments[|segments| - 1] == s[i..j] else s[i..j] in segments[..|segments| - 1]
  {
    if s != [] {
      var n := |s| - 1;
      OneMoreInSegments(s, separator);
      if j <= n {
        StretchOfShorter(s, separator, i, j);
        StretchIsSegment(s[..n], separator, i, j);
        AllButLast(Segments(s[..n], separator), s[i..j]);
        AtTheBreak(s, separator, i, j);
      } else if !separator(s[n]) {
        OpenIsLast(s, separator, i);
        StretchOfShorter(s, separator, i, n);
        StretchIsSegment(s[..n], separator, i, n);
      } else {
        NothingBehind(s, separator, i);
      }
      hide Segments, IsStretch;
    } else {
      EmptyStretch(separator, i, j);
    }
  }

  lemma AllButLast(segments: seq<string>, x: string)
    requires segments != []
    ensures x in segments <==> x in segments[..|segments| - 1] || x == segments[|segments| - 1]
  {
    assert segments == segments[..|segments| - 1] + [segments[|segments| - 1]];
  }

  lemma AtTheBreak(s: string, separator: char -> bool, i: nat, j: nat)
    requires IsStretch(s, separator, i, j) && j < |s|
    ensures separator(s[j])
  {}

  lemma NothingBehind(s: string, separator: char -> bool, i: nat)
    requires s != [] && separator(s[|s| - 1]) && IsStretch(s, separator, i, |s|)
    ensures i == |s| && s[i..|s|] == ""
  {}

  lemma EmptyStretch(separator: char -> bool, i: nat, j: nat)
    requires IsStretch("", separator, i, j)
    ensures i == 0 && j == 0 && Segments("", separator)[|Segments("", separator)| - 1] == ""[i..j]
  {}

  lemma {:induction false} SegmentIsStretch(s: string, separator: char -> bool, k: nat) returns (i: nat, j: nat)
    requires k < |Segments(s, separator)|
    ensures IsStretch(s, separator, i, j) && Segments(s, separator)[k] == s[i..j]
    ensures j == |s| <==> k == |Segments(s, separator)| - 1
  {
    if s == [] {
      i, j := 0, 0;
    } else {
      var n, segments := |s| - 1, Segments(s, separator);
      OneMoreInSegments(s, separator);
      hide Segments;
      if separator(s[n]) && k == |segments| - 1 {
        i, j := |s|, |s|;
      } else {
        var before := Segments(s[..n], separator);
        assert k < |segments| - 1 ==> segments[..|segments| - 1][k] == segments[k];
        assert k < |before| - 1 ==> before[..|before| - 1][k] == before[k];
        i, j := SegmentIsStretch(s[..n], separator, k);
        StretchOfShorter(s, separator, i, j);
        if !separator(s[n]) {
          OpenIsLast(s, separator, i);
          if j == n { j := j + 1; }
        }
      }
    }
  }

  /** A dot or two between separators, or between one and an end. */
  ghost predicate HasDots(s: string) {
    exists i: nat, j: nat ::
      && i <= j <= |s| && (s[i..j] == "." || s[i..j] == "..")
      && (i == 0 || s[i - 1] == '/' || s[i - 1] == '\\') && (j == |s| || s[j] == '/' || s[j] == '\\')
  }

  lemma DotsAreTraversal(s: string)
    ensures Breaks(Traversal, s, false) <==> HasDots(s)
  {
    hide Segments;
    if Breaks(Traversal, s, false) {
      var segments := Segments(s, IsEitherSeparator);
      var k :| 0 <= k < |segments| && IsDots(segments[k]);
      var i, j := SegmentIsStretch(s, IsEitherSeparator, k);
      assert s[i..j] == "." || s[i..j] == "..";
    }
    if HasDots(s) {
      var i: nat, j: nat :| i <= j <= |s| && (s[i..j] == "." || s[i..j] == "..")
                  && (i == 0 || s[i - 1] == '/' || s[i - 1] == '\\') && (j == |s| || s[j] == '/' || s[j] == '\\');
      var x := s[i..j];
      assert forall k | i <= k < j :: s[k] == x[k - i];
      StretchIsSegment(s, IsEitherSeparator, i, j);
      assert x in Segments(s, IsEitherSeparator);
    }
  }

  /** From a separator on or, on Windows, from a drive and a separator on. */
  ghost predicate IsRooted(convention: Convention, s: string) {
    || (s != "" && (s[0] == '/' || s[0] == '\\'))
    || (convention == Windows && |s| > 2 && ('a' <= s[0] <= 'z' || 'A' <= s[0] <= 'Z') && s[1] == ':'
        && (s[2] == '/' || s[2] == '\\'))
  }

  ghost predicate HasControl(s: string) {
    exists c | c in s :: c <= '\U{1F}' || '\U{7F}' <= c <= '\U{9F}'
  }

  /** The verdict, and the reason that is reported when there are several. */
  lemma VerdictOf(convention: Convention, s: string)
    ensures ParseSession(convention, s)
            == if forall c | c in s :: Text.IsWhitespace(c) then Failure(Empty)
               else if HasControl(s) then Failure(Control)
               else if IsRooted(convention, s) then Failure(Absolute)
               else if HasDots(s) then Failure(Traversal)
               else if '/' in s || '\\' in s then Failure(Separator)
               else if ':' in s then Failure(DriveOrStream)
               else if s[0] == '~' then Failure(HomeRelative)
               else Success(SessionRef(s))
  {
    Text.TrimsAwayIff(s, Text.IsWhitespace);
    DotsAreTraversal(s);
    RootedIsAbsolute(convention, s);
    ControlsAre(s);
    hide Text.Trim, Text.TrimMatches, Text.IsWhitespace, IsControl, IsAbsolute, HasDots, IsRooted, HasControl, Segments, IsDots;
    assert Text.Trim(s) == Text.TrimMatches(s, Text.IsWhitespace) by { TrimIs(s); }
    assert s == "" ==> forall c | c in s :: Text.IsWhitespace(c);
  }

  lemma TrimIs(s: string)
    ensures Text.Trim(s) == Text.TrimMatches(s, Text.IsWhitespace)
  {}

  lemma ControlsAre(s: string)
    ensures HasControl(s) <==> exists i | 0 <= i < |s| :: IsControl(s[i])
  {
    if c :| c in s && (c <= '\U{1F}' || '\U{7F}' <= c <= '\U{9F}') {
      var i :| 0 <= i < |s| && s[i] == c;
    }
    if i :| 0 <= i < |s| && IsControl(s[i]) {
      assert s[i] in s;
    }
  }

  lemma RootedIsAbsolute(convention: Convention, s: string)
    ensures IsRooted(convention, s) <==> (s != [] && IsEitherSeparator(s[0])) || IsAbsolute(convention, s)
  {}

  /** Only the reason can differ, and it does just for a drive with a root, which Unix takes for a relative path. */
  lemma ReasonsDifferForRootedDrives(s: string)
    ensures ParseSession(Unix, s) == ParseSession(Windows, s)
            <==> !(IsRootedDrive(s) && forall i | 0 <= i < |s| :: !IsControl(s[i]))
  {
    hide IsControl, IsAbsolute, IsRootedDrive, Segments, Text.Trim;
    AbsoluteCases(s);
    if IsRootedDrive(s) {
      RootedDriveParts(s);
    }
  }

  predicate IsRootedDrive(s: string) {
    HasDrive(s) && |s| > 2 && IsEitherSeparator(s[2])
  }

  /** Where the platforms agree: at a separator that the rules refuse anyway, and on everything but a drive with a root. */
  lemma AbsoluteCases(s: string)
    ensures !IsRootedDrive(s) && !(s != "" && IsEitherSeparator(s[0])) ==> !IsAbsolute(Unix, s) && !IsAbsolute(Windows, s)
    ensures IsRootedDrive(s) ==> !IsAbsolute(Unix, s) && IsAbsolute(Windows, s)
  {}

  lemma RootedDriveParts(s: string)
    requires IsRootedDrive(s)
    ensures Text.Trim(s) != "" && !IsEitherSeparator(s[0]) && ('/' in s || '\\' in s)
  {
    LettersAreNotSpace(s);
    assert s[2] in s;
  }

  lemma LettersAreNotSpace(s: string)
    requires s != [] && IsLetter(s[0])
    ensures Text.Trim(s) != ""
  {
    var j := Text.TrimEndIsPrefix(s, Text.IsWhitespace);
    assert Text.TrimStart(s, Text.IsWhitespace) == s;
    if j == 0 {
      StartSurvives(s);
    }
  }

  lemma {:induction false} StartSurvives(s: string)
    requires s != [] && !Text.IsWhitespace(s[0])
    ensures Text.TrimEnd(s, Text.IsWhitespace) != ""
    decreases |s|
  {
    if |s| > 1 && Text.IsWhitespace(s[|s| - 1]) {
      StartSurvives(s[..|s| - 1]);
    }
  }

  // ---- Confinement ----

  /** The segments when more text without a separator follows. */
  function Extended(segments: seq<string>, b: string): seq<string>
    requires segments != []
  {
    segments[..|segments| - 1] + [segments[|segments| - 1] + b]
  }

  lemma ExtendingOn(segments: seq<string>, b: string, c: char)
    requires segments != []
    ensures Extended(Extended(segments, b), [c]) == Extended(segments, b + [c])
    ensures Extended(segments, []) == segments
  {
    var last := segments[|segments| - 1];
    assert last + b + [c] == last + (b + [c]);
    assert last + [] == last;
  }

  lemma {:induction false} SegmentsOfConcat(a: string, b: string, separator: char -> bool)
    requires forall i | 0 <= i < |b| :: !separator(b[i])
    ensures Segments(a + b, separator) == Extended(Segments(a, separator), b)
    decreases |b|
  {
    hide Extended;
    if b == [] {
      assert a + b == a;
      ExtendingOn(Segments(a, separator), b, 'x');
    } else {
      var shorter, c := b[..|b| - 1], b[|b| - 1];
      SegmentsOfConcat(a, shorter, separator);
      NextCharacter(a + shorter, c, separator);
      ExtendingOn(Segments(a, separator), shorter, c);
      assert a + shorter + [c] == a + b && shorter + [c] == b;
    }
  }

  lemma NextCharacter(s: string, c: char, separator: char -> bool)
    requires !separator(c)
    ensures Segments(s + [c], separator) == Extended(Segments(s, separator), [c])
  {
    assert (s + [c])[..|s|] == s;
  }

  lemma AfterASeparator(a: string, separator: char -> bool)
    requires a != [] && separator(a[|a| - 1])
    ensures var before := Segments(a, separator); before[|before| - 1] == ""
  {}

  lemma OneMoreSegment(before: seq<string>, segment: string)
    ensures Contributions(before + [segment]) == Contributions(before) + Contribution(segment, before == [])
  {
    var after := before + [segment];
    assert after[..|before|] == before && after[|before|] == segment;
  }

  lemma OneMoreName(segments: seq<string>, name: string)
    requires segments != [] && segments[|segments| - 1] == ""
    requires name != "" && !IsDots(name)
    ensures Contributions(segments[..|segments| - 1] + [name]) == Contributions(segments) + [Normal(name)]
  {
    hide Contributions;
    var before := segments[..|segments| - 1];
    OneMoreSegment(before, name);
    OneMoreSegment(before, "");
    assert before + [""] == segments;
    assert Contributions(before) + [] == Contributions(before);
  }

  /** Appending a plain name to a path that is empty or ends in a separator. */
  lemma NameAfterASeparator(convention: Convention, a: string, name: string)
    requires a == "" || IsSeparator(convention, a[|a| - 1])
    requires name != "" && !IsDots(name) && forall i | 0 <= i < |name| :: !IsSeparator(convention, name[i])
    ensures RelativeComponents(convention, a + name) == RelativeComponents(convention, a) + [Normal(name)]
  {
    var separator := c => IsSeparator(convention, c);
    SegmentsOfConcat(a, name, separator);
    hide Segments;
    var before := Segments(a, separator);
    if a != "" {
      AfterASeparator(a, separator);
    }
    assert "" + name == name;
    OneMoreName(before, name);
  }

  /** A separator at the end of a path that has none there adds no component. */
  lemma SeparatorAddsNothing(convention: Convention, a: string, c: char)
    requires a != "" && IsSeparator(convention, c)
    ensures RelativeComponents(convention, a + [c]) == RelativeComponents(convention, a)
  {
    var separator := c => IsSeparator(convention, c);
    assert (a + [c])[..|a|] == a;
    var before := Segments(a, separator);
    assert Segments(a + [c], separator) == before + [[]];
    assert (before + [[]])[..|before|] == before;
  }

  lemma {:induction false} UntilGrows(s: string, more: string)
    ensures Until(s + more) == if Until(s) < |s| then Until(s) else |s| + Until(more)
  {
    if s == "" {
      assert s + more == more;
    } else {
      assert (s + more)[1..] == s[1..] + more;
      UntilGrows(s[1..], more);
    }
  }

  ghost predicate IsOneName(name: string) {
    name != "" && forall i | 0 <= i < |name| :: !IsEitherSeparator(name[i]) && name[i] != ':'
  }

  /** A name, and a separator before it unless the root ends in one, does not change the server and the share. */
  lemma ServerStays(root: string, more: string, name: string)
    requires IsOneName(name) && !IsLoneServer(root)
    requires more == if root == "" || IsEitherSeparator(root[|root| - 1]) then name else "\\" + name
    ensures ServerPrefix(root + more) == ServerPrefix(root)
  {
    var joined := root + more;
    NameIsUnbroken(name);
    BackslashSeparates();
    if StartsTwice(root) {
      TwiceFurther(root, more);
      ShareStays(root, more);
    } else {
      StartsOnce(root, more, name);
    }
  }

  lemma StartsOnce(root: string, more: string, name: string)
    requires IsOneName(name) && !StartsTwice(root)
    requires more == if root == "" || IsEitherSeparator(root[|root| - 1]) then name else "\\" + name
    ensures !StartsTwice(root + more)
  {}

  lemma ShareStays(root: string, more: string)
    requires |root| > 1 && StartsTwice(root) && !IsLoneServer(root) && StartsTwice(root + more)
    requires if IsEitherSeparator(root[|root| - 1]) then Until(more) == |more| else Until(more) == 0
    ensures ServerPrefix(root + more) == ServerPrefix(root)
  {
    EndOfRest(root);
    hide IsEitherSeparator, ShareEnd, StartsTwice, IsLoneServer, Until;
    var r := root[2..];
    Behind(root, more, 2);
    if r != "" {
      ShareEndStays(r, more);
    } else {
      assert r + more == more;
      NoShareYet(more);
    }
  }

  lemma EndOfRest(root: string)
    requires |root| > 1 && StartsTwice(root)
    ensures var r := root[2..];
            (if r == "" then IsEitherSeparator(root[|root| - 1]) && ShareEnd(r) == 0 else r[|r| - 1] == root[|root| - 1])
            && (IsLoneServer(root) <==> Until(r) > 0 && |r| <= 1 + Until(r))
  {}

  lemma NoShareYet(s: string)
    requires Until(s) == |s| || Until(s) == 0
    ensures ShareEnd(s) == 0
  {}

  lemma ShareEndStays(r: string, more: string)
    requires r != "" && (Until(r) == 0 || Until(r) < |r| - 1)
    requires if IsEitherSeparator(r[|r| - 1]) then Until(more) == |more| else Until(more) == 0
    ensures ShareEnd(r + more) == ShareEnd(r)
  {
    hide IsEitherSeparator, ShareEnd, Until;
    var server := Until(r);
    UntilGrows(r, more);
    if server > 0 {
      var t := r[server + 1..];
      Behind(r, more, server + 1);
      SameLast(r, server + 1);
      ShareStart(r, t);
      ShareStart(r + more, t + more);
      UntilGrows(t, more);
      UntilLast(t);
    } else {
      NoShareYet(r);
      NoShareYet(r + more);
    }
  }

  lemma SameLast(s: string, k: nat)
    requires k < |s|
    ensures s[k..][|s| - k - 1] == s[|s| - 1]
  {}

  lemma ShareStart(s: string, t: string)
    requires 0 < Until(s) < |s| && t == s[Until(s) + 1..]
    ensures ShareEnd(s) == if Until(t) == 0 then 0 else Until(s) + 1 + Until(t)
  {}

  /** Text that ends in a separator has one. */
  lemma UntilLast(s: string)
    requires s != ""
    ensures IsEitherSeparator(s[|s| - 1]) ==> Until(s) < |s|
  {}

  lemma Behind(a: string, b: string, k: nat)
    requires k <= |a|
    ensures (a + b)[k..] == a[k..] + b
  {}

  /** Joining keeps the root's prefix, if any, and puts at most one separator between the rest and the name. */
  lemma JoiningAPlainName(convention: Convention, root: string, name: string)
    requires IsOneName(name) && (convention == Windows ==> !IsLoneServer(root))
    ensures var joined, n := Join(convention, root, name), PrefixLength(convention, root);
            var rest, c := root[n..], MainSeparator(convention);
            && PrefixLength(convention, joined) == n && joined[..n] == root[..n]
            && (if (rest == "" && n <= 2) || (rest != "" && IsSeparator(convention, rest[|rest| - 1])) then joined[n..] == rest + name
                else joined[n..] == rest + [c] + name)
  {
    hide ServerPrefix, IsLoneServer;
    var n := PrefixLength(convention, root);
    var rest, c := root[n..], MainSeparator(convention);
    NameHasNoPrefix(convention, name);
    assert root == root[..n] + rest;
    PrefixesEnd(convention, root);
    var more := if root == "" || IsSeparator(convention, root[|root| - 1]) || IsDrive(convention, root) then name else [c] + name;
    assert Join(convention, root, name) == root + more by {
      Associate(root, c, name);
    }
    if convention == Windows && !HasDrive(root) {
      ServerStays(root, more, name);
    }
    assert (root + more)[n..] == rest + more;
    Associate(rest, c, name);
  }

  lemma Associate(a: string, c: char, b: string)
    ensures a + [c] + b == a + ([c] + b)
  {}

  lemma NameHasNoPrefix(convention: Convention, name: string)
    requires IsOneName(name)
    ensures PrefixLength(convention, name) == 0 && !IsAbsolute(convention, name) && !IsSeparator(convention, name[0])
  {}

  /** A share's name ends in no separator. */
  lemma PrefixesEnd(convention: Convention, root: string)
    ensures var n := PrefixLength(convention, root); n > 2 ==> !IsEitherSeparator(root[n - 1])
  {}

  lemma RestGrowsByTheName(convention: Convention, rest: string, name: string)
    requires name != "" && !IsDots(name) && forall i | 0 <= i < |name| :: !IsEitherSeparator(name[i])
    ensures var c := MainSeparator(convention);
            RelativeComponents(convention,
                               if rest == "" || IsSeparator(convention, rest[|rest| - 1]) then rest + name else rest + [c] + name)
            == RelativeComponents(convention, rest) + [Normal(name)]
  {
    hide RelativeComponents;
    var c := MainSeparator(convention);
    if rest == "" || IsSeparator(convention, rest[|rest| - 1]) {
      NameAfterASeparator(convention, rest, name);
    } else {
      SeparatorAddsNothing(convention, rest, c);
      NameAfterASeparator(convention, rest + [c], name);
    }
  }

  lemma PlainNameIsOneSegment(s: string)
    requires IsPlainName(s)
    ensures !IsDots(s) && IsOneName(s)
  {
    TrimOfNothing();
  }

  lemma BehindGrowsByTheName(convention: Convention, n: nat, rest: string, name: string)
    requires IsOneName(name) && !IsDots(name)
    ensures var c := MainSeparator(convention);
            ComponentsBehind(convention, n,
                             if (rest == "" && n <= 2) || (rest != "" && IsSeparator(convention, rest[|rest| - 1])) then rest + name
                             else rest + [c] + name)
            == ComponentsBehind(convention, n, rest) + [Normal(name)]
  {
    var c := MainSeparator(convention);
    if rest == "" && n > 2 {
      assert rest + [c] + name == [c] + name;
      NameAfterASeparator(convention, [c], name);
      OnlyASeparator(convention, c);
    } else {
      RestGrowsByTheName(convention, rest, name);
    }
  }

  lemma OnlyASeparator(convention: Convention, c: char)
    requires IsSeparator(convention, c)
    ensures RelativeComponents(convention, [c]) == [RootDir]
  {
    var separator := c => IsSeparator(convention, c);
    assert [c][..0] == "" && Segments("", separator) == [[]];
    var segments := Segments([c], separator);
    assert segments == [[]] + [[]];
    assert segments[..1] == [[]] && segments[..1][..0] == [];
    assert Contributions([]) == [] && Contributions(segments[..1]) == [];
    assert Contributions(segments) == [];
  }

  /** The confinement: an accepted identity adds itself as one component to the root's, on either platform. */
  lemma AddsOneComponent(convention: Convention, root: StorageRoot, s: string)
    requires ParseSession(convention, s).Success? && (convention == Windows ==> !IsLoneServer(root.path))
    ensures Components(convention, root.Resolve(convention, SessionRef(s))) == Components(convention, root.path) + [Normal(s)]
  {
    AcceptedNamesArePlain(convention, s);
    PlainNameIsOneSegment(s);
    JoiningAPlainName(convention, root.path, s);
    var n := PrefixLength(convention, root.path);
    BehindGrowsByTheName(convention, n, root.path[n..], s);
    hide IsPlainName, ComponentsBehind, Join, PrefixLength, Validate, IsEitherSeparator, IsLoneServer;
    var prefix := if n > 0 then [Prefix(root.path[..n])] else [];
    Reassociate(prefix, ComponentsBehind(convention, n, root.path[n..]), [Normal(s)]);
  }

  /** Behind a lone server the identity is taken for a share, and all of the path for a prefix. */
  lemma BecomesAShare(root: string, name: string)
    requires IsOneName(name) && IsLoneServer(root)
    ensures var joined := Join(Windows, root, name);
            PrefixLength(Windows, joined) == |joined| > 2 && PrefixLength(Windows, root) == 0
            && Components(Windows, joined) == [Prefix(joined), RootDir]
    ensures Components(Windows, root) != [] && Components(Windows, root)[0] == RootDir
  {
    hide ServerPrefix, RelativeComponents;
    NameHasNoPrefix(Windows, name);
    var joined := Join(Windows, root, name);
    assert joined == if IsEitherSeparator(root[|root| - 1]) then root + name else root + ("\\" + name) by {
      Associate(root, '\\', name);
    }
    ServerTakesTheName(root, name);
    NoServerYet(root);
    assert joined[..|joined|] == joined && joined[|joined|..] == "" && root[0..] == root;
    RootedComponents(root);
  }

  lemma RootedComponents(s: string)
    requires StartsTwice(s)
    ensures RelativeComponents(Windows, s) != [] && RelativeComponents(Windows, s)[0] == RootDir
  {}

  lemma NoServerYet(root: string)
    requires IsLoneServer(root)
    ensures ServerPrefix(root) == 0 && !HasDrive(root) && |root| > 2
  {
    assert IsEitherSeparator(root[0]);
  }

  lemma ServerTakesTheName(root: string, name: string)
    requires IsOneName(name) && IsLoneServer(root)
    ensures var joined := if IsEitherSeparator(root[|root| - 1]) then root + name else root + ("\\" + name);
            ServerPrefix(joined) == |joined| && !HasDrive(joined)
  {
    LoneServerParts(root);
    hide StartsTwice, HasDrive, IsEitherSeparator, IsLoneServer, ShareEnd, Until;
    var r := root[2..];
    var more := if IsEitherSeparator(root[|root| - 1]) then name else "\\" + name;
    ShareComes(r, more, name);
    Behind(root, more, 2);
    TwiceFurther(root, more);
  }

  lemma ShareComes(r: string, more: string, name: string)
    requires IsOneName(name) && 0 < Until(r) && |r| <= 1 + Until(r)
    requires more == if Until(r) < |r| then name else "\\" + name
    ensures ShareEnd(r + more) == |r + more|
  {
    NameIsUnbroken(name);
    hide IsOneName, Until, ShareEnd, IsEitherSeparator;
    BackslashSeparates();
    UntilGrows(r, more);
    assert (r + more)[Until(r) + 1..] == name;
    ShareStart(r + more, name);
  }

  lemma LoneServerParts(root: string)
    requires IsLoneServer(root)
    ensures var r := root[2..];
            StartsTwice(root) && 0 < Until(r) && |r| <= 1 + Until(r)
            && (IsEitherSeparator(root[|root| - 1]) <==> Until(r) < |r|)
  {
    var r := root[2..];
    assert root[|root| - 1] == r[|r| - 1];
  }

  lemma NameIsUnbroken(name: string)
    requires IsOneName(name)
    ensures Until(name) == |name| > 0
  {
    UntilGrows(name, "");
    assert name + "" == name;
  }

  lemma BackslashSeparates()
    ensures IsEitherSeparator('\\') && forall s: string :: Until("\\" + s) == 0
  {}

  lemma TwiceFurther(a: string, b: string)
    requires StartsTwice(a)
    ensures StartsTwice(a + b) && !HasDrive(a + b)
  {
    assert IsEitherSeparator(a[0]);
  }

  /**
    * An identity resolves to a direct child of its root, whatever the root, exactly when the root is not the name of a
    * network server without a share.
    */
  lemma ResolvesToADirectChild(convention: Convention, root: StorageRoot, s: string)
    requires ParseSession(convention, s).Success? && !IsVerbatim(convention, root.path)
    ensures Components(convention, root.Resolve(convention, SessionRef(s))) == Components(convention, root.path) + [Normal(s)]
            <==> !(convention == Windows && IsLoneServer(root.path))
  {
    hide Components, IsLoneServer, Validate, IsPlainName;
    AcceptedNamesArePlain(convention, s);
    PlainNameIsOneSegment(s);
    if convention == Windows && IsLoneServer(root.path) {
      BecomesAShare(root.path, s);
      assert (Components(convention, root.path) + [Normal(s)])[0] == RootDir;
    } else {
      AddsOneComponent(convention, root, s);
    }
  }

  lemma Reassociate(a: seq<Component>, b: seq<Component>, c: seq<Component>)
    ensures a + (b + c) == a + b + c
  {}

  /** Different identities resolve to different children of the same root. */
  lemma DistinctIdentitiesDistinctChildren(convention: Convention, root: StorageRoot, s: string, t: string)
    requires ParseSession(convention, s).Success? && ParseSession(convention, t).Success? && !IsVerbatim(convention, root.path)
    ensures root.Resolve(convention, SessionRef(s)) == root.Resolve(convention, SessionRef(t)) <==> s == t
    ensures Components(convention, root.Resolve(convention, SessionRef(s))) == Components(convention, root.Resolve(convention, SessionRef(t)))
            <==> s == t
  {
    hide *;
    if convention == Windows && IsLoneServer(root.path) {
      SharesDiffer(root, s, t);
    } else {
      AddsOneComponent(convention, root, s);
      AddsOneComponent(convention, root, t);
      LastDecides(Components(convention, root.path), Normal(s), Normal(t));
    }
  }

  lemma SharesDiffer(root: StorageRoot, s: string, t: string)
    requires ParseSession(Windows, s).Success? && ParseSession(Windows, t).Success? && IsLoneServer(root.path)
    ensures root.Resolve(Windows, SessionRef(s)) == root.Resolve(Windows, SessionRef(t)) <==> s == t
    ensures Components(Windows, root.Resolve(Windows, SessionRef(s))) == Components(Windows, root.Resolve(Windows, SessionRef(t)))
            <==> s == t
  {
    hide Components, IsLoneServer, Validate, IsPlainName, Join, IsOneName, IsEitherSeparator;
    AcceptedNamesArePlain(Windows, s);
    AcceptedNamesArePlain(Windows, t);
    PlainNameIsOneSegment(s);
    PlainNameIsOneSegment(t);
    BecomesAShare(root.path, s);
    BecomesAShare(root.path, t);
    JoinedWith(root.path, s);
    JoinedWith(root.path, t);
    SameEnds(Glued(root.path), s, t);
  }

  /** A root with what joining puts behind it, whatever the name. */
  function Glued(root: string): string {
    if root == "" || IsEitherSeparator(root[|root| - 1]) || IsDrive(Windows, root) then root else root + "\\"
  }

  lemma JoinedWith(root: string, name: string)
    requires IsOneName(name)
    ensures Join(Windows, root, name) == Glued(root) + name
  {
    NameHasNoPrefix(Windows, name);
  }

  lemma SameEnds(head: string, a: string, b: string)
    ensures head + a == head + b <==> a == b
  {
    assert (head + a)[|head|..] == a && (head + b)[|head|..] == b;
  }

  lemma LastDecides(before: seq<Component>, a: Component, b: Component)
    ensures before + [a] == before + [b] <==> a == b
  {
    assert (before + [a])[|before|] == a && (before + [b])[|before|] == b;
  }
}
