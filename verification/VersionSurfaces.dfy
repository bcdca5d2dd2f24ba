/**
  * What a propagated version leaves in the files of check-version-agreement.py, in terms of their texts and lines:
  * the manifest of the desktop host, the configuration of its bundle, and the manifests of the workspace's members.
  */
module VersionSurfaces {
  import opened Wrappers
  import opened Text
  import opened VersionLines
  import opened VersionTemplates
  import opened VersionSites
  import opened VersionPins
  import opened VersionFiles
  import opened VersionPlaces

  /** The first `path = "../` with a name and its closing quote behind it names one of these directories. */
  ghost predicate NamesMember(line: string, members: set<string>) {
    exists i, name, rest ::
      NamedAt(line, i, name, rest) && name in members && forall j, other, more | j < i :: !NamedAt(line, j, other, more)
  }

  ghost predicate NamedAt(line: string, i: int, name: string, rest: string) {
    0 <= i <= |line| && line[i..] == "path = \"../" + name + "\"" + rest && name != "" && '"' !in name
  }

  /** One file that is read, written over and, if that has changed anything, written back. */
  ghost predicate IsWritten(open: string, startsLine: bool, body: seq<Piece>, raw: string, file: string) {
    exists updated :: WrittenOver(open, startsLine, body, ReadText(raw), updated)
                      && file == if updated == ReadText(raw) then raw else updated
  }

  ghost predicate Agrees(open: string, startsLine: bool, body: seq<Piece>, raw: string) {
    WrittenOver(open, startsLine, body, ReadText(raw), ReadText(raw))
  }

  /** The host's manifest: every version at the start of a line, and line by line where each is closed on its own. */
  ghost predicate HostIsWritten(body: seq<Piece>, raw: string, file: string) {
    && IsWritten("version = \"", true, body, raw, file)
    && (ClosedOnLine("version = \"", ReadText(raw)) ==>
          exists updated :: LineByLine("version = \"", body, ReadText(raw), updated)
                            && file == if updated == ReadText(raw) then raw else updated)
  }

  /** The bundle's configuration: every version in it. */
  ghost predicate BundleIsWritten(body: seq<Piece>, raw: string, file: string) {
    IsWritten("\"version\": \"", false, body, raw, file)
  }

  /** On a line that names a member every exact pin is written over; any other line stays. */
  ghost predicate PinnedLine(members: set<string>, body: seq<Piece>, line: string, after: string) {
    if NamesMember(line, members) then WrittenOver("version = \"=", false, body, line, after) else after == line
  }

  ghost predicate PinnedLines(members: set<string>, body: seq<Piece>, lines: seq<string>, after: seq<string>) {
    |after| == |lines| && forall k | 0 <= k < |lines| :: PinnedLine(members, body, lines[k], after[k])
  }

  /** A member's manifest. */
  ghost predicate ManifestIsWritten(members: set<string>, body: seq<Piece>, raw: string, file: string) {
    exists after: seq<string> :: PinnedLines(members, body, SplitLines(ReadText(raw)), after)
                    && file == if after == SplitLines(ReadText(raw)) then raw else JoinLines(after)
  }

  ghost predicate ManifestAgrees(members: set<string>, body: seq<Piece>, raw: string) {
    PinnedLines(members, body, SplitLines(ReadText(raw)), SplitLines(ReadText(raw)))
  }

  // ---- The script does this ----

  lemma RewrittenIsWritten(site: Site, body: seq<Piece>, raw: string)
    ensures forall file :: IsWritten(site.open, site.atLineStart, body, raw, file) <==> file == RewrittenFile(site, body, raw)
    ensures Agrees(site.open, site.atLineStart, body, raw) <==> Sub(site, body, ReadText(raw), true) == ReadText(raw)
  {
    hide Sub, WrittenOver, ReadText;
    SubWritesOver(site, body, ReadText(raw));
    var updated := Sub(site, body, ReadText(raw), true);
    assert WrittenOver(site.open, site.atLineStart, body, ReadText(raw), updated);
  }

  lemma HostIsRewritten(body: seq<Piece>, raw: string)
    ensures HostIsWritten(body, raw, RewrittenFile(HOST_SITE, body, raw))
    ensures Agrees("version = \"", true, body, raw) <==> Sub(HOST_SITE, body, ReadText(raw), true) == ReadText(raw)
  {
    hide Sub, WrittenOver, ReadText, LineByLine, ClosedOnLine;
    var open := "version = \"";
    assert HOST_SITE == Site(open, true);
    RewrittenIsWritten(HOST_SITE, body, raw);
    if ClosedOnLine(open, ReadText(raw)) {
      assert '\n' !in open;
      ClosedIsLineByLine(open, body, ReadText(raw));
    }
  }

  lemma BundleIsRewritten(body: seq<Piece>, raw: string)
    ensures BundleIsWritten(body, raw, RewrittenFile(BUNDLE_SITE, body, raw))
    ensures Agrees("\"version\": \"", false, body, raw) <==> Sub(BUNDLE_SITE, body, ReadText(raw), true) == ReadText(raw)
  {
    RewrittenIsWritten(BUNDLE_SITE, body, raw);
  }

  lemma NameHere(line: string, name: string, rest: string)
    ensures line == "path = \"../" + name + "\"" + rest && name != "" && '"' !in name ==>
              && PATH_OPEN <= line && 0 < Find(line[|PATH_OPEN|..], '"') < |line| - |PATH_OPEN|
              && line[|PATH_OPEN|..][..Find(line[|PATH_OPEN|..], '"')] == name
  {
    if line == "path = \"../" + name + "\"" + rest && name != "" && '"' !in name {
      var tail := line[|PATH_OPEN|..];
      assert tail == name + (['"'] + rest);
      SplitOnceOf(name, '"', rest);
    }
  }

  lemma HereIsNamed(line: string) returns (name: string, rest: string)
    requires PATH_OPEN <= line && 0 < Find(line[|PATH_OPEN|..], '"') < |line| - |PATH_OPEN|
    ensures NamedAt(line, 0, name, rest) && name == line[|PATH_OPEN|..][..Find(line[|PATH_OPEN|..], '"')]
  {
    var tail := line[|PATH_OPEN|..];
    var n := Find(tail, '"');
    name, rest := tail[..n], tail[n + 1..];
    assert line[0..] == line && line == PATH_OPEN + tail && tail == name + "\"" + rest;
    assert line == "path = \"../" + name + "\"" + rest;
  }

  ghost predicate NoneNamed(line: string) {
    forall i, name, rest :: !NamedAt(line, i, name, rest)
  }

  lemma {:induction false} TargetIsFirst(line: string) returns (i: nat, rest: string)
    ensures match Target(line)
            case None => NoneNamed(line)
            case Some(name) => NamedAt(line, i, name, rest) && forall j, other, more | j < i :: !NamedAt(line, j, other, more)
  {
    hide Find;
    i, rest := 0, "";
    assert line[0..] == line;
    forall name, more
      ensures NamedAt(line, 0, name, more) ==>
                && PATH_OPEN <= line && 0 < Find(line[|PATH_OPEN|..], '"') < |line| - |PATH_OPEN|
    {
      NameHere(line, name, more);
    }
    if PATH_OPEN <= line && 0 < Find(line[|PATH_OPEN|..], '"') < |line| - |PATH_OPEN| {
      var name, more := HereIsNamed(line);
      rest := more;
    } else if line != "" {
      var k, more := TargetIsFirst(line[1..]);
      forall j, name, tail | 0 < j
        ensures NamedAt(line, j, name, tail) <==> NamedAt(line[1..], j - 1, name, tail)
      {
        assert j <= |line| ==> line[1..][j - 1..] == line[j..];
      }
      i, rest := k + 1, more;
    }
  }

  lemma TouchedNamesMember(line: string, members: set<string>)
    ensures NamesMember(line, members) <==> Touched(line, members)
  {
    hide NamedAt, Target;
    var i, rest := TargetIsFirst(line);
    if NamesMember(line, members) {
      var j, name, more :|
        NamedAt(line, j, name, more) && name in members && forall k, other, tail | k < j :: !NamedAt(line, k, other, tail);
      assert j == i;
      SameName(line, i, name, more, Target(line).value, rest);
    }
  }

  lemma SameName(line: string, i: int, name: string, rest: string, other: string, more: string)
    requires NamedAt(line, i, name, rest) && NamedAt(line, i, other, more)
    ensures name == other
  {
    NameHere(line[i..], name, rest);
    NameHere(line[i..], other, more);
  }

  lemma RepinLineIsPinned(members: set<string>, body: seq<Piece>, line: string)
    ensures forall after :: PinnedLine(members, body, line, after) <==> after == RepinLine(line, members, body)
  {
    hide Sub, Touched, NamesMember, WrittenOver;
    TouchedNamesMember(line, members);
    SubWritesOver(PIN_SITE, body, line);
  }

  lemma RepinLinesArePinned(members: set<string>, body: seq<Piece>, lines: seq<string>)
    ensures forall after: seq<string> :: PinnedLines(members, body, lines, after) <==> after == RepinLines(lines, members, body)
  {
    hide RepinLine, PinnedLine;
    forall after: seq<string>
      ensures PinnedLines(members, body, lines, after) <==> after == RepinLines(lines, members, body)
    {
      forall k | 0 <= k < |lines| && k < |after|
        ensures PinnedLine(members, body, lines[k], after[k]) <==> after[k] == RepinLine(lines[k], members, body)
      {
        RepinLineIsPinned(members, body, lines[k]);
      }
    }
  }

  lemma ManifestIsRepinned(members: set<string>, body: seq<Piece>, raw: string)
    ensures forall file :: ManifestIsWritten(members, body, raw, file) <==> file == RepinnedFile(members, body, raw)
    ensures ManifestAgrees(members, body, raw) <==> RepinLines(SplitLines(ReadText(raw)), members, body) == SplitLines(ReadText(raw))
  {
    hide PinnedLines, RepinLines, SplitLines, ReadText, JoinLines;
    RepinLinesArePinned(members, body, SplitLines(ReadText(raw)));
    var after := RepinLines(SplitLines(ReadText(raw)), members, body);
    assert PinnedLines(members, body, SplitLines(ReadText(raw)), after);
  }
}
