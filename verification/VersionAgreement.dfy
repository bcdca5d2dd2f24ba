/** Propagating one version into every file that repeats it (scripts/check-version-agreement.py). */
module VersionAgreement {
  import opened Wrappers
  import opened VersionLines
  import opened VersionTemplates
  import opened VersionSites
  import opened VersionPins
  import opened VersionFiles
  import opened VersionPlaces
  import opened VersionSurfaces

  /** The pins on the lines that repinning changes. */
  function ChangedPins(lines: seq<string>, members: set<string>, body: seq<Piece>): nat {
    if lines == [] then 0
    else
      var line := lines[|lines| - 1];
      ChangedPins(lines[..|lines| - 1], members, body)
      + (if RepinLine(line, members, body) != line then |Bodies(PIN_SITE, line, true)| else 0)
  }

  /** Which files take the version, and how. */
  datatype Plan = Plan(host: string, bundle: string, manifests: seq<string>, members: set<string>) {
    /** No file is written in two ways. */
    ghost predicate Disjoint() {
      && host != bundle && host !in manifests && bundle !in manifests
      && forall i, j | 0 <= i < j < |manifests| :: manifests[i] != manifests[j]
    }

    /** In the order in which they are written. */
    function Files(): seq<string> {
      [host, bundle] + manifests
    }
  }

  /** What one file holds after the version has been propagated. */
  function PropagatedFile(plan: Plan, body: seq<Piece>, path: string, raw: string): string {
    if path == plan.host then RewrittenFile(HOST_SITE, body, raw)
    else if path == plan.bundle then RewrittenFile(BUNDLE_SITE, body, raw)
    else if path in plan.manifests then RepinnedFile(plan.members, body, raw)
    else raw
  }

  function Propagated(plan: Plan, body: seq<Piece>, files: map<string, string>): map<string, string> {
    map path | path in files :: PropagatedFile(plan, body, path, files[path])
  }

  /**
    * Propagating a version twice is propagating it once, whatever the plan and the files, exactly when its expansion
    * is quote-free text and settles in pins.
    */
  lemma PropagationIsIdempotentIff(version: string)
    requires Expand(version).Some?
    ensures var body := Expand(version).value;
            (forall plan, files :: Propagated(plan, body, Propagated(plan, body, files)) == Propagated(plan, body, files))
            <==> IsQuoteFree(body) && IsStable(body)
  {
    hide Expand, RewrittenFile, RepinnedFile, Propagated, IsQuoteFree, IsStable;
    var body := Expand(version).value;
    SitesAreReadable();
    RewritingAFileIsIdempotentIff(HOST_SITE, version);
    RepinningIsIdempotentIff(version);
    if IsQuoteFree(body) && IsStable(body) {
      forall plan, files
        ensures Propagated(plan, body, Propagated(plan, body, files)) == Propagated(plan, body, files)
      {
        PropagatingTwice(plan, body, files);
      }
    } else if !IsQuoteFree(body) {
      var raw :| RewrittenFile(HOST_SITE, body, RewrittenFile(HOST_SITE, body, raw)) != RewrittenFile(HOST_SITE, body, raw);
      OneFileDiffers(Plan("host", "bundle", [], {}), body, "host", raw);
    } else {
      var members, raw :|
        RepinnedFile(members, body, RepinnedFile(members, body, raw)) != RepinnedFile(members, body, raw);
      OneFileDiffers(Plan("host", "bundle", ["manifest"], members), body, "manifest", raw);
    }
  }

  lemma PropagatingTwice(plan: Plan, body: seq<Piece>, files: map<string, string>)
    requires IsQuoteFree(body) && IsStable(body)
    ensures Propagated(plan, body, Propagated(plan, body, files)) == Propagated(plan, body, files)
  {
    hide RewrittenFile, RepinnedFile, IsQuoteFree, IsStable;
    SitesAreReadable();
    forall path | path in files
      ensures PropagatedFile(plan, body, path, PropagatedFile(plan, body, path, files[path])) ==
              PropagatedFile(plan, body, path, files[path])
    {
      RewritingTwice(HOST_SITE, body, files[path]);
      RewritingTwice(BUNDLE_SITE, body, files[path]);
      StableIsSettled(plan.members, body, files[path]);
    }
  }

  lemma OneFileDiffers(plan: Plan, body: seq<Piece>, path: string, raw: string)
    requires PropagatedFile(plan, body, path, PropagatedFile(plan, body, path, raw)) != PropagatedFile(plan, body, path, raw)
    ensures exists files :: Propagated(plan, body, Propagated(plan, body, files)) != Propagated(plan, body, files)
  {
    hide PropagatedFile;
    var files := map[path := raw];
    assert Propagated(plan, body, files)[path] == PropagatedFile(plan, body, path, raw);
    assert Propagated(plan, body, Propagated(plan, body, files))[path] != Propagated(plan, body, files)[path];
  }

  /** Why a file could not be written. */
  datatype Refusal = Missing(path: string) | BadTemplate

  /** The expansion of a version; for one that has none, what is never written. */
  function BodyOf(version: string): seq<Piece> {
    if Expand(version).Some? then Expand(version).value else []
  }

  /** The working tree: every text file by its path. */
  class Tree {
    var files: map<string, string>

    /** Reports how many places were rewritten, or nothing when the file already agrees. */
    method Rewrite(path: string, site: Site, version: string) returns (r: Result<Option<nat>, Refusal>)
      requires '\\' !in site.open
      modifies this
      ensures r.Success? <==> path in old(files) && Expand(version).Some?
      ensures r.Failure? ==> r.error == (if path in old(files) then BadTemplate else Missing(path)) && files == old(files)
      ensures r.Success? ==> files == old(files)[path := RewrittenFile(site, BodyOf(version), old(files)[path])]
      ensures r.Success? ==>
        var original := ReadText(old(files)[path]);
        r.value == if AllSay(site, BodyOf(version), Bodies(site, original, true)) then None else Some(|Bodies(site, original, true)|)
      ensures r.Success? && r.value.None? ==> files == old(files)
      ensures r.Success? ==>
        var raw := old(files)[path];
        && IsWritten(site.open, site.atLineStart, BodyOf(version), raw, files[path])
        && (r.value.None? <==> Agrees(site.open, site.atLineStart, BodyOf(version), raw))
        && (r.value.Some? ==> exists places: seq<Place> ::
              ArePlaces(site.open, site.atLineStart, ReadText(raw), 0, places) && |places| == r.value.value)
    {
      if path !in files {
        return Failure(Missing(path));
      }
      hide ReadText, IsWritten, Agrees, ArePlaces, Expand, Template;
      TemplateOfASite(site.open, version);
      if Template(site.open + version + "\"").None? {
        return Failure(BadTemplate);
      }
      var original, body := ReadText(files[path]), Expand(version).value;
      var updated, count := Sub(site, body, original, true), |Bodies(site, original, true)|;
      if count == 0 {
        NoMatchNoChange(site, body, original, true);
      }
      SubChangesNothingIff(site, body, original, true);
      RewrittenIsWritten(site, body, files[path]);
      ghost var _ := SubReplaces(site, body, original, 0);
      assert original[0..] == original;
      if count == 0 || updated == original {
        return Success(None);
      }
      files := files[path := updated];
      return Success(Some(count));
    }

    /**
      * Rewrites only the exact pins that share a line with a path to another member, and the file only if one of them
      * moves. The other lines then stay, to the byte, exactly when the version has no line break and none of those lines
      * ends in a carriage return.
      */
    method Repin(path: string, members: set<string>, version: string) returns (r: Result<Option<nat>, Refusal>)
      modifies this
      ensures r.Success? <==>
        path in old(files) && (Expand(version).Some? || !AnyTouched(SplitLines(ReadText(old(files)[path])), members))
      ensures r.Failure? ==> r.error == (if path in old(files) then BadTemplate else Missing(path)) && files == old(files)
      ensures r.Success? ==> files == old(files)[path := RepinnedFile(members, BodyOf(version), old(files)[path])]
      ensures r.Success? ==>
        var lines := SplitLines(ReadText(old(files)[path]));
        r.value == if RepinLines(lines, members, BodyOf(version)) == lines then None
                   else Some(ChangedPins(lines, members, BodyOf(version)))
      ensures r.Success? && r.value.None? ==> files == old(files)
      ensures r.Success? && r.value.Some? ==> files[path] == JoinLines(Images(members, BodyOf(version), RawLines(old(files)[path])))
      ensures r.Success? ==> (r.value.Some? <==> SomePinMoves(members, BodyOf(version), SplitLines(ReadText(old(files)[path]))))
      ensures r.Success? ==>
        (ForeignLinesStay(members, old(files)[path], files[path])
         <==> r.value.None? || (!BodyBreaks(BodyOf(version)) && !SomeForeignLineReturns(members, old(files)[path])))
      ensures r.Success? ==>
        && ManifestIsWritten(members, BodyOf(version), old(files)[path], files[path])
        && (r.value.None? <==> ManifestAgrees(members, BodyOf(version), old(files)[path]))
    {
      if path !in files {
        return Failure(Missing(path));
      }
      hide ManifestIsWritten, ManifestAgrees, SplitLines, RepinLines, Repinned, RepinnedFile, ReadText, ChangedPins, AnyTouched, Expand, BodyOf, BodyBreaks, SomePinMoves, Images,
           RawLines, ForeignLinesStay, SomeForeignLineReturns;
      var original := SplitLines(ReadText(files[path]));
      var repinned := RepinEveryLine(original, members, version);
      if repinned.None? {
        return Failure(BadTemplate);
      }
      var (lines, changed) := repinned.value;
      ghost var raw := files[path];
      RepinnedAsAWhole(members, BodyOf(version), raw);
      WrittenLineByLine(members, BodyOf(version), raw);
      LinesChangeIff(members, BodyOf(version), original);
      ForeignLinesStayIff(members, BodyOf(version), raw);
      VersionSurfaces.ManifestIsRepinned(members, BodyOf(version), raw);
      if changed == 0 {
        return Success(None);
      }
      files := files[path := JoinLines(lines)];
      return Success(Some(changed));
    }

    /** Writes the version into every surface of the plan, in order; stops at the first file that it cannot write. */
    method Propagate(plan: Plan, version: string) returns (r: Result<seq<string>, Refusal>)
      requires plan.Disjoint()
      modifies this
      ensures r.Success? <==> Expand(version).Some? && forall path | path in plan.Files() :: path in old(files)
      ensures r.Failure? && r.error.Missing? ==>
        exists n | 0 <= n < |plan.Files()| ::
          && plan.Files()[n] == r.error.path && r.error.path !in old(files)
          && (forall m | 0 <= m < n :: plan.Files()[m] in old(files))
          && files == WrittenFirst(plan, BodyOf(version), old(files), n)
      ensures r.Failure? && r.error.BadTemplate? ==> Expand(version).None? && files == old(files)
      ensures r.Success? ==> files == Propagated(plan, BodyOf(version), old(files))
      ensures r.Success? ==> SurfacesAreWritten(plan, BodyOf(version), old(files), files)
      ensures r.Success? ==> r.value == Listed(plan, BodyOf(version), old(files), |plan.Files()|)
    {
      hide RewrittenFile, RepinnedFile, Listed, WrittenFirst, Propagated, PropagatedFile, Plan.Disjoint, Expand, BodyOf,
           SurfacesAreWritten, IsWritten, Agrees, ManifestIsWritten, ManifestAgrees, ArePlaces, FileChanges;
      ghost var before, body := files, BodyOf(version);
      var written := [];
      SitesAreReadable();
      NothingYet(plan, body, before);
      HeadsOf(plan, body);
      var rewritten := Rewrite(plan.host, HOST_SITE, version);
      if rewritten.Failure? { return Failure(rewritten.error); }
      FileIsNext(plan, body, before, 0, rewritten.value.Some?);
      if rewritten.value.Some? { written := written + [plan.host]; }
      rewritten := Rewrite(plan.bundle, BUNDLE_SITE, version);
      if rewritten.Failure? { return Failure(rewritten.error); }
      FileIsNext(plan, body, before, 1, rewritten.value.Some?);
      if rewritten.value.Some? { written := written + [plan.bundle]; }
      r := PropagateToManifests(plan, version, before, written);
      WritesAll(plan, before);
      AllWritten(plan, body, before);
    }

    method PropagateToManifests(plan: Plan, version: string, ghost before: map<string, string>, heads: seq<string>)
      returns (r: Result<seq<string>, Refusal>)
      requires plan.Disjoint() && Expand(version).Some? && plan.host in before && plan.bundle in before
      requires files == WrittenFirst(plan, BodyOf(version), before, 2) && heads == Listed(plan, BodyOf(version), before, 2)
      modifies this
      ensures r.Success? <==> forall k | 0 <= k < |plan.manifests| :: plan.manifests[k] in before
      ensures r.Failure? ==>
        exists n | 2 <= n < |plan.Files()| ::
          && r.error == Missing(plan.Files()[n]) && r.error.path !in before
          && (forall m | 0 <= m < n :: plan.Files()[m] in before)
          && files == WrittenFirst(plan, BodyOf(version), before, n)
      ensures r.Success? ==> files == WrittenFirst(plan, BodyOf(version), before, |plan.Files()|)
      ensures r.Success? ==> r.value == Listed(plan, BodyOf(version), before, |plan.Files()|)
    {
      hide *;
      var written := heads;
      FileNames(plan);
      for i := 0 to |plan.manifests|
        invariant forall m | 0 <= m < i + 2 :: plan.Files()[m] in before
        invariant files == WrittenFirst(plan, BodyOf(version), before, i + 2)
        invariant written == Listed(plan, BodyOf(version), before, i + 2)
      {
        var path := plan.manifests[i];
        NotYetWritten(plan, BodyOf(version), before, i + 2);
        var repinned := Repin(path, plan.members, version);
        if repinned.Failure? { return Failure(repinned.error); }
        ManifestIsNext(plan, BodyOf(version), before, i);
        FileIsNext(plan, BodyOf(version), before, i + 2, repinned.value.Some?);
        if repinned.value.Some? { written := written + [path]; }
      }
      return Success(written);
    }
  }

  /** Every surface holds the version, and no other file has changed. */
  ghost predicate SurfacesAreWritten(plan: Plan, body: seq<Piece>, before: map<string, string>, now: map<string, string>) {
    && now.Keys == before.Keys && (forall path | path in before && path !in plan.Files() :: now[path] == before[path])
    && plan.host in before && HostIsWritten(body, before[plan.host], now[plan.host])
    && plan.bundle in before && BundleIsWritten(body, before[plan.bundle], now[plan.bundle])
    && forall path | path in plan.manifests :: path in before && ManifestIsWritten(plan.members, body, before[path], now[path])
  }

  /** The text of the file differs from what is written over it. */
  ghost predicate FileChanges(plan: Plan, body: seq<Piece>, path: string, raw: string) {
    if path == plan.host then !Agrees("version = \"", true, body, raw)
    else if path == plan.bundle then !Agrees("\"version\": \"", false, body, raw)
    else !ManifestAgrees(plan.members, body, raw)
  }

  /** Which of the first `n` files change, in order. */
  ghost function Listed(plan: Plan, body: seq<Piece>, before: map<string, string>, n: nat): seq<string>
    requires n <= |plan.Files()|
  {
    if n == 0 then []
    else
      var path := plan.Files()[n - 1];
      Listed(plan, body, before, n - 1) + (if path in before && FileChanges(plan, body, path, before[path]) then [path] else [])
  }

  /** The tree when the first `n` files of the plan have been written. */
  ghost function WrittenFirst(plan: Plan, body: seq<Piece>, before: map<string, string>, n: nat): map<string, string>
    requires n <= |plan.Files()|
  {
    map path | path in before :: if path in plan.Files()[..n] then PropagatedFile(plan, body, path, before[path]) else before[path]
  }

  lemma NothingYet(plan: Plan, body: seq<Piece>, before: map<string, string>)
    ensures WrittenFirst(plan, body, before, 0) == before && Listed(plan, body, before, 0) == []
  {
    hide PropagatedFile;
  }

  lemma FileNames(plan: Plan)
    ensures |plan.Files()| == |plan.manifests| + 2 && plan.Files()[0] == plan.host && plan.Files()[1] == plan.bundle
    ensures forall k | 0 <= k < |plan.manifests| :: plan.Files()[k + 2] == plan.manifests[k]
  {}

  lemma FilesDiffer(plan: Plan, n: nat)
    requires plan.Disjoint() && n < |plan.Files()|
    ensures plan.Files()[n] !in plan.Files()[..n]
  {
    FileNames(plan);
    forall j | 0 <= j < n
      ensures plan.Files()[j] != plan.Files()[n]
    {
      if j >= 2 {
        assert plan.Files()[j] == plan.manifests[j - 2] && plan.Files()[n] == plan.manifests[n - 2];
      } else if n >= 2 {
        assert plan.Files()[n] == plan.manifests[n - 2];
      }
    }
  }

  lemma NotYetWritten(plan: Plan, body: seq<Piece>, before: map<string, string>, n: nat)
    requires plan.Disjoint() && n < |plan.Files()|
    ensures var path, now := plan.Files()[n], WrittenFirst(plan, body, before, n);
            now.Keys == before.Keys && (path in before ==> now[path] == before[path])
  {
    FilesDiffer(plan, n);
    hide PropagatedFile, Plan.Disjoint;
  }

  /** How the two heads and the manifests are written, and when. */
  lemma HeadsOf(plan: Plan, body: seq<Piece>)
    requires plan.Disjoint()
    ensures plan.host != plan.bundle
    ensures forall raw :: PropagatedFile(plan, body, plan.host, raw) == RewrittenFile(HOST_SITE, body, raw)
    ensures forall raw :: PropagatedFile(plan, body, plan.bundle, raw) == RewrittenFile(BUNDLE_SITE, body, raw)
    ensures forall raw :: FileChanges(plan, body, plan.host, raw) <==> !Agrees(HOST_SITE.open, HOST_SITE.atLineStart, body, raw)
    ensures forall raw :: FileChanges(plan, body, plan.bundle, raw) <==> !Agrees(BUNDLE_SITE.open, BUNDLE_SITE.atLineStart, body, raw)
    ensures |plan.Files()| >= 2 && plan.Files()[0] == plan.host && plan.Files()[1] == plan.bundle
  {
    hide RewrittenFile, RepinnedFile, Agrees;
  }

  lemma ManifestIsNext(plan: Plan, body: seq<Piece>, before: map<string, string>, i: nat)
    requires plan.Disjoint() && i < |plan.manifests|
    ensures |plan.Files()| == |plan.manifests| + 2 && plan.Files()[i + 2] == plan.manifests[i]
    ensures forall raw :: PropagatedFile(plan, body, plan.manifests[i], raw) == RepinnedFile(plan.members, body, raw)
    ensures forall raw :: FileChanges(plan, body, plan.manifests[i], raw) <==> !ManifestAgrees(plan.members, body, raw)
  {
    hide RewrittenFile, RepinnedFile, Agrees, ManifestAgrees;
  }

  lemma FileIsNext(plan: Plan, body: seq<Piece>, before: map<string, string>, n: nat, changes: bool)
    requires plan.Disjoint() && n < |plan.Files()| && plan.Files()[n] in before
    requires changes <==> FileChanges(plan, body, plan.Files()[n], before[plan.Files()[n]])
    ensures var path, now := plan.Files()[n], WrittenFirst(plan, body, before, n);
      && now[path] == before[path] && now.Keys == before.Keys
      && WrittenFirst(plan, body, before, n + 1) == now[path := PropagatedFile(plan, body, path, before[path])]
      && Listed(plan, body, before, n + 1) == Listed(plan, body, before, n) + if changes then [path] else []
  {
    NotYetWritten(plan, body, before, n);
    hide PropagatedFile, Plan.Disjoint, FileChanges;
    var files := plan.Files();
    assert files[..n + 1] == files[..n] + [files[n]];
  }

  lemma AllWritten(plan: Plan, body: seq<Piece>, before: map<string, string>)
    requires plan.Disjoint()
    ensures WrittenFirst(plan, body, before, |plan.Files()|) == Propagated(plan, body, before)
    ensures (forall path | path in plan.Files() :: path in before) ==>
              SurfacesAreWritten(plan, body, before, Propagated(plan, body, before))
  {
    hide WrittenFirst, Propagated, SurfacesAreWritten, Plan.Files, Plan.Disjoint;
    EveryFileWritten(plan, body, before);
    if forall path | path in plan.Files() :: path in before {
      SurfacesAre(plan, body, before);
    }
  }

  lemma EveryFileWritten(plan: Plan, body: seq<Piece>, before: map<string, string>)
    ensures WrittenFirst(plan, body, before, |plan.Files()|) == Propagated(plan, body, before)
  {
    OthersStay(plan, body);
    hide PropagatedFile, Plan.Files;
    assert plan.Files()[..|plan.Files()|] == plan.Files();
  }

  lemma OthersStay(plan: Plan, body: seq<Piece>)
    ensures forall path, raw | path !in plan.Files() :: PropagatedFile(plan, body, path, raw) == raw
  {
    hide RewrittenFile, RepinnedFile;
    FileNames(plan);
    assert forall path | path in plan.manifests :: path in plan.Files();
  }

  lemma SurfacesAre(plan: Plan, body: seq<Piece>, before: map<string, string>)
    requires plan.Disjoint() && forall path | path in plan.Files() :: path in before
    ensures SurfacesAreWritten(plan, body, before, Propagated(plan, body, before))
  {
    HeadsOf(plan, body);
    OthersStay(plan, body);
    FileNames(plan);
    HostIsRewritten(body, before[plan.host]);
    BundleIsRewritten(body, before[plan.bundle]);
    hide RewrittenFile, RepinnedFile, HostIsWritten, BundleIsWritten, ManifestIsWritten, PropagatedFile, Plan.Files, Plan.Disjoint;
    forall path | path in plan.manifests
      ensures path in before && ManifestIsWritten(plan.members, body, before[path], Propagated(plan, body, before)[path])
    {
      var i :| 0 <= i < |plan.manifests| && plan.manifests[i] == path;
      ManifestIsNext(plan, body, before, i);
      VersionSurfaces.ManifestIsRepinned(plan.members, body, before[path]);
    }
  }

  predicate AnyTouched(lines: seq<string>, members: set<string>) {
    exists line | line in lines :: Touched(line, members)
  }

  lemma WritesAll(plan: Plan, before: map<string, string>)
    ensures (forall path | path in plan.Files() :: path in before)
            <==> plan.host in before && plan.bundle in before
                 && forall k | 0 <= k < |plan.manifests| :: plan.manifests[k] in before
  {
    FileNames(plan);
    assert forall path :: path in plan.Files() <==> path == plan.host || path == plan.bundle || path in plan.manifests;
  }

  lemma NoPinsYet(members: set<string>, body: seq<Piece>)
    ensures ChangedPins([], members, body) == 0
  {}

  lemma NextLine(lines: seq<string>, index: nat, members: set<string>, body: seq<Piece>)
    requires index < |lines|
    ensures var line := lines[index];
      ChangedPins(lines[..index + 1], members, body)
      == ChangedPins(lines[..index], members, body)
         + (if RepinLine(line, members, body) != line then |Bodies(PIN_SITE, line, true)| else 0)
  {
    assert lines[..index + 1][..index] == lines[..index];
  }

  /** The line list, updated in place; a bad template shows at the first line it is used on. */
  method RepinEveryLine(original: seq<string>, members: set<string>, version: string) returns (r: Option<(seq<string>, nat)>)
    ensures r.None? <==> Expand(version).None? && AnyTouched(original, members)
    ensures r.Some? ==> r.value.0 == RepinLines(original, members, BodyOf(version))
    ensures r.Some? ==> r.value.1 == ChangedPins(original, members, BodyOf(version)) && (r.value.1 == 0 <==> r.value.0 == original)
  {
    hide Target, Sub, Bodies, ChangedPins, Expand, Template;
    var lines, changed := original, 0;
    ghost var body := BodyOf(version);
    NoPinsYet(members, body);
    SitesAreReadable();
    TemplateOfASite(PIN_SITE.open, version);
    for index := 0 to |lines|
      invariant |lines| == |original|
      invariant forall k | 0 <= k < |lines| ::
        lines[k] == if k < index then RepinLine(original[k], members, body) else original[k]
      invariant changed == ChangedPins(original[..index], members, body) && (changed == 0 <==> lines == original)
      invariant Expand(version).None? ==> forall k | 0 <= k < index :: !Touched(original[k], members)
    {
      var line := lines[index];
      NextLine(original, index, members, body);
      var target := Target(line);
      if target.Some? && target.value in members {
        assert original[index] in original;
        if Template(PIN_SITE.open + version + "\"").None? {
          return None;
        }
        var updated, count := Sub(PIN_SITE, Expand(version).value, line, true), |Bodies(PIN_SITE, line, true)|;
        if count == 0 {
          NoMatchNoChange(PIN_SITE, body, line, true);
        }
        if count > 0 && updated != line {
          lines := lines[index := updated];
          changed := changed + count;
        }
      }
    }
    assert original[..|lines|] == original;
    return Some((lines, changed));
  }

  lemma RepinnedAsAWhole(members: set<string>, body: seq<Piece>, raw: string)
    ensures var lines := SplitLines(ReadText(raw));
      RepinnedFile(members, body, raw)
      == if RepinLines(lines, members, body) == lines then raw else JoinLines(RepinLines(lines, members, body))
  {}
}
