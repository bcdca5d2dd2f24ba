/** Building, judging and installing the macOS bundle (scrybe-cli/src/macos_bundle.rs). */
module MacosBundle {
  import opened Wrappers
  import opened Text
  import opened BundlePlist

  const ATTEMPTS := 100
  const PLIST := "Contents/Info.plist"
  const EXECUTABLE := "Contents/MacOS/scrybe"
  const ENTITLEMENTS := "Contents/Resources/entitlements.plist"

  // ---- Paths and what stands there ----

  datatype Path = Path(parent: string, name: string)

  /** An entry of a directory: a plain file, or a tree of files by relative path. */
  datatype Entry = File(content: string) | Dir(files: map<string, string>, dirs: set<string>)

  type Entries = map<Path, Entry>

  datatype Label = Install | Backup

  function LabelText(l: Label): string {
    if l == Install then "install" else "backup"
  }

  /** The name of one attempt at a temporary sibling. */
  function SiblingName(l: Label, pid: nat, attempt: nat): string {
    ".scrybe-" + LabelText(l) + "-" + Decimal(pid) + "-" + Decimal(attempt) + ".app"
  }

  /** A path without a parent stands in the current directory. */
  function ParentOf(destination: Path): string {
    if destination.parent == "" then "." else destination.parent
  }

  function Sibling(destination: Path, l: Label, pid: nat, attempt: nat): Path {
    Path(ParentOf(destination), SiblingName(l, pid, attempt))
  }

  /** One of the names the installer keeps for itself. */
  ghost predicate Reserved(path: Path, pid: nat) {
    exists l, n: nat :: path.name == SiblingName(l, pid, n)
  }

  /** The names one run may take for a label. */
  ghost function Siblings(destination: Path, l: Label, pid: nat): set<Path> {
    set n | 0 <= n < ATTEMPTS :: Sibling(destination, l, pid, n)
  }

  lemma SiblingsDiffer(destination: Path, pid: nat, m: nat, n: nat)
    ensures Sibling(destination, Install, pid, m) != Sibling(destination, Backup, pid, n)
  {
    var a, b := SiblingName(Install, pid, m), SiblingName(Backup, pid, n);
    assert a[8] == 'i' && b[8] == 'b';
  }

  // ---- The verdict on a bundle ----

  datatype BundleState = Missing | Invalid | Stale(foundVersion: string) | Ready

  predicate HasItsFiles(entry: Entry) {
    entry.Dir? && PLIST in entry.files && EXECUTABLE in entry.files && ENTITLEMENTS in entry.files
  }

  /** Everything the verdict asks of the files themselves. */
  ghost predicate WellFormed(entry: Entry, version: string) {
    && entry.Dir? && "Contents/Info.plist" in entry.files && "Contents/MacOS/scrybe" in entry.files
    && "Contents/Resources/entitlements.plist" in entry.files
    && Says(entry.files["Contents/Info.plist"], version)
  }

  /** A signed bundle has the files it had, as they were but for the program that the signature goes into. */
  predicate SignedFrom(before: Entry, after: Entry) {
    before.Dir? ==> after.Dir? && forall name | name in before.files ::
      name in after.files && (name == EXECUTABLE || after.files[name] == before.files[name])
  }

  /** One call of `codesign --sign`: what it was given, and what it left. */
  datatype Signing = Signing(bundle: Path, identity: string, entitlements: string, before: Entry, after: Entry)

  /** One call of `rename`, and its answer. */
  datatype Renaming = Renaming(from: Path, to: Path, ok: bool)

  /** The bundle the installer is to build: the program, the rendered property list and the entitlements, each in its place. */
  ghost function Built(binary: string, plist: string, entitlements: string): Entry {
    Dir(map["Contents/MacOS/scrybe" := binary, "Contents/Info.plist" := plist,
            "Contents/Resources/entitlements.plist" := entitlements],
        {"Contents/MacOS", "Contents/Resources"})
  }

  // ---- The disk ----

  /** The two states agree everywhere but at the given places. */
  ghost predicate AgreeOff(a: Entries, b: Entries, places: set<Path>) {
    forall q | q !in places :: (q in a <==> q in b) && (q in a ==> a[q] == b[q])
  }

  /** `rename` may put the one in the place of the other. */
  predicate MayReplace(from: Entry, to: Entry) {
    if from.Dir? then to.Dir? && to.files == map[] && to.dirs == {} else to.File?
  }

  /**
    * A file system of which every call may fail, unless it is obliging: then every call succeeds that can, and
    * `codesign` signs and accepts. `history` is every state it has been in, also in the middle
    * of a call that is not atomic; `verified` is every bundle `codesign --verify` has accepted.
    */
  class Disk {
    var entries: Entries
    const reliable: bool
    const obliging: bool
    ghost var history: seq<Entries>
    ghost var verified: set<Entry>
    ghost var signings: seq<Signing>
    ghost var renamings: seq<Renaming>

    ghost predicate Valid()
      reads this
    {
      history != [] && history[|history| - 1] == entries && (obliging ==> reliable)
    }

    /** A bundle the installer may leave at the destination. */
    ghost predicate IsReady(entry: Entry, version: string)
      reads this
    {
      WellFormed(entry, version) && entry in verified
    }

    constructor (entries: Entries, reliable: bool, obliging: bool)
      requires obliging ==> reliable
      ensures Valid() && this.entries == entries && history == [entries] && verified == {} && signings == [] && renamings == []
      ensures this.reliable == reliable && this.obliging == obliging
    {
      this.entries := entries;
      this.reliable, this.obliging := reliable, obliging;
      history := [entries];
      verified, signings, renamings := {}, [], [];
    }

    /** Says that something is there only if it is; on an unreliable disk it may miss it. */
    method Exists(p: Path) returns (there: bool)
      ensures there ==> p in entries
      ensures reliable ==> (there <==> p in entries)
    {
      var missed: bool := *;
      there := p in entries && (reliable || !missed);
    }

    /** A call whose only effect is its answer. */
    method Attempt() returns (ok: bool)
      ensures obliging ==> ok
    {
      ok := *;
      ok := ok || obliging;
    }

    method CreateDir(p: Path) returns (ok: bool)
      requires Valid()
      modifies this`entries, this`history
      ensures Valid() && verified == old(verified)
      ensures ok ==> p !in old(entries) && entries == old(entries)[p := Dir(map[], {})]
      ensures ok ==> history == old(history) + [entries]
      ensures !ok ==> entries == old(entries) && history == old(history)
      ensures obliging && p !in old(entries) ==> ok
    {
      ok := Attempt();
      ok := ok && p !in entries;
      if ok {
        entries := entries[p := Dir(map[], {})];
        history := history + [entries];
      }
    }

    /** A call inside one bundle: whatever it does or fails to do, it does there. */
    method Alter(p: Path, target: Entry) returns (ok: bool)
      requires Valid() && p in entries && entries[p].Dir? && target.Dir?
      modifies this`entries, this`history
      ensures Valid() && verified == old(verified)
      ensures p in entries && entries[p].Dir? && entries == old(entries)[p := entries[p]]
      ensures ok ==> entries[p] == target
      ensures obliging ==> ok
      ensures history == old(history) + [entries]
    {
      ok := Attempt();
      var reached: Entry := *;
      if ok || !reached.Dir? {
        reached := if ok then target else entries[p];
      }
      entries := entries[p := reached];
      history := history + [entries];
    }

    /** `codesign --sign` with `--entitlements`: may rewrite the bundle in any way, unless the disk is obliging. */
    method Sign(p: Path, identity: string, entitlements: string) returns (ok: bool)
      requires Valid() && p in entries && entries[p].Dir?
      modifies this`entries, this`history, this`signings
      ensures Valid() && verified == old(verified)
      ensures p in entries && entries[p].Dir? && entries == old(entries)[p := entries[p]]
      ensures signings == old(signings) + [Signing(p, identity, entitlements, old(entries)[p], entries[p])]
      ensures obliging ==> ok && SignedFrom(old(entries)[p], entries[p])
      ensures history == old(history) + [entries]
    {
      ghost var before := entries[p];
      var signed: Entry := *;
      var target := entries[p];
      if signed.Dir? && (!obliging || SignedFrom(target, signed)) {
        target := signed;
      }
      ok := Alter(p, target);
      signings := signings + [Signing(p, identity, entitlements, before, entries[p])];
    }

    /** `codesign --verify`. */
    method VerifySignature(p: Path) returns (ok: bool)
      requires Valid()
      modifies this`verified
      ensures ok ==> p in entries && verified == old(verified) + {entries[p]}
      ensures !ok ==> verified == old(verified)
      ensures obliging && p in entries ==> ok
    {
      ok := Attempt();
      ok := ok && p in entries;
      if ok {
        verified := verified + {entries[p]};
      }
    }

    /** Atomic. */
    method Rename(from: Path, to: Path) returns (ok: bool)
      requires Valid()
      modifies this`entries, this`history, this`renamings
      ensures Valid() && verified == old(verified)
      ensures ok ==> from in old(entries)
      ensures ok && from != to && to in old(entries) ==>
        && (old(entries)[from].Dir? <==> old(entries)[to].Dir?)
        && (old(entries)[to].Dir? ==> old(entries)[to].files == map[] && old(entries)[to].dirs == {})
      ensures ok ==> entries == (if from == to then old(entries) else (old(entries) - {from})[to := old(entries)[from]])
      ensures ok ==> history == old(history) + [entries]
      ensures !ok ==> entries == old(entries) && history == old(history)
      ensures renamings == old(renamings) + [Renaming(from, to, ok)]
      ensures obliging && from in old(entries) && to !in old(entries) ==> ok
    {
      ok := Attempt();
      ok := ok && from in entries && (from == to || to !in entries || MayReplace(entries[from], entries[to]));
      renamings := renamings + [Renaming(from, to, ok)];
      if ok {
        if from != to {
          entries := (entries - {from})[to := entries[from]];
        }
        history := history + [entries];
      }
    }

    /** Takes a tree away piece by piece; a failure may leave part of it. */
    method RemoveDirAll(p: Path) returns (ok: bool)
      requires Valid()
      modifies this`entries, this`history
      ensures Valid() && verified == old(verified)
      ensures ok ==> p in old(entries) && entries == old(entries) - {p}
      ensures AgreeOff(entries, old(entries), {p}) && (p in entries ==> p in old(entries))
      ensures old(history) <= history
      ensures forall k | |old(history)| <= k < |history| :: AgreeOff(history[k], old(entries), {p})
      ensures obliging && p in old(entries) && old(entries)[p].Dir? ==> ok
    {
      ok := Attempt();
      ok := ok && p in entries && entries[p].Dir?;
      ghost var before := entries;
      var more: nat :| true;
      if p in entries && entries[p].Dir? {
        for step := 0 to more
          invariant Valid() && old(history) <= history && verified == old(verified)
          invariant p in entries && entries[p].Dir? && p in before && entries == before[p := entries[p]]
          invariant forall k | |old(history)| <= k < |history| :: AgreeOff(history[k], before, {p})
        {
          var fewer: map<string, string> := *;
          entries := entries[p := Dir(fewer, entries[p].dirs)];
          history := history + [entries];
        }
        if ok {
          entries := entries - {p};
          history := history + [entries];
        }
      }
    }
  }

  // ---- The installer ----

  datatype InstallError =
    | CreatingParent | NoSibling | CreatingCandidate | Preparing
    | InstallingNew      // nothing was there, and the candidate could not be moved in
    | MovingAside        // the old bundle could not be moved away
    | Swapping           // the candidate could not be moved in; the old bundle is back
    | Restoring          // nor could the old bundle be moved back
    | RemovingBackup     // the candidate is in; the old bundle could not be removed

  /** Nothing between the two lengths leaves the given places. */
  ghost predicate OnlyAt(history: seq<Entries>, from: nat, base: Entries, places: set<Path>) {
    forall k | from <= k < |history| :: AgreeOff(history[k], base, places)
  }

  /** The first of the hundred names that is free. */
  method UnusedSiblingPath(disk: Disk, destination: Path, l: Label, pid: nat) returns (r: Option<Path>)
    ensures r.Some? ==> exists n: nat :: n < 100 && r.value == Sibling(destination, l, pid, n) &&
                                         forall m: nat | m < n :: Sibling(destination, l, pid, m) in disk.entries
    ensures r.Some? ==> exists n: nat :: n < 100 && r.value == Path(
      if destination.parent == "" then "." else destination.parent,
      ".scrybe-" + (if l == Install then "install" else "backup") + "-" + Decimal(pid) + "-" + Decimal(n) + ".app")
    ensures r.Some? ==> r.value in Siblings(destination, l, pid)
    ensures r.Some? && disk.reliable ==> r.value !in disk.entries
    ensures r.None? ==> forall n: nat | n < 100 :: Sibling(destination, l, pid, n) in disk.entries
  {
    for attempt := 0 to ATTEMPTS
      invariant forall n: nat | n < attempt :: Sibling(destination, l, pid, n) in disk.entries
    {
      var candidate := Sibling(destination, l, pid, attempt);
      var taken := disk.Exists(candidate);
      if !taken {
        return Some(candidate);
      }
    }
    return None;
  }

  method InspectBundle(disk: Disk, p: Path, version: string) returns (state: BundleState)
    requires disk.Valid()
    modifies disk`verified
    ensures old(disk.verified) <= disk.verified
    ensures state.Ready? ==> p in disk.entries && disk.IsReady(disk.entries[p], version)
    ensures state.Stale? ==> state.foundVersion != version && state.foundVersion != "" &&
                             p in disk.entries && disk.IsReady(disk.entries[p], state.foundVersion)
    ensures state.Missing? && disk.reliable ==> p !in disk.entries
    ensures disk.obliging ==> (state.Missing? <==> p !in disk.entries)
    ensures disk.obliging ==> (state.Ready? <==> p in disk.entries && WellFormed(disk.entries[p], version))
    ensures disk.obliging ==>
      (state.Stale? <==> p in disk.entries && exists found :: found != version && WellFormed(disk.entries[p], found))
  {
    var there := disk.Exists(p);
    if !there { return Missing; }
    if !disk.entries[p].Dir? { return Invalid; }
    var files := disk.entries[p].files;
    if !HasItsFiles(disk.entries[p]) { return Invalid; }
    var readable := disk.Attempt();
    if !readable { return Invalid; }
    var identifier := PlistStringAfterKey(files[PLIST], BUNDLE_IDENTIFIER_KEY);
    if identifier.None? || identifier.value != BUNDLE_IDENTIFIER { NotReadable(files[PLIST]); return Invalid; }
    var found := PlistStringAfterKey(files[PLIST], BUNDLE_VERSION_KEY);
    if found.None? || found.value == "" { NotReadable(files[PLIST]); return Invalid; }
    OnlyVersion(files[PLIST], found.value);
    assert WellFormed(disk.entries[p], found.value);
    var signed := disk.VerifySignature(p);
    if !signed { return Invalid; }
    if found.value != version { return Stale(found.value); }
    return Ready;
  }

  lemma NotReadable(plist: string)
    requires PlistStringAfterKey(plist, BUNDLE_IDENTIFIER_KEY) != Some(BUNDLE_IDENTIFIER)
             || PlistStringAfterKey(plist, BUNDLE_VERSION_KEY).None?
             || PlistStringAfterKey(plist, BUNDLE_VERSION_KEY) == Some("")
    ensures forall version :: !Says(plist, version)
  {
    hide PlistStringAfterKey, Says;
    forall version
      ensures !Says(plist, version)
    {
      SaysIs(plist, version);
    }
  }

  lemma OnlyVersion(plist: string, found: string)
    requires PlistStringAfterKey(plist, BUNDLE_IDENTIFIER_KEY) == Some(BUNDLE_IDENTIFIER)
    requires PlistStringAfterKey(plist, BUNDLE_VERSION_KEY) == Some(found) && found != ""
    ensures forall version :: Says(plist, version) <==> version == found
  {
    hide PlistStringAfterKey, Says;
    forall version
      ensures Says(plist, version) <==> version == found
    {
      SaysIs(plist, version);
    }
  }

  /** Since `start`, nothing but the candidate has changed. */
  ghost predicate Confined(disk: Disk, candidate: Path, start: seq<Entries>)
    reads disk
  {
    && disk.Valid() && start != [] && start <= disk.history
    && candidate in disk.entries && disk.entries[candidate].Dir?
    && AgreeOff(disk.entries, start[|start| - 1], {candidate})
    && OnlyAt(disk.history, |start|, start[|start| - 1], {candidate})
  }

  method MakeSubdirectory(disk: Disk, candidate: Path, name: string, ghost start: seq<Entries>) returns (ok: bool)
    requires Confined(disk, candidate, start)
    modifies disk`entries, disk`history
    ensures Confined(disk, candidate, start) && disk.verified == old(disk.verified) && (disk.obliging ==> ok)
    ensures ok ==> disk.entries[candidate] == old(disk.entries[candidate]).(dirs := old(disk.entries[candidate]).dirs + {name})
  {
    var bundle := disk.entries[candidate];
    ok := disk.Alter(candidate, bundle.(dirs := bundle.dirs + {name}));
  }

  method WriteFile(disk: Disk, candidate: Path, name: string, content: string, ghost start: seq<Entries>) returns (ok: bool)
    requires Confined(disk, candidate, start)
    modifies disk`entries, disk`history
    ensures Confined(disk, candidate, start) && disk.verified == old(disk.verified) && (disk.obliging ==> ok)
    ensures ok ==> disk.entries[candidate] == old(disk.entries[candidate]).(files := old(disk.entries[candidate]).files[name := content])
  {
    var bundle := disk.entries[candidate];
    ok := disk.Alter(candidate, bundle.(files := bundle.files[name := content]));
  }

  method SignCandidate(disk: Disk, candidate: Path, identity: string, entitlements: string, ghost start: seq<Entries>)
    returns (ok: bool)
    requires Confined(disk, candidate, start)
    modifies disk`entries, disk`history, disk`signings
    ensures Confined(disk, candidate, start) && disk.verified == old(disk.verified)
    ensures disk.signings == old(disk.signings) +
      [Signing(candidate, identity, entitlements, old(disk.entries[candidate]), disk.entries[candidate])]
    ensures disk.obliging ==> ok && SignedFrom(old(disk.entries[candidate]), disk.entries[candidate])
  {
    ok := disk.Sign(candidate, identity, entitlements);
  }

  /** Fills, signs and judges the candidate; touches nothing else. */
  method PrepareCandidate(disk: Disk, candidate: Path, binary: string, identity: string, template: PlistTemplate,
                          entitlements: string, version: string, ghost start: seq<Entries>)
    returns (ok: bool)
    requires Confined(disk, candidate, start) && disk.entries[candidate] == Dir(map[], {})
    modifies disk
    ensures Confined(disk, candidate, start) && old(disk.verified) <= disk.verified
    ensures ok ==>
      var built := Built(binary, template.Render(version), entitlements);
      disk.signings == old(disk.signings)
                       + [Signing(candidate, identity, "Contents/Resources/entitlements.plist", built, disk.entries[candidate])]
    ensures ok ==> disk.IsReady(disk.entries[candidate], version)
    ensures disk.obliging && template.Fits() ==> (ok <==> Sayable(version))
  {
    hide AgreeOff, OnlyAt, Says, PlistTemplate.Render, PlistTemplate.Fits, Sayable;
    if template.Fits() {
      RenderedSaysIff(template, version);
    }
    ok := MakeSubdirectory(disk, candidate, "Contents/MacOS", start);
    if !ok { return; }
    ok := MakeSubdirectory(disk, candidate, "Contents/Resources", start);
    if !ok { return; }
    ok := WriteFile(disk, candidate, EXECUTABLE, binary, start);
    if !ok { return; }
    ok := WriteFile(disk, candidate, PLIST, template.Render(version), start);
    if !ok { return; }
    ok := WriteFile(disk, candidate, ENTITLEMENTS, entitlements, start);
    if !ok { return; }
    assert disk.entries[candidate] == Built(binary, template.Render(version), entitlements);
    ok := SignCandidate(disk, candidate, identity, ENTITLEMENTS, start);
    if !ok { return; }
    var state := InspectBundle(disk, candidate, version);
    ok := state.Ready?;
  }

  // ---- The swap ----

  /**
    * The old bundle is intact at the destination or at a backup, or a bundle judged ready is at the destination;
    * if nothing was there before, nothing or a ready bundle is.
    */
  ghost predicate Safe(now: Entries, before: Entries, destination: Path, pid: nat, version: string, verified: set<Entry>) {
    || (destination in now && WellFormed(now[destination], version) && now[destination] in verified)
    || (destination in before && destination in now && now[destination] == before[destination])
    || (destination in before && AtBackup(now, before[destination], destination, pid))
    || (destination !in before && destination !in now)
  }

  ghost predicate AtBackup(now: Entries, bundle: Entry, destination: Path, pid: nat) {
    exists backup :: backup in Siblings(destination, Backup, pid) && backup in now && now[backup] == bundle
  }

  /** Whatever stands at one of the places stood there before. */
  ghost predicate NothingNew(now: Entries, before: Entries, places: set<Path>) {
    forall q | q in places && q in now :: q in before && now[q] == before[q]
  }

  ghost predicate Untouched(now: Entries, before: Entries, q: Path) {
    (q in now <==> q in before) && (q in now ==> now[q] == before[q])
  }

  /** How things stand at the destination when the swap has ended in `r`. */
  ghost predicate SwapOutcome(r: Option<InstallError>, now: Entries, before: Entries, candidate: Path, destination: Path, pid: nat)
    requires candidate in before
  {
    match r
    case None =>
      && destination in now && now[destination] == before[candidate]
      && candidate !in now && NothingNew(now, before, Siblings(destination, Backup, pid))
    case Some(RemovingBackup) => destination in now && now[destination] == before[candidate] && candidate !in now
    case Some(Restoring) =>
      destination in before && destination !in now && AtBackup(now, before[destination], destination, pid)
    case Some(_) => Untouched(now, before, destination)
  }

  /** The candidate, the destination and the backups are three different things. */
  ghost predicate Apart(candidate: Path, destination: Path, pid: nat) {
    && candidate != destination
    && candidate !in Siblings(destination, Backup, pid)
    && destination !in Siblings(destination, Backup, pid)
  }

  /** Everything a swap may do to the disk: safe states only, and nothing outside its own places. */
  ghost predicate Sound(now: Entries, before: Entries, candidate: Path, destination: Path, pid: nat,
                        version: string, verified: set<Entry>)
  {
    && Safe(now, before, destination, pid, version, verified)
    && AgreeOff(now, before, {candidate, destination} + Siblings(destination, Backup, pid))
  }

  ghost predicate SoundSince(history: seq<Entries>, from: nat, before: Entries, candidate: Path, destination: Path, pid: nat,
                             version: string, verified: set<Entry>)
  {
    forall k | from <= k < |history| :: Sound(history[k], before, candidate, destination, pid, version, verified)
  }

  /** A swap of a ready candidate, seen as the states it goes through. */
  datatype Swap = Swap(before: Entries, candidate: Path, destination: Path, backup: Path, pid: nat, version: string,
                       verified: set<Entry>)
  {
    ghost predicate Valid() {
      && Apart(candidate, destination, pid)
      && backup in Siblings(destination, Backup, pid)
      && candidate in before && WellFormed(before[candidate], version) && before[candidate] in verified
    }

    ghost predicate IsSound(now: Entries) {
      Sound(now, before, candidate, destination, pid, version, verified)
    }

    /** The candidate has been moved to where nothing was. */
    ghost function Installed(): Entries
      requires candidate in before
    {
      (before - {candidate})[destination := before[candidate]]
    }

    /** The old bundle is at the backup. */
    ghost function Aside(): Entries
      requires destination in before
    {
      (before - {destination})[backup := before[destination]]
    }

    /** And the candidate at the destination. */
    ghost function Swapped(): Entries
      requires destination in before && candidate in before
    {
      (Aside() - {candidate})[destination := before[candidate]]
    }

    /** The old bundle has been moved back. */
    ghost function Restored(): Entries
      requires destination in before
    {
      (Aside() - {backup})[destination := before[destination]]
    }

    lemma IsValid()
      requires Valid()
      ensures backup != candidate && backup != destination && candidate != destination
    {}

    lemma InstalledIsSound()
      requires Apart(candidate, destination, pid)
      requires candidate in before && WellFormed(before[candidate], version) && before[candidate] in verified
      ensures IsSound(Installed()) && SwapOutcome(None, Installed(), before, candidate, destination, pid)
    {}

    lemma AsideIsSound()
      requires Valid() && destination in before
      ensures IsSound(Aside()) && SwapOutcome(Some(Restoring), Aside(), before, candidate, destination, pid)
    {
      assert AtBackup(Aside(), before[destination], destination, pid);
    }

    lemma RestoredIsSound()
      requires Valid() && destination in before
      ensures IsSound(Restored()) && SwapOutcome(Some(Swapping), Restored(), before, candidate, destination, pid)
    {}

    lemma SwappedIsSound()
      requires Valid() && destination in before
      ensures IsSound(Swapped()) && SwapOutcome(Some(RemovingBackup), Swapped(), before, candidate, destination, pid)
    {}

    /** While the backup is taken away, the new bundle stays. */
    lemma CleaningIsSound(now: Entries)
      requires Valid() && destination in before && AgreeOff(now, Swapped(), {backup})
      ensures IsSound(now) && SwapOutcome(Some(RemovingBackup), now, before, candidate, destination, pid)
      ensures backup !in now ==> SwapOutcome(None, now, before, candidate, destination, pid)
    {
      SwappedIsSound();
      assert destination !in {backup} && candidate !in {backup};
      assert forall q | q in Siblings(destination, Backup, pid) && q != backup :: q !in {backup};
    }

    lemma CleaningStaysSound(history: seq<Entries>, from: nat)
      requires Valid() && destination in before && forall k | from <= k < |history| :: AgreeOff(history[k], Swapped(), {backup})
      ensures forall k | from <= k < |history| :: IsSound(history[k])
    {
      hide AgreeOff, Swap.IsSound, Swap.Swapped, Swap.Valid;
      forall k | from <= k < |history|
        ensures IsSound(history[k])
      {
        CleaningIsSound(history[k]);
      }
    }
  }

  lemma NoChange(before: Entries, candidate: Path, destination: Path, pid: nat)
    requires candidate in before
    ensures forall e: InstallError | !e.Restoring? && !e.RemovingBackup? ::
      SwapOutcome(Some(e), before, before, candidate, destination, pid)
  {}

  /** Nothing stands at the destination, or a directory that can be moved to a free name. */
  ghost predicate MayBeReplaced(entries: Entries, destination: Path, pid: nat) {
    destination in entries ==> entries[destination].Dir? && SomeFree(entries, destination, Backup, pid)
  }

  ghost predicate SomeFree(entries: Entries, destination: Path, l: Label, pid: nat) {
    exists n: nat :: n < ATTEMPTS && Sibling(destination, l, pid, n) !in entries
  }

  /** Puts a judged candidate at the destination, keeping the old bundle until it is there. */
  method ReplaceVerifiedCandidate(disk: Disk, candidate: Path, destination: Path, pid: nat, ghost version: string)
    returns (r: Option<InstallError>)
    requires disk.Valid() && candidate in disk.entries && disk.IsReady(disk.entries[candidate], version)
    modifies disk`entries, disk`history, disk`renamings
    ensures disk.Valid() && disk.verified == old(disk.verified) && old(disk.history) <= disk.history
    ensures r != None ==> !r.value.CreatingParent? && !r.value.CreatingCandidate? && !r.value.Preparing?
    ensures r == Some(NoSibling) ==> disk.renamings == old(disk.renamings)
    ensures r == Some(NoSibling) || disk.renamings == old(disk.renamings) + [Renaming(candidate, destination, r == None)]
            || exists backup :: backup in Siblings(destination, Backup, pid) &&
                 disk.renamings == Renamed(old(disk.renamings), r, candidate, destination, backup)
    ensures Apart(candidate, destination, pid) && candidate in disk.entries ==> disk.entries[candidate] == old(disk.entries)[candidate]
    ensures Apart(candidate, destination, pid) ==>
      && SoundSince(disk.history, |old(disk.history)|, old(disk.entries), candidate, destination, pid, version, disk.verified)
      && SwapOutcome(r, disk.entries, old(disk.entries), candidate, destination, pid)
      && (r == None && disk.reliable ==>
            disk.entries == (old(disk.entries) - {candidate})[destination := old(disk.entries)[candidate]])
    ensures Apart(candidate, destination, pid) && disk.obliging && MayBeReplaced(old(disk.entries), destination, pid) ==> r == None
  {
    hide Sound, Apart, SwapOutcome, Siblings, WellFormed;
    ghost var before := disk.entries;
    NoChange(before, candidate, destination, pid);
    var occupied := disk.Exists(destination);
    if !occupied {
      ghost var direct := Swap(before, candidate, destination, destination, pid, version, disk.verified);
      if Apart(candidate, destination, pid) { direct.InstalledIsSound(); }
      var installed := disk.Rename(candidate, destination);
      return if installed then None else Some(InstallingNew);
    }
    var spare := UnusedSiblingPath(disk, destination, Backup, pid);
    if spare.None? { return Some(NoSibling); }
    var backup := spare.value;
    ghost var swap := Swap(before, candidate, destination, backup, pid, version, disk.verified);
    r := SwapIn(disk, candidate, destination, backup, swap);
  }

  /** Which calls of `rename` a swap makes, what they answer, and what that has to do with the result. */
  ghost function Renamed(earlier: seq<Renaming>, r: Option<InstallError>, candidate: Path, destination: Path, backup: Path): seq<Renaming> {
    match r
    case Some(MovingAside) => earlier + [Renaming(destination, backup, false)]
    case Some(Swapping) =>
      earlier + [Renaming(destination, backup, true)] + [Renaming(candidate, destination, false)] + [Renaming(backup, destination, true)]
    case Some(Restoring) =>
      earlier + [Renaming(destination, backup, true)] + [Renaming(candidate, destination, false)] + [Renaming(backup, destination, false)]
    case _ => earlier + [Renaming(destination, backup, true)] + [Renaming(candidate, destination, true)]
  }

  /** The old bundle goes to the backup, the candidate in, and the backup away; or the old bundle comes back. */
  method SwapIn(disk: Disk, candidate: Path, destination: Path, backup: Path, ghost swap: Swap) returns (r: Option<InstallError>)
    requires disk.Valid() && candidate in disk.entries && destination in disk.entries
    requires swap.before == disk.entries && swap.candidate == candidate && swap.destination == destination && swap.backup == backup
    modifies disk`entries, disk`history, disk`renamings
    ensures disk.Valid() && disk.verified == old(disk.verified) && old(disk.history) <= disk.history
    ensures r == None || r == Some(MovingAside) || r == Some(Swapping) || r == Some(Restoring) || r == Some(RemovingBackup)
    ensures disk.renamings == Renamed(old(disk.renamings), r, candidate, destination, backup)
    ensures swap.Valid() && candidate in disk.entries ==> disk.entries[candidate] == old(disk.entries)[candidate]
    ensures swap.Valid() ==>
      && (forall k | |old(disk.history)| <= k < |disk.history| :: swap.IsSound(disk.history[k]))
      && SwapOutcome(r, disk.entries, old(disk.entries), candidate, destination, swap.pid)
      && (r == None && (backup !in old(disk.entries)) ==> disk.entries == swap.Installed())
      && (disk.obliging && old(disk.entries)[destination].Dir? && backup !in old(disk.entries) ==> r == None)
  {
    hide Swap.IsSound, SwapOutcome, Swap.Valid, AgreeOff;
    NoChange(disk.entries, candidate, destination, swap.pid);
    if swap.Valid() { swap.IsValid(); swap.AsideIsSound(); swap.RestoredIsSound(); swap.SwappedIsSound(); }
    var moved := disk.Rename(destination, backup);
    if !moved { return Some(MovingAside); }
    var swapped := disk.Rename(candidate, destination);
    if !swapped {
      var restored := disk.Rename(backup, destination);
      return Some(if restored then Swapping else Restoring);
    }
    ghost var soFar := |disk.history|;
    var removed := disk.RemoveDirAll(backup);
    if swap.Valid() {
      swap.CleaningStaysSound(disk.history, soFar);
      swap.CleaningIsSound(disk.entries);
    }
    return if removed then None else Some(RemovingBackup);
  }

  // ---- The installation ----

  /** How things stand when the installation has ended in `r`. */
  ghost predicate InstallOutcome(r: Option<InstallError>, now: Entries, before: Entries, destination: Path, pid: nat,
                                 version: string, verified: set<Entry>)
  {
    match r
    case None =>
      && destination in now && WellFormed(now[destination], version) && now[destination] in verified
      && NothingNew(now, before, Siblings(destination, Install, pid) + Siblings(destination, Backup, pid))
    case Some(RemovingBackup) =>
      destination in now && WellFormed(now[destination], version) && now[destination] in verified
    case Some(Restoring) =>
      destination in before && destination !in now && AtBackup(now, before[destination], destination, pid)
    case Some(_) => Untouched(now, before, destination)
  }

  /** Safe, and nothing else on the disk has changed. */
  ghost predicate Transactional(now: Entries, before: Entries, destination: Path, pid: nat, version: string, verified: set<Entry>) {
    && Safe(now, before, destination, pid, version, verified)
    && AgreeOff(now, before, {destination} + Siblings(destination, Install, pid) + Siblings(destination, Backup, pid))
  }

  ghost predicate TransactionalSince(history: seq<Entries>, from: nat, before: Entries, destination: Path, pid: nat,
                                     version: string, verified: set<Entry>)
  {
    forall k | from <= k < |history| :: Transactional(history[k], before, destination, pid, version, verified)
  }

  /** A name the installer does not keep for itself is none of its siblings, and those are all different. */
  lemma UnreservedIsApart(destination: Path, candidate: Path, pid: nat)
    requires !Reserved(destination, pid) && candidate in Siblings(destination, Install, pid)
    ensures Apart(candidate, destination, pid) && destination !in Siblings(destination, Install, pid)
  {
    var m :| 0 <= m < ATTEMPTS && candidate == Sibling(destination, Install, pid, m);
    forall n | 0 <= n < ATTEMPTS
      ensures candidate != Sibling(destination, Backup, pid, n)
    {
      SiblingsDiffer(destination, pid, m, n);
    }
  }

  /** Whatever happens to the candidate alone is harmless. */
  lemma CandidateIsHarmless(now: Entries, before: Entries, candidate: Path, destination: Path, pid: nat,
                            version: string, verified: set<Entry>)
    requires candidate in Siblings(destination, Install, pid) && Apart(candidate, destination, pid)
    requires AgreeOff(now, before, {candidate})
    ensures Transactional(now, before, destination, pid, version, verified)
    ensures Untouched(now, before, destination)
  {
    assert destination !in {candidate};
  }

  /** Sound steps of a swap stay harmless when the candidate was made, or is then removed. */
  lemma SwapIsTransactional(now: Entries, mid: Entries, start: Entries, before: Entries, candidate: Path, destination: Path,
                            pid: nat, version: string, verified: set<Entry>)
    requires candidate in Siblings(destination, Install, pid) && Apart(candidate, destination, pid)
    requires AgreeOff(start, before, {candidate}) && AgreeOff(now, mid, {candidate})
    requires Sound(mid, start, candidate, destination, pid, version, verified)
    ensures Transactional(now, before, destination, pid, version, verified)
  {
    hide WellFormed;
    assert Untouched(start, before, destination) && Untouched(now, mid, destination) by {
      assert destination !in {candidate};
    }
    if destination in before && AtBackup(mid, before[destination], destination, pid) {
      BackupStays(now, mid, before[destination], candidate, destination, pid);
    }
    forall q | q !in {destination} + Siblings(destination, Install, pid) + Siblings(destination, Backup, pid)
      ensures Untouched(now, before, q)
    {
      assert q !in {candidate} && q !in {candidate, destination} + Siblings(destination, Backup, pid);
    }
  }

  lemma BackupStays(now: Entries, mid: Entries, bundle: Entry, candidate: Path, destination: Path, pid: nat)
    requires Apart(candidate, destination, pid) && AgreeOff(now, mid, {candidate}) && AtBackup(mid, bundle, destination, pid)
    ensures AtBackup(now, bundle, destination, pid)
  {
    var backup :| backup in Siblings(destination, Backup, pid) && backup in mid && mid[backup] == bundle;
    assert backup !in {candidate};
  }

  lemma OutcomeOfSwap(r: Option<InstallError>, now: Entries, mid: Entries, start: Entries, before: Entries, candidate: Path,
                      destination: Path, pid: nat, version: string, verified: set<Entry>)
    requires candidate in Siblings(destination, Install, pid) && Apart(candidate, destination, pid)
    requires AgreeOff(start, before, {candidate}) && AgreeOff(now, mid, {candidate}) && (r == None ==> now == mid)
    requires candidate in start
    requires r == None || r == Some(RemovingBackup) ==> WellFormed(start[candidate], version) && start[candidate] in verified
    requires AgreeOff(mid, start, {candidate, destination} + Siblings(destination, Backup, pid))
    requires destination !in Siblings(destination, Install, pid)
    requires SwapOutcome(r, mid, start, candidate, destination, pid)
    ensures InstallOutcome(r, now, before, destination, pid, version, verified)
  {
    hide WellFormed;
    assert Untouched(start, before, destination) && Untouched(now, mid, destination) by {
      assert destination !in {candidate};
    }
    if r == Some(Restoring) {
      BackupStays(now, mid, start[destination], candidate, destination, pid);
    }
    if r == None {
      forall q | q in Siblings(destination, Install, pid) + Siblings(destination, Backup, pid) && q in now
        ensures q in before && now[q] == before[q]
      {
        assert q != candidate && q != destination;
        assert q !in {candidate};
        if q !in Siblings(destination, Backup, pid) {
          assert q !in {candidate, destination} + Siblings(destination, Backup, pid);
        }
      }
    }
  }

  /** An installation: the candidate is filled, the swap is made, the candidate is taken away. */
  lemma HistoryIsTransactional(history: seq<Entries>, filledFrom: nat, swapFrom: nat, cleanFrom: nat,
                               before: Entries, filled: Entries, mid: Entries, candidate: Path, destination: Path, pid: nat,
                               version: string, verified: set<Entry>)
    requires candidate in Siblings(destination, Install, pid) && Apart(candidate, destination, pid)
    requires filledFrom <= swapFrom <= cleanFrom <= |history|
    requires OnlyAt(history[..swapFrom], filledFrom, before, {candidate}) && AgreeOff(filled, before, {candidate})
    requires SoundSince(history[..cleanFrom], swapFrom, filled, candidate, destination, pid, version, verified)
    requires OnlyAt(history, cleanFrom, mid, {candidate})
    requires mid == filled || Sound(mid, filled, candidate, destination, pid, version, verified)
    ensures TransactionalSince(history, filledFrom, before, destination, pid, version, verified)
  {
    hide Sound, Transactional, Apart, Siblings;
    forall k | filledFrom <= k < |history|
      ensures Transactional(history[k], before, destination, pid, version, verified)
    {
      if k < swapFrom {
        assert history[k] == history[..swapFrom][k];
        CandidateIsHarmless(history[k], before, candidate, destination, pid, version, verified);
      } else if k < cleanFrom {
        assert history[k] == history[..cleanFrom][k];
        SwapIsTransactional(history[k], history[k], filled, before, candidate, destination, pid, version, verified);
      } else if mid == filled {
        CandidateIsHarmless(history[k], before, candidate, destination, pid, version, verified);
      } else {
        SwapIsTransactional(history[k], mid, filled, before, candidate, destination, pid, version, verified);
      }
    }
  }

  lemma SoundAgrees(now: Entries, before: Entries, candidate: Path, destination: Path, pid: nat, version: string, verified: set<Entry>)
    requires now == before || Sound(now, before, candidate, destination, pid, version, verified)
    ensures AgreeOff(now, before, {candidate, destination} + Siblings(destination, Backup, pid))
  {}

  /** The promise of an installation of `destination` that began in `before` and ended in `r`. */
  ghost predicate Kept(r: Option<InstallError>, disk: Disk, from: nat, before: Entries, destination: Path, pid: nat, version: string)
    reads disk
  {
    && TransactionalSince(disk.history, from, before, destination, pid, version, disk.verified)
    && InstallOutcome(r, disk.entries, before, destination, pid, version, disk.verified)
    && (r == None && disk.reliable && destination in disk.entries ==>
          disk.entries == before[destination := disk.entries[destination]])
  }

  lemma Conclude(r: Option<InstallError>, disk: Disk, filledFrom: nat, swapFrom: nat, cleanFrom: nat,
                 before: Entries, filled: Entries, mid: Entries, candidate: Path, destination: Path, pid: nat, version: string)
    requires !Reserved(destination, pid) && candidate in Siblings(destination, Install, pid)
    requires disk.Valid() && filledFrom <= swapFrom <= cleanFrom <= |disk.history|
    requires OnlyAt(disk.history[..swapFrom], filledFrom, before, {candidate}) && AgreeOff(filled, before, {candidate})
    requires SoundSince(disk.history[..cleanFrom], swapFrom, filled, candidate, destination, pid, version, disk.verified)
    requires OnlyAt(disk.history, cleanFrom, mid, {candidate}) && AgreeOff(disk.entries, mid, {candidate})
    requires mid == filled || Sound(mid, filled, candidate, destination, pid, version, disk.verified)
    requires candidate in filled && SwapOutcome(r, mid, filled, candidate, destination, pid)
    requires r == None ==> disk.entries == mid
    requires r == None || r == Some(RemovingBackup) ==> disk.IsReady(filled[candidate], version)
    requires r == None && disk.reliable ==> mid == (filled - {candidate})[destination := filled[candidate]] && candidate !in before
    ensures Kept(r, disk, filledFrom, before, destination, pid, version)
  {
    hide Sound, Transactional, Apart, Siblings, OnlyAt, SwapOutcome, InstallOutcome, WellFormed, SoundSince, TransactionalSince, Reserved;
    UnreservedIsApart(destination, candidate, pid);
    HistoryIsTransactional(disk.history, filledFrom, swapFrom, cleanFrom, before, filled, mid, candidate, destination, pid,
                           version, disk.verified);
    SoundAgrees(mid, filled, candidate, destination, pid, version, disk.verified);
    OutcomeOfSwap(r, disk.entries, mid, filled, before, candidate, destination, pid, version, disk.verified);
  }

  /** Names are free for the temporaries, and the destination for the bundle. */
  ghost predicate Installable(entries: Entries, destination: Path, pid: nat) {
    SomeFree(entries, destination, Install, pid) && MayBeReplaced(entries, destination, pid)
  }

  lemma CandidateIsNotInTheWay(now: Entries, before: Entries, candidate: Path, destination: Path, pid: nat)
    requires Apart(candidate, destination, pid) && AgreeOff(now, before, {candidate})
    requires MayBeReplaced(before, destination, pid)
    ensures MayBeReplaced(now, destination, pid)
  {}

  /** When the candidate has been taken away again, none of its names has anything new. */
  lemma CandidateIsGone(now: Entries, before: Entries, filled: Entries, mid: Entries, candidate: Path, destination: Path, pid: nat,
                        version: string, verified: set<Entry>)
    requires !Reserved(destination, pid) && candidate in Siblings(destination, Install, pid) && candidate !in now
    requires AgreeOff(filled, before, {candidate}) && AgreeOff(now, mid, {candidate})
    requires mid == filled || Sound(mid, filled, candidate, destination, pid, version, verified)
    ensures NothingNew(now, before, Siblings(destination, Install, pid))
  {
    hide WellFormed, Reserved;
    UnreservedIsApart(destination, candidate, pid);
    SoundAgrees(mid, filled, candidate, destination, pid, version, verified);
    hide Sound;
    forall q | q in Siblings(destination, Install, pid) && q in now
      ensures q in before && now[q] == before[q]
    {
      assert q != candidate && q !in {candidate};
      UnreservedIsApart(destination, q, pid);
      assert q !in {candidate, destination} + Siblings(destination, Backup, pid);
    }
  }

  lemma InstalledStays(r: Option<InstallError>, now: Entries, mid: Entries, filled: Entries, candidate: Path, destination: Path, pid: nat)
    requires candidate in filled && SwapOutcome(r, mid, filled, candidate, destination, pid)
    requires r == None || r == Some(RemovingBackup)
    requires Apart(candidate, destination, pid) && AgreeOff(now, mid, {candidate})
    ensures destination in now && now[destination] == filled[candidate]
  {
    assert destination !in {candidate};
  }

  /** What is installed is what `codesign`, called once, made of the built bundle. */
  ghost predicate InstalledAsBuilt(disk: Disk, from: nat, destination: Path, pid: nat, identity: string, built: Entry)
    reads disk
  {
    && |disk.signings| == from + 1 && destination in disk.entries
    && var signing := disk.signings[from];
       && signing.bundle in Siblings(destination, Install, pid) && signing.identity == identity
       && signing.entitlements == "Contents/Resources/entitlements.plist" && signing.before == built
       && disk.entries[destination] == signing.after
  }

  /** Fills, judges and swaps in a candidate that was just created; on failure takes it away again. */
  method FillAndSwap(disk: Disk, candidate: Path, destination: Path, binary: string, identity: string, pid: nat, version: string,
                     template: PlistTemplate, entitlements: string, ghost start: seq<Entries>)
    returns (r: Option<InstallError>)
    requires Confined(disk, candidate, start) && candidate in Siblings(destination, Install, pid)
    requires disk.entries[candidate] == Dir(map[], {})
    requires disk.reliable ==> candidate !in start[|start| - 1]
    modifies disk
    ensures disk.Valid() && start <= disk.history
    ensures !Reserved(destination, pid) ==>
      && Kept(r, disk, |start|, start[|start| - 1], destination, pid, version)
      && (r == None || r == Some(RemovingBackup) ==>
            InstalledAsBuilt(disk, |old(disk.signings)|, destination, pid, identity, Built(binary, template.Render(version), entitlements)))
      && (disk.obliging && MayBeReplaced(start[|start| - 1], destination, pid) && template.Fits() ==> (r == None <==> Sayable(version)))
      && (disk.obliging && r != None ==> NothingNew(disk.entries, start[|start| - 1], Siblings(destination, Install, pid)))
  {
    hide Kept, Sound, SwapOutcome, Siblings, WellFormed, Apart, Reserved, AgreeOff, MayBeReplaced, PlistTemplate.Fits, Sayable;
    var prepared := PrepareCandidate(disk, candidate, binary, identity, template, entitlements, version, start);
    ghost var before, filled, filledBy := start[|start| - 1], disk.entries, disk.history;
    NoChange(filled, candidate, destination, pid);
    r := Some(Preparing);
    if prepared {
      if !Reserved(destination, pid) && MayBeReplaced(before, destination, pid) {
        UnreservedIsApart(destination, candidate, pid);
        CandidateIsNotInTheWay(filled, before, candidate, destination, pid);
      }
      r := ReplaceVerifiedCandidate(disk, candidate, destination, pid, version);
    }
    ghost var mid, swappedBy := disk.entries, disk.history;
    if r != None {
      var _ := disk.RemoveDirAll(candidate);
    }
    if !Reserved(destination, pid) {
      UnreservedIsApart(destination, candidate, pid);
      AgreesWithItself(mid, {candidate});
      if r == None || r == Some(RemovingBackup) {
        InstalledStays(r, disk.entries, mid, filled, candidate, destination, pid);
      }
      assert disk.history[..|filledBy|] == filledBy && disk.history[..|swappedBy|] == swappedBy;
      if disk.obliging && r != None {
        CandidateIsGone(disk.entries, before, filled, mid, candidate, destination, pid, version, disk.verified);
      }
      Conclude(r, disk, |start|, |filledBy|, |swappedBy|, before, filled, mid, candidate, destination, pid, version);
    }
  }

  /** Builds and judges a candidate beside the destination, then swaps it in. */
  method InstallBundle(disk: Disk, binary: string, given: Path, identity: string, pid: nat, version: string,
                       template: PlistTemplate, entitlements: string)
    returns (r: Option<InstallError>)
    requires disk.Valid()
    modifies disk
    ensures disk.Valid() && old(disk.history) <= disk.history
    ensures var destination := Path(ParentOf(given), given.name);
      !Reserved(destination, pid) ==>
        && Kept(r, disk, |old(disk.history)|, old(disk.entries), destination, pid, version)
        && (r == None || r == Some(RemovingBackup) ==>
              InstalledAsBuilt(disk, |old(disk.signings)|, destination, pid, identity,
                               Built(binary, template.Render(version), entitlements)))
        && (disk.obliging && r != None ==> NothingNew(disk.entries, old(disk.entries), Siblings(destination, Install, pid)))
        && (disk.obliging && Installable(old(disk.entries), destination, pid) && template.Fits() ==>
              (r == None <==> Sayable(version)))
  {
    hide Kept, Siblings, Reserved, AgreeOff, MayBeReplaced, PlistTemplate.Fits, Sayable, Confined;
    var destination := Path(ParentOf(given), given.name);
    ghost var from := |disk.history|;
    var parented := disk.Attempt();
    if !parented { NothingHappened(CreatingParent, disk, from, destination, pid, version); return Some(CreatingParent); }
    var spare := UnusedSiblingPath(disk, destination, Install, pid);
    if spare.None? { NothingHappened(NoSibling, disk, from, destination, pid, version); return Some(NoSibling); }
    var candidate := spare.value;
    ghost var start := disk.history;
    var created := disk.CreateDir(candidate);
    if !created { NothingHappened(CreatingCandidate, disk, from, destination, pid, version); return Some(CreatingCandidate); }
    CreatedIsConfined(disk, candidate, start);
    r := FillAndSwap(disk, candidate, destination, binary, identity, pid, version, template, entitlements, start);
  }

  lemma CreatedIsConfined(disk: Disk, candidate: Path, start: seq<Entries>)
    requires disk.Valid() && start != [] && disk.history == start + [disk.entries]
    requires disk.entries == start[|start| - 1][candidate := Dir(map[], {})]
    ensures Confined(disk, candidate, start)
  {}

  lemma AgreesWithItself(now: Entries, places: set<Path>)
    ensures AgreeOff(now, now, places)
  {}

  lemma NothingHappened(e: InstallError, disk: Disk, from: nat, destination: Path, pid: nat, version: string)
    requires from == |disk.history| && !e.Restoring? && !e.RemovingBackup?
    ensures Kept(Some(e), disk, from, disk.entries, destination, pid, version)
  {}
}
