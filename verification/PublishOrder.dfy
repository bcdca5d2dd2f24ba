/** The publish planner (scripts/publish-order.py): which packages go to the registry, and in which order. */
module PublishOrder {
  import opened Wrappers
  import opened Ordering

  /** A dependency's `kind` as `cargo metadata` reports it: absent, "build", "dev", or something else. */
  datatype Kind = Normal | Build | Dev | Unrecognised(name: string)

  datatype Dependency = Dependency(name: string, path: Option<string>, kind: Kind) {
    /** The entry has a non-empty path and a kind that must be on the registry first. */
    predicate Blocks() {
      path.Some? && path.value != "" && !kind.Unrecognised?
    }
  }

  /** `publish` is absent when any registry is allowed, and otherwise the list of allowed ones. */
  datatype Package = Package(publish: Option<seq<string>>, dependencies: seq<Dependency>)

  type Workspace = map<string, Package>

  datatype Refusal =
    | NothingPublishable
    | NotClosed(leaks: seq<(string, string)>)
    | Cyclic(stuck: seq<string>)

  function Publishable(packages: Workspace): set<string> {
    set name | name in packages && packages[name].publish.None?
  }

  function WorkspaceEdges(packages: Workspace, name: string): set<string>
    requires name in packages
  {
    set d | d in packages[name].dependencies && d.Blocks() && d.name in packages :: d.name
  }

  // ---- The dependency graph and its orders ----

  /** Every node's blockers; an edge leads from a package to one it waits for. */
  type Graph = map<string, set<string>>

  function BlockersWithin(packages: Workspace, publishSet: set<string>): Graph
    requires publishSet <= packages.Keys
  {
    map name | name in publishSet :: WorkspaceEdges(packages, name) * publishSet
  }

  ghost predicate Distinct<T>(t: seq<T>) {
    forall i, j | 0 <= i < j < |t| :: t[i] != t[j]
  }

  /** Every node exactly once, each after all of its blockers. */
  ghost predicate Topological(g: Graph, t: seq<string>) {
    && Distinct(t)
    && Elements(t) == g.Keys
    && forall i | 0 <= i < |t| :: t[i] in g && g[t[i]] <= Elements(t[..i])
  }

  /** A walk along blocker edges through nodes of `s`. */
  ghost predicate Walk(g: Graph, s: set<string>, w: seq<string>) {
    && (forall i | 0 <= i < |w| :: w[i] in s && w[i] in g)
    && (forall i | 0 < i < |w| :: w[i] in g[w[i - 1]])
  }

  /** A walk of at least one edge that ends where it began; a self-dependency is one. */
  ghost predicate Cycle(g: Graph, s: set<string>, c: seq<string>) {
    Walk(g, s, c) && |c| >= 2 && c[0] == c[|c| - 1]
  }

  ghost predicate HasCycle(g: Graph, s: set<string>) {
    exists c :: Cycle(g, s, c)
  }

  /** Every node of `s` waits for a node of `s`. */
  ghost predicate Blocked(g: Graph, s: set<string>) {
    s <= g.Keys && forall name | name in s :: g[name] * s != {}
  }

  /** All that can never be published: the largest blocked set. */
  ghost predicate Stuck(g: Graph, s: set<string>) {
    Blocked(g, s) && forall u | Blocked(g, u) :: u <= s
  }

  /** `a` is smaller at the first place where the two differ. */
  ghost predicate Precedes(a: seq<string>, b: seq<string>) {
    exists k :: PrecedesAt(a, b, k)
  }

  ghost predicate PrecedesAt(a: seq<string>, b: seq<string>, k: int) {
    0 <= k < |a| && k < |b| && a[..k] == b[..k] && Less(a[k], b[k])
  }

  ghost predicate LeastTopological(g: Graph, t: seq<string>) {
    Topological(g, t) && forall u | Topological(g, u) :: u == t || Precedes(t, u)
  }

  /** No blocked-by relation leaves the publish set. */
  ghost predicate Closed(packages: Workspace, publishSet: set<string>)
    requires publishSet <= packages.Keys
  {
    forall name | name in publishSet :: WorkspaceEdges(packages, name) <= publishSet
  }

  // ---- In terms of the manifests ----

  /** An entry of the package's own manifest has the dependency's name, a path, and a kind that is built, tested or run. */
  ghost predicate Requires(packages: Workspace, name: string, dependency: string)
    requires name in packages
  {
    exists entry | entry in packages[name].dependencies ::
      && entry.name == dependency
      && (exists path :: entry.path == Some(path) && path != "")
      && (entry.kind == Normal || entry.kind == Build || entry.kind == Dev)
  }

  /** Every member of the set once, and before it whatever of the set its manifest requires. */
  ghost predicate Arranged(packages: Workspace, members: set<string>, t: seq<string>) {
    && (forall name :: name in members <==> exists i | 0 <= i < |t| :: t[i] == name)
    && (forall i, j | 0 <= i < j < |t| :: t[i] != t[j])
    && (forall i, name | 0 <= i < |t| && name in members && t[i] in packages && Requires(packages, t[i], name) ::
          exists j | 0 <= j < i :: t[j] == name)
  }

  lemma EdgesAreRequired(packages: Workspace, name: string, dependency: string)
    requires name in packages
    ensures dependency in WorkspaceEdges(packages, name) <==> dependency in packages && Requires(packages, name, dependency)
  {}

  /** No arrangement comes before this one. */
  ghost predicate FirstArranged(packages: Workspace, members: set<string>, t: seq<string>) {
    Arranged(packages, members, t) && forall u | Arranged(packages, members, u) :: u == t || Precedes(t, u)
  }

  /** Every package of `s` requires one of `s`. */
  ghost predicate Waiting(packages: Workspace, s: set<string>) {
    forall name | name in s && name in packages :: exists other | other in s :: Requires(packages, name, other)
  }

  /** Each package of the round requires the next one, and the last is the first again. */
  ghost predicate Round(packages: Workspace, s: set<string>, c: seq<string>) {
    && |c| >= 2 && c[0] == c[|c| - 1] && (forall i | 0 <= i < |c| :: c[i] in s)
    && forall i | 0 < i < |c| && c[i - 1] in packages :: Requires(packages, c[i - 1], c[i])
  }

  /** A dependency that would have to be on the registry and is not published. */
  ghost predicate Leaks(packages: Workspace, members: set<string>, name: string, dependency: string) {
    && name in members && name in packages && dependency in packages && dependency !in members
    && Requires(packages, name, dependency)
  }

  lemma FirstArrangedIsLeast(packages: Workspace, members: set<string>, t: seq<string>)
    requires members <= packages.Keys
    ensures LeastTopological(BlockersWithin(packages, members), t) <==> FirstArranged(packages, members, t)
  {
    hide Topological, Arranged, Precedes;
    var g := BlockersWithin(packages, members);
    forall u
      ensures Topological(g, u) <==> Arranged(packages, members, u)
    {
      TopologicalIsArranged(packages, members, u);
    }
  }

  lemma StuckIsWaiting(packages: Workspace, members: set<string>, s: set<string>)
    requires members <= packages.Keys
    ensures Stuck(BlockersWithin(packages, members), s)
            <==> s <= members && Waiting(packages, s) && forall u | u <= members && Waiting(packages, u) :: u <= s
  {
    hide Waiting, Blocked;
    var g := BlockersWithin(packages, members);
    forall u
      ensures Blocked(g, u) <==> u <= members && Waiting(packages, u)
    {
      BlockedIsWaiting(packages, members, u);
    }
  }

  lemma BlockedIsWaiting(packages: Workspace, members: set<string>, s: set<string>)
    requires members <= packages.Keys
    ensures Blocked(BlockersWithin(packages, members), s) <==> s <= members && Waiting(packages, s)
  {
    hide Requires, WorkspaceEdges;
    var g := BlockersWithin(packages, members);
    EdgesWithin(packages, members);
    if s <= members {
      forall name | name in s
        ensures g[name] * s != {} <==> exists other | other in s :: Requires(packages, name, other)
      {
        if g[name] * s != {} {
          var other :| other in g[name] * s;
        }
        if other :| other in s && Requires(packages, name, other) {
          assert other in g[name] * s;
        }
      }
    }
  }

  lemma CycleIsRound(packages: Workspace, members: set<string>, s: set<string>, c: seq<string>)
    requires members <= packages.Keys && s <= members
    ensures Cycle(BlockersWithin(packages, members), s, c) <==> Round(packages, s, c)
  {
    hide Requires, WorkspaceEdges;
    EdgesWithin(packages, members);
    var g := BlockersWithin(packages, members);
    forall i | 0 < i < |c| && c[i] in members && c[i - 1] in members
      ensures c[i] in g[c[i - 1]] <==> Requires(packages, c[i - 1], c[i])
    {}
  }

  lemma ClosedIsNoLeak(packages: Workspace, members: set<string>)
    requires members <= packages.Keys
    ensures Closed(packages, members) <==> forall name, dependency :: !Leaks(packages, members, name, dependency)
  {
    hide Requires, WorkspaceEdges;
    forall name, dependency | name in members
      ensures dependency in WorkspaceEdges(packages, name) && dependency !in members
              <==> Leaks(packages, members, name, dependency)
    {
      EdgesAreRequired(packages, name, dependency);
    }
    if Closed(packages, members) {
      forall name, dependency
        ensures !Leaks(packages, members, name, dependency)
      {}
    } else {
      var name :| name in members && !(WorkspaceEdges(packages, name) <= members);
      var dependency :| dependency in WorkspaceEdges(packages, name) && dependency !in members;
      assert Leaks(packages, members, name, dependency);
    }
  }

  /** What a manifest requires stands before it. */
  ghost predicate RequiredFirst(packages: Workspace, members: set<string>, t: seq<string>) {
    forall i, entry | 0 <= i < |t| && t[i] in packages && entry in packages[t[i]].dependencies
                      && entry.path.Some? && entry.path.value != ""
                      && (entry.kind == Normal || entry.kind == Build || entry.kind == Dev) && entry.name in members ::
      exists j | 0 <= j < i :: t[j] == entry.name
  }

  lemma ArrangedHasRequiredFirst(packages: Workspace, members: set<string>, t: seq<string>)
    requires Arranged(packages, members, t)
    ensures RequiredFirst(packages, members, t)
  {
    forall i, entry | 0 <= i < |t| && t[i] in packages && entry in packages[t[i]].dependencies
                      && entry.path.Some? && entry.path.value != ""
                      && (entry.kind == Normal || entry.kind == Build || entry.kind == Dev) && entry.name in members
      ensures exists j | 0 <= j < i :: t[j] == entry.name
    {
      assert Requires(packages, t[i], entry.name);
    }
  }

  lemma OrderOfManifests(packages: Workspace, members: set<string>, t: seq<string>)
    requires members <= packages.Keys && LeastTopological(BlockersWithin(packages, members), t)
    ensures FirstArranged(packages, members, t) && RequiredFirst(packages, members, t)
    ensures forall c :: !Round(packages, members, c)
  {
    hide Topological, Arranged, Cycle, Round, RequiredFirst;
    FirstArrangedIsLeast(packages, members, t);
    ArrangedHasRequiredFirst(packages, members, t);
    forall c
      ensures !Round(packages, members, c)
    {
      CycleIsRound(packages, members, members, c);
      OrderedIsAcyclic(BlockersWithin(packages, members), t, c);
      assert BlockersWithin(packages, members).Keys == members;
    }
  }

  lemma NoOrderOfManifests(packages: Workspace, members: set<string>, s: set<string>)
    requires members <= packages.Keys && Stuck(BlockersWithin(packages, members), s)
    requires HasCycle(BlockersWithin(packages, members), s)
    ensures s <= members && Waiting(packages, s) && forall u | u <= members && Waiting(packages, u) :: u <= s
    ensures exists c :: Round(packages, s, c) && Round(packages, members, c)
    ensures forall t :: !Arranged(packages, members, t)
  {
    hide Topological, Arranged, Round, Waiting, Stuck;
    var g := BlockersWithin(packages, members);
    StuckIsWaiting(packages, members, s);
    var c :| Cycle(g, s, c);
    assert Cycle(g, g.Keys, c);
    CycleIsRound(packages, members, s, c);
    CycleIsRound(packages, members, members, c);
    forall t
      ensures !Arranged(packages, members, t)
    {
      TopologicalIsArranged(packages, members, t);
      if Topological(g, t) { OrderedIsAcyclic(g, t, c); }
    }
  }

  lemma EdgesWithin(packages: Workspace, members: set<string>)
    requires members <= packages.Keys
    ensures forall name, dependency | name in members && dependency in members ::
      dependency in BlockersWithin(packages, members)[name] <==> Requires(packages, name, dependency)
  {
    hide WorkspaceEdges, Requires;
    forall name, dependency | name in members && dependency in members
      ensures dependency in BlockersWithin(packages, members)[name] <==> Requires(packages, name, dependency)
    {
      EdgesAreRequired(packages, name, dependency);
    }
  }

  lemma Prefixes(t: seq<string>)
    ensures forall i, name | 0 <= i <= |t| :: name in t[..i] <==> exists j | 0 <= j < i :: t[j] == name
    ensures forall i, name | 0 <= i <= |t| :: name in Elements(t[..i]) <==> name in t[..i]
    ensures forall name :: name in Elements(t) <==> exists j | 0 <= j < |t| :: t[j] == name
  {}

  lemma ArrangedWhenTopological(packages: Workspace, members: set<string>, t: seq<string>)
    requires members <= packages.Keys && Topological(BlockersWithin(packages, members), t)
    ensures Arranged(packages, members, t)
  {
    EdgesWithin(packages, members);
    Prefixes(t);
    hide Requires, BlockersWithin, Elements;
    var g := BlockersWithin(packages, members);
    assert g.Keys == members by { KeysAreMembers(packages, members); }
    forall i, name | 0 <= i < |t| && name in members && t[i] in packages && Requires(packages, t[i], name)
      ensures exists j | 0 <= j < i :: t[j] == name
    {
      assert t[i] in g && name in g[t[i]];
      assert name in t[..i];
    }
  }

  lemma KeysAreMembers(packages: Workspace, members: set<string>)
    requires members <= packages.Keys
    ensures var g := BlockersWithin(packages, members); g.Keys == members && forall name | name in g :: g[name] <= members
  {
    hide WorkspaceEdges;
  }

  lemma TopologicalWhenArranged(packages: Workspace, members: set<string>, t: seq<string>)
    requires members <= packages.Keys && Arranged(packages, members, t)
    ensures Topological(BlockersWithin(packages, members), t)
  {
    EdgesWithin(packages, members);
    KeysAreMembers(packages, members);
    Prefixes(t);
    hide Requires, BlockersWithin, Elements;
    var g := BlockersWithin(packages, members);
    forall i | 0 <= i < |t|
      ensures t[i] in g && g[t[i]] <= Elements(t[..i])
    {
      forall name | name in g[t[i]]
        ensures name in Elements(t[..i])
      {
        assert name in members && Requires(packages, t[i], name);
        assert name in t[..i];
      }
    }
  }

  /** The topological orders of the graph are the arrangements that the manifests allow. */
  lemma TopologicalIsArranged(packages: Workspace, members: set<string>, t: seq<string>)
    requires members <= packages.Keys
    ensures Topological(BlockersWithin(packages, members), t) <==> Arranged(packages, members, t)
  {
    hide BlockersWithin, Topological, Arranged;
    if Topological(BlockersWithin(packages, members), t) {
      ArrangedWhenTopological(packages, members, t);
    } else if Arranged(packages, members, t) {
      TopologicalWhenArranged(packages, members, t);
    }
  }

  // ---- Cycles ----

  lemma {:induction false} DistinctFitsIn<T>(t: seq<T>, s: set<T>)
    requires Distinct(t) && forall x | x in t :: x in s
    ensures |t| <= |s|
  {
    if t != [] {
      var last := t[|t| - 1];
      DistinctFitsIn(t[..|t| - 1], s - {last});
    }
  }

  lemma {:induction false} DistinctCount<T>(t: seq<T>)
    requires Distinct(t)
    ensures |Elements(t)| == |t|
  {
    if t != [] {
      DistinctCount(t[1..]);
      ElementsOfCons(t[0], t[1..]);
      assert [t[0]] + t[1..] == t;
    }
  }

  /** Where every node of `s` waits for a node of `s`, walks inside `s` go on for ever. */
  lemma {:induction false} LongWalk(g: Graph, s: set<string>, n: nat) returns (w: seq<string>)
    requires s != {} && s <= g.Keys
    requires forall x | x in s :: g[x] * s != {}
    ensures Walk(g, s, w) && |w| == n + 1
  {
    if n == 0 {
      var x :| x in s;
      w := [x];
    } else {
      w := LongWalk(g, s, n - 1);
      var next :| next in g[w[n - 1]] * s;
      w := w + [next];
    }
  }

  /** The pigeonhole: a set in which nothing is ready contains a cycle. */
  lemma StuckHasCycle(g: Graph, s: set<string>) returns (c: seq<string>)
    requires s != {} && s <= g.Keys
    requires forall x | x in s :: g[x] * s != {}
    ensures Cycle(g, s, c)
  {
    var w := LongWalk(g, s, |s|);
    if Distinct(w) {
      DistinctFitsIn(w, s);
      assert false;
    }
    var i, j :| 0 <= i < j < |w| && w[i] == w[j];
    c := w[i..j + 1];
  }

  /** Along a walk through an ordered graph positions only fall. */
  lemma {:induction false} WalkDescends(g: Graph, t: seq<string>, w: seq<string>, i: nat)
    requires Topological(g, t) && Walk(g, g.Keys, w) && |w| > 0
    requires i < |t| && t[i] == w[0]
    ensures exists j | 0 <= j <= i :: t[j] == w[|w| - 1] && (|w| > 1 ==> j < i)
    decreases |w|
  {
    if |w| == 1 {
      assert t[i] == w[|w| - 1];
    } else {
      assert w[1] in g[w[0]];
      assert w[1] in Elements(t[..i]);
      var k :| 0 <= k < i && t[..i][k] == w[1];
      var rest := w[1..];
      assert forall m | 0 < m < |rest| :: rest[m - 1] == w[m] && rest[m] == w[m + 1];
      WalkDescends(g, t, rest, k);
      var j :| 0 <= j <= k && t[j] == rest[|rest| - 1];
      assert t[j] == w[|w| - 1] && j < i;
    }
  }

  /** A graph with a topological order has no cycle. */
  lemma OrderedIsAcyclic(g: Graph, t: seq<string>, c: seq<string>)
    requires Topological(g, t)
    ensures !Cycle(g, g.Keys, c)
  {
    if Cycle(g, g.Keys, c) {
      assert c[0] in Elements(t);
      var i :| 0 <= i < |t| && t[i] == c[0];
      WalkDescends(g, t, c, i);
      assert false;
    }
  }

  // ---- Least orders ----

  lemma LeastOrderIsUnique(g: Graph, a: seq<string>, b: seq<string>)
    requires LeastTopological(g, a) && LeastTopological(g, b)
    ensures a == b
  {
    if a != b {
      var j :| PrecedesAt(a, b, j);
      var k :| PrecedesAt(b, a, k);
      if j < k {
        assert b[..k][j] == a[..k][j];
        LessIsStrict(a[j], a[j]);
      } else if k < j {
        assert a[..j][k] == b[..j][k];
        LessIsStrict(a[k], a[k]);
      } else {
        LessIsStrict(a[j], b[j]);
      }
    }
  }

  /** What a partial greedy order has in common with every complete one. */
  ghost predicate NotAfter(done: seq<string>, t: seq<string>) {
    (|done| <= |t| && t[..|done|] == done) || Precedes(done, t)
  }

  /** The ready nodes once `done` is out of the way. */
  ghost predicate IsReady(g: Graph, done: seq<string>, ready: set<string>) {
    forall x :: x in ready <==> x in g && x !in done && g[x] <= Elements(done)
  }

  ghost predicate AheadOfAll(g: Graph, done: seq<string>) {
    forall t | Topological(g, t) :: NotAfter(done, t)
  }

  /** An order that starts with `done` goes on with a ready node. */
  lemma NextIsReady(g: Graph, done: seq<string>, ready: set<string>, t: seq<string>)
    requires IsReady(g, done, ready) && ready != {} && Topological(g, t)
    requires |done| <= |t| && t[..|done|] == done
    ensures |done| < |t| && t[|done|] in ready
  {
    var k := |done|;
    assert k < |t| by {
      var x :| x in ready;
      assert x in Elements(t) && x !in done;
    }
    assert t[k] in g && g[t[k]] <= Elements(t[..k]);
    assert t[k] !in t[..k];
  }

  lemma PrecedesOn(done: seq<string>, chosen: string, t: seq<string>)
    requires Precedes(done, t)
    ensures Precedes(done + [chosen], t)
  {
    var j :| PrecedesAt(done, t, j);
    assert (done + [chosen])[..j] == done[..j];
    assert PrecedesAt(done + [chosen], t, j);
  }

  /** Taking the least ready node keeps the sequence ahead of, or level with, every order. */
  lemma GreedyStaysLeast(g: Graph, done: seq<string>, ready: set<string>, chosen: string, t: seq<string>)
    requires IsReady(g, done, ready) && IsLeast(chosen, ready)
    requires Topological(g, t) && NotAfter(done, t)
    ensures NotAfter(done + [chosen], t)
  {
    var k := |done|;
    if Precedes(done, t) {
      PrecedesOn(done, chosen, t);
    } else {
      NextIsReady(g, done, ready, t);
      hide Topological, IsReady;
      if t[k] == chosen {
        assert t[..k + 1] == done + [chosen];
      } else {
        assert (done + [chosen])[..k] == t[..k];
        assert PrecedesAt(done + [chosen], t, k);
      }
    }
  }

  lemma NothingLeft<T>(a: set<T>, b: set<T>)
    ensures a - b == {} <==> a <= b
  {
    if a - b == {} {
      forall x | x in a
        ensures x in b
      {
        assert x !in a - b;
      }
    }
  }

  lemma GreedyStep(g: Graph, pending: Graph, done: seq<string>, ready: set<string>, chosen: string)
    requires InProgress(g, pending, done) && AheadOfAll(g, done)
    requires ready == (set name | name in pending && pending[name] == {})
    requires IsLeast(chosen, ready)
    ensures AheadOfAll(g, done + [chosen])
  {
    forall x
      ensures x in ready <==> x in g && x !in done && g[x] <= Elements(done)
    {
      assert x in done <==> x in Elements(done);
      if x in pending {
        NothingLeft(g[x], Elements(done));
      }
    }
    forall t | Topological(g, t)
      ensures NotAfter(done + [chosen], t)
    {
      GreedyStaysLeast(g, done, ready, chosen, t);
    }
  }

  /** A complete greedy sequence is the least order. */
  lemma GreedyIsLeast(g: Graph, sequence: seq<string>)
    requires Topological(g, sequence) && AheadOfAll(g, sequence)
    ensures LeastTopological(g, sequence)
  {
    forall t | Topological(g, t)
      ensures t == sequence || Precedes(sequence, t)
    {
      if !Precedes(sequence, t) {
        DistinctCount(t);
        DistinctCount(sequence);
        assert t[..|sequence|] == t;
      }
    }
  }

  // ---- The planner ----

  /** Collects every dependency that leaves the publish set, by package and then by name. */
  method AssertClosed(packages: Workspace, publishSet: set<string>) returns (r: Result<(), Refusal>)
    requires publishSet <= packages.Keys
    ensures r.Success? <==> Closed(packages, publishSet)
    ensures r.Success? <==> forall name, dependency :: !Leaks(packages, publishSet, name, dependency)
    ensures r.Failure? ==> r.error.NotClosed? && r.error.leaks != [] && InOrder(r.error.leaks) && Distinct(r.error.leaks)
    ensures r.Failure? ==> forall name, dependency ::
      (name, dependency) in r.error.leaks <==> Leaks(packages, publishSet, name, dependency)
  {
    hide Less, WorkspaceEdges, Requires;
    ClosedIsNoLeak(packages, publishSet);
    var leaks: seq<(string, string)> := [];
    var names := Sorted(publishSet);
    for i := 0 to |names|
      invariant InOrder(leaks)
      invariant forall name, dependency :: (name, dependency) in leaks <==>
        name in names[..i] && name in packages && dependency in WorkspaceEdges(packages, name) - publishSet
    {
      var name := names[i];
      assert name in Elements(names);
      var dependencies := Sorted(WorkspaceEdges(packages, name) - publishSet);
      leaks := AddLeaks(leaks, names, i, dependencies);
      assert forall d :: d in dependencies <==> d in Elements(dependencies);
      assert names[..i + 1] == names[..i] + [name];
    }
    assert names[..|names|] == names;
    assert forall n :: n in names <==> n in Elements(names);
    if leaks != [] {
      assert (leaks[0].0, leaks[0].1) in leaks;
      InOrderIsDistinct(leaks);
      forall name, dependency
        ensures (name, dependency) in leaks <==> Leaks(packages, publishSet, name, dependency)
      {
        if name in publishSet { EdgesAreRequired(packages, name, dependency); }
      }
      return Failure(NotClosed(leaks));
    }
    forall name, dependency | name in publishSet && dependency in WorkspaceEdges(packages, name)
      ensures dependency in publishSet
    {
      assert (name, dependency) !in leaks;
    }
    return Success(());
  }

  /** Appends the leaks of one package, behind those of the packages before it. */
  method AddLeaks(before: seq<(string, string)>, names: seq<string>, i: nat, dependencies: seq<string>)
    returns (leaks: seq<(string, string)>)
    requires i < |names| && Ascending(names) && Ascending(dependencies) && InOrder(before)
    requires forall leak | leak in before :: leak.0 in names[..i]
    ensures InOrder(leaks)
    ensures forall n, d :: (n, d) in leaks <==> (n, d) in before || (n == names[i] && d in dependencies)
  {
    hide Less;
    leaks := before;
    for j := 0 to |dependencies|
      invariant InOrder(leaks)
      invariant forall n, d :: (n, d) in leaks <==> (n, d) in before || (n == names[i] && d in dependencies[..j])
    {
      forall leak | leak in leaks
        ensures Earlier(leak, (names[i], dependencies[j]))
      {
        assert leak == (leak.0, leak.1);
      }
      AppendInOrder(leaks, (names[i], dependencies[j]));
      leaks := leaks + [(names[i], dependencies[j])];
      assert dependencies[..j + 1] == dependencies[..j] + [dependencies[j]];
    }
    assert dependencies[..|dependencies|] == dependencies;
  }

  /** By package, and then by dependency. */
  predicate Earlier(a: (string, string), b: (string, string)) {
    Less(a.0, b.0) || (a.0 == b.0 && Less(a.1, b.1))
  }

  ghost predicate InOrder(leaks: seq<(string, string)>) {
    forall i, j | 0 <= i < j < |leaks| :: Earlier(leaks[i], leaks[j])
  }

  lemma AppendInOrder(leaks: seq<(string, string)>, last: (string, string))
    requires InOrder(leaks) && forall leak | leak in leaks :: Earlier(leak, last)
    ensures InOrder(leaks + [last])
  {}

  /** In order, so each leak once. */
  lemma InOrderIsDistinct(leaks: seq<(string, string)>)
    requires InOrder(leaks)
    ensures Distinct(leaks)
  {
    forall i, j | 0 <= i < j < |leaks|
      ensures leaks[i] != leaks[j]
    {
      LessIsStrict(leaks[i].0, leaks[j].0);
      LessIsStrict(leaks[i].1, leaks[j].1);
    }
  }

  /** Discards `chosen` from every remaining blocker set, in whatever order the entries come. */
  method DiscardEverywhere(pending: Graph, chosen: string) returns (trimmed: Graph)
    ensures trimmed == map name | name in pending :: pending[name] - {chosen}
  {
    trimmed := pending;
    var todo := pending.Keys;
    while todo != {}
      invariant todo <= pending.Keys == trimmed.Keys
      invariant forall name | name in pending ::
        trimmed[name] == if name in todo then pending[name] else pending[name] - {chosen}
      decreases |todo|
    {
      var name :| name in todo;
      trimmed := trimmed[name := trimmed[name] - {chosen}];
      todo := todo - {name};
    }
  }

  ghost predicate InProgress(g: Graph, pending: Graph, done: seq<string>) {
    && Distinct(done)
    && (forall x :: x in g <==> x in done || x in pending)
    && (forall x | x in done :: x !in pending)
    && (forall i | 0 <= i < |done| :: done[i] in g && g[done[i]] <= Elements(done[..i]))
    && (forall name | name in pending :: pending[name] == g[name] - Elements(done))
  }

  lemma ProgressStep(g: Graph, pending: Graph, done: seq<string>, chosen: string, next: Graph)
    requires InProgress(g, pending, done)
    requires chosen in pending && pending[chosen] == {}
    requires next == map name | name in pending && name != chosen :: pending[name] - {chosen}
    ensures InProgress(g, next, done + [chosen]) && next.Keys < pending.Keys
  {
    var longer := done + [chosen];
    assert forall x :: x in longer <==> x in done || x == chosen;
    assert Elements(longer) == Elements(done) + {chosen};
    BlockersStayBehind(g, done, chosen, g[chosen]);
    assert next.Keys == pending.Keys - {chosen};
  }

  /** Every node of the longer sequence still has its blockers before it. */
  lemma BlockersStayBehind(g: Graph, done: seq<string>, chosen: string, blockers: set<string>)
    requires forall i | 0 <= i < |done| :: done[i] in g && g[done[i]] <= Elements(done[..i])
    requires chosen in g && g[chosen] == blockers && blockers - Elements(done) == {}
    ensures var longer := done + [chosen];
            forall i | 0 <= i < |longer| :: longer[i] in g && g[longer[i]] <= Elements(longer[..i])
  {
    var longer := done + [chosen];
    NothingLeft(blockers, Elements(done));
    forall i | 0 <= i < |longer|
      ensures longer[i] in g && g[longer[i]] <= Elements(longer[..i])
    {
      assert longer[..i] == if i == |done| then done else done[..i];
    }
  }

  lemma Finished(g: Graph, pending: Graph, sequence: seq<string>)
    requires InProgress(g, pending, sequence) && pending == map[] && AheadOfAll(g, sequence)
    ensures LeastTopological(g, sequence)
    ensures !HasCycle(g, g.Keys)
  {
    assert Topological(g, sequence);
    GreedyIsLeast(g, sequence);
    forall c
      ensures !Cycle(g, g.Keys, c)
    {
      OrderedIsAcyclic(g, sequence, c);
    }
  }

  lemma NothingReady(g: Graph, pending: Graph, done: seq<string>)
    requires InProgress(g, pending, done) && pending != map[]
    requires (set name | name in pending && pending[name] == {}) == {}
    requires forall name | name in g :: g[name] <= g.Keys
    ensures Stuck(g, pending.Keys) && HasCycle(g, pending.Keys) && HasCycle(g, g.Keys)
  {
    var ready := set name | name in pending && pending[name] == {};
    var s := pending.Keys;
    forall x | x in s
      ensures g[x] * s != {}
    {
      assert x !in ready;
      var y :| y in pending[x];
      assert y in g[x] && y !in Elements(done);
      assert y in pending;
      assert y in g[x] * s;
    }
    assert s != {} by {
      var name :| name in pending;
      assert name in s;
    }
    var c := StuckHasCycle(g, s);
    assert Cycle(g, g.Keys, c);
    forall u | Blocked(g, u)
      ensures u <= s
    {
      PublishedIsNotBlocked(g, pending, done, u, |done|);
    }
  }

  /** What could be published waits for nothing blocked. */
  lemma {:induction false} PublishedIsNotBlocked(g: Graph, pending: Graph, done: seq<string>, u: set<string>, n: nat)
    requires InProgress(g, pending, done) && Blocked(g, u) && n <= |done|
    ensures forall i | 0 <= i < n :: done[i] !in u
  {
    if n > 0 {
      PublishedIsNotBlocked(g, pending, done, u, n - 1);
    }
  }

  /** Topological order, alphabetical within each ready set; refuses exactly the cyclic graphs. */
  method Order(packages: Workspace, publishSet: set<string>) returns (r: Result<seq<string>, Refusal>)
    requires publishSet <= packages.Keys
    ensures r.Success? <==> exists t :: Arranged(packages, publishSet, t)
    ensures r.Success? <==> forall c :: !Round(packages, publishSet, c)
    ensures r.Success? ==> FirstArranged(packages, publishSet, r.value)
    ensures r.Success? ==> RequiredFirst(packages, publishSet, r.value)
    ensures r.Failure? ==>
      && r.error.Cyclic? && Ascending(r.error.stuck)
      && Elements(r.error.stuck) <= publishSet && Waiting(packages, Elements(r.error.stuck))
      && (forall u | u <= publishSet && Waiting(packages, u) :: u <= Elements(r.error.stuck))
      && exists c :: Round(packages, Elements(r.error.stuck), c)
  {
    hide Stuck, HasCycle, LeastTopological, AheadOfAll, IsReady, Arranged, Round, Waiting, WorkspaceEdges;
    ghost var g := BlockersWithin(packages, publishSet);
    assert g.Keys == publishSet && forall name | name in g :: g[name] <= g.Keys;
    var pending := BlockersWithin(packages, publishSet);
    var sequence: seq<string> := [];
    AtTheStart(g);
    while pending != map[]
      invariant InProgress(g, pending, sequence)
      invariant AheadOfAll(g, sequence)
      decreases pending.Keys
    {
      var ready := set name | name in pending && pending[name] == {};
      if ready == {} {
        NothingReady(g, pending, sequence);
        NoOrderOfManifests(packages, publishSet, pending.Keys);
        return Failure(Cyclic(Sorted(pending.Keys)));
      }
      var chosen := Sorted(ready)[0];
      assert IsLeast(chosen, ready) by { FirstIsLeast(ready); }
      GreedyStep(g, pending, sequence, ready, chosen);
      var trimmed := DiscardEverywhere(pending - {chosen}, chosen);
      ProgressStep(g, pending, sequence, chosen, trimmed);
      pending := trimmed;
      sequence := sequence + [chosen];
    }
    Finished(g, pending, sequence);
    OrderOfManifests(packages, publishSet, sequence);
    return Success(sequence);
  }

  lemma AtTheStart(g: Graph)
    ensures AheadOfAll(g, [])
  {}

  lemma FirstIsLeast(s: set<string>)
    requires s != {}
    ensures |Sorted(s)| > 0 && IsLeast(Sorted(s)[0], s)
  {
    var names := Sorted(s);
    assert names != [] by { assert Elements<string>([]) == {}; }
    assert names[0] in Elements(names);
    forall x | x in s
      ensures x == names[0] || Less(names[0], x)
    {
      assert x in Elements(names);
    }
  }

  /** Publishing may stop anywhere: what is out so far needs nothing that is not. */
  lemma EveryPrefixResolves(packages: Workspace, members: set<string>, t: seq<string>, k: nat)
    requires members <= packages.Keys && Arranged(packages, members, t) && k <= |t|
    requires forall name, dependency :: !Leaks(packages, members, name, dependency)
    ensures forall name, dependency | name in t[..k] && name in packages && dependency in packages &&
      Requires(packages, name, dependency) :: dependency in t[..k]
  {
    hide Requires;
    forall name, dependency | name in t[..k] && dependency in packages && Requires(packages, name, dependency)
      ensures dependency in t[..k]
    {
      var i :| 0 <= i < k && t[..k][i] == name;
      assert !Leaks(packages, members, name, dependency);
      var j :| 0 <= j < i && t[j] == dependency;
      assert t[..k][j] == dependency;
    }
  }

  /** The script's derivation: the set, its closure, then its order. */
  method Derive(packages: Workspace) returns (r: Result<seq<string>, Refusal>)
    ensures var members := set name | name in packages && packages[name].publish == None;
      && (r == Failure(NothingPublishable) <==> forall name | name in packages :: packages[name].publish != None)
      && (r.Failure? && r.error.NotClosed? <==> exists name, dependency :: Leaks(packages, members, name, dependency))
      && (r.Success? <==>
           && members != {} && (forall name, dependency :: !Leaks(packages, members, name, dependency))
           && exists t :: Arranged(packages, members, t))
      && (r.Success? ==> FirstArranged(packages, members, r.value) && RequiredFirst(packages, members, r.value))
      && (r.Success? ==> forall k, name, dependency | 0 <= k <= |r.value| && name in r.value[..k] && name in packages
            && dependency in packages && Requires(packages, name, dependency) :: dependency in r.value[..k])
  {
    hide Arranged, Requires, Precedes, RequiredFirst;
    var publishSet := Publishable(packages);
    assert publishSet == set name | name in packages && packages[name].publish == None;
    if publishSet == {} {
      NothingLeaks(packages);
      assert forall name | name in packages :: name !in publishSet;
      return Failure(NothingPublishable);
    }
    var closed := AssertClosed(packages, publishSet);
    if closed.Failure? {
      return Failure(closed.error);
    }
    r := Order(packages, publishSet);
    if r.Success? {
      forall k | 0 <= k <= |r.value|
        ensures forall name, dependency | name in r.value[..k] && name in packages && dependency in packages &&
          Requires(packages, name, dependency) :: dependency in r.value[..k]
      {
        EveryPrefixResolves(packages, publishSet, r.value, k);
      }
    }
  }

  lemma NothingLeaks(packages: Workspace)
    ensures forall name, dependency :: !Leaks(packages, {}, name, dependency)
  {}
}
