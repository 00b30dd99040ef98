/** Publication of a release bundle to a registry, with interruptions and restarts. */
module NpmPublication {
  datatype Package = Package(name: string, integrity: string)
  datatype Bundle = Bundle(version: string, distTag: string, packages: seq<Package>)

  const ENTRY := "@deepseek-ai/dsh"
  const LATEST := "latest"

  type Tag = (string, string)

  /** For each name, the integrity published under the bundle's version; for each tag, its version. */
  datatype Registry = Registry(published: map<string, string>, tags: map<Tag, string>)

  predicate Names(r: Registry, tag: Tag, version: string) {
    tag in r.tags && r.tags[tag] == version
  }

  predicate Holds(r: Registry, pkg: Package) {
    pkg.name in r.published && r.published[pkg.name] == pkg.integrity
  }

  /** The loader refuses two packages of one name. */
  ghost predicate Valid(b: Bundle) {
    && |b.packages| > 0
    && forall i, j :: 0 <= i < j < |b.packages| ==> b.packages[i].name != b.packages[j].name
  }

  // ----- One run -----

  /** `Interrupted` stands for a run that stopped before one of its writes, for whatever reason. */
  datatype Outcome = Running | Completed | Conflict | NotPublished | Unverified | Interrupted

  /** The registry, the number of writes left before the run is cut short, and how it stands. */
  datatype Progress = Progress(registry: Registry, budget: nat, outcome: Outcome)

  function Published(r: Registry, b: Bundle, pkg: Package): Registry {
    Registry(r.published[pkg.name := pkg.integrity], r.tags[(pkg.name, b.distTag) := b.version])
  }

  function Tagged(r: Registry, b: Bundle, tag: Tag): Registry {
    r.(tags := r.tags[tag := b.version])
  }

  function EnsuredDistTag(b: Bundle, tag: Tag, r: Registry, budget: nat): Progress {
    if Names(r, tag, b.version) then Progress(r, budget, Running)
    else if budget == 0 then Progress(r, budget, Interrupted)
    else if tag.0 !in r.published then Progress(r, budget - 1, NotPublished)
    else Progress(Tagged(r, b, tag), budget - 1, Running)
  }

  function PackageDone(b: Bundle, pkg: Package, r: Registry, budget: nat): Progress {
    if pkg.name !in r.published then
      if budget == 0 then Progress(r, budget, Interrupted)
      else EnsuredDistTag(b, (pkg.name, b.distTag), Published(r, b, pkg), budget - 1)
    else if r.published[pkg.name] != pkg.integrity then Progress(r, budget, Conflict)
    else EnsuredDistTag(b, (pkg.name, b.distTag), r, budget)
  }

  predicate Remote(b: Bundle, r: Registry, pkg: Package) {
    Holds(r, pkg) && Names(r, (pkg.name, b.distTag), b.version)
  }

  predicate RemoteUpTo(b: Bundle, r: Registry, n: nat)
    requires n <= |b.packages|
  {
    forall i :: 0 <= i < n ==> Remote(b, r, b.packages[i])
  }

  /** What `verify` asks of the registry. */
  predicate Verified(b: Bundle, r: Registry) {
    RemoteUpTo(b, r, |b.packages|) && Names(r, (ENTRY, LATEST), b.version)
  }

  function RunFrom(b: Bundle, i: nat, r: Registry, budget: nat): Progress
    requires i <= |b.packages|
    decreases |b.packages| - i
  {
    if i < |b.packages| then
      var p := PackageDone(b, b.packages[i], r, budget);
      if p.outcome != Running then p else RunFrom(b, i + 1, p.registry, p.budget)
    else
      var p := EnsuredDistTag(b, (ENTRY, LATEST), r, budget);
      if p.outcome != Running then p
      else p.(outcome := if Verified(b, p.registry) then Completed else Unverified)
  }

  function Run(b: Bundle, r: Registry, budget: nat): Progress {
    RunFrom(b, 0, r, budget)
  }

  class RegistryPublication {
    const bundle: Bundle
    var registry: Registry
    var budget: nat

    constructor (bundle: Bundle, registry: Registry, budget: nat)
      ensures this.bundle == bundle && this.registry == registry && this.budget == budget
    {
      this.bundle, this.registry, this.budget := bundle, registry, budget;
    }

    function State(outcome: Outcome): Progress
      reads this
    {
      Progress(registry, budget, outcome)
    }

    /** `npm publish` with `--tag`: one write, which also sets that tag. */
    method NpmPublish(pkg: Package) returns (outcome: Outcome)
      requires pkg.name !in registry.published
      modifies this
      ensures State(outcome) ==
        if old(budget) == 0 then old(State(Interrupted))
        else Progress(Published(old(registry), bundle, pkg), old(budget) - 1, Running)
    {
      if budget == 0 {
        return Interrupted;
      }
      budget := budget - 1;
      registry := Registry(registry.published[pkg.name := pkg.integrity],
                           registry.tags[(pkg.name, bundle.distTag) := bundle.version]);
      outcome := Running;
    }

    method EnsureDistTag(name: string, tag: string) returns (outcome: Outcome)
      modifies this
      ensures State(outcome) == EnsuredDistTag(bundle, (name, tag), old(registry), old(budget))
    {
      if (name, tag) in registry.tags && registry.tags[(name, tag)] == bundle.version {
        return Running;
      }
      if budget == 0 {
        return Interrupted;
      }
      budget := budget - 1;
      if name !in registry.published {
        return NotPublished;
      }
      registry := registry.(tags := registry.tags[(name, tag) := bundle.version]);
      outcome := Running;
    }

    /** Accepts exactly the registries that hold every package and both kinds of tag. */
    method Verify() returns (ok: bool)
      ensures ok <==> Verified(bundle, registry)
    {
      var i := 0;
      while i < |bundle.packages|
        invariant 0 <= i <= |bundle.packages| && RemoteUpTo(bundle, registry, i)
      {
        var pkg := bundle.packages[i];
        if pkg.name !in registry.published || registry.published[pkg.name] != pkg.integrity {
          assert !Remote(bundle, registry, pkg);
          return false;
        }
        var tag := (pkg.name, bundle.distTag);
        if tag !in registry.tags || registry.tags[tag] != bundle.version {
          assert !Remote(bundle, registry, pkg);
          return false;
        }
        i := i + 1;
      }
      return (ENTRY, LATEST) in registry.tags && registry.tags[(ENTRY, LATEST)] == bundle.version;
    }

    method Publish() returns (outcome: Outcome)
      modifies this
      ensures State(outcome) == Run(bundle, old(registry), old(budget))
    {
      var i := 0;
      while i < |bundle.packages|
        invariant 0 <= i <= |bundle.packages|
        invariant RunFrom(bundle, i, registry, budget) == Run(bundle, old(registry), old(budget))
      {
        var pkg := bundle.packages[i];
        if pkg.name !in registry.published {
          outcome := NpmPublish(pkg);
          if outcome != Running {
            return;
          }
        } else if registry.published[pkg.name] != pkg.integrity {
          return Conflict;
        }
        outcome := EnsureDistTag(pkg.name, bundle.distTag);
        if outcome != Running {
          return;
        }
        i := i + 1;
      }
      outcome := EnsureDistTag(ENTRY, LATEST);
      if outcome != Running {
        return;
      }
      var ok := Verify();
      outcome := if ok then Completed else Unverified;
    }
  }

  // ----- What a run changes -----

  predicate Managed(b: Bundle, tag: Tag) {
    tag == (ENTRY, LATEST) || exists pkg :: pkg in b.packages && tag == (pkg.name, b.distTag)
  }

  predicate KeepsPublished(b: Bundle, r: Registry, s: Registry) {
    && (forall name :: name in r.published ==> name in s.published && s.published[name] == r.published[name])
    && (forall name :: name in s.published && name !in r.published ==> Package(name, s.published[name]) in b.packages)
  }

  predicate KeepsTags(b: Bundle, r: Registry, s: Registry) {
    && (forall tag :: tag in r.tags ==> tag in s.tags)
    && (forall tag :: tag in s.tags && !Names(r, tag, s.tags[tag]) ==> s.tags[tag] == b.version && Managed(b, tag))
  }

  /** From `r` to `s`, integrities stay, and only the bundle's packages and tags are added. */
  predicate Extends(b: Bundle, r: Registry, s: Registry) {
    KeepsPublished(b, r, s) && KeepsTags(b, r, s)
  }

  lemma ExtendsTwice(b: Bundle, r: Registry, s: Registry, t: Registry)
    requires Extends(b, r, s) && Extends(b, s, t)
    ensures Extends(b, r, t)
  {
    hide Managed;
    forall tag | tag in t.tags && !Names(r, tag, t.tags[tag])
      ensures t.tags[tag] == b.version && Managed(b, tag)
    {
      if Names(s, tag, t.tags[tag]) {
        assert !Names(r, tag, s.tags[tag]);
      }
    }
  }

  lemma EnsuringExtends(b: Bundle, tag: Tag, r: Registry, budget: nat)
    requires Managed(b, tag)
    ensures Extends(b, r, EnsuredDistTag(b, tag, r, budget).registry)
  {
  }

  lemma PackageExtends(b: Bundle, pkg: Package, r: Registry, budget: nat)
    requires pkg in b.packages
    ensures Extends(b, r, PackageDone(b, pkg, r, budget).registry)
  {
    assert Managed(b, (pkg.name, b.distTag));
    if pkg.name !in r.published && budget > 0 {
      var s := Published(r, b, pkg);
      assert Extends(b, r, s);
      EnsuringExtends(b, (pkg.name, b.distTag), s, budget - 1);
      ExtendsTwice(b, r, s, PackageDone(b, pkg, r, budget).registry);
    } else {
      EnsuringExtends(b, (pkg.name, b.distTag), r, budget);
    }
  }

  lemma {:induction false} RunFromExtends(b: Bundle, i: nat, r: Registry, budget: nat)
    requires i <= |b.packages|
    ensures Extends(b, r, RunFrom(b, i, r, budget).registry)
    decreases |b.packages| - i
  {
    hide Extends, PackageDone, EnsuredDistTag, Verified;
    if i < |b.packages| {
      var p := PackageDone(b, b.packages[i], r, budget);
      PackageExtends(b, b.packages[i], r, budget);
      RunFromExtends(b, i + 1, p.registry, p.budget);
      ExtendsTwice(b, r, p.registry, RunFrom(b, i + 1, p.registry, p.budget).registry);
    } else {
      EnsuringExtends(b, (ENTRY, LATEST), r, budget);
    }
  }

  // ----- Histories -----

  /** A first run and its restarts, each cut short after so many writes. */
  function History(b: Bundle, r: Registry, budgets: seq<nat>): Registry
    decreases |budgets|
  {
    if budgets == [] then r
    else Run(b, History(b, r, budgets[..|budgets| - 1]), budgets[|budgets| - 1]).registry
  }

  /** No sequence of interrupted runs replaces an integrity or touches anything outside the bundle. */
  lemma {:induction false} HistoryExtends(b: Bundle, r: Registry, budgets: seq<nat>)
    ensures Extends(b, r, History(b, r, budgets))
    decreases |budgets|
  {
    if budgets != [] {
      var s := History(b, r, budgets[..|budgets| - 1]);
      HistoryExtends(b, r, budgets[..|budgets| - 1]);
      RunFromExtends(b, 0, s, budgets[|budgets| - 1]);
      ExtendsTwice(b, r, s, History(b, r, budgets));
    }
  }

  // ----- The commit point -----

  /** `latest` of the entry package names this version only when every package is in place. */
  ghost predicate Safe(b: Bundle, r: Registry) {
    Names(r, (ENTRY, LATEST), b.version) ==> RemoteUpTo(b, r, |b.packages|)
  }

  /** The entry package is published last, unless the bundle's own tag is another one. */
  ghost predicate CommitsLast(b: Bundle) {
    b.distTag == LATEST ==> forall i :: 0 <= i < |b.packages| - 1 ==> b.packages[i].name != ENTRY
  }

  lemma {:induction false} SafeFrom(b: Bundle, i: nat, r: Registry, budget: nat)
    requires i <= |b.packages| && CommitsLast(b) && Safe(b, r) && RemoteUpTo(b, r, i)
    ensures Safe(b, RunFrom(b, i, r, budget).registry)
    decreases |b.packages| - i
  {
    if i < |b.packages| {
      var pkg := b.packages[i];
      var p := PackageDone(b, pkg, r, budget);
      if Names(r, (ENTRY, LATEST), b.version) {
      }
      if p.outcome == Running {
        assert RemoteUpTo(b, p.registry, i + 1);
        SafeFrom(b, i + 1, p.registry, p.budget);
      }
    } else {
      assert forall j :: 0 <= j < i ==> Remote(b, r, b.packages[j]);
    }
  }

  /** However often runs are interrupted and restarted, the entry's `latest` is set last. */
  lemma {:induction false} HistorySafe(b: Bundle, r: Registry, budgets: seq<nat>)
    requires CommitsLast(b) && Safe(b, r)
    ensures Safe(b, History(b, r, budgets))
    decreases |budgets|
  {
    if budgets != [] {
      HistorySafe(b, r, budgets[..|budgets| - 1]);
      SafeFrom(b, 0, History(b, r, budgets[..|budgets| - 1]), budgets[|budgets| - 1]);
    }
  }

  /** Where nothing is published yet, every write of a run publishes the next package. */
  lemma {:induction false} FirstPackages(b: Bundle, i: nat, r: Registry, n: nat)
    requires Valid(b) && i <= n < |b.packages|
    requires forall j :: i <= j < |b.packages| ==> b.packages[j].name !in r.published
    ensures b.packages[n].name !in RunFrom(b, i, r, n - i).registry.published
    ensures forall j :: i <= j < n ==>
              Names(RunFrom(b, i, r, n - i).registry, (b.packages[j].name, b.distTag), b.version)
    ensures forall tag :: Names(r, tag, b.version) ==> Names(RunFrom(b, i, r, n - i).registry, tag, b.version)
    decreases n - i
  {
    if i < n {
      var pkg := b.packages[i];
      var s := Published(r, b, pkg);
      assert PackageDone(b, pkg, r, n - i) == Progress(s, n - i - 1, Running);
      FirstPackages(b, i + 1, s, n);
      assert Names(s, (pkg.name, b.distTag), b.version);
      forall tag | Names(r, tag, b.version) ensures Names(RunFrom(b, i, r, n - i).registry, tag, b.version) {
        assert Names(s, tag, b.version);
      }
    }
  }

  /** With `latest` as the bundle's own tag, stopping just after the entry leaves it too early. */
  lemma LatestTooEarly(b: Bundle, i: nat)
    requires Valid(b) && i + 1 < |b.packages| && b.packages[i].name == ENTRY && b.distTag == LATEST
    ensures Safe(b, Registry(map[], map[]))
    ensures !Safe(b, History(b, Registry(map[], map[]), [i + 1]))
  {
    var empty := Registry(map[], map[]);
    FirstPackages(b, 0, empty, i + 1);
    assert [i + 1][..0] == [];
    var s := History(b, empty, [i + 1]);
    assert History(b, empty, []) == empty;
    assert Names(s, (b.packages[i].name, b.distTag), b.version);
    assert !Remote(b, s, b.packages[i + 1]);
  }

  /** The commit point holds in every history exactly when the bundle commits last. */
  lemma SafeExactlyWhenCommittingLast(b: Bundle)
    requires Valid(b)
    ensures CommitsLast(b) <==>
      forall r: Registry, budgets: seq<nat> :: Safe(b, r) ==> Safe(b, History(b, r, budgets))
  {
    hide Safe, History;
    if CommitsLast(b) {
      forall r: Registry, budgets: seq<nat> | Safe(b, r) ensures Safe(b, History(b, r, budgets)) {
        HistorySafe(b, r, budgets);
      }
    } else {
      var i :| 0 <= i < |b.packages| - 1 && b.packages[i].name == ENTRY;
      LatestTooEarly(b, i);
    }
  }

  // ----- Completion -----

  /** Nothing of the bundle is published with another integrity, and its entry can be tagged. */
  ghost predicate Publishable(b: Bundle, r: Registry) {
    && (forall pkg :: pkg in b.packages && pkg.name in r.published ==> Holds(r, pkg))
    && (ENTRY in r.published || Names(r, (ENTRY, LATEST), b.version)
        || exists pkg :: pkg in b.packages && pkg.name == ENTRY)
  }

  lemma PackageKeepsPublishable(b: Bundle, pkg: Package, r: Registry, budget: nat)
    requires Valid(b) && pkg in b.packages
    ensures Publishable(b, PackageDone(b, pkg, r, budget).registry) <==> Publishable(b, r)
    ensures Publishable(b, r) ==> PackageDone(b, pkg, r, budget).outcome in {Running, Interrupted}
  {
    var s := PackageDone(b, pkg, r, budget).registry;
    assert s.published == r.published || s.published == r.published[pkg.name := pkg.integrity];
    assert forall other :: other in b.packages && other.name == pkg.name ==> other == pkg;
  }

  lemma CommitOutcome(b: Bundle, r: Registry, budget: nat)
    requires Valid(b) && RemoteUpTo(b, r, |b.packages|)
    ensures var p := EnsuredDistTag(b, (ENTRY, LATEST), r, budget);
            && (p.outcome == Running ==> Verified(b, p.registry) && Publishable(b, r))
            && (Publishable(b, r) ==> p.outcome in {Running, Interrupted})
  {
    var s := EnsuredDistTag(b, (ENTRY, LATEST), r, budget).registry;
    forall j | 0 <= j < |b.packages| ensures Remote(b, s, b.packages[j]) {
      assert Remote(b, r, b.packages[j]);
    }
    if exists pkg :: pkg in b.packages && pkg.name == ENTRY {
      var j :| 0 <= j < |b.packages| && b.packages[j].name == ENTRY;
      assert Remote(b, r, b.packages[j]);
    }
    forall pkg | pkg in b.packages ensures Holds(r, pkg) {
      var j :| 0 <= j < |b.packages| && b.packages[j] == pkg;
      assert Remote(b, r, b.packages[j]);
    }
  }

  lemma {:induction false} OutcomeFrom(b: Bundle, i: nat, r: Registry, budget: nat)
    requires Valid(b) && i <= |b.packages| && RemoteUpTo(b, r, i)
    ensures var p := RunFrom(b, i, r, budget);
            && (p.outcome == Completed ==> Verified(b, p.registry) && Publishable(b, r))
            && (Publishable(b, r) ==> p.outcome in {Completed, Interrupted})
            && (budget > |b.packages| - i ==> p.outcome != Interrupted)
            && p.outcome != Unverified
            && p.outcome != Running
    decreases |b.packages| - i
  {
    hide Publishable;
    if i < |b.packages| {
      var pkg := b.packages[i];
      var p := PackageDone(b, pkg, r, budget);
      PackageKeepsPublishable(b, pkg, r, budget);
      if p.outcome == Running {
        assert RemoteUpTo(b, p.registry, i + 1);
        OutcomeFrom(b, i + 1, p.registry, p.budget);
      }
    } else {
      CommitOutcome(b, r, budget);
    }
  }

  /**
   * A run given one write for each package and one more completes exactly when the bundle is
   * publishable; it then satisfies `verify`. With no other writer, `verify` never fails after a run.
   */
  lemma RunCompletes(b: Bundle, r: Registry, budget: nat)
    requires Valid(b)
    ensures budget > |b.packages| ==> (Run(b, r, budget).outcome == Completed <==> Publishable(b, r))
    ensures Run(b, r, budget).outcome == Completed ==> Verified(b, Run(b, r, budget).registry)
    ensures Run(b, r, budget).outcome != Unverified
  {
    OutcomeFrom(b, 0, r, budget);
  }

  /** Some package of the bundle is published under this version with another integrity. */
  ghost predicate Conflicts(b: Bundle, r: Registry) {
    exists pkg :: pkg in b.packages && pkg.name in r.published && !Holds(r, pkg)
  }

  lemma PackageKeepsConflicts(b: Bundle, pkg: Package, r: Registry, budget: nat)
    requires Valid(b) && pkg in b.packages
    ensures var p := PackageDone(b, pkg, r, budget);
            && (Conflicts(b, p.registry) <==> Conflicts(b, r))
            && (p.outcome == Conflict ==> Conflicts(b, r)) && p.outcome != NotPublished
  {
    var s := PackageDone(b, pkg, r, budget).registry;
    assert s.published == r.published || s.published == r.published[pkg.name := pkg.integrity];
    assert forall other :: other in b.packages && other.name == pkg.name ==> other == pkg;
  }

  lemma {:induction false} RefusalFrom(b: Bundle, i: nat, r: Registry, budget: nat)
    requires Valid(b) && i <= |b.packages| && RemoteUpTo(b, r, i)
    ensures RunFrom(b, i, r, budget).outcome == Conflict ==> Conflicts(b, r)
    ensures RunFrom(b, i, r, budget).outcome == NotPublished ==> !Conflicts(b, r)
    decreases |b.packages| - i
  {
    hide Conflicts;
    if i < |b.packages| {
      var pkg := b.packages[i];
      var p := PackageDone(b, pkg, r, budget);
      PackageKeepsConflicts(b, pkg, r, budget);
      if p.outcome == Running {
        assert RemoteUpTo(b, p.registry, i + 1);
        RefusalFrom(b, i + 1, p.registry, p.budget);
      }
    } else {
      RemoteHasNoConflict(b, r);
    }
  }

  lemma RemoteHasNoConflict(b: Bundle, r: Registry)
    requires RemoteUpTo(b, r, |b.packages|)
    ensures !Conflicts(b, r)
  {
    forall pkg | pkg in b.packages ensures Holds(r, pkg) {
      var j :| 0 <= j < |b.packages| && b.packages[j] == pkg;
      assert Remote(b, r, b.packages[j]);
    }
  }

  /**
   * Given its writes, a run refuses with a conflict exactly when something of the bundle is published with
   * another integrity, and for want of the entry package exactly when that alone keeps it from completing.
   */
  lemma RefusedExactly(b: Bundle, r: Registry, budget: nat)
    requires Valid(b) && budget > |b.packages|
    ensures Run(b, r, budget).outcome == Conflict <==> Conflicts(b, r)
    ensures Run(b, r, budget).outcome == NotPublished <==> !Conflicts(b, r) && !Publishable(b, r)
  {
    OutcomeFrom(b, 0, r, budget);
    RefusalFrom(b, 0, r, budget);
  }

  lemma {:induction false} HistoryKeepsPublishable(b: Bundle, r: Registry, budgets: seq<nat>)
    requires Valid(b) && Publishable(b, r)
    ensures Publishable(b, History(b, r, budgets))
    decreases |budgets|
  {
    HistoryExtends(b, r, budgets);
    var s := History(b, r, budgets);
    forall pkg | pkg in b.packages && pkg.name in s.published ensures Holds(s, pkg) {
      if pkg.name !in r.published {
        assert Package(pkg.name, s.published[pkg.name]) in b.packages;
      }
    }
    if Names(r, (ENTRY, LATEST), b.version) {
      assert Names(s, (ENTRY, LATEST), b.version);
    }
  }

  lemma VerifiedIsUnique(b: Bundle, r: Registry, s: Registry, t: Registry)
    requires Extends(b, r, s) && Verified(b, s) && Extends(b, r, t) && Verified(b, t)
    ensures s == t
  {
    assert s.published == t.published;
    assert s.tags == t.tags;
  }

  /** Restarting after any interruptions ends in the very registry one undisturbed run would give. */
  lemma RestartsConverge(b: Bundle, r: Registry, budgets: seq<nat>, last: nat)
    requires Valid(b) && Publishable(b, r) && last > |b.packages|
    ensures Run(b, History(b, r, budgets), last).outcome == Completed
    ensures Run(b, History(b, r, budgets), last).registry == Run(b, r, last).registry
  {
    var h := History(b, r, budgets);
    HistoryKeepsPublishable(b, r, budgets);
    HistoryExtends(b, r, budgets);
    RunCompletes(b, h, last);
    RunCompletes(b, r, last);
    RunFromExtends(b, 0, h, last);
    RunFromExtends(b, 0, r, last);
    ExtendsTwice(b, r, h, Run(b, h, last).registry);
    VerifiedIsUnique(b, r, Run(b, h, last).registry, Run(b, r, last).registry);
  }
}
