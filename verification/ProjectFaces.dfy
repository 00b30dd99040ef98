/** Two walks over the graph of TypeScript project references. */
module ProjectFaces {
  import opened Bytes

  /** A resolved path, segment by segment. */
  type Path = seq<string>

  datatype Reference = Reference(spelling: string, path: Path)
  datatype File = Unreadable | Config(parent: Option<Path>, references: seq<Reference>)
  datatype Repo = Repo(root: Path, files: map<Path, File>, splitRoots: seq<Path>)

  predicate EndsWith(s: string, suffix: string) {
    |suffix| <= |s| && s[|s| - |suffix|..] == suffix
  }

  /** A reference names a config, or a directory that holds one. */
  function ConfigPath(path: Path): Path {
    if path != [] && EndsWith(path[|path| - 1], ".json") then path else path + ["tsconfig.json"]
  }

  /** The config a reference stands for: the path itself if it is named `*.json`, else `tsconfig.json` in that directory. */
  ghost predicate StandsFor(path: Path, config: Path) {
    || (config == path && exists dir: Path, stem: string :: path == dir + [stem + ".json"])
    || (config == path + ["tsconfig.json"] && forall dir: Path, stem: string :: path != dir + [stem + ".json"])
  }

  lemma ConfigStandsFor(path: Path, config: Path)
    ensures StandsFor(path, config) <==> config == ConfigPath(path)
  {
    if dir: Path, stem: string :| path == dir + [stem + ".json"] {
      assert path[|path| - 1] == stem + ".json";
    }
    if path != [] && EndsWith(path[|path| - 1], ".json") {
      var name := path[|path| - 1];
      assert name == name[..|name| - 5] + ".json" && path == path[..|path| - 1] + [name];
    }
  }

  // ----- Reachability -----

  type Successors = Path -> seq<Path>

  ghost predicate Trail(next: Successors, trail: seq<Path>) {
    forall i :: 0 <= i < |trail| - 1 ==> trail[i + 1] in next(trail[i])
  }

  ghost predicate Leads(next: Successors, starts: seq<Path>, trail: seq<Path>, p: Path) {
    |trail| > 0 && trail[0] in starts && trail[|trail| - 1] == p && Trail(next, trail)
  }

  ghost predicate Reachable(next: Successors, starts: seq<Path>, p: Path) {
    exists trail :: Leads(next, starts, trail, p)
  }

  lemma StartsReachable(next: Successors, starts: seq<Path>)
    ensures forall p :: p in starts ==> Reachable(next, starts, p)
  {
    forall p | p in starts ensures Reachable(next, starts, p) {
      assert Leads(next, starts, [p], p);
    }
  }

  lemma ReachableOn(next: Successors, starts: seq<Path>, p: Path)
    requires Reachable(next, starts, p)
    ensures forall q :: q in next(p) ==> Reachable(next, starts, q)
  {
    var trail :| Leads(next, starts, trail, p);
    forall q | q in next(p) ensures Reachable(next, starts, q) {
      assert Leads(next, starts, trail + [q], q);
    }
  }

  /** A set with the starts in it and closed under `next` holds everything reachable. */
  lemma {:induction false} ClosedCovers(next: Successors, starts: seq<Path>, covered: iset<Path>, trail: seq<Path>, p: Path)
    requires Leads(next, starts, trail, p)
    requires forall q :: q in starts ==> q in covered
    requires forall q, r :: q in covered && r in next(q) ==> r in covered
    ensures p in covered
    decreases |trail|
  {
    if |trail| > 1 {
      var before := trail[..|trail| - 1];
      assert Leads(next, starts, before, before[|before| - 1]) by {
        assert forall i :: 0 <= i < |before| ==> before[i] == trail[i];
      }
      ClosedCovers(next, starts, covered, before, before[|before| - 1]);
      assert trail[|trail| - 2 + 1] in next(trail[|trail| - 2]);
    }
  }

  // ----- The face of a config -----

  datatype Face = Host | Client

  function LeafName(face: Face): string {
    match face case Host => "tsconfig.host.json" case Client => "tsconfig.client.json"
  }

  /** The face a config has by its own name. */
  function Named(repo: Repo, p: Path): Option<Face> {
    if p != [] && p[|p| - 1] == LeafName(Host) then Some(Host)
    else if p != [] && p[|p| - 1] == LeafName(Client) then Some(Client)
    else if p == repo.root + ["tsconfig.base.json"] then Some(Host)
    else if p == repo.root + ["tsconfig.base.client.json"] then Some(Client)
    else None
  }

  /** The aggregates and the leaves of every project by their names alone, the two bases by their places in the root. */
  lemma NamedExactly(repo: Repo, p: Path)
    ensures Named(repo, p) == Some(Host) <==>
            p == repo.root + ["tsconfig.base.json"] || exists dir: Path :: p == dir + ["tsconfig.host.json"]
    ensures Named(repo, p) == Some(Client) <==>
            p == repo.root + ["tsconfig.base.client.json"] || exists dir: Path :: p == dir + ["tsconfig.client.json"]
  {
    assert "tsconfig.host.json"[9] == 'h' && "tsconfig.base.json"[9] == 'b' && "tsconfig.client.json"[9] == 'c';
    assert |"tsconfig.base.client.json"| == 25 && |"tsconfig.base.json"| == 18;
    if p != [] {
      assert p == p[..|p| - 1] + [p[|p| - 1]];
    }
  }

  predicate Readable(repo: Repo, p: Path) {
    p in repo.files && repo.files[p].Config?
  }

  /** Follows `extends` until a config has a face by name; gives up on a missing or repeated config. */
  function ProjectFace(repo: Repo, p: Path, seen: set<Path>): (r: Result<Option<Face>, Path>)
    requires Readable(repo, p)
    ensures r.Err? ==> r.error in repo.files && repo.files[r.error].Unreadable?
    decreases repo.files.Keys - seen
  {
    if Named(repo, p).Some? then Ok(Named(repo, p))
    else if p in seen then Ok(None)
    else
      var parent := repo.files[p].parent;
      if parent.None? || parent.value !in repo.files then Ok(None)
      else if repo.files[parent.value].Unreadable? then Err(parent.value)
      else ProjectFace(repo, parent.value, seen + {p})
  }

  function Ancestor(repo: Repo, p: Path, n: nat): Option<Path>
    decreases n
  {
    if !Readable(repo, p) then None
    else if n == 0 then Some(p)
    else
      var parent := repo.files[p].parent;
      if parent.None? then None else Ancestor(repo, parent.value, n - 1)
  }

  /** The `n`th config up the `extends` chain is the first to have a face by name. */
  ghost predicate FirstNamed(repo: Repo, p: Path, n: nat, face: Face) {
    && Ancestor(repo, p, n).Some? && Named(repo, Ancestor(repo, p, n).value) == Some(face)
    && forall m :: 0 <= m < n ==> Ancestor(repo, p, m).Some? && Named(repo, Ancestor(repo, p, m).value).None?
  }

  lemma FirstNamedUp(repo: Repo, p: Path, n: nat, face: Face)
    requires Readable(repo, p) && Named(repo, p).None?
    ensures FirstNamed(repo, p, n, face) <==>
            n > 0 && repo.files[p].parent.Some? && FirstNamed(repo, repo.files[p].parent.value, n - 1, face)
  {
    var parent := repo.files[p].parent;
    assert Ancestor(repo, p, 0) == Some(p);
    if n > 0 && parent.Some? && FirstNamed(repo, parent.value, n - 1, face) {
      forall m | 0 <= m < n
        ensures Ancestor(repo, p, m).Some? && Named(repo, Ancestor(repo, p, m).value).None?
      {
        assert m > 0 ==> Ancestor(repo, parent.value, m - 1).Some?;
      }
    }
    if FirstNamed(repo, p, n, face) {
      assert n > 0;
      forall m | 0 <= m < n - 1
        ensures Ancestor(repo, parent.value, m).Some? && Named(repo, Ancestor(repo, parent.value, m).value).None?
      {
        assert Ancestor(repo, p, m + 1).Some?;
      }
    }
  }

  lemma {:induction false} FoundIsNamed(repo: Repo, p: Path, seen: set<Path>, face: Face) returns (n: nat)
    requires Readable(repo, p) && ProjectFace(repo, p, seen) == Ok(Some(face))
    ensures FirstNamed(repo, p, n, face)
    decreases repo.files.Keys - seen
  {
    if Named(repo, p).Some? {
      n := 0;
    } else {
      n := FoundIsNamed(repo, repo.files[p].parent.value, seen + {p}, face);
      n := n + 1;
      FirstNamedUp(repo, p, n, face);
    }
  }

  ghost predicate MeetsChain(repo: Repo, p: Path, n: nat, q: Path) {
    exists k :: 0 <= k <= n && Ancestor(repo, p, k) == Some(q)
  }

  lemma {:induction false} AncestorOfAncestor(repo: Repo, p: Path, k: nat, m: nat)
    requires Ancestor(repo, p, k).Some?
    ensures Ancestor(repo, p, k + m) == Ancestor(repo, Ancestor(repo, p, k).value, m)
    decreases k
  {
    if k > 0 {
      AncestorOfAncestor(repo, repo.files[p].parent.value, k - 1, m);
    }
  }

  lemma MeetsFurther(repo: Repo, p: Path, n: nat, q: Path)
    requires Readable(repo, p) && repo.files[p].parent.Some? && n > 0
    ensures MeetsChain(repo, repo.files[p].parent.value, n - 1, q) ==> MeetsChain(repo, p, n, q)
  {
    if k :| 0 <= k <= n - 1 && Ancestor(repo, repo.files[p].parent.value, k) == Some(q) {
      assert Ancestor(repo, p, k + 1) == Some(q);
    }
  }

  /** A chain that ends in a name never comes back to where it began. */
  lemma NoReturn(repo: Repo, p: Path, n: nat, face: Face)
    requires Readable(repo, p) && FirstNamed(repo, p, n, face) && n > 0
    ensures !MeetsChain(repo, repo.files[p].parent.value, n - 1, p)
  {
    if MeetsChain(repo, repo.files[p].parent.value, n - 1, p) {
      var k :| 0 <= k <= n - 1 && Ancestor(repo, repo.files[p].parent.value, k) == Some(p);
      assert Ancestor(repo, p, k + 1) == Some(p);
      AncestorOfAncestor(repo, p, k + 1, n - k - 1);
    }
  }

  lemma {:induction false} NamedIsFound(repo: Repo, p: Path, seen: set<Path>, n: nat, face: Face)
    requires Readable(repo, p) && FirstNamed(repo, p, n, face)
    requires forall q :: q in seen ==> !MeetsChain(repo, p, n, q)
    ensures ProjectFace(repo, p, seen) == Ok(Some(face))
    decreases n
  {
    if n > 0 {
      var parent := repo.files[p].parent;
      assert Ancestor(repo, p, 0) == Some(p);
      FirstNamedUp(repo, p, n, face);
      NoReturn(repo, p, n, face);
      assert Ancestor(repo, parent.value, 0).Some? by {
        assert n > 1 ==> Ancestor(repo, p, 1).Some?;
      }
      forall q | q in seen + {p} ensures !MeetsChain(repo, parent.value, n - 1, q) {
        MeetsFurther(repo, p, n, q);
      }
      NamedIsFound(repo, parent.value, seen + {p}, n - 1, face);
    }
  }

  /** The face found is the one the first named config up the chain has, cycles included. */
  lemma FaceIsFirstNamed(repo: Repo, p: Path, face: Face)
    requires Readable(repo, p)
    ensures ProjectFace(repo, p, {}) == Ok(Some(face)) <==> exists n: nat :: FirstNamed(repo, p, n, face)
  {
    if ProjectFace(repo, p, {}) == Ok(Some(face)) {
      var n := FoundIsNamed(repo, p, {}, face);
    }
    if n: nat :| FirstNamed(repo, p, n, face) {
      NamedIsFound(repo, p, {}, n, face);
    }
  }

  // ----- Split projects -----

  function ContainingSplitRoot(splitRoots: seq<Path>, target: Path): (r: Option<Path>)
    ensures r.None? ==> forall root :: root in splitRoots ==> !(root <= target)
    ensures r.Some? ==> r.value in splitRoots && r.value <= target
  {
    if splitRoots == [] then None
    else
      assert splitRoots == [splitRoots[0]] + splitRoots[1..];
      if splitRoots[0] <= target then Some(splitRoots[0])
      else ContainingSplitRoot(splitRoots[1..], target)
  }

  /** The length of a path as one string. */
  function PathLength(p: Path): nat {
    if p == [] then 0 else |p[0]| + 1 + PathLength(p[1..])
  }

  ghost predicate LongestFirst(roots: seq<Path>) {
    forall i, j :: 0 <= i < j < |roots| ==> PathLength(roots[i]) >= PathLength(roots[j])
  }

  lemma {:induction false} PrefixShorter(p: Path, q: Path)
    requires p <= q
    ensures PathLength(p) <= PathLength(q)
    ensures PathLength(p) == PathLength(q) ==> p == q
    decreases |p|
  {
    if p != [] {
      assert p[1..] <= q[1..] && q == [q[0]] + q[1..] && p == [p[0]] + p[1..];
      PrefixShorter(p[1..], q[1..]);
    }
  }

  /** Trying the roots longest first finds the innermost project that contains the target. */
  lemma {:induction false} ContainingIsInnermost(roots: seq<Path>, target: Path, root: Path)
    requires LongestFirst(roots) && root in roots && root <= target
    ensures ContainingSplitRoot(roots, target).Some? && root <= ContainingSplitRoot(roots, target).value
    decreases |roots|
  {
    if roots[0] <= target {
      if |root| <= |roots[0]| {
      } else {
        PrefixShorter(roots[0], root);
      }
    } else {
      ContainingIsInnermost(roots[1..], target, root);
    }
  }

  // ----- Face violations -----

  datatype Violation = Violation(config: Path, spelling: string, splitRoot: Path, face: Option<Face>)

  /** The violation a reference of a config with that face is, if it is one. */
  function Judged(repo: Repo, p: Path, face: Option<Face>, ref: Reference): Option<Violation> {
    var target := ConfigPath(ref.path);
    var root := ContainingSplitRoot(repo.splitRoots, target);
    if root.Some? && (face.None? || target != root.value + [LeafName(face.value)]) then
      Some(Violation(p, ref.spelling, root.value, face))
    else None
  }

  function Wrong(repo: Repo, p: Path, face: Option<Face>, refs: seq<Reference>): seq<Violation> {
    if refs == [] then []
    else
      var last := Judged(repo, p, face, refs[|refs| - 1]);
      Wrong(repo, p, face, refs[..|refs| - 1]) + if last.Some? then [last.value] else []
  }

  function Allowed(repo: Repo, p: Path, face: Option<Face>, refs: seq<Reference>): seq<Path> {
    if refs == [] then []
    else
      var last := refs[|refs| - 1];
      Allowed(repo, p, face, refs[..|refs| - 1]) +
      if Judged(repo, p, face, last).None? then [ConfigPath(last.path)] else []
  }

  function FaceOf(repo: Repo, p: Path): Option<Face> {
    if Readable(repo, p) && ProjectFace(repo, p, {}).Ok? then ProjectFace(repo, p, {}).value else None
  }

  function WrongIn(repo: Repo, p: Path): seq<Violation> {
    if Readable(repo, p) then Wrong(repo, p, FaceOf(repo, p), repo.files[p].references) else []
  }

  function FollowedIn(repo: Repo): Successors {
    p => if Readable(repo, p) then Allowed(repo, p, FaceOf(repo, p), repo.files[p].references) else []
  }

  function WrongInAll(repo: Repo, order: seq<Path>): seq<Violation> {
    if order == [] then [] else WrongInAll(repo, order[..|order| - 1]) + WrongIn(repo, order[|order| - 1])
  }

  lemma {:induction false} WrongAreJudged(repo: Repo, p: Path, face: Option<Face>, refs: seq<Reference>, v: Violation)
    ensures v in Wrong(repo, p, face, refs) <==> exists ref :: ref in refs && Judged(repo, p, face, ref) == Some(v)
    decreases |refs|
  {
    hide Judged;
    if refs != [] {
      var front, last := refs[..|refs| - 1], refs[|refs| - 1];
      assert refs == front + [last];
      WrongAreJudged(repo, p, face, front, v);
    }
  }

  /** The innermost of the split projects that contain the config. */
  ghost predicate Innermost(roots: seq<Path>, config: Path, root: Path) {
    root in roots && root <= config && forall other :: other in roots && other <= config ==> other <= root
  }

  /** The reference enters the split project at `root`, and not at its leaf for the face. */
  ghost predicate EntersWrongly(repo: Repo, ref: Reference, root: Path, face: Option<Face>) {
    exists config ::
      && StandsFor(ref.path, config) && Innermost(repo.splitRoots, config, root)
      && (face == Some(Host) ==> config != root + ["tsconfig.host.json"])
      && (face == Some(Client) ==> config != root + ["tsconfig.client.json"])
  }

  lemma InnermostFound(roots: seq<Path>, config: Path, root: Path)
    requires LongestFirst(roots)
    ensures Innermost(roots, config, root) <==> ContainingSplitRoot(roots, config) == Some(root)
  {
    hide LongestFirst;
    var found := ContainingSplitRoot(roots, config);
    forall other | other in roots && other <= config ensures found.Some? && other <= found.value {
      ContainingIsInnermost(roots, config, other);
    }
    if Innermost(roots, config, root) {
      assert root <= found.value && found.value <= root;
      assert root == found.value[..|root|] == found.value;
    }
  }

  lemma EntersAt(repo: Repo, ref: Reference, root: Path, face: Option<Face>)
    ensures var target := ConfigPath(ref.path);
            EntersWrongly(repo, ref, root, face) <==>
            Innermost(repo.splitRoots, target, root) && (face.None? || target != root + [LeafName(face.value)])
  {
    hide StandsFor, ConfigPath, Innermost;
    forall config ensures StandsFor(ref.path, config) <==> config == ConfigPath(ref.path) {
      ConfigStandsFor(ref.path, config);
    }
    assert StandsFor(ref.path, ConfigPath(ref.path));
  }

  lemma JudgedExactly(repo: Repo, p: Path, face: Option<Face>, ref: Reference, v: Violation)
    requires LongestFirst(repo.splitRoots)
    ensures Judged(repo, p, face, ref) == Some(v) <==>
            v == Violation(p, ref.spelling, v.splitRoot, face) && EntersWrongly(repo, ref, v.splitRoot, face)
  {
    hide ConfigPath, ContainingSplitRoot, LongestFirst, Innermost, EntersWrongly;
    InnermostFound(repo.splitRoots, ConfigPath(ref.path), v.splitRoot);
    EntersAt(repo, ref, v.splitRoot, face);
  }

  /** A visited config is reported for exactly its references that enter a split project other than at its face's leaf. */
  lemma ReportedExactly(repo: Repo, p: Path, v: Violation)
    requires Readable(repo, p) && LongestFirst(repo.splitRoots)
    ensures v in WrongIn(repo, p) <==>
            exists ref :: ref in repo.files[p].references && EntersWrongly(repo, ref, v.splitRoot, FaceOf(repo, p))
                          && v == Violation(p, ref.spelling, v.splitRoot, FaceOf(repo, p))
  {
    hide Judged, EntersWrongly, LongestFirst, FaceOf;
    var refs, face := repo.files[p].references, FaceOf(repo, p);
    WrongAreJudged(repo, p, face, refs, v);
    forall ref | ref in refs
      ensures Judged(repo, p, face, ref) == Some(v) <==>
              EntersWrongly(repo, ref, v.splitRoot, face) && v == Violation(p, ref.spelling, v.splitRoot, face)
    {
      JudgedExactly(repo, p, face, ref, v);
    }
  }

  function Aggregates(repo: Repo): seq<Path> {
    [repo.root + [LeafName(Host)], repo.root + [LeafName(Client)]]
  }

  ghost predicate InGraph(repo: Repo, p: Path) {
    p in repo.files && Reachable(FollowedIn(repo), Aggregates(repo), p)
  }

  /** Each config once, and exactly those that lie in the graph of followed references. */
  ghost predicate Enumerates(repo: Repo, order: seq<Path>) {
    && (forall i, j :: 0 <= i < j < |order| ==> order[i] != order[j])
    && (forall p :: p in order <==> InGraph(repo, p))
  }

  /** Where the walk stands: what it has seen is reachable, and what it has not is still pending. */
  ghost predicate Walking(next: Successors, starts: seq<Path>, files: set<Path>, order: seq<Path>, pending: seq<Path>) {
    && (forall i, j :: 0 <= i < j < |order| ==> order[i] != order[j])
    && (forall p :: p in order ==> p in files && Reachable(next, starts, p))
    && (forall p :: p in pending ==> Reachable(next, starts, p))
    && (forall p :: p in starts ==> Handled(files, order, pending, p))
    && (forall p, q :: p in order && q in next(p) ==> Handled(files, order, pending, q))
  }

  predicate Handled(files: set<Path>, order: seq<Path>, pending: seq<Path>, p: Path) {
    p in order || p in pending || p !in files
  }

  lemma WalkStarts(next: Successors, starts: seq<Path>, files: set<Path>)
    ensures Walking(next, starts, files, [], starts)
  {
    StartsReachable(next, starts);
  }

  lemma WalkSkips(next: Successors, starts: seq<Path>, files: set<Path>, order: seq<Path>, pending: seq<Path>, p: Path)
    requires Walking(next, starts, files, order, pending + [p]) && (p in order || p !in files)
    ensures Walking(next, starts, files, order, pending)
  {
    assert forall q :: Handled(files, order, pending + [p], q) ==> Handled(files, order, pending, q);
    assert forall q :: q in pending ==> q in pending + [p];
  }

  lemma WalkReaches(next: Successors, starts: seq<Path>, files: set<Path>, order: seq<Path>, pending: seq<Path>, p: Path)
    requires Walking(next, starts, files, order, pending + [p])
    ensures Reachable(next, starts, p)
  {
    assert p in pending + [p];
  }

  lemma WalkVisits(next: Successors, starts: seq<Path>, files: set<Path>, order: seq<Path>, pending: seq<Path>, p: Path)
    requires Walking(next, starts, files, order, pending + [p]) && p !in order && p in files
    ensures Walking(next, starts, files, order + [p], pending + next(p))
  {
    assert p in pending + [p];
    ReachableOn(next, starts, p);
    assert forall q :: Handled(files, order, pending + [p], q) ==> Handled(files, order + [p], pending + next(p), q);
    assert forall q :: q in pending ==> q in pending + [p];
  }

  lemma WalkEnds(next: Successors, starts: seq<Path>, files: set<Path>, order: seq<Path>)
    requires Walking(next, starts, files, order, [])
    requires forall p :: p !in files ==> next(p) == []
    ensures forall i, j :: 0 <= i < j < |order| ==> order[i] != order[j]
    ensures forall p :: p in order <==> p in files && Reachable(next, starts, p)
  {
    var covered := iset p: Path | p in order || p !in files;
    forall p | p in files && Reachable(next, starts, p) ensures p in order {
      var trail :| Leads(next, starts, trail, p);
      assert forall q :: Handled(files, order, [], q) <==> q in covered;
      ClosedCovers(next, starts, covered, trail, p);
    }
  }

  /** Visiting `p` fails on the file `at`: the config itself, or one its `extends` chain meets. */
  predicate BreaksAt(repo: Repo, p: Path, at: Path) {
    || (p == at && p in repo.files && repo.files[p].Unreadable?)
    || (Readable(repo, p) && ProjectFace(repo, p, {}) == Err(at))
  }

  /**
   * Fails only on a file that a config in the graph needs and that cannot be read. Otherwise no config of
   * the graph needs such a file; all are visited, each once, and exactly their wrong references reported.
   */
  method CollectViolations(repo: Repo) returns (result: Result<seq<Violation>, Path>, ghost order: seq<Path>)
    ensures result.Ok? ==> Enumerates(repo, order) && result.value == WrongInAll(repo, order)
    ensures result.Ok? ==> forall p, at :: InGraph(repo, p) ==> !BreaksAt(repo, p, at)
    ensures result.Err? ==> result.error in repo.files && repo.files[result.error].Unreadable?
    ensures result.Err? ==> exists p :: InGraph(repo, p) && BreaksAt(repo, p, result.error)
  {
    hide Walking, Reachable, ProjectFace, Wrong, Allowed, ConfigPath, LeafName, Handled;
    ghost var next, starts, files := FollowedIn(repo), Aggregates(repo), repo.files.Keys;
    var violations: seq<Violation>, pending, visited: set<Path> := [], Aggregates(repo), {};
    order := [];
    WalkStarts(next, starts, files);
    while pending != []
      invariant Walking(next, starts, files, order, pending)
      invariant forall p :: p in visited <==> p in order
      invariant violations == WrongInAll(repo, order)
      invariant forall p, at :: p in order ==> !BreaksAt(repo, p, at)
      decreases files - visited, |pending|
    {
      var p := pending[|pending| - 1];
      assert pending == pending[..|pending| - 1] + [p];
      pending := pending[..|pending| - 1];
      if p in visited || p !in repo.files {
        WalkSkips(next, starts, files, order, pending, p);
        continue;
      }
      WalkReaches(next, starts, files, order, pending, p);
      assert InGraph(repo, p);
      if repo.files[p].Unreadable? {
        assert BreaksAt(repo, p, p);
        return Err(p), order;
      }
      var face := ProjectFace(repo, p, {});
      if face.Err? {
        assert BreaksAt(repo, p, face.error);
        return Err(face.error), order;
      }
      WalkVisits(next, starts, files, order, pending, p);
      visited := visited + {p};
      var wrong, followed := JudgeReferences(repo, p, face.value);
      violations, pending := violations + wrong, pending + followed;
      order := order + [p];
      assert order[..|order| - 1] + [p] == order;
    }
    WalkEnds(next, starts, files, order);
    return Ok(violations), order;
  }

  method JudgeReferences(repo: Repo, p: Path, face: Option<Face>) returns (wrong: seq<Violation>, followed: seq<Path>)
    requires Readable(repo, p)
    ensures wrong == Wrong(repo, p, face, repo.files[p].references)
    ensures followed == Allowed(repo, p, face, repo.files[p].references)
  {
    hide ConfigPath, ContainingSplitRoot, LeafName;
    var refs := repo.files[p].references;
    wrong, followed := [], [];
    for i := 0 to |refs|
      invariant wrong == Wrong(repo, p, face, refs[..i]) && followed == Allowed(repo, p, face, refs[..i])
    {
      assert refs[..i + 1][..i] == refs[..i];
      var target := ConfigPath(refs[i].path);
      var splitRoot := ContainingSplitRoot(repo.splitRoots, target);
      if splitRoot.Some? && (face.None? || target != splitRoot.value + [LeafName(face.value)]) {
        wrong := wrong + [Violation(p, refs[i].spelling, splitRoot.value, face)];
      } else {
        followed := followed + [target];
      }
    }
    assert refs[..|refs|] == refs;
  }

  // ----- What a clean report means -----

  function Targets(refs: seq<Reference>): seq<Path> {
    if refs == [] then [] else Targets(refs[..|refs| - 1]) + [ConfigPath(refs[|refs| - 1].path)]
  }

  /** All references of a config, followed or not. */
  function ReferredIn(repo: Repo): Successors {
    p => if Readable(repo, p) then Targets(repo.files[p].references) else []
  }

  ghost predicate ReachedFrom(repo: Repo, face: Face, p: Path) {
    p in repo.files && Reachable(ReferredIn(repo), [repo.root + [LeafName(face)]], p)
  }

  /** If the reference enters a split project, it is at the leaf of that face. */
  predicate NamesLeaf(repo: Repo, face: Face, ref: Reference) {
    var root := ContainingSplitRoot(repo.splitRoots, ConfigPath(ref.path));
    root.Some? ==> ConfigPath(ref.path) == root.value + [LeafName(face)]
  }

  /** The documented contract: every reachable reference names the leaf of the aggregate it is reached from. */
  ghost predicate Isolated(repo: Repo) {
    forall face, p, ref ::
      ReachedFrom(repo, face, p) && Readable(repo, p) && ref in repo.files[p].references ==> NamesLeaf(repo, face, ref)
  }

  /** Nothing to report. */
  ghost predicate Clean(repo: Repo) {
    forall p :: InGraph(repo, p) ==> WrongIn(repo, p) == []
  }

  predicate Enters(repo: Repo, p: Path) {
    Readable(repo, p) && exists ref :: ref in repo.files[p].references && ContainingSplitRoot(repo.splitRoots, ConfigPath(ref.path)).Some?
  }

  /** A config that enters a split project has the face of each aggregate that reaches it. */
  ghost predicate FacesAgree(repo: Repo) {
    forall face, p :: ReachedFrom(repo, face, p) && Enters(repo, p) ==> FaceOf(repo, p) == Some(face)
  }

  lemma {:induction false} NoneWrong(repo: Repo, p: Path, face: Option<Face>, refs: seq<Reference>)
    ensures Wrong(repo, p, face, refs) == [] <==> forall ref :: ref in refs ==> Judged(repo, p, face, ref).None?
    ensures Wrong(repo, p, face, refs) == [] ==> Allowed(repo, p, face, refs) == Targets(refs)
    decreases |refs|
  {
    hide Judged, ConfigPath;
    if refs != [] {
      assert refs == refs[..|refs| - 1] + [refs[|refs| - 1]];
      NoneWrong(repo, p, face, refs[..|refs| - 1]);
    }
  }

  lemma {:induction false} AllowedAreTargets(repo: Repo, p: Path, face: Option<Face>, refs: seq<Reference>, q: Path)
    requires q in Allowed(repo, p, face, refs)
    ensures q in Targets(refs)
    decreases |refs|
  {
    hide Judged, ConfigPath;
    if q in Allowed(repo, p, face, refs[..|refs| - 1]) {
      AllowedAreTargets(repo, p, face, refs[..|refs| - 1], q);
    }
  }

  lemma {:induction false} TrailWithin(next: Successors, wider: Successors, start: Path, trail: seq<Path>, p: Path)
    requires Leads(next, [start], trail, p)
    requires forall q, r :: r in next(q) ==> r in wider(q)
    ensures Reachable(wider, [start], p)
  {
    assert Leads(wider, [start], trail, p);
  }

  /** Whatever the walk visits is reached from one of the aggregates. */
  lemma VisitedIsReached(repo: Repo, p: Path) returns (face: Face)
    requires InGraph(repo, p)
    ensures ReachedFrom(repo, face, p)
  {
    var trail :| Leads(FollowedIn(repo), Aggregates(repo), trail, p);
    face := if trail[0] == repo.root + [LeafName(Host)] then Host else Client;
    forall q, r | r in FollowedIn(repo)(q) ensures r in ReferredIn(repo)(q) {
      AllowedAreTargets(repo, q, FaceOf(repo, q), repo.files[q].references, r);
    }
    assert Leads(FollowedIn(repo), [repo.root + [LeafName(face)]], trail, p);
    TrailWithin(FollowedIn(repo), ReferredIn(repo), repo.root + [LeafName(face)], trail, p);
  }

  /** With nothing to report, the walk has followed every reference. */
  lemma ReachedIsVisited(repo: Repo, face: Face, p: Path)
    requires Clean(repo) && ReachedFrom(repo, face, p)
    ensures InGraph(repo, p)
  {
    var start := repo.root + [LeafName(face)];
    var covered := iset q: Path | Reachable(FollowedIn(repo), Aggregates(repo), q) || q !in repo.files;
    var trail :| Leads(ReferredIn(repo), [start], trail, p);
    StartsReachable(FollowedIn(repo), Aggregates(repo));
    assert start in Aggregates(repo);
    forall q, r | q in covered && r in ReferredIn(repo)(q) ensures r in covered {
      assert InGraph(repo, q);
      NoneWrong(repo, q, FaceOf(repo, q), repo.files[q].references);
      ReachableOn(FollowedIn(repo), Aggregates(repo), q);
    }
    ClosedCovers(ReferredIn(repo), [start], covered, trail, p);
  }

  lemma JudgedByFace(repo: Repo, p: Path, face: Face, ref: Reference)
    ensures Judged(repo, p, Some(face), ref).None? <==> NamesLeaf(repo, face, ref)
    ensures ContainingSplitRoot(repo.splitRoots, ConfigPath(ref.path)).Some? ==>
              && Judged(repo, p, None, ref).Some?
              && forall other :: NamesLeaf(repo, face, ref) && NamesLeaf(repo, other, ref) ==> other == face
    ensures ContainingSplitRoot(repo.splitRoots, ConfigPath(ref.path)).None? ==> NamesLeaf(repo, face, ref)
  {
    var root := ContainingSplitRoot(repo.splitRoots, ConfigPath(ref.path));
    LeavesDiffer();
    if root.Some? {
      assert (root.value + [LeafName(Host)])[|root.value|] != (root.value + [LeafName(Client)])[|root.value|];
    }
  }

  lemma LeavesDiffer()
    ensures LeafName(Host) != LeafName(Client)
  {
    assert LeafName(Host)[9] != LeafName(Client)[9];
  }

  /**
   * A clean report means that the faces are isolated exactly when every config that enters a split project
   * has the face of the aggregates that reach it; and when they agree, isolation makes the report clean.
   */
  lemma CleanReportExactly(repo: Repo)
    ensures Clean(repo) ==> (Isolated(repo) <==> FacesAgree(repo))
    ensures FacesAgree(repo) ==> (Isolated(repo) <==> Clean(repo))
  {
    hide Judged, NamesLeaf, ConfigPath, LeafName, FaceOf, Reachable;
    if Clean(repo) {
      CleanAndAgree(repo);
      CleanAndIsolated(repo);
    }
    if Isolated(repo) && FacesAgree(repo) {
      IsolatedAndAgree(repo);
    }
  }

  lemma CleanAndAgree(repo: Repo)
    requires Clean(repo)
    ensures FacesAgree(repo) ==> Isolated(repo)
  {
    hide Judged, NamesLeaf, ConfigPath, LeafName, FaceOf, Reachable;
    if FacesAgree(repo) {
      forall face, p, ref | ReachedFrom(repo, face, p) && Readable(repo, p) && ref in repo.files[p].references
        ensures NamesLeaf(repo, face, ref)
      {
        ReachedIsVisited(repo, face, p);
        NoneWrong(repo, p, FaceOf(repo, p), repo.files[p].references);
        JudgedByFace(repo, p, face, ref);
      }
    }
  }

  lemma CleanAndIsolated(repo: Repo)
    requires Clean(repo)
    ensures Isolated(repo) ==> FacesAgree(repo)
  {
    hide Judged, NamesLeaf, ConfigPath, LeafName, FaceOf, Reachable;
    if Isolated(repo) {
      forall face, p | ReachedFrom(repo, face, p) && Enters(repo, p) ensures FaceOf(repo, p) == Some(face) {
        var ref :| ref in repo.files[p].references && ContainingSplitRoot(repo.splitRoots, ConfigPath(ref.path)).Some?;
        ReachedIsVisited(repo, face, p);
        NoneWrong(repo, p, FaceOf(repo, p), repo.files[p].references);
        assert NamesLeaf(repo, face, ref);
        assert Judged(repo, p, FaceOf(repo, p), ref).None?;
        JudgedByFace(repo, p, face, ref);
        if FaceOf(repo, p).Some? {
          JudgedByFace(repo, p, FaceOf(repo, p).value, ref);
          assert NamesLeaf(repo, FaceOf(repo, p).value, ref);
        }
      }
    }
  }

  lemma IsolatedAndAgree(repo: Repo)
    requires Isolated(repo) && FacesAgree(repo)
    ensures Clean(repo)
  {
    hide Judged, NamesLeaf, ConfigPath, LeafName, FaceOf, Reachable;
    forall p | InGraph(repo, p) ensures WrongIn(repo, p) == [] {
      var face := VisitedIsReached(repo, p);
      if Readable(repo, p) {
        forall ref | ref in repo.files[p].references ensures Judged(repo, p, FaceOf(repo, p), ref).None? {
          JudgedByFace(repo, p, face, ref);
          NotEntering(repo, p, FaceOf(repo, p), ref);
        }
        NoneWrong(repo, p, FaceOf(repo, p), repo.files[p].references);
      }
    }
  }

  lemma NotEntering(repo: Repo, p: Path, face: Option<Face>, ref: Reference)
    ensures ContainingSplitRoot(repo.splitRoots, ConfigPath(ref.path)).None? ==> Judged(repo, p, face, ref).None?
  {
  }

  const ROOT: Path := []
  const HOST: Path := ["tsconfig.host.json"]
  const NEUTRAL: Path := ["n.json"]
  const CLIENT_BASE: Path := ["tsconfig.base.client.json"]
  const CLIENT_LEAF: Path := ["s", "tsconfig.client.json"]

  /** A config with no face in its name extends the client base, and the host aggregate refers to it. */
  const BRIDGED: Repo := Repo(ROOT, map[
    HOST := Config(None, [Reference("n.json", NEUTRAL)]),
    NEUTRAL := Config(Some(CLIENT_BASE), [Reference("s/tsconfig.client.json", CLIENT_LEAF)]),
    CLIENT_BASE := Config(None, []),
    CLIENT_LEAF := Config(None, [])], [["s"]])

  lemma BridgedPaths()
    ensures ConfigPath(NEUTRAL) == NEUTRAL && ConfigPath(CLIENT_LEAF) == CLIENT_LEAF
    ensures Named(BRIDGED, NEUTRAL).None? && Named(BRIDGED, CLIENT_BASE) == Some(Client) && Named(BRIDGED, HOST) == Some(Host)
    ensures HOST != NEUTRAL && HOST != CLIENT_BASE && HOST != CLIENT_LEAF && NEUTRAL != CLIENT_BASE
    ensures NEUTRAL != CLIENT_LEAF && CLIENT_BASE != CLIENT_LEAF
  {
    assert |NEUTRAL| == 1 && NEUTRAL[0] == "n.json" && |"n.json"| == 6 && "n.json"[1..] == ".json";
    assert |CLIENT_LEAF| == 2 && CLIENT_LEAF[1] == "tsconfig.client.json" && |"tsconfig.client.json"| == 20;
    assert "tsconfig.client.json"[15..] == ".json";
    LeavesDiffer();
    assert |CLIENT_BASE[0]| == 25 && |HOST[0]| == 18;
  }

  lemma BridgedFaces()
    ensures FaceOf(BRIDGED, NEUTRAL) == Some(Client) && FaceOf(BRIDGED, HOST) == Some(Host)
    ensures ContainingSplitRoot([["s"]], NEUTRAL).None? && ContainingSplitRoot([["s"]], CLIENT_LEAF) == Some(["s"])
    ensures NEUTRAL in BRIDGED.files && BRIDGED.files[NEUTRAL].Config?
  {
    BridgedPaths();
    assert BRIDGED.files[NEUTRAL].parent == Some(CLIENT_BASE) && BRIDGED.files[CLIENT_BASE] == Config(None, []);
    assert ProjectFace(BRIDGED, CLIENT_BASE, {} + {NEUTRAL}) == Ok(Some(Client));
    assert ProjectFace(BRIDGED, NEUTRAL, {}) == Ok(Some(Client));
    assert |"n.json"| != |"s"| && NEUTRAL[0] == "n.json";
    assert CLIENT_LEAF[..1] == ["s"];
  }

  lemma BridgedClean()
    ensures Clean(BRIDGED)
  {
    BridgedPaths();
    BridgedFaces();
    hide ConfigPath, FaceOf, ContainingSplitRoot;
    assert CLIENT_LEAF == ["s"] + [LeafName(Client)];
    forall p | p in BRIDGED.files ensures WrongIn(BRIDGED, p) == [] {
      var refs := BRIDGED.files[p].references;
      if p == HOST || p == NEUTRAL {
        assert |refs| == 1 && refs[..0] == [];
        assert Wrong(BRIDGED, p, FaceOf(BRIDGED, p), refs[..0]) == [];
      }
    }
  }

  lemma BridgedReached()
    ensures ReachedFrom(BRIDGED, Host, NEUTRAL)
  {
    BridgedPaths();
    hide ConfigPath;
    var refs := BRIDGED.files[HOST].references;
    assert refs[..0] == [] && Targets(refs[..0]) == [] && Targets(refs) == [NEUTRAL];
    assert [] + [LeafName(Host)] == HOST;
    assert Leads(ReferredIn(BRIDGED), [HOST], [HOST, NEUTRAL], NEUTRAL);
  }

  /** The report on it is clean, yet from the host aggregate one reaches the client leaf. */
  lemma BridgedIsCleanNotIsolated()
    ensures Clean(BRIDGED) && !Isolated(BRIDGED)
  {
    BridgedClean();
    BridgedReached();
    BridgedPaths();
    BridgedFaces();
    CleanReportExactly(BRIDGED);
    assert Enters(BRIDGED, NEUTRAL) by {
      assert BRIDGED.files[NEUTRAL].references[0].path == CLIENT_LEAF;
    }
  }

  lemma {:induction false} ReportIsClean(repo: Repo, order: seq<Path>)
    ensures WrongInAll(repo, order) == [] <==> forall p :: p in order ==> WrongIn(repo, p) == []
    decreases |order|
  {
    hide WrongIn;
    if order != [] {
      assert order == order[..|order| - 1] + [order[|order| - 1]];
      ReportIsClean(repo, order[..|order| - 1]);
    }
  }

  // ----- Does an owner reach the invariants package? -----

  predicate Inside(owner: Path, p: Path) {
    owner < p
  }

  /** The existing configs inside the owner's directory that `p` refers to, and have not been `from`. */
  function InnerRefs(repo: Repo, owner: Path, refs: seq<Reference>): seq<Path> {
    if refs == [] then []
    else
      var last := refs[|refs| - 1].path;
      InnerRefs(repo, owner, refs[..|refs| - 1]) +
      if Inside(owner, last) && ConfigPath(last) in repo.files then [ConfigPath(last)] else []
  }

  function InnerIn(repo: Repo, owner: Path): Successors {
    p => if Readable(repo, p) then InnerRefs(repo, owner, repo.files[p].references) else []
  }

  predicate RefersTo(repo: Repo, p: Path, target: Path) {
    Readable(repo, p) && exists ref :: ref in repo.files[p].references && ref.path == target
  }

  /** Some config reachable from the entry inside the owner's directory refers to the target. */
  ghost predicate OwnerReaches(repo: Repo, owner: Path, entry: Path, target: Path) {
    exists p :: Reachable(InnerIn(repo, owner), [entry], p) && RefersTo(repo, p, target)
  }

  /** A reference from `p` to a path strictly inside the owner's directory, and the existing config it stands for. */
  ghost predicate LeadsInside(repo: Repo, owner: Path, p: Path, q: Path) {
    Readable(repo, p) && q in repo.files
    && exists ref :: ref in repo.files[p].references && Below(owner, ref.path) && StandsFor(ref.path, q)
  }

  predicate Below(owner: Path, p: Path) {
    |owner| < |p| && forall i :: 0 <= i < |owner| ==> p[i] == owner[i]
  }

  lemma InnerStep(repo: Repo, owner: Path, ref: Reference, q: Path)
    ensures Inside(owner, ref.path) && ConfigPath(ref.path) in repo.files && q == ConfigPath(ref.path) <==>
            q in repo.files && Below(owner, ref.path) && StandsFor(ref.path, q)
    ensures Below(owner, ref.path) && StandsFor(ref.path, q) ==> Below(owner, q)
  {
    ConfigStandsFor(ref.path, q);
  }

  lemma {:induction false} InnerExactly(repo: Repo, owner: Path, refs: seq<Reference>, q: Path)
    ensures q in InnerRefs(repo, owner, refs) <==>
            q in repo.files && exists ref :: ref in refs && Below(owner, ref.path) && StandsFor(ref.path, q)
    decreases |refs|
  {
    hide StandsFor, ConfigPath, Below, Inside;
    if refs != [] {
      var front, last := refs[..|refs| - 1], refs[|refs| - 1];
      assert refs == front + [last];
      InnerExactly(repo, owner, front, q);
      InnerStep(repo, owner, last, q);
    }
  }

  lemma InnerLeads(repo: Repo, owner: Path, p: Path, q: Path)
    ensures q in InnerIn(repo, owner)(p) <==> LeadsInside(repo, owner, p, q)
    ensures LeadsInside(repo, owner, p, q) ==> Below(owner, q)
  {
    hide StandsFor, Below, InnerRefs;
    if Readable(repo, p) {
      InnerExactly(repo, owner, repo.files[p].references, q);
    }
    if LeadsInside(repo, owner, p, q) {
      var ref :| ref in repo.files[p].references && Below(owner, ref.path) && StandsFor(ref.path, q);
      InnerStep(repo, owner, ref, q);
    }
  }

  /** A chain of references from the entry, each to a config inside the owner's directory. */
  ghost predicate InnerChain(repo: Repo, owner: Path, entry: Path, chain: seq<Path>) {
    && |chain| > 0 && chain[0] == entry
    && forall i :: 0 <= i < |chain| - 1 ==> LeadsInside(repo, owner, chain[i], chain[i + 1])
  }

  /**
   * The owner reaches the target exactly when a chain of references inside its directory ends in a config
   * that refers to it; every config on the chain but the entry lies strictly below the owner.
   */
  lemma ReachesByChain(repo: Repo, owner: Path, entry: Path, target: Path)
    ensures OwnerReaches(repo, owner, entry, target) <==>
            exists chain :: InnerChain(repo, owner, entry, chain) && RefersTo(repo, chain[|chain| - 1], target)
    ensures forall chain, i :: InnerChain(repo, owner, entry, chain) && 0 < i < |chain| ==> Below(owner, chain[i])
  {
    hide LeadsInside, RefersTo, Below;
    var next := InnerIn(repo, owner);
    forall p, q ensures q in next(p) <==> LeadsInside(repo, owner, p, q) {
      InnerLeads(repo, owner, p, q);
    }
    forall chain, p
      ensures Leads(next, [entry], chain, p) <==> InnerChain(repo, owner, entry, chain) && p == chain[|chain| - 1]
    {
    }
    forall chain, i | InnerChain(repo, owner, entry, chain) && 0 < i < |chain| ensures Below(owner, chain[i]) {
      assert LeadsInside(repo, owner, chain[i - 1], chain[i - 1 + 1]);
      InnerLeads(repo, owner, chain[i - 1], chain[i]);
    }
    if p :| Reachable(next, [entry], p) && RefersTo(repo, p, target) {
      var chain :| Leads(next, [entry], chain, p);
      assert InnerChain(repo, owner, entry, chain);
    }
    if chain :| InnerChain(repo, owner, entry, chain) && RefersTo(repo, chain[|chain| - 1], target) {
      assert Leads(next, [entry], chain, chain[|chain| - 1]);
    }
  }

  lemma RefersIf(repo: Repo, p: Path, target: Path)
    ensures RefersTo(repo, p, target) ==> p in repo.files
    ensures Readable(repo, p) ==>
              (RefersTo(repo, p, target) <==> exists ref :: ref in repo.files[p].references && ref.path == target)
  {
  }

  method ProjectReferencesInvariants(repo: Repo, owner: Path, entry: Path, target: Path)
    returns (result: Result<bool, Path>)
    ensures result.Ok? ==> (result.value <==> OwnerReaches(repo, owner, entry, target))
    ensures result.Err? ==> !Readable(repo, result.error) && Reachable(InnerIn(repo, owner), [entry], result.error)
    ensures entry !in repo.files ==> result == Err(entry)
  {
    hide Walking, Reachable, ConfigPath, Handled, RefersTo, InnerRefs;
    ghost var next, starts, files := InnerIn(repo, owner), [entry], repo.files.Keys;
    ghost var order: seq<Path> := [];
    var pending, visited: set<Path> := [entry], {};
    WalkStarts(next, starts, files);
    while pending != []
      invariant Walking(next, starts, files, order, pending)
      invariant forall p :: p in visited <==> p in order
      invariant forall p :: p in order ==> !RefersTo(repo, p, target)
      invariant entry !in repo.files ==> order == [] && pending == [entry]
      decreases files - visited, |pending|
    {
      var p := pending[|pending| - 1];
      assert pending == pending[..|pending| - 1] + [p];
      pending := pending[..|pending| - 1];
      if p in visited {
        WalkSkips(next, starts, files, order, pending, p);
        continue;
      }
      WalkReaches(next, starts, files, order, pending, p);
      if !Readable(repo, p) {
        return Err(p);
      }
      visited := visited + {p};
      var found, inner := InnerReferences(repo, owner, repo.files[p].references, target);
      RefersIf(repo, p, target);
      if found {
        return Ok(true);
      }
      WalkVisits(next, starts, files, order, pending, p);
      pending, order := pending + inner, order + [p];
    }
    WalkEnds(next, starts, files, order);
    forall p | Reachable(next, starts, p) ensures !RefersTo(repo, p, target) {
      RefersIf(repo, p, target);
    }
    return Ok(false);
  }

  /** Stops at the first reference to the target; otherwise lists the configs to visit next. */
  method InnerReferences(repo: Repo, owner: Path, refs: seq<Reference>, target: Path)
    returns (found: bool, inner: seq<Path>)
    ensures found <==> exists ref :: ref in refs && ref.path == target
    ensures !found ==> inner == InnerRefs(repo, owner, refs)
  {
    hide ConfigPath;
    inner := [];
    for i := 0 to |refs|
      invariant inner == InnerRefs(repo, owner, refs[..i])
      invariant forall j :: 0 <= j < i ==> refs[j].path != target
    {
      var path := refs[i].path;
      if path == target {
        return true, inner;
      }
      assert refs[..i + 1][..i] == refs[..i];
      if !Inside(owner, path) {
        continue;
      }
      if ConfigPath(path) in repo.files {
        inner := inner + [ConfigPath(path)];
      }
    }
    assert refs[..|refs|] == refs;
    found := false;
  }
}
