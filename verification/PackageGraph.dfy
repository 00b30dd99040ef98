/** Dependency-safe ordering of the workspace packages. */
module PackageGraph {
  import opened Bytes

  datatype Node = Node(short: string, group: string, deps: seq<string>)

  /** `localeCompare`, as far as the sort relies on it. */
  type Collation = (string, string) -> int

  ghost predicate TotalOrder(locale: Collation) {
    && (forall a, b :: locale(a, b) == 0 <==> a == b)
    && (forall a, b :: locale(a, b) < 0 <==> locale(b, a) > 0)
    && (forall a, b, c :: locale(a, b) < 0 && locale(b, c) < 0 ==> locale(a, c) < 0)
  }

  // ----- Comparing packages -----

  const MAX_SAFE_INTEGER := 0x1f_ffff_ffff_ffff

  function IndexOf(groups: seq<string>, group: string): (i: int)
    ensures -1 <= i < |groups| && (i >= 0 ==> groups[i] == group)
    ensures i == -1 <==> group !in groups
    ensures forall j :: 0 <= j < i ==> groups[j] != group
  {
    if groups == [] then -1
    else if groups[0] == group then 0
    else
      var rest := IndexOf(groups[1..], group);
      if rest == -1 then -1 else rest + 1
  }

  function GroupRank(group: string, groupOrder: seq<string>): int {
    var i := IndexOf(groupOrder, group);
    if i == -1 then MAX_SAFE_INTEGER else i
  }

  function Compare(a: Node, b: Node, groupOrder: seq<string>, locale: Collation): int {
    var byRank := GroupRank(a.group, groupOrder) - GroupRank(b.group, groupOrder);
    var byGroup := locale(a.group, b.group);
    if byRank != 0 then byRank else if byGroup != 0 then byGroup else locale(a.short, b.short)
  }

  predicate Less(a: Node, b: Node, groupOrder: seq<string>, locale: Collation) {
    Compare(a, b, groupOrder, locale) < 0
  }

  /** Ranked groups first, then groups by name, then packages by name: a strict total order on names. */
  lemma LessIsStrictOrder(a: Node, b: Node, c: Node, groupOrder: seq<string>, locale: Collation)
    requires TotalOrder(locale)
    ensures !Less(a, a, groupOrder, locale)
    ensures Less(a, b, groupOrder, locale) ==> !Less(b, a, groupOrder, locale)
    ensures a.short != b.short ==> Less(a, b, groupOrder, locale) || Less(b, a, groupOrder, locale)
    ensures Less(a, b, groupOrder, locale) && Less(b, c, groupOrder, locale) ==> Less(a, c, groupOrder, locale)
  {
    hide GroupRank;
    assert locale(a.short, a.short) == 0 && locale(a.group, a.group) == 0;
  }

  /** `g` is listed, and `h` is not listed before it. */
  ghost predicate ListedBefore(order: seq<string>, g: string, h: string) {
    g != h && exists i :: 0 <= i < |order| && order[i] == g && h !in order[..i]
  }

  /**
   * The order within a level: by the list of groups, unlisted groups behind and by their names, and
   * packages of one group by their names.
   */
  ghost predicate Precedes(a: Node, b: Node, order: seq<string>, locale: Collation) {
    || ListedBefore(order, a.group, b.group)
    || (a.group !in order && b.group !in order && locale(a.group, b.group) < 0)
    || (a.group == b.group && locale(a.short, b.short) < 0)
  }

  lemma RankIsPlace(order: seq<string>, g: string, h: string)
    requires |order| <= MAX_SAFE_INTEGER
    ensures GroupRank(g, order) < GroupRank(h, order) <==> ListedBefore(order, g, h)
    ensures GroupRank(g, order) == GroupRank(h, order) <==> g == h || (g !in order && h !in order)
  {
    var i, j := IndexOf(order, g), IndexOf(order, h);
    if i != -1 && (j == -1 || i < j) {
      assert forall k :: 0 <= k < i ==> order[k] != h;
      assert h !in order[..i];
    }
    if k :| 0 <= k < |order| && order[k] == g && h !in order[..k] && g != h {
      assert forall m :: 0 <= m < k ==> order[m] in order[..k];
    }
  }

  /** The comparison is that order, for any list an array can hold. */
  lemma LessExactly(a: Node, b: Node, groupOrder: seq<string>, locale: Collation)
    requires TotalOrder(locale) && |groupOrder| <= MAX_SAFE_INTEGER
    ensures Less(a, b, groupOrder, locale) <==> Precedes(a, b, groupOrder, locale)
  {
    RankIsPlace(groupOrder, a.group, b.group);
    RankIsPlace(groupOrder, b.group, a.group);
    hide GroupRank, ListedBefore;
    assert locale(a.group, b.group) == 0 <==> a.group == b.group;
  }

  // ----- Sorting one layer -----

  predicate Sorted(xs: seq<Node>, groupOrder: seq<string>, locale: Collation) {
    forall i, j :: 0 <= i < j < |xs| ==> Less(xs[i], xs[j], groupOrder, locale)
  }

  predicate Distinct(xs: seq<Node>) {
    forall i, j :: 0 <= i < j < |xs| ==> xs[i].short != xs[j].short
  }

  function Shorts(xs: seq<Node>): set<string> {
    set x | x in xs :: x.short
  }

  function Insert(x: Node, xs: seq<Node>, groupOrder: seq<string>, locale: Collation): seq<Node> {
    if xs == [] || Less(x, xs[0], groupOrder, locale) then [x] + xs
    else [xs[0]] + Insert(x, xs[1..], groupOrder, locale)
  }

  /** The comparison sort; its result is the only sorted arrangement. */
  function Sort(xs: seq<Node>, groupOrder: seq<string>, locale: Collation): seq<Node> {
    if xs == [] then [] else Insert(xs[0], Sort(xs[1..], groupOrder, locale), groupOrder, locale)
  }

  lemma {:induction false} InsertKeeps(x: Node, xs: seq<Node>, groupOrder: seq<string>, locale: Collation)
    requires TotalOrder(locale) && Sorted(xs, groupOrder, locale) && x.short !in Shorts(xs)
    ensures Sorted(Insert(x, xs, groupOrder, locale), groupOrder, locale)
    ensures multiset(Insert(x, xs, groupOrder, locale)) == multiset(xs) + multiset{x}
  {
    hide Less;
    var result := Insert(x, xs, groupOrder, locale);
    if xs == [] || Less(x, xs[0], groupOrder, locale) {
      forall j | 0 <= j < |xs|
        ensures Less(x, xs[j], groupOrder, locale)
      {
        LessIsStrictOrder(x, xs[0], xs[j], groupOrder, locale);
      }
    } else {
      assert xs == [xs[0]] + xs[1..];
      InsertKeeps(x, xs[1..], groupOrder, locale);
      LessIsStrictOrder(xs[0], x, x, groupOrder, locale);
      assert xs[0].short in Shorts(xs);
      forall j | 1 <= j < |result|
        ensures Less(xs[0], result[j], groupOrder, locale)
      {
        assert result[j] == result[1..][j - 1];
        assert result[j] in multiset(result[1..]);
        assert result[j] in xs[1..] || result[j] == x;
      }
    }
  }

  lemma {:induction false} SortKeeps(xs: seq<Node>, groupOrder: seq<string>, locale: Collation)
    requires TotalOrder(locale) && Distinct(xs)
    ensures Sorted(Sort(xs, groupOrder, locale), groupOrder, locale)
    ensures multiset(Sort(xs, groupOrder, locale)) == multiset(xs)
  {
    hide Less, Insert;
    if xs != [] {
      var rest := Sort(xs[1..], groupOrder, locale);
      SortKeeps(xs[1..], groupOrder, locale);
      assert xs == [xs[0]] + xs[1..];
      forall x | x in rest
        ensures x.short != xs[0].short
      {
        assert x in multiset(rest) && x in xs[1..];
      }
      InsertKeeps(xs[0], rest, groupOrder, locale);
    }
  }

  // ----- Dependency chains -----

  type Graph = map<string, Node>

  /** A walk along dependencies between known packages. */
  ghost predicate Chain(g: Graph, c: seq<string>) {
    && (forall i :: 0 <= i < |c| ==> c[i] in g)
    && forall i :: 0 <= i < |c| - 1 ==> c[i + 1] in g[c[i]].deps
  }

  ghost predicate ChainFrom(g: Graph, name: string, c: seq<string>) {
    Chain(g, c) && c != [] && c[0] == name
  }

  ghost predicate HasChain(g: Graph, name: string, length: nat) {
    exists c :: ChainFrom(g, name, c) && |c| == length
  }

  /** The longest chain below a package has `level` edges. */
  ghost predicate IsLevel(g: Graph, name: string, level: nat) {
    HasChain(g, name, level + 1) && !HasChain(g, name, level + 2)
  }

  ghost predicate AllKnown(g: Graph) {
    forall name, dep :: name in g && dep in g[name].deps ==> dep in g
  }

  ghost predicate Cycle(g: Graph, c: seq<string>) {
    Chain(g, c) && |c| > 1 && c[0] == c[|c| - 1]
  }

  ghost predicate Acyclic(g: Graph) {
    forall c :: !Cycle(g, c)
  }

  /** The names placed after `k` rounds. */
  ghost function Below(g: Graph, k: nat): set<string> {
    if k == 0 then {} else set name | name in g && forall dep :: dep in g[name].deps ==> dep in Below(g, k - 1)
  }

  lemma {:induction false} BelowGrows(g: Graph, k: nat)
    ensures Below(g, k) <= Below(g, k + 1)
  {
    if k != 0 {
      BelowGrows(g, k - 1);
    }
  }

  lemma ChainStep(g: Graph, name: string, dep: string, length: nat)
    requires name in g && dep in g[name].deps && HasChain(g, dep, length)
    ensures HasChain(g, name, length + 1)
  {
    var c :| ChainFrom(g, dep, c) && |c| == length;
    assert ChainFrom(g, name, [name] + c);
  }

  /** When every dependency is known, a package is below `k` exactly when no chain of `k + 1` packages starts at it. */
  lemma {:induction false} BelowMeansShortChains(g: Graph, k: nat, name: string)
    requires AllKnown(g) && name in g
    ensures name in Below(g, k) <==> !HasChain(g, name, k + 1)
  {
    if k == 0 {
      assert ChainFrom(g, name, [name]);
    } else {
      if name in Below(g, k) && HasChain(g, name, k + 1) {
        var c :| ChainFrom(g, name, c) && |c| == k + 1;
        assert ChainFrom(g, c[1], c[1..]);
        BelowMeansShortChains(g, k - 1, c[1]);
      }
      if name !in Below(g, k) {
        var dep :| dep in g[name].deps && dep !in Below(g, k - 1);
        BelowMeansShortChains(g, k - 1, dep);
        ChainStep(g, name, dep, k);
      }
    }
  }

  /** Round `k` places exactly the packages of level `k`. */
  lemma RoundIsLevel(g: Graph, k: nat, name: string)
    requires AllKnown(g) && name in g
    ensures name in Below(g, k + 1) && name !in Below(g, k) <==> IsLevel(g, name, k)
  {
    BelowMeansShortChains(g, k, name);
    BelowMeansShortChains(g, k + 1, name);
  }

  // ----- Cycles -----

  lemma {:induction false} Pigeonhole(names: set<string>, c: seq<string>) returns (i: nat, j: nat)
    requires |c| > |names| && forall k :: 0 <= k < |c| ==> c[k] in names
    ensures i < j < |c| && c[i] == c[j]
    decreases |c|
  {
    var last := c[|c| - 1];
    if k :| 0 <= k < |c| - 1 && c[k] == last {
      return k, |c| - 1;
    }
    i, j := Pigeonhole(names - {last}, c[..|c| - 1]);
  }

  /** A chain with more packages than there are walks round a cycle. */
  lemma LongChainCycles(g: Graph, name: string)
    requires HasChain(g, name, |g| + 1)
    ensures !Acyclic(g)
  {
    var c :| ChainFrom(g, name, c) && |c| == |g| + 1;
    assert |g.Keys| == |g|;
    var i, j := Pigeonhole(g.Keys, c);
    var d := c[i..j + 1];
    assert forall k :: 0 <= k < |d| ==> d[k] == c[i + k];
    assert Cycle(g, d);
  }

  /** And round a cycle there are chains of any length. */
  lemma {:induction false} CycleHasChains(g: Graph, c: seq<string>, at: nat, length: nat)
    requires Cycle(g, c) && at < |c| - 1 && length > 0
    ensures HasChain(g, c[at], length)
    decreases length
  {
    if length == 1 {
      assert ChainFrom(g, c[at], [c[at]]);
    } else {
      CycleHasChains(g, c, if at + 1 == |c| - 1 then 0 else at + 1, length - 1);
      ChainStep(g, c[at], c[at + 1], length - 1);
    }
  }

  /** A round that places nothing, with packages left, has met an unknown dependency or a cycle. */
  lemma StuckMeansCycle(g: Graph, k: nat, name: string)
    requires Below(g, k + 1) == Below(g, k) && name in g && name !in Below(g, k)
    ensures !AllKnown(g) || !Acyclic(g)
  {
    if AllKnown(g) {
      StuckForever(g, k, |g|);
      BelowMeansShortChains(g, |g|, name);
      LongChainCycles(g, name);
    }
  }

  lemma {:induction false} StuckForever(g: Graph, k: nat, m: nat)
    requires Below(g, k + 1) == Below(g, k)
    ensures Below(g, m) <= Below(g, k)
  {
    if m <= k {
      BelowMonotone(g, m, k);
    } else if m > k + 1 {
      StuckForever(g, k, m - 1);
    }
  }

  lemma {:induction false} BelowMonotone(g: Graph, k: nat, m: nat)
    requires k <= m
    ensures Below(g, k) <= Below(g, m)
    decreases m - k
  {
    if k < m {
      BelowGrows(g, k);
      BelowMonotone(g, k + 1, m);
    }
  }

  /** Placing everything proves that every dependency was known and that there was no cycle. */
  lemma PlacedMeansAcyclic(g: Graph, k: nat)
    requires Below(g, k) == g.Keys
    ensures AllKnown(g) && Acyclic(g)
  {
    BelowGrows(g, k);
    forall name, dep | name in g && dep in g[name].deps
      ensures dep in g
    {
      assert name in Below(g, k + 1);
    }
    forall c
      ensures !Cycle(g, c)
    {
      if Cycle(g, c) {
        CycleHasChains(g, c, 0, k + 1);
        BelowMeansShortChains(g, k, c[0]);
      }
    }
  }

  // ----- The sort -----

  function GraphOf(entries: seq<Node>): (g: Graph)
    requires Distinct(entries)
    ensures g.Keys == Shorts(entries)
    ensures forall x :: x in entries ==> g[x.short] == x
  {
    map x | x in entries :: x.short := x
  }

  /** The thrown message lists the packages left. */
  datatype TopoError = DependencyCycle(remaining: seq<Node>)

  /** Levels first, packages of one level in comparison order. */
  ghost predicate Layered(
      out: seq<Node>, level: map<string, nat>, groupOrder: seq<string>, locale: Collation)
  {
    && (forall x :: x in out ==> x.short in level)
    && forall i, j :: 0 <= i < j < |out| ==>
         level[out[i].short] < level[out[j].short]
         || (level[out[i].short] == level[out[j].short] && Less(out[i], out[j], groupOrder, locale))
  }

  /** Packages of one level stand in the order of their groups and names. */
  ghost predicate Ranked(out: seq<Node>, level: map<string, nat>, groupOrder: seq<string>, locale: Collation) {
    forall i, j :: 0 <= i < j < |out| && OneLevel(out[i], out[j], level) ==> Precedes(out[i], out[j], groupOrder, locale)
  }

  predicate OneLevel(a: Node, b: Node, level: map<string, nat>) {
    a.short in level && b.short in level && level[a.short] == level[b.short]
  }

  lemma LayeredIsRanked(out: seq<Node>, level: map<string, nat>, groupOrder: seq<string>, locale: Collation)
    requires TotalOrder(locale) && |groupOrder| <= MAX_SAFE_INTEGER && Layered(out, level, groupOrder, locale)
    ensures Ranked(out, level, groupOrder, locale)
  {
    hide Less, Precedes;
    forall i, j | 0 <= i < j < |out| && OneLevel(out[i], out[j], level)
      ensures Precedes(out[i], out[j], groupOrder, locale)
    {
      LessExactly(out[i], out[j], groupOrder, locale);
    }
  }

  /** Every package is at the level of its longest dependency chain. */
  ghost predicate Levels(g: Graph, level: map<string, nat>) {
    level.Keys == g.Keys && forall name :: name in g ==> IsLevel(g, name, level[name])
  }

  /** `placed` holds the finished rounds, each package recorded with its round. */
  ghost predicate Rounds(g: Graph, k: nat, placed: set<string>, level: map<string, nat>) {
    && placed == Below(g, k) == level.Keys
    && forall name :: name in placed ==>
         level[name] < k && name in Below(g, level[name] + 1) && name !in Below(g, level[name])
  }

  function Ready(remaining: seq<Node>, placed: set<string>): seq<Node> {
    if remaining == [] then []
    else (if forall dep :: dep in remaining[0].deps ==> dep in placed then [remaining[0]] else [])
         + Ready(remaining[1..], placed)
  }

  /** `remaining.delete` for every given name. */
  function Without(remaining: seq<Node>, names: set<string>): seq<Node> {
    if remaining == [] then []
    else (if remaining[0].short in names then [] else [remaining[0]]) + Without(remaining[1..], names)
  }

  lemma {:induction false} ReadyKeeps(remaining: seq<Node>, placed: set<string>)
    requires Distinct(remaining)
    ensures Distinct(Ready(remaining, placed))
    ensures forall x :: x in Ready(remaining, placed) <==> x in remaining && forall dep :: dep in x.deps ==> dep in placed
  {
    if remaining != [] {
      assert remaining == [remaining[0]] + remaining[1..];
      ReadyKeeps(remaining[1..], placed);
      assert forall x :: x in remaining[1..] ==> x.short != remaining[0].short;
    }
  }

  lemma {:induction false} WithoutKeeps(remaining: seq<Node>, names: set<string>)
    requires Distinct(remaining)
    ensures Distinct(Without(remaining, names))
    ensures forall x :: x in Without(remaining, names) <==> x in remaining && x.short !in names
  {
    if remaining != [] {
      assert remaining == [remaining[0]] + remaining[1..];
      WithoutKeeps(remaining[1..], names);
      assert forall x :: x in remaining[1..] ==> x.short != remaining[0].short;
    }
  }

  lemma {:induction false} ReadyAndRest(xs: seq<Node>, placed: set<string>, names: set<string>)
    requires forall x :: x in xs ==> (x.short in names <==> forall dep :: dep in x.deps ==> dep in placed)
    ensures multiset(xs) == multiset(Ready(xs, placed)) + multiset(Without(xs, names))
  {
    if xs != [] {
      assert xs == [xs[0]] + xs[1..];
      ReadyAndRest(xs[1..], placed, names);
    }
  }

  /** `remaining` lists the packages that are not placed, each once. */
  ghost predicate Waiting(packages: seq<Node>, remaining: seq<Node>, placed: set<string>) {
    Distinct(remaining) && forall x :: x in remaining <==> x in packages && x.short !in placed
  }

  lemma SameElements(a: seq<Node>, b: seq<Node>)
    requires multiset(a) == multiset(b)
    ensures |a| == |b| && forall x :: x in a <==> x in b
  {
    assert |multiset(a)| == |multiset(b)|;
    forall x
      ensures x in a <==> x in b
    {
      assert x in a <==> x in multiset(a);
      assert x in b <==> x in multiset(b);
    }
  }

  lemma RoundPlaces(packages: seq<Node>, remaining: seq<Node>, placed: set<string>, k: nat, ready: seq<Node>)
    requires Distinct(packages) && placed == Below(GraphOf(packages), k) && Waiting(packages, remaining, placed)
    requires forall x :: x in ready <==> x in Ready(remaining, placed)
    ensures placed + Shorts(ready) == Below(GraphOf(packages), k + 1) && Shorts(ready) !! placed
  {
    var g := GraphOf(packages);
    ReadyKeeps(remaining, placed);
    BelowGrows(g, k);
    forall name
      ensures name in placed + Shorts(ready) <==> name in Below(g, k + 1)
    {
      if name in Below(g, k + 1) && name !in placed {
        assert g[name] in packages && g[name] in ready;
      }
    }
  }

  lemma RoundLeaves(packages: seq<Node>, remaining: seq<Node>, placed: set<string>, ready: seq<Node>)
    requires Waiting(packages, remaining, placed)
    requires multiset(ready) == multiset(Ready(remaining, placed))
    ensures Waiting(packages, Without(remaining, Shorts(ready)), placed + Shorts(ready))
    ensures multiset(remaining) == multiset(ready) + multiset(Without(remaining, Shorts(ready)))
  {
    ReadyKeeps(remaining, placed);
    SameElements(ready, Ready(remaining, placed));
    WithoutKeeps(remaining, Shorts(ready));
    forall x | x in remaining
      ensures x.short in Shorts(ready) <==> forall dep :: dep in x.deps ==> dep in placed
    {
      if x.short in Shorts(ready) {
        var y :| y in ready && y.short == x.short;
        assert y == x;
      }
    }
    ReadyAndRest(remaining, placed, Shorts(ready));
  }

  /** The layer's names, at the level of its round. */
  function NewLevels(layer: seq<Node>, k: nat): map<string, nat> {
    map name | name in Shorts(layer) :: k
  }

  /** Adding a sorted layer of a new level keeps the output layered. */
  lemma LayerAdded(out: seq<Node>, layer: seq<Node>, level: map<string, nat>, k: nat,
      groupOrder: seq<string>, locale: Collation)
    requires Layered(out, level, groupOrder, locale) && Sorted(layer, groupOrder, locale)
    requires forall name :: name in level ==> level[name] < k
    requires Shorts(layer) !! level.Keys
    ensures Layered(out + layer, level + NewLevels(layer, k), groupOrder, locale)
  {
    hide Less;
    assert forall x :: x in layer ==> x.short in Shorts(layer);
    assert forall i :: 0 <= i < |layer| ==> layer[i] in layer;
    assert forall i :: 0 <= i < |out| ==> out[i] in out && out[i].short in level;
  }

  lemma RoundsGrow(g: Graph, k: nat, placed: set<string>, level: map<string, nat>, layer: seq<Node>)
    requires Rounds(g, k, placed, level)
    requires placed + Shorts(layer) == Below(g, k + 1) && Shorts(layer) !! placed
    ensures Rounds(g, k + 1, placed + Shorts(layer), level + NewLevels(layer, k))
  {
  }

  /** When everything is placed the rounds are the levels. */
  lemma AllPlaced(g: Graph, k: nat, placed: set<string>, level: map<string, nat>)
    requires Rounds(g, k, placed, level) && placed == g.Keys
    ensures AllKnown(g) && Acyclic(g) && Levels(g, level)
  {
    PlacedMeansAcyclic(g, k);
    forall name | name in g
      ensures IsLevel(g, name, level[name])
    {
      RoundIsLevel(g, level[name], name);
    }
  }

  lemma Stuck(packages: seq<Node>, k: nat, remaining: seq<Node>)
    requires Distinct(packages) && remaining != []
    requires Waiting(packages, remaining, Below(GraphOf(packages), k))
    requires Below(GraphOf(packages), k + 1) == Below(GraphOf(packages), k)
    ensures !AllKnown(GraphOf(packages)) || !Acyclic(GraphOf(packages))
    ensures forall x :: x in remaining <==> x in packages && NeverPlaced(GraphOf(packages), x.short)
  {
    var g := GraphOf(packages);
    assert remaining[0] in packages;
    StuckMeansCycle(g, k, remaining[0].short);
    forall m ensures Below(g, m) <= Below(g, k) {
      StuckForever(g, k, m);
    }
  }

  /** What holds between rounds. */
  ghost predicate Between(packages: seq<Node>, groupOrder: seq<string>, locale: Collation,
      remaining: seq<Node>, placed: set<string>, out: seq<Node>, level: map<string, nat>, k: nat)
    requires Distinct(packages)
  {
    && Rounds(GraphOf(packages), k, placed, level)
    && Waiting(packages, remaining, placed)
    && multiset(out) + multiset(remaining) == multiset(packages)
    && Layered(out, level, groupOrder, locale)
  }

  /** A sort that stopped with just the packages left that no round would ever place. */
  ghost predicate Refused(packages: seq<Node>, remaining: seq<Node>)
    requires Distinct(packages)
  {
    && !(AllKnown(GraphOf(packages)) && Acyclic(GraphOf(packages)))
    && remaining != [] && Distinct(remaining)
    && forall x :: x in remaining <==> x in packages && NeverPlaced(GraphOf(packages), x.short)
  }

  ghost predicate NeverPlaced(g: Graph, name: string) {
    forall k :: name !in Below(g, k)
  }

  lemma Round(packages: seq<Node>, groupOrder: seq<string>, locale: Collation,
      remaining: seq<Node>, placed: set<string>, out: seq<Node>, level: map<string, nat>, k: nat)
    requires TotalOrder(locale) && Distinct(packages) && remaining != []
    requires Between(packages, groupOrder, locale, remaining, placed, out, level, k)
    ensures var ready := Sort(Ready(remaining, placed), groupOrder, locale);
      if ready == [] then Refused(packages, remaining)
      else
        var rest := Without(remaining, Shorts(ready));
        && |rest| < |remaining|
        && Between(packages, groupOrder, locale, rest, placed + Shorts(ready), out + ready, level + NewLevels(ready, k), k + 1)
  {
    hide Less, Sort, AllKnown, Acyclic, Layered, Shorts, Ready, Without, NewLevels, GraphOf;
    var ready := Sort(Ready(remaining, placed), groupOrder, locale);
    ReadyKeeps(remaining, placed);
    SortKeeps(Ready(remaining, placed), groupOrder, locale);
    SameElements(ready, Ready(remaining, placed));
    RoundPlaces(packages, remaining, placed, k, ready);
    RoundLeaves(packages, remaining, placed, ready);
    if ready == [] {
      NothingPlaced(packages, remaining, placed, k);
    } else {
      LayerAdded(out, ready, level, k, groupOrder, locale);
      RoundsGrow(GraphOf(packages), k, placed, level, ready);
      var rest := Without(remaining, Shorts(ready));
      assert |multiset(remaining)| == |multiset(ready)| + |multiset(rest)|;
    }
  }

  lemma NothingPlaced(packages: seq<Node>, remaining: seq<Node>, placed: set<string>, k: nat)
    requires Distinct(packages) && remaining != [] && Waiting(packages, remaining, placed)
    requires placed == Below(GraphOf(packages), k) && placed + Shorts([]) == Below(GraphOf(packages), k + 1)
    ensures Refused(packages, remaining)
  {
    Stuck(packages, k, remaining);
  }

  lemma Finished(packages: seq<Node>, groupOrder: seq<string>, locale: Collation,
      placed: set<string>, out: seq<Node>, level: map<string, nat>, k: nat)
    requires Distinct(packages) && Between(packages, groupOrder, locale, [], placed, out, level, k)
    ensures AllKnown(GraphOf(packages)) && Acyclic(GraphOf(packages)) && Levels(GraphOf(packages), level)
    ensures multiset(out) == multiset(packages) && Layered(out, level, groupOrder, locale)
  {
    hide Less, Layered;
    var g := GraphOf(packages);
    forall name | name in g
      ensures name in placed
    {
      assert g[name] in packages;
    }
    AllPlaced(g, k, placed, level);
  }

  // ----- Packages of one name -----

  function PlaceOf(xs: seq<Node>, name: string): (i: int)
    ensures -1 <= i < |xs| && (i >= 0 ==> xs[i].short == name)
    ensures i == -1 ==> forall x :: x in xs ==> x.short != name
  {
    if xs == [] then -1
    else
      assert xs == [xs[0]] + xs[1..];
      if xs[0].short == name then 0
      else
        var rest := PlaceOf(xs[1..], name);
        if rest == -1 then -1 else rest + 1
  }

  /** The values of a `Map` by name: a repeated name keeps its first place and its last package. */
  function Mapped(packages: seq<Node>): seq<Node> {
    if packages == [] then []
    else
      Put(Mapped(packages[..|packages| - 1]), packages[|packages| - 1])
  }

  /** `Map.set`. */
  function Put(prior: seq<Node>, last: Node): seq<Node> {
    var i := PlaceOf(prior, last.short);
    if i == -1 then prior + [last] else prior[i := last]
  }

  /** The last package of its name. */
  predicate LastOfName(packages: seq<Node>, x: Node) {
    exists i :: 0 <= i < |packages| && LastAt(packages, x, i)
  }

  predicate LastAt(packages: seq<Node>, x: Node, i: nat)
    requires i < |packages|
  {
    packages[i] == x && forall j :: i < j < |packages| ==> packages[j].short != x.short
  }

  lemma LastOfNameStep(front: seq<Node>, last: Node, x: Node)
    ensures LastOfName(front + [last], x) <==> x == last || (LastOfName(front, x) && x.short != last.short)
  {
    var packages := front + [last];
    if x == last {
      assert LastAt(packages, x, |front|);
    }
    if i :| 0 <= i < |front| && LastAt(front, x, i) {
      assert x.short != last.short ==> LastAt(packages, x, i);
    }
    if i :| 0 <= i < |packages| && LastAt(packages, x, i) {
      if i < |front| {
        assert packages[|front|] == last;
        assert forall j :: 0 <= j < |front| ==> packages[j] == front[j];
        assert LastAt(front, x, i);
      }
    }
  }

  /** `kept` holds exactly the last package of each name, once. */
  ghost predicate KeepsLast(packages: seq<Node>, kept: seq<Node>) {
    Distinct(kept) && forall x :: x in kept <==> LastOfName(packages, x)
  }

  lemma {:induction false} MappedKeepsLast(packages: seq<Node>)
    ensures KeepsLast(packages, Mapped(packages))
    decreases |packages|
  {
    if packages == [] {
    } else {
      hide KeepsLast, Put;
      var front, last := packages[..|packages| - 1], packages[|packages| - 1];
      MappedKeepsLast(front);
      PutKeepsLast(front, last, Mapped(front));
      assert packages == front + [last];
    }
  }

  lemma PutKeepsLast(front: seq<Node>, last: Node, prior: seq<Node>)
    requires KeepsLast(front, prior)
    ensures KeepsLast(front + [last], Put(prior, last))
  {
    hide LastOfName, Put;
    Replaces(prior, last);
    forall x ensures x in Put(prior, last) <==> LastOfName(front + [last], x) {
      LastOfNameStep(front, last, x);
    }
  }

  lemma Replaces(prior: seq<Node>, last: Node)
    requires Distinct(prior)
    ensures Distinct(Put(prior, last))
    ensures forall x :: x in Put(prior, last) <==> x == last || (x in prior && x.short != last.short)
  {
    var i, kept := PlaceOf(prior, last.short), Put(prior, last);
    if i != -1 {
      assert kept[i] == last;
    }
    assert last in kept;
    forall x ensures x in kept <==> x == last || (x in prior && x.short != last.short) {
      if k :| 0 <= k < |prior| && prior[k] == x && x.short != last.short {
        assert kept[k] == x;
      }
      if k :| 0 <= k < |kept| && kept[k] == x && x != last {
        assert prior[k] == x;
        assert prior[k].short != last.short;
      }
    }
  }

  lemma {:induction false} MappedDistinct(packages: seq<Node>)
    requires Distinct(packages)
    ensures Mapped(packages) == packages
    decreases |packages|
  {
    if packages != [] {
      MappedDistinct(packages[..|packages| - 1]);
      assert packages == packages[..|packages| - 1] + [packages[|packages| - 1]];
    }
  }

  /**
   * The order exists exactly when every dependency is known and nothing is circular. It lists every package
   * once (the last of each name), round by round, a package's round being the length of its longest dependency chain.
   */
  method TopoSort(packages: seq<Node>, groupOrder: seq<string>, locale: Collation)
    returns (r: Result<seq<Node>, TopoError>, ghost level: map<string, nat>)
    requires TotalOrder(locale)
    ensures KeepsLast(packages, Mapped(packages)) && (Distinct(packages) ==> Mapped(packages) == packages)
    ensures r.Ok? <==> AllKnown(GraphOf(Mapped(packages))) && Acyclic(GraphOf(Mapped(packages)))
    ensures r.Ok? ==>
      && multiset(r.value) == multiset(Mapped(packages))
      && Levels(GraphOf(Mapped(packages)), level) && Layered(r.value, level, groupOrder, locale)
      && (|groupOrder| <= MAX_SAFE_INTEGER ==> Ranked(r.value, level, groupOrder, locale))
    ensures r.Err? ==> Refused(Mapped(packages), r.error.remaining)
  {
    MappedKeepsLast(packages);
    if Distinct(packages) {
      MappedDistinct(packages);
    }
    var kept := Mapped(packages);
    var remaining := kept;
    var placed: set<string> := {};
    var out: seq<Node> := [];
    ghost var k := 0;
    level := map[];
    hide Mapped, Less, Sort, Ready, Without, Shorts, NewLevels, AllKnown, Acyclic, Levels, Layered, Ranked;
    assert Between(kept, groupOrder, locale, remaining, placed, out, level, k) by {
    }
    hide Between, Refused;
    while remaining != []
      invariant Between(kept, groupOrder, locale, remaining, placed, out, level, k)
      decreases |remaining|
    {
      Round(kept, groupOrder, locale, remaining, placed, out, level, k);
      var ready := Sort(Ready(remaining, placed), groupOrder, locale);
      if ready == [] {
        return Err(DependencyCycle(remaining)), level;
      }
      out := out + ready;
      placed := placed + Shorts(ready);
      remaining := Without(remaining, Shorts(ready));
      level := level + NewLevels(ready, k);
      k := k + 1;
    }
    Finished(kept, groupOrder, locale, placed, out, level, k);
    if |groupOrder| <= MAX_SAFE_INTEGER {
      LayeredIsRanked(out, level, groupOrder, locale);
    }
    r := Ok(out);
  }

  // ----- What the order is worth -----

  lemma LevelAboveDependencies(g: Graph, level: map<string, nat>, name: string, dep: string)
    requires Levels(g, level) && name in g && dep in g && dep in g[name].deps
    ensures level[dep] < level[name]
  {
    assert IsLevel(g, dep, level[dep]) && IsLevel(g, name, level[name]);
    ChainStep(g, name, dep, level[dep] + 1);
    if level[name] <= level[dep] {
      ShorterChain(g, name, level[dep] + 2, level[name] + 2);
    }
  }

  /** A package comes after each of its dependencies. */
  lemma DependenciesComeFirst(packages: seq<Node>, out: seq<Node>, level: map<string, nat>,
      groupOrder: seq<string>, locale: Collation, i: nat, j: nat)
    requires Distinct(packages) && multiset(out) == multiset(packages)
    requires Levels(GraphOf(packages), level) && Layered(out, level, groupOrder, locale)
    requires i < |out| && j < |out| && out[j].short in out[i].deps
    ensures j < i
  {
    hide Less, IsLevel;
    SameElements(out, packages);
    assert out[i] in packages && out[j] in packages;
    LevelAboveDependencies(GraphOf(packages), level, out[i].short, out[j].short);
  }

  lemma ShorterChain(g: Graph, name: string, long: nat, short: nat)
    requires HasChain(g, name, long) && 0 < short <= long
    ensures HasChain(g, name, short)
  {
    var c :| ChainFrom(g, name, c) && |c| == long;
    assert ChainFrom(g, name, c[..short]);
  }

  /** The order is a function of the set of packages: listing them differently changes nothing. */
  lemma OrderIsCanonical(a: seq<Node>, b: seq<Node>, packagesA: seq<Node>, packagesB: seq<Node>,
      levelA: map<string, nat>, levelB: map<string, nat>, groupOrder: seq<string>, locale: Collation)
    requires TotalOrder(locale) && Distinct(packagesA) && Distinct(packagesB)
    requires multiset(packagesA) == multiset(packagesB) == multiset(a) == multiset(b)
    requires Levels(GraphOf(packagesA), levelA) && Layered(a, levelA, groupOrder, locale)
    requires Levels(GraphOf(packagesB), levelB) && Layered(b, levelB, groupOrder, locale)
    ensures a == b
  {
    var g := GraphOf(packagesA);
    SameGraph(packagesA, packagesB);
    forall name | name in g
      ensures levelA[name] == levelB[name]
    {
      LevelUnique(g, name, levelA[name], levelB[name]);
    }
    LayeredUnique(a, b, levelA, levelB, groupOrder, locale);
  }

  lemma SameGraph(a: seq<Node>, b: seq<Node>)
    requires Distinct(a) && Distinct(b) && multiset(a) == multiset(b)
    ensures GraphOf(a) == GraphOf(b)
  {
    forall x
      ensures x in a <==> x in b
    {
      assert x in a <==> x in multiset(a);
      assert x in b <==> x in multiset(b);
    }
  }

  lemma LevelUnique(g: Graph, name: string, m: nat, n: nat)
    requires IsLevel(g, name, m) && IsLevel(g, name, n)
    ensures m == n
  {
    if m < n {
      ShorterChain(g, name, n + 1, m + 2);
    } else if n < m {
      ShorterChain(g, name, m + 1, n + 2);
    }
  }

  lemma {:induction false} LayeredUnique(a: seq<Node>, b: seq<Node>, levelA: map<string, nat>, levelB: map<string, nat>,
      groupOrder: seq<string>, locale: Collation)
    requires TotalOrder(locale) && multiset(a) == multiset(b)
    requires Layered(a, levelA, groupOrder, locale) && Layered(b, levelB, groupOrder, locale)
    requires forall x :: x in a ==> x.short in levelB && levelA[x.short] == levelB[x.short]
    ensures a == b
    decreases |a|
  {
    hide Less;
    SameElements(a, b);
    if a != [] {
      assert a[0] in b && b[0] in a;
      LessIsStrictOrder(a[0], b[0], a[0], groupOrder, locale);
      TailsAgree(a, b);
      LayeredUnique(a[1..], b[1..], levelA, levelB, groupOrder, locale);
    }
  }

  lemma TailsAgree(a: seq<Node>, b: seq<Node>)
    requires a != [] && b != [] && a[0] == b[0] && multiset(a) == multiset(b)
    ensures multiset(a[1..]) == multiset(b[1..])
    ensures a[1..] == b[1..] ==> a == b
  {
    assert a == [a[0]] + a[1..] && b == [b[0]] + b[1..];
    assert multiset(a[1..]) == multiset(a) - multiset{a[0]} && multiset(b[1..]) == multiset(b) - multiset{b[0]};
  }
}
