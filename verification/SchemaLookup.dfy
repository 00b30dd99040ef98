/**
 * The schema-path check: does a declared config type have a member at a key path? Type declarations form a
 * graph that may be recursive; `seen` is shared by all branches of one lookup.
 */
module SchemaLookup {
  import opened Bytes

  type DeclId(==,!new) = nat

  /** One step of a key path: a named member, or a hop into an array's elements. */
  datatype Step = Member(name: string) | Element

  type Path = seq<Step>

  /**
   * Property signatures, methods and accessors have a name; an index signature admits names instead: a string
   * key all of them, a number key the numeric ones, a template those it matches, a symbol key none.
   */
  datatype Kind = PropertyKind | MethodKind | IndexKind(admits: iset<string>) | CallKind {
    predicate Names() { PropertyKind? || MethodKind? }
  }

  /**
   * A member of an interface or literal: how its name is written (quotes and brackets included), the name
   * that declares, and its type.
   */
  datatype Signature = Signature(kind: Kind, raw: string, name: string, typ: Option<Type>)

  /** Type syntax. A reference carries the declaration its name resolves to, if that is within reach. */
  datatype Type =
    | Literal(members: seq<Signature>)
    | Parenthesized(inner: Type)
    | Intersection(parts: seq<Type>)
    | Union(parts: seq<Type>)
    | ArrayOf(element: Type)
    | Operator(inner: Type)
    | IndexedAccess(owner: Type, index: Option<string>)
    | Reference(name: string, qualified: bool, argument: Option<Type>, target: Option<DeclId>)
    | Other

  datatype Declaration =
    | Interface(members: seq<Signature>, bases: seq<Option<DeclId>>)
    | Alias(typ: Type)

  type World = map<DeclId, Declaration>

  datatype Answer = Found | Missing | Unknown

  const WRAPPERS := {"Partial", "Required", "Readonly", "NonNullable"}
  const ARRAYS := {"Array", "ReadonlyArray"}

  // ----- What the syntax declares -----

  ghost function FirstOf(members: seq<Signature>, kind: Kind, name: string): (m: Option<Signature>)
    ensures m.Some? ==> m.value in members && m.value.kind == kind && m.value.name == name
    ensures m.None? ==> forall x :: x in members && x.kind == kind ==> x.name != name
  {
    if members == [] then None
    else
      assert members == [members[0]] + members[1..];
      if members[0].kind == kind && members[0].name == name then Some(members[0])
      else FirstOf(members[1..], kind, name)
  }

  /** The member a name denotes: a property of that name, or else a method or accessor. */
  ghost function Named(members: seq<Signature>, name: string): Option<Signature> {
    var property := FirstOf(members, PropertyKind, name);
    if property.Some? then property else FirstOf(members, MethodKind, name)
  }

  /** An index signature that admits the name. */
  ghost predicate Admits(m: Signature, name: string) {
    m.kind.IndexKind? && name in m.kind.admits
  }

  ghost function Indexed(members: seq<Signature>, name: string): (m: Option<Signature>)
    ensures m.Some? ==> m.value in members && Admits(m.value, name)
    ensures m.None? ==> forall x :: x in members ==> !Admits(x, name)
  {
    if members == [] then None
    else
      assert members == [members[0]] + members[1..];
      if Admits(members[0], name) then Some(members[0]) else Indexed(members[1..], name)
  }

  /** A name of a literal denotes its member of that name, or else what an index signature says of it. */
  ghost function Denoted(members: seq<Signature>, name: string): Option<Signature> {
    var named := Named(members, name);
    if named.Some? then named else Indexed(members, name)
  }

  /** The unfolding of a type has the path, by a derivation of height at most `k`. */
  ghost predicate Has(w: World, k: nat, t: Type, path: Path)
    decreases k, 0
  {
    path == [] || (k > 0 &&
      match t
      case Literal(members) => path[0].Member? && HasVia(w, k - 1, Denoted(members, path[0].name), path)
      case Parenthesized(inner) => Has(w, k - 1, inner, path)
      case Operator(inner) => Has(w, k - 1, inner, path)
      case Intersection(parts) => exists i :: 0 <= i < |parts| && Has(w, k - 1, parts[i], path)
      case Union(parts) => forall i :: 0 <= i < |parts| ==> Has(w, k - 1, parts[i], path)
      case ArrayOf(element) => path[0].Element? && Has(w, k - 1, element, path[1..])
      case IndexedAccess(owner, index) => index.Some? && Has(w, k - 1, owner, [Member(index.value)] + path)
      case Reference(name, qualified, argument, target) =>
        if name in WRAPPERS && argument.Some? then Has(w, k - 1, argument.value, path)
        else if name in ARRAYS && argument.Some? then path[0].Element? && Has(w, k - 1, argument.value, path[1..])
        else !qualified && target.Some? && DeclHas(w, k - 1, target.value, path)
      case Other => false)
  }

  ghost predicate HasVia(w: World, k: nat, member: Option<Signature>, path: Path)
    requires path != []
    decreases k, 1
  {
    member.Some? && (|path| == 1 || (member.value.typ.Some? && Has(w, k, member.value.typ.value, path[1..])))
  }

  ghost predicate DeclHas(w: World, k: nat, d: DeclId, path: Path)
    decreases k
  {
    path == [] || (k > 0 && d in w &&
      match w[d]
      case Alias(typ) => Has(w, k - 1, typ, path)
      case Interface(members, bases) =>
        path[0].Member? &&
        if Named(members, path[0].name).Some? then HasVia(w, k - 1, Named(members, path[0].name), path)
        else
          || HasVia(w, k - 1, Indexed(members, path[0].name), path)
          || exists i :: 0 <= i < |bases| && bases[i].Some? && DeclHas(w, k - 1, bases[i].value, path))
  }

  /** The unfolding of a type definitely lacks the path, again by a finite derivation. */
  ghost predicate Lacks(w: World, k: nat, t: Type, path: Path)
    decreases k, 0
  {
    path != [] && k > 0 &&
      match t
      case Literal(members) => path[0].Member? && LacksVia(w, k - 1, Denoted(members, path[0].name), path)
      case Parenthesized(inner) => Lacks(w, k - 1, inner, path)
      case Operator(inner) => Lacks(w, k - 1, inner, path)
      case Intersection(parts) => forall i :: 0 <= i < |parts| ==> Lacks(w, k - 1, parts[i], path)
      case Union(parts) => parts != [] && forall i :: 0 <= i < |parts| ==> Lacks(w, k - 1, parts[i], path)
      case ArrayOf(element) => path[0].Element? && Lacks(w, k - 1, element, path[1..])
      case IndexedAccess(owner, index) => index.Some? && Lacks(w, k - 1, owner, [Member(index.value)] + path)
      case Reference(name, qualified, argument, target) =>
        if name in WRAPPERS && argument.Some? then Lacks(w, k - 1, argument.value, path)
        else if name in ARRAYS && argument.Some? then path[0].Element? && Lacks(w, k - 1, argument.value, path[1..])
        else !qualified && target.Some? && DeclLacks(w, k - 1, target.value, path)
      case Other => false
  }

  ghost predicate LacksVia(w: World, k: nat, member: Option<Signature>, path: Path)
    requires path != []
    decreases k, 1
  {
    member.Some? ==> |path| > 1 && member.value.typ.Some? && Lacks(w, k, member.value.typ.value, path[1..])
  }

  ghost predicate DeclLacks(w: World, k: nat, d: DeclId, path: Path)
    decreases k
  {
    path != [] && k > 0 && d in w &&
      match w[d]
      case Alias(typ) => Lacks(w, k - 1, typ, path)
      case Interface(members, bases) =>
        path[0].Member? &&
        if Named(members, path[0].name).Some? then LacksVia(w, k - 1, Named(members, path[0].name), path)
        else
          && LacksVia(w, k - 1, Indexed(members, path[0].name), path)
          && forall i :: 0 <= i < |bases| ==> bases[i].Some? && DeclLacks(w, k - 1, bases[i].value, path)
  }

  /** No path is both present and absent. */
  lemma {:induction false} Exclusive(w: World, j: nat, k: nat, t: Type, path: Path)
    requires Has(w, j, t, path)
    ensures !Lacks(w, k, t, path)
    decreases j, 0
  {
    if j > 0 && k > 0 && path != [] && Lacks(w, k, t, path) {
      match t
      case Literal(members) => ViaExclusive(w, j - 1, k - 1, Denoted(members, path[0].name), path);
      case Parenthesized(inner) => Exclusive(w, j - 1, k - 1, inner, path);
      case Operator(inner) => Exclusive(w, j - 1, k - 1, inner, path);
      case Intersection(parts) =>
        var i :| 0 <= i < |parts| && Has(w, j - 1, parts[i], path);
        Exclusive(w, j - 1, k - 1, parts[i], path);
      case Union(parts) =>
        Exclusive(w, j - 1, k - 1, parts[0], path);
      case ArrayOf(element) => Exclusive(w, j - 1, k - 1, element, path[1..]);
      case IndexedAccess(owner, index) => Exclusive(w, j - 1, k - 1, owner, [Member(index.value)] + path);
      case Reference(name, qualified, argument, target) =>
        if name in WRAPPERS && argument.Some? {
          Exclusive(w, j - 1, k - 1, argument.value, path);
        } else if name in ARRAYS && argument.Some? {
          Exclusive(w, j - 1, k - 1, argument.value, path[1..]);
        } else {
          DeclExclusive(w, j - 1, k - 1, target.value, path);
        }
      case Other =>
    }
  }

  lemma {:induction false} ViaExclusive(w: World, j: nat, k: nat, member: Option<Signature>, path: Path)
    requires path != [] && HasVia(w, j, member, path)
    ensures !LacksVia(w, k, member, path)
    decreases j, 1
  {
    if |path| > 1 && member.value.typ.Some? {
      Exclusive(w, j, k, member.value.typ.value, path[1..]);
    }
  }

  lemma {:induction false} DeclExclusive(w: World, j: nat, k: nat, d: DeclId, path: Path)
    requires DeclHas(w, j, d, path)
    ensures !DeclLacks(w, k, d, path)
    decreases j, 0
  {
    if j > 0 && k > 0 && path != [] && DeclLacks(w, k, d, path) {
      match w[d]
      case Alias(typ) => Exclusive(w, j - 1, k - 1, typ, path);
      case Interface(members, bases) =>
        if Named(members, path[0].name).Some? {
          ViaExclusive(w, j - 1, k - 1, Named(members, path[0].name), path);
        } else if HasVia(w, j - 1, Indexed(members, path[0].name), path) {
          ViaExclusive(w, j - 1, k - 1, Indexed(members, path[0].name), path);
        } else {
          var i :| 0 <= i < |bases| && bases[i].Some? && DeclHas(w, j - 1, bases[i].value, path);
          DeclExclusive(w, j - 1, k - 1, bases[i].value, path);
        }
    }
  }

  // ----- The lookup -----

  type Seen = set<(DeclId, nat)>

  /** A call either runs out of stack frames or returns, having possibly grown the shared set. */
  datatype Run<+T> = Overflow | Done(value: T, seen: Seen)

  /** The first property signature written with that very text; no other member is looked at. */
  function PropertyNamed(members: seq<Signature>, name: string): (m: Option<Signature>)
    ensures m.Some? ==> m.value in members && m.value.kind == PropertyKind && m.value.raw == name
    ensures m.None? ==> forall x :: x in members && x.kind == PropertyKind ==> x.raw != name
  {
    if members == [] then None
    else
      assert members == [members[0]] + members[1..];
      if members[0].kind.PropertyKind? && members[0].raw == name then Some(members[0])
      else PropertyNamed(members[1..], name)
  }

  function OwnProperty(members: seq<Signature>, step: Step): Option<Signature> {
    if step.Member? then PropertyNamed(members, step.name) else None
  }

  function Combine(results: seq<Answer>): Answer {
    if Found in results then Found else if Unknown in results then Unknown else Missing
  }

  function Unanimous(results: seq<Answer>): Answer {
    if forall r :: r in results ==> r == Found then Found
    else if forall r :: r in results ==> r == Missing then Missing
    else Unknown
  }

  /**
   * `fuel` is the number of stack frames left. Without the guard on declarations this is the plain
   * three-valued unfolding, which a recursive type can send round forever.
   */
  function Lookup(w: World, guard: bool, fuel: nat, t: Type, path: Path, seen: Seen): Run<Answer>
    decreases fuel, 0
  {
    if fuel == 0 then Overflow
    else if path == [] then Done(Found, seen)
    else match t
      case Literal(members) =>
        if path[0].Element? then Done(Unknown, seen)
        else if OwnProperty(members, path[0]).None? then Done(Missing, seen)
        else LookupOwn(w, guard, fuel - 1, members, path, seen)
      case Parenthesized(inner) => Lookup(w, guard, fuel - 1, inner, path, seen)
      case Operator(inner) => Lookup(w, guard, fuel - 1, inner, path, seen)
      case Intersection(parts) =>
        var results := LookupParts(w, guard, fuel - 1, parts, path, seen);
        if results.Overflow? then Overflow else Done(Combine(results.value), results.seen)
      case Union(parts) =>
        var results := LookupParts(w, guard, fuel - 1, parts, path, seen);
        if results.Overflow? then Overflow else Done(Unanimous(results.value), results.seen)
      case ArrayOf(element) =>
        if path[0].Element? then Lookup(w, guard, fuel - 1, element, path[1..], seen) else Done(Unknown, seen)
      case IndexedAccess(owner, index) =>
        if index.Some? then Lookup(w, guard, fuel - 1, owner, [Member(index.value)] + path, seen)
        else Done(Unknown, seen)
      case Reference(name, qualified, argument, target) =>
        if name in WRAPPERS && argument.Some? then Lookup(w, guard, fuel - 1, argument.value, path, seen)
        else if name in ARRAYS && argument.Some? then
          if path[0].Element? then Lookup(w, guard, fuel - 1, argument.value, path[1..], seen) else Done(Unknown, seen)
        else if qualified then Done(Unknown, seen)
        else LookupTarget(w, guard, fuel - 1, target, path, seen)
      case Other => Done(Unknown, seen)
  }

  function LookupOwn(w: World, guard: bool, fuel: nat, members: seq<Signature>, path: Path, seen: Seen): Run<Answer>
    requires path != [] && OwnProperty(members, path[0]).Some?
    decreases fuel, 1
  {
    var own := OwnProperty(members, path[0]).value;
    if |path| == 1 then Done(Found, seen)
    else if own.typ.None? then Done(Unknown, seen)
    else Lookup(w, guard, fuel, own.typ.value, path[1..], seen)
  }

  function LookupParts(w: World, guard: bool, fuel: nat, parts: seq<Type>, path: Path, seen: Seen)
    : (r: Run<seq<Answer>>)
    ensures r.Done? ==> |r.value| == |parts|
    decreases fuel, 1, |parts|
  {
    if parts == [] then Done([], seen) else
    var first := Lookup(w, guard, fuel, parts[0], path, seen);
    if first.Overflow? then Overflow else
    var rest := LookupParts(w, guard, fuel, parts[1..], path, first.seen);
    if rest.Overflow? then Overflow else Done([first.value] + rest.value, rest.seen)
  }

  function LookupTarget(w: World, guard: bool, fuel: nat, target: Option<DeclId>, path: Path, seen: Seen): Run<Answer>
    decreases fuel, 1
  {
    if target.None? || target.value !in w then Done(Unknown, seen)
    else LookupDecl(w, guard, fuel, target.value, path, seen)
  }

  function LookupBases(w: World, guard: bool, fuel: nat, bases: seq<Option<DeclId>>, path: Path, seen: Seen)
    : (r: Run<seq<Answer>>)
    ensures r.Done? ==> |r.value| == |bases|
    decreases fuel, 2, |bases|
  {
    if bases == [] then Done([], seen) else
    var first := LookupTarget(w, guard, fuel, bases[0], path, seen);
    if first.Overflow? then Overflow else
    var rest := LookupBases(w, guard, fuel, bases[1..], path, first.seen);
    if rest.Overflow? then Overflow else Done([first.value] + rest.value, rest.seen)
  }

  function LookupDecl(w: World, guard: bool, fuel: nat, d: DeclId, path: Path, seen: Seen): Run<Answer>
    requires d in w
    decreases fuel, 0
  {
    if fuel == 0 then Overflow
    else if path == [] then Done(Found, seen)
    else if guard && (d, |path|) in seen then Done(Unknown, seen)
    else
      var marked := seen + {(d, |path|)};
      match w[d]
      case Alias(typ) => Lookup(w, guard, fuel - 1, typ, path, marked)
      case Interface(members, bases) =>
        if path[0].Element? then Done(Unknown, marked)
        else if OwnProperty(members, path[0]).Some? then LookupOwn(w, guard, fuel - 1, members, path, marked)
        else
          var results := LookupBases(w, guard, fuel - 1, bases, path, marked);
          if results.Overflow? then Overflow
          else Done(if bases == [] then Missing else Combine(results.value), results.seen)
  }

  // ----- The lookup as the program runs it: one set, mutated by every branch -----

  /** The returned answer, or nothing when the stack overflowed. */
  ghost predicate Returns<T>(run: Run<T>, answer: Option<T>, seen: Seen) {
    match run
    case Overflow => answer.None?
    case Done(value, after) => answer == Some(value) && seen == after
  }

  /** The answers for a whole list, the first of which are known. */
  function Following(answers: seq<Answer>, rest: Run<seq<Answer>>): Run<seq<Answer>> {
    if rest.Overflow? then Overflow else Done(answers + rest.value, rest.seen)
  }

  lemma FollowingOne(answers: seq<Answer>, first: Answer, rest: Run<seq<Answer>>)
    ensures Following(answers, Following([first], rest)) == Following(answers + [first], rest)
    ensures Following([], rest) == rest
  {
    if rest.Done? {
      assert answers + ([first] + rest.value) == answers + [first] + rest.value && [] + rest.value == rest.value;
    }
  }

  class Walk {
    const world: World
    var seen: Seen

    constructor (world: World)
      ensures this.world == world && seen == {}
    {
      this.world := world;
      seen := {};
    }

    method LookupPath(fuel: nat, t: Type, path: Path) returns (answer: Option<Answer>)
      modifies this
      ensures Returns(Lookup(world, true, fuel, t, path, old(seen)), answer, seen)
      decreases fuel, 0
    {
      if fuel == 0 {
        return None;
      }
      if path == [] {
        return Some(Found);
      }
      match t
      case Literal(members) =>
        if path[0].Element? {
          answer := Some(Unknown);
        } else if OwnProperty(members, path[0]).None? {
          answer := Some(Missing);
        } else {
          answer := IntoMembers(fuel - 1, members, path);
        }
      case Parenthesized(inner) => answer := LookupPath(fuel - 1, inner, path);
      case Operator(inner) => answer := LookupPath(fuel - 1, inner, path);
      case Intersection(parts) =>
        var answers := LookupEach(fuel - 1, parts, path);
        answer := if answers.None? then None else Some(Combine(answers.value));
      case Union(parts) =>
        var answers := LookupEach(fuel - 1, parts, path);
        answer := if answers.None? then None else Some(Unanimous(answers.value));
      case ArrayOf(element) =>
        if path[0].Element? {
          answer := LookupPath(fuel - 1, element, path[1..]);
        } else {
          answer := Some(Unknown);
        }
      case IndexedAccess(owner, index) =>
        if index.Some? {
          answer := LookupPath(fuel - 1, owner, [Member(index.value)] + path);
        } else {
          answer := Some(Unknown);
        }
      case Reference(name, qualified, argument, target) =>
        if name in WRAPPERS && argument.Some? {
          answer := LookupPath(fuel - 1, argument.value, path);
        } else if name in ARRAYS && argument.Some? {
          if path[0].Element? {
            answer := LookupPath(fuel - 1, argument.value, path[1..]);
          } else {
            answer := Some(Unknown);
          }
        } else if qualified {
          answer := Some(Unknown);
        } else if target.None? || target.value !in world {
          assert LookupTarget(world, true, fuel - 1, target, path, seen) == Done(Unknown, seen);
          answer := Some(Unknown);
        } else {
          assert LookupTarget(world, true, fuel - 1, target, path, seen)
              == LookupDecl(world, true, fuel - 1, target.value, path, seen);
          answer := LookupDeclaration(fuel - 1, target.value, path);
        }
      case Other => answer := Some(Unknown);
    }

    method IntoMembers(fuel: nat, members: seq<Signature>, path: Path) returns (answer: Option<Answer>)
      requires path != [] && OwnProperty(members, path[0]).Some?
      modifies this
      ensures Returns(LookupOwn(world, true, fuel, members, path, old(seen)), answer, seen)
      decreases fuel, 1
    {
      var own := OwnProperty(members, path[0]).value;
      if |path| == 1 {
        answer := Some(Found);
      } else if own.typ.None? {
        answer := Some(Unknown);
      } else {
        answer := LookupPath(fuel, own.typ.value, path[1..]);
      }
    }

    method LookupEach(fuel: nat, parts: seq<Type>, path: Path) returns (answers: Option<seq<Answer>>)
      modifies this
      ensures Returns(LookupParts(world, true, fuel, parts, path, old(seen)), answers, seen)
      decreases fuel, 1
    {
      var done: seq<Answer> := [];
      ghost var whole := LookupParts(world, true, fuel, parts, path, seen);
      FollowingOne([], Found, whole);
      assert parts[0..] == parts;
      for i := 0 to |parts|
        invariant whole == Following(done, LookupParts(world, true, fuel, parts[i..], path, seen))
      {
        assert parts[i..][1..] == parts[i + 1..];
        var answer := LookupPath(fuel, parts[i], path);
        if answer.None? {
          return None;
        }
        FollowingOne(done, answer.value, LookupParts(world, true, fuel, parts[i + 1..], path, seen));
        done := done + [answer.value];
      }
      assert done + [] == done;
      answers := Some(done);
    }

    method LookupHeritage(fuel: nat, bases: seq<Option<DeclId>>, path: Path) returns (answers: Option<seq<Answer>>)
      modifies this
      ensures Returns(LookupBases(world, true, fuel, bases, path, old(seen)), answers, seen)
      decreases fuel, 1
    {
      var done: seq<Answer> := [];
      ghost var whole := LookupBases(world, true, fuel, bases, path, seen);
      FollowingOne([], Found, whole);
      assert bases[0..] == bases;
      for i := 0 to |bases|
        invariant whole == Following(done, LookupBases(world, true, fuel, bases[i..], path, seen))
      {
        assert bases[i..][1..] == bases[i + 1..];
        var answer := Some(Unknown);
        if bases[i].Some? && bases[i].value in world {
          answer := LookupDeclaration(fuel, bases[i].value, path);
        }
        if answer.None? {
          return None;
        }
        FollowingOne(done, answer.value, LookupBases(world, true, fuel, bases[i + 1..], path, seen));
        done := done + [answer.value];
      }
      assert done + [] == done;
      answers := Some(done);
    }

    method LookupDeclaration(fuel: nat, d: DeclId, path: Path) returns (answer: Option<Answer>)
      requires d in world
      modifies this
      ensures Returns(LookupDecl(world, true, fuel, d, path, old(seen)), answer, seen)
      decreases fuel, 0
    {
      if fuel == 0 {
        return None;
      }
      if path == [] {
        return Some(Found);
      }
      if (d, |path|) in seen {
        return Some(Unknown);
      }
      seen := seen + {(d, |path|)};
      match world[d]
      case Alias(typ) => answer := LookupPath(fuel - 1, typ, path);
      case Interface(members, bases) =>
        if path[0].Element? {
          answer := Some(Unknown);
        } else if OwnProperty(members, path[0]).Some? {
          answer := IntoMembers(fuel - 1, members, path);
        } else {
          var answers := LookupHeritage(fuel - 1, bases, path);
          answer := if answers.None? then None else Some(if bases == [] then Missing else Combine(answers.value));
        }
    }
  }

  // ----- Which members the search sees -----

  /**
   * Nothing is hidden from the search: every name of a member, and every name an index signature admits,
   * is also that of a property signature written with just that name.
   */
  ghost predicate Shows(members: seq<Signature>) {
    && (forall m, name :: m in members && Admits(m, name) ==> PropertyNamed(members, name).Some?)
    && (forall m :: m in members && m.kind.Names() ==> PropertyNamed(members, m.name).Some?)
  }

  /** Every property signature is written with just its name. */
  ghost predicate Bare(members: seq<Signature>) {
    forall m :: m in members && m.kind == PropertyKind ==> m.raw == m.name
  }

  ghost predicate Transparent(members: seq<Signature>) {
    Shows(members) && Bare(members)
  }

  /** The search calls a name missing that the literal declares. */
  ghost predicate WronglyMissing(w: World, members: seq<Signature>, name: string) {
    && Lookup(w, true, 1, Literal(members), [Member(name)], {}) == Done(Missing, {})
    && Has(w, 1, Literal(members), [Member(name)])
  }

  /** The search finds a name that the literal does not declare. */
  ghost predicate WronglyFound(w: World, members: seq<Signature>, name: string) {
    && Lookup(w, true, 1, Literal(members), [Member(name)], {}) == Done(Found, {})
    && Lacks(w, 1, Literal(members), [Member(name)])
  }

  lemma DenotedIff(members: seq<Signature>, name: string)
    ensures Denoted(members, name).Some? <==>
      exists m :: m in members && (Admits(m, name) || (m.kind.Names() && m.name == name))
  {
  }

  /** No name of a literal is wrongly called missing exactly when nothing in it is hidden. */
  lemma NeverWronglyMissing(w: World, members: seq<Signature>)
    ensures Shows(members) <==> forall name :: !WronglyMissing(w, members, name)
  {
    if Shows(members) {
      forall name ensures !WronglyMissing(w, members, name) {
        DenotedIff(members, name);
      }
    } else if m, name :| m in members && Admits(m, name) && PropertyNamed(members, name).None? {
      DenotedIff(members, name);
      assert WronglyMissing(w, members, name);
    } else {
      var m :| m in members && m.kind.Names() && PropertyNamed(members, m.name).None?;
      DenotedIff(members, m.name);
      assert WronglyMissing(w, members, m.name);
    }
  }

  /** An interface without base types that is said to lack a name it declares. */
  ghost predicate DeclWronglyMissing(w: World, d: DeclId, name: string)
    requires d in w
  {
    && LookupDecl(w, true, 1, d, [Member(name)], {}) == Done(Missing, {(d, 1)})
    && DeclHas(w, 1, d, [Member(name)])
  }

  /** The same for an interface that extends nothing. */
  lemma InterfaceNeverWronglyMissing(w: World, d: DeclId)
    requires d in w && w[d].Interface? && w[d].bases == []
    ensures Shows(w[d].members) <==> forall name :: !DeclWronglyMissing(w, d, name)
  {
    var members := w[d].members;
    forall name ensures DeclWronglyMissing(w, d, name) <==> WronglyMissing(w, members, name) {
      var path := [Member(name)];
      if PropertyNamed(members, name).None? {
        assert LookupBases(w, true, 0, [], path, {(d, 1)}) == Done([], {(d, 1)});
        assert {} + {(d, 1)} == {(d, 1)};
      }
    }
    NeverWronglyMissing(w, members);
  }

  /** And none is wrongly found exactly when each written text is a name that a member declares or admits. */
  lemma NeverWronglyFound(w: World, members: seq<Signature>)
    ensures (forall name :: !WronglyFound(w, members, name)) <==>
      forall m :: m in members && m.kind == PropertyKind ==> Denoted(members, m.raw).Some?
  {
    forall m | m in members && m.kind == PropertyKind
      ensures Denoted(members, m.raw).None? ==> WronglyFound(w, members, m.raw)
    {
      assert PropertyNamed(members, m.raw).Some?;
    }
    forall name | WronglyFound(w, members, name)
      ensures exists m :: m in members && m.kind == PropertyKind && Denoted(members, m.raw).None?
    {
      var m := PropertyNamed(members, name).value;
      assert m in members && m.kind == PropertyKind && Denoted(members, m.raw).None?;
    }
  }

  /** `{ run(): void }` asked for `run`: only property signatures are looked at. */
  lemma MethodReportedMissing(w: World)
    ensures WronglyMissing(w, [Signature(MethodKind, "run", "run", None)], "run")
  {
  }

  /** `{ [key: string]: T }` asked for any name it admits. */
  lemma IndexReportedMissing(w: World, typ: Type, admits: iset<string>, name: string)
    requires name in admits
    ensures WronglyMissing(w, [Signature(IndexKind(admits), "", "", Some(typ))], name)
  {
    var members := [Signature(IndexKind(admits), "", "", Some(typ))];
    assert Admits(members[0], name);
    DenotedIff(members, name);
  }

  /** `{ 'max-age': T }` asked for `max-age`: the text compared keeps the quotes. */
  lemma QuotedReportedMissing(w: World, typ: Type)
    ensures WronglyMissing(w, [Signature(PropertyKind, "'max-age'", "max-age", Some(typ))], "max-age")
  {
    assert "'max-age'"[0] != "max-age"[0];
  }

  /** A transparent interface or literal is searched at the very member that a name denotes. */
  lemma PickedIsDenoted(members: seq<Signature>, name: string)
    requires Transparent(members)
    ensures PropertyNamed(members, name) == Named(members, name) == Denoted(members, name)
    ensures Named(members, name).None? ==> Indexed(members, name).None?
  {
    BareByName(members, name);
    if Named(members, name).Some? {
      assert Named(members, name).value in members;
    }
    if Indexed(members, name).Some? {
      assert Admits(Indexed(members, name).value, name);
    }
  }

  /** Within one file the same text declares the same name. */
  ghost predicate Coherent(members: seq<Signature>) {
    forall m, n :: m in members && n in members && m.kind == n.kind == PropertyKind && m.raw == n.raw ==> m.name == n.name
  }

  ghost predicate PicksDenoted(members: seq<Signature>) {
    forall name :: PropertyNamed(members, name) == Denoted(members, name)
  }

  lemma PickedShows(members: seq<Signature>)
    requires PicksDenoted(members)
    ensures Shows(members)
  {
    hide PropertyNamed, Denoted;
    forall m, name | m in members && Admits(m, name) ensures PropertyNamed(members, name).Some? {
      DenotedIff(members, name);
      assert PropertyNamed(members, name) == Denoted(members, name);
    }
    forall m | m in members && m.kind.Names() ensures PropertyNamed(members, m.name).Some? {
      DenotedIff(members, m.name);
      assert PropertyNamed(members, m.name) == Denoted(members, m.name);
    }
  }

  lemma PickedBare(members: seq<Signature>)
    requires PicksDenoted(members) && Shows(members) && Coherent(members)
    ensures Bare(members)
  {
    hide PropertyNamed, Shows;
    forall m | m in members && m.kind == PropertyKind ensures m.raw == m.name {
      var picked := PropertyNamed(members, m.raw);
      assert picked == Denoted(members, m.raw);
      assert picked.Some? && picked.value in members && picked.value.raw == m.raw;
      assert picked.value.name == m.raw;
    }
  }

  /** And nothing less will do: the search meets every name's own member only in transparent syntax. */
  lemma TransparentExactly(members: seq<Signature>)
    requires Coherent(members)
    ensures Transparent(members) <==> PicksDenoted(members)
  {
    hide PropertyNamed, Denoted, Shows, Bare, Coherent;
    if Transparent(members) {
      forall name ensures PropertyNamed(members, name) == Denoted(members, name) {
        PickedIsDenoted(members, name);
      }
    }
    if PicksDenoted(members) {
      PickedShows(members);
      PickedBare(members);
    }
  }

  lemma {:induction false} BareByName(members: seq<Signature>, name: string)
    requires Bare(members)
    ensures PropertyNamed(members, name) == FirstOf(members, PropertyKind, name)
  {
    if members != [] {
      assert members[0] in members && Bare(members[1..]);
      BareByName(members[1..], name);
    }
  }

  ghost predicate TransparentType(t: Type) {
    match t
    case Literal(members) => TransparentMembers(members)
    case Parenthesized(inner) => TransparentType(inner)
    case Operator(inner) => TransparentType(inner)
    case Intersection(parts) => TransparentParts(parts)
    case Union(parts) => TransparentParts(parts)
    case ArrayOf(element) => TransparentType(element)
    case IndexedAccess(owner, index) => TransparentType(owner)
    case Reference(name, qualified, argument, target) => argument.Some? ==> TransparentType(argument.value)
    case Other => true
  }

  ghost predicate TransparentMembers(members: seq<Signature>) {
    Transparent(members) && forall m :: m in members && m.typ.Some? ==> TransparentType(m.typ.value)
  }

  ghost predicate TransparentParts(parts: seq<Type>) {
    forall part :: part in parts ==> TransparentType(part)
  }

  ghost predicate TransparentDeclaration(declaration: Declaration) {
    match declaration
    case Alias(typ) => TransparentType(typ)
    case Interface(members, bases) => TransparentMembers(members)
  }

  /** No declaration of the graph hides a member from the search. */
  ghost predicate TransparentWorld(w: World) {
    forall d :: d in w ==> TransparentDeclaration(w[d])
  }

  // ----- Soundness -----

  ghost predicate Sound(w: World, fuel: nat, t: Type, path: Path, answer: Answer) {
    (answer == Found ==> Has(w, fuel, t, path)) && (answer == Missing ==> Lacks(w, fuel, t, path))
  }

  ghost predicate DeclSound(w: World, fuel: nat, d: DeclId, path: Path, answer: Answer) {
    (answer == Found ==> DeclHas(w, fuel, d, path)) && (answer == Missing ==> DeclLacks(w, fuel, d, path))
  }

  lemma AnswersByIndex(results: seq<Answer>)
    ensures Combine(results) == Found <==> exists i :: 0 <= i < |results| && results[i] == Found
    ensures Combine(results) == Missing <==> forall i :: 0 <= i < |results| ==> results[i] == Missing
    ensures Unanimous(results) == Found <==> forall i :: 0 <= i < |results| ==> results[i] == Found
    ensures Unanimous(results) == Missing <==>
      results != [] && forall i :: 0 <= i < |results| ==> results[i] == Missing
  {
    assert forall i :: 0 <= i < |results| ==> results[i] in results;
    if Combine(results) == Missing {
      assert forall r :: r in results ==> r == Missing;
    }
    if results != [] {
      assert results[0] in results;
    }
  }

  /**
   * Where members are transparent, and whatever is already in the shared set: "found" means present and
   * "missing" means absent.
   */
  lemma {:induction false} LookupSound(w: World, guard: bool, fuel: nat, t: Type, path: Path, seen: Seen)
    requires TransparentWorld(w) && TransparentType(t)
    requires Lookup(w, guard, fuel, t, path, seen).Done?
    ensures Sound(w, fuel, t, path, Lookup(w, guard, fuel, t, path, seen).value)
    decreases fuel, 0
  {
    if path != [] {
      match t
      case Literal(members) =>
        if path[0].Member? {
          PickedIsDenoted(members, path[0].name);
          if OwnProperty(members, path[0]).Some? {
            OwnSound(w, guard, fuel - 1, members, path, seen);
          }
        }
      case Parenthesized(inner) => LookupSound(w, guard, fuel - 1, inner, path, seen);
      case Operator(inner) => LookupSound(w, guard, fuel - 1, inner, path, seen);
      case Intersection(parts) =>
        PartsSound(w, guard, fuel - 1, parts, path, seen);
        AnswersByIndex(LookupParts(w, guard, fuel - 1, parts, path, seen).value);
      case Union(parts) =>
        PartsSound(w, guard, fuel - 1, parts, path, seen);
        AnswersByIndex(LookupParts(w, guard, fuel - 1, parts, path, seen).value);
      case ArrayOf(element) =>
        if path[0].Element? {
          LookupSound(w, guard, fuel - 1, element, path[1..], seen);
        }
      case IndexedAccess(owner, index) =>
        if index.Some? {
          LookupSound(w, guard, fuel - 1, owner, [Member(index.value)] + path, seen);
        }
      case Reference(name, qualified, argument, target) =>
        if name in WRAPPERS && argument.Some? {
          LookupSound(w, guard, fuel - 1, argument.value, path, seen);
        } else if name in ARRAYS && argument.Some? {
          if path[0].Element? {
            LookupSound(w, guard, fuel - 1, argument.value, path[1..], seen);
          }
        } else if !qualified && target.Some? && target.value in w {
          DeclarationSound(w, guard, fuel - 1, target.value, path, seen);
        }
      case Other =>
    }
  }

  lemma {:induction false} OwnSound(w: World, guard: bool, fuel: nat, members: seq<Signature>, path: Path, seen: Seen)
    requires TransparentWorld(w) && TransparentMembers(members)
    requires path != [] && OwnProperty(members, path[0]).Some?
    requires LookupOwn(w, guard, fuel, members, path, seen).Done?
    ensures var answer := LookupOwn(w, guard, fuel, members, path, seen).value;
            var own := OwnProperty(members, path[0]);
      (answer == Found ==> HasVia(w, fuel, own, path)) && (answer == Missing ==> LacksVia(w, fuel, own, path))
    decreases fuel, 1
  {
    var own := OwnProperty(members, path[0]).value;
    if |path| > 1 && own.typ.Some? {
      LookupSound(w, guard, fuel, own.typ.value, path[1..], seen);
    }
  }

  lemma {:induction false} PartsSound(w: World, guard: bool, fuel: nat, parts: seq<Type>, path: Path, seen: Seen)
    requires TransparentWorld(w) && TransparentParts(parts)
    requires LookupParts(w, guard, fuel, parts, path, seen).Done?
    ensures var answers := LookupParts(w, guard, fuel, parts, path, seen).value;
      forall i :: 0 <= i < |parts| ==> Sound(w, fuel, parts[i], path, answers[i])
    decreases fuel, 1, |parts|
  {
    if parts != [] {
      LookupSound(w, guard, fuel, parts[0], path, seen);
      PartsSound(w, guard, fuel, parts[1..], path, Lookup(w, guard, fuel, parts[0], path, seen).seen);
    }
  }

  lemma {:induction false} BasesSound(
      w: World, guard: bool, fuel: nat, bases: seq<Option<DeclId>>, path: Path, seen: Seen)
    requires TransparentWorld(w)
    requires LookupBases(w, guard, fuel, bases, path, seen).Done?
    ensures var answers := LookupBases(w, guard, fuel, bases, path, seen).value;
      forall i :: 0 <= i < |bases| ==>
        answers[i] == Unknown || (bases[i].Some? && DeclSound(w, fuel, bases[i].value, path, answers[i]))
    decreases fuel, 2, |bases|
  {
    if bases != [] {
      if bases[0].Some? && bases[0].value in w {
        DeclarationSound(w, guard, fuel, bases[0].value, path, seen);
      }
      BasesSound(w, guard, fuel, bases[1..], path, LookupTarget(w, guard, fuel, bases[0], path, seen).seen);
    }
  }

  lemma {:induction false} DeclarationSound(w: World, guard: bool, fuel: nat, d: DeclId, path: Path, seen: Seen)
    requires TransparentWorld(w)
    requires d in w && LookupDecl(w, guard, fuel, d, path, seen).Done?
    ensures DeclSound(w, fuel, d, path, LookupDecl(w, guard, fuel, d, path, seen).value)
    decreases fuel, 0
  {
    if path != [] && !(guard && (d, |path|) in seen) {
      var marked := seen + {(d, |path|)};
      match w[d]
      case Alias(typ) => LookupSound(w, guard, fuel - 1, typ, path, marked);
      case Interface(members, bases) =>
        if path[0].Member? {
          PickedIsDenoted(members, path[0].name);
          if OwnProperty(members, path[0]).Some? {
            OwnSound(w, guard, fuel - 1, members, path, marked);
          } else {
            BasesSound(w, guard, fuel - 1, bases, path, marked);
            AnswersByIndex(LookupBases(w, guard, fuel - 1, bases, path, marked).value);
          }
        }
    }
  }

  // ----- Completeness -----

  /** The answer is definite wherever a derivation is. */
  ghost predicate Complete(w: World, k: nat, t: Type, path: Path, answer: Answer) {
    (Has(w, k, t, path) ==> answer == Found) && (Lacks(w, k, t, path) ==> answer == Missing)
  }

  ghost predicate DeclComplete(w: World, k: nat, d: DeclId, path: Path, answer: Answer) {
    (DeclHas(w, k, d, path) ==> answer == Found) && (DeclLacks(w, k, d, path) ==> answer == Missing)
  }

  ghost predicate ViaComplete(w: World, k: nat, member: Option<Signature>, path: Path, answer: Answer)
    requires path != []
  {
    (HasVia(w, k, member, path) ==> answer == Found) && (LacksVia(w, k, member, path) ==> answer == Missing)
  }

  /** No member has no path, and an undeclared name tells nothing. */
  lemma NothingThere(w: World, k: nat, d: DeclId, path: Path)
    requires path != []
    ensures !HasVia(w, k, None, path) && LacksVia(w, k, None, path)
    ensures d !in w ==> !DeclHas(w, k, d, path) && !DeclLacks(w, k, d, path)
  {
  }

  lemma {:induction false} LookupComplete(w: World, fuel: nat, t: Type, path: Path, seen: Seen, k: nat)
    requires TransparentWorld(w) && TransparentType(t)
    requires Lookup(w, false, fuel, t, path, seen).Done?
    ensures Complete(w, k, t, path, Lookup(w, false, fuel, t, path, seen).value)
    decreases fuel, 1
  {
    if path != [] && k > 0 {
      match t
      case Literal(members) =>
        if path[0].Member? {
          PickedIsDenoted(members, path[0].name);
          if OwnProperty(members, path[0]).Some? {
            OwnComplete(w, fuel - 1, members, path, seen, k - 1);
          } else {
            NothingThere(w, k - 1, 0, path);
          }
        }
      case Parenthesized(inner) => LookupComplete(w, fuel - 1, inner, path, seen, k - 1);
      case Operator(inner) => LookupComplete(w, fuel - 1, inner, path, seen, k - 1);
      case Intersection(parts) =>
        PartsComplete(w, fuel - 1, parts, path, seen, k - 1);
        AnswersByIndex(LookupParts(w, false, fuel - 1, parts, path, seen).value);
      case Union(parts) =>
        PartsComplete(w, fuel - 1, parts, path, seen, k - 1);
        AnswersByIndex(LookupParts(w, false, fuel - 1, parts, path, seen).value);
      case ArrayOf(element) =>
        if path[0].Element? {
          LookupComplete(w, fuel - 1, element, path[1..], seen, k - 1);
        }
      case IndexedAccess(owner, index) =>
        if index.Some? {
          LookupComplete(w, fuel - 1, owner, [Member(index.value)] + path, seen, k - 1);
        }
      case Reference(name, qualified, argument, target) => ReferenceComplete(w, fuel, t, path, seen, k);
      case Other =>
    }
  }

  lemma {:induction false} ReferenceComplete(w: World, fuel: nat, t: Type, path: Path, seen: Seen, k: nat)
    requires TransparentWorld(w) && TransparentType(t) && t.Reference? && path != [] && k > 0
    requires Lookup(w, false, fuel, t, path, seen).Done?
    ensures Complete(w, k, t, path, Lookup(w, false, fuel, t, path, seen).value)
    decreases fuel, 0
  {
    if t.name in WRAPPERS && t.argument.Some? {
      LookupComplete(w, fuel - 1, t.argument.value, path, seen, k - 1);
    } else if t.name in ARRAYS && t.argument.Some? {
      if path[0].Element? {
        LookupComplete(w, fuel - 1, t.argument.value, path[1..], seen, k - 1);
      }
    } else if !t.qualified && t.target.Some? && t.target.value in w {
      DeclarationComplete(w, fuel - 1, t.target.value, path, seen, k - 1);
    } else if t.target.Some? {
      NothingThere(w, k - 1, t.target.value, path);
    }
  }

  lemma {:induction false} OwnComplete(w: World, fuel: nat, members: seq<Signature>, path: Path, seen: Seen, k: nat)
    requires TransparentWorld(w) && TransparentMembers(members)
    requires path != [] && OwnProperty(members, path[0]).Some?
    requires LookupOwn(w, false, fuel, members, path, seen).Done?
    ensures ViaComplete(w, k, OwnProperty(members, path[0]), path, LookupOwn(w, false, fuel, members, path, seen).value)
    decreases fuel, 2
  {
    var own := OwnProperty(members, path[0]).value;
    if |path| > 1 && own.typ.Some? {
      LookupComplete(w, fuel, own.typ.value, path[1..], seen, k);
    }
  }

  lemma {:induction false} PartsComplete(w: World, fuel: nat, parts: seq<Type>, path: Path, seen: Seen, k: nat)
    requires TransparentWorld(w) && TransparentParts(parts)
    requires LookupParts(w, false, fuel, parts, path, seen).Done?
    ensures var answers := LookupParts(w, false, fuel, parts, path, seen).value;
      forall i :: 0 <= i < |parts| ==> Complete(w, k, parts[i], path, answers[i])
    decreases fuel, 2, |parts|
  {
    hide Complete;
    if parts != [] {
      LookupComplete(w, fuel, parts[0], path, seen, k);
      PartsComplete(w, fuel, parts[1..], path, Lookup(w, false, fuel, parts[0], path, seen).seen, k);
    }
  }

  lemma {:induction false} BasesComplete(w: World, fuel: nat, bases: seq<Option<DeclId>>, path: Path, seen: Seen, k: nat)
    requires TransparentWorld(w) && path != []
    requires LookupBases(w, false, fuel, bases, path, seen).Done?
    ensures var answers := LookupBases(w, false, fuel, bases, path, seen).value;
      forall i :: 0 <= i < |bases| && bases[i].Some? ==> DeclComplete(w, k, bases[i].value, path, answers[i])
    decreases fuel, 2, |bases|
  {
    if bases != [] {
      if bases[0].Some? && bases[0].value in w {
        DeclarationComplete(w, fuel, bases[0].value, path, seen, k);
      } else if bases[0].Some? {
        NothingThere(w, k, bases[0].value, path);
      }
      BasesComplete(w, fuel, bases[1..], path, LookupTarget(w, false, fuel, bases[0], path, seen).seen, k);
    }
  }

  lemma {:induction false} DeclarationComplete(w: World, fuel: nat, d: DeclId, path: Path, seen: Seen, k: nat)
    requires TransparentWorld(w)
    requires d in w && LookupDecl(w, false, fuel, d, path, seen).Done?
    ensures DeclComplete(w, k, d, path, LookupDecl(w, false, fuel, d, path, seen).value)
    decreases fuel, 0
  {
    if path != [] && k > 0 {
      var marked := seen + {(d, |path|)};
      match w[d]
      case Alias(typ) => LookupComplete(w, fuel - 1, typ, path, marked, k - 1);
      case Interface(members, bases) =>
        if path[0].Member? {
          PickedIsDenoted(members, path[0].name);
          if OwnProperty(members, path[0]).Some? {
            OwnComplete(w, fuel - 1, members, path, marked, k - 1);
          } else {
            NothingThere(w, k - 1, d, path);
            BasesComplete(w, fuel - 1, bases, path, marked, k - 1);
            AnswersByIndex(LookupBases(w, false, fuel - 1, bases, path, marked).value);
          }
        }
    }
  }

  /** Some finite derivation shows that the path is there, or that it is not. */
  ghost predicate Present(w: World, t: Type, path: Path) { exists k: nat :: Has(w, k, t, path) }
  ghost predicate Absent(w: World, t: Type, path: Path) { exists k: nat :: Lacks(w, k, t, path) }
  ghost predicate DeclPresent(w: World, d: DeclId, path: Path) { exists k: nat :: DeclHas(w, k, d, path) }
  ghost predicate DeclAbsent(w: World, d: DeclId, path: Path) { exists k: nat :: DeclLacks(w, k, d, path) }

  /**
   * Where members are transparent, a plain lookup that returns decides: "found" exactly when the path is
   * present, "missing" exactly when it is absent, and "unknown" only when the syntax tells neither.
   */
  lemma LookupExactly(w: World, fuel: nat, t: Type, path: Path, seen: Seen)
    requires TransparentWorld(w) && TransparentType(t)
    requires Lookup(w, false, fuel, t, path, seen).Done?
    ensures var answer := Lookup(w, false, fuel, t, path, seen).value;
      (answer == Found <==> Present(w, t, path)) && (answer == Missing <==> Absent(w, t, path))
  {
    hide Lookup, TransparentWorld, TransparentType;
    LookupSound(w, false, fuel, t, path, seen);
    var answer := Lookup(w, false, fuel, t, path, seen).value;
    if k: nat :| Has(w, k, t, path) {
      LookupComplete(w, fuel, t, path, seen, k);
    }
    if k: nat :| Lacks(w, k, t, path) {
      LookupComplete(w, fuel, t, path, seen, k);
    }
    assert (answer == Found ==> Has(w, fuel, t, path)) && (answer == Missing ==> Lacks(w, fuel, t, path));
    assert (answer == Found ==> Present(w, t, path)) && (answer == Missing ==> Absent(w, t, path));
  }

  /** The same from a declaration. */
  lemma DeclarationExactly(w: World, fuel: nat, d: DeclId, path: Path, seen: Seen)
    requires TransparentWorld(w) && d in w
    requires LookupDecl(w, false, fuel, d, path, seen).Done?
    ensures var answer := LookupDecl(w, false, fuel, d, path, seen).value;
      (answer == Found <==> DeclPresent(w, d, path)) && (answer == Missing <==> DeclAbsent(w, d, path))
  {
    hide LookupDecl, TransparentWorld;
    DeclarationSound(w, false, fuel, d, path, seen);
    var answer := LookupDecl(w, false, fuel, d, path, seen).value;
    if k: nat :| DeclHas(w, k, d, path) {
      DeclarationComplete(w, fuel, d, path, seen, k);
    }
    if k: nat :| DeclLacks(w, k, d, path) {
      DeclarationComplete(w, fuel, d, path, seen, k);
    }
    assert (answer == Found ==> DeclHas(w, fuel, d, path)) && (answer == Missing ==> DeclLacks(w, fuel, d, path));
    assert (answer == Found ==> DeclPresent(w, d, path)) && (answer == Missing ==> DeclAbsent(w, d, path));
  }

  // ----- The shared set only weakens -----

  /** `b` says at least as much as `a`. */
  predicate Weaker(a: Answer, b: Answer) {
    a == Unknown || a == b
  }

  lemma WeakerTogether(a: seq<Answer>, b: seq<Answer>)
    requires |a| == |b| && forall i :: 0 <= i < |a| ==> Weaker(a[i], b[i])
    ensures Weaker(Combine(a), Combine(b)) && Weaker(Unanimous(a), Unanimous(b))
  {
    AnswersByIndex(a);
    AnswersByIndex(b);
  }

  /**
   * A guarded lookup, with anything in its set, says what the plain unfolding says or "unknown". The two
   * may use different amounts of stack, as long as both return.
   */
  lemma {:induction false} GuardWeakens(w: World, m: nat, n: nat, t: Type, path: Path, seen: Seen, other: Seen)
    requires Lookup(w, true, m, t, path, seen).Done? && Lookup(w, false, n, t, path, other).Done?
    ensures Weaker(Lookup(w, true, m, t, path, seen).value, Lookup(w, false, n, t, path, other).value)
    decreases m, 0
  {
    if path != [] {
      match t
      case Literal(members) =>
        if path[0].Member? && OwnProperty(members, path[0]).Some? {
          OwnWeakens(w, m - 1, n - 1, members, path, seen, other);
        }
      case Parenthesized(inner) => GuardWeakens(w, m - 1, n - 1, inner, path, seen, other);
      case Operator(inner) => GuardWeakens(w, m - 1, n - 1, inner, path, seen, other);
      case Intersection(parts) =>
        PartsWeaken(w, m - 1, n - 1, parts, path, seen, other);
        WeakerTogether(LookupParts(w, true, m - 1, parts, path, seen).value,
          LookupParts(w, false, n - 1, parts, path, other).value);
      case Union(parts) =>
        PartsWeaken(w, m - 1, n - 1, parts, path, seen, other);
        WeakerTogether(LookupParts(w, true, m - 1, parts, path, seen).value,
          LookupParts(w, false, n - 1, parts, path, other).value);
      case ArrayOf(element) =>
        if path[0].Element? {
          GuardWeakens(w, m - 1, n - 1, element, path[1..], seen, other);
        }
      case IndexedAccess(owner, index) =>
        if index.Some? {
          GuardWeakens(w, m - 1, n - 1, owner, [Member(index.value)] + path, seen, other);
        }
      case Reference(name, qualified, argument, target) =>
        if name in WRAPPERS && argument.Some? {
          GuardWeakens(w, m - 1, n - 1, argument.value, path, seen, other);
        } else if name in ARRAYS && argument.Some? {
          if path[0].Element? {
            GuardWeakens(w, m - 1, n - 1, argument.value, path[1..], seen, other);
          }
        } else if !qualified && target.Some? && target.value in w {
          DeclWeakens(w, m - 1, n - 1, target.value, path, seen, other);
        }
      case Other =>
    }
  }

  lemma {:induction false} OwnWeakens(
      w: World, m: nat, n: nat, members: seq<Signature>, path: Path, seen: Seen, other: Seen)
    requires path != [] && OwnProperty(members, path[0]).Some?
    requires LookupOwn(w, true, m, members, path, seen).Done? && LookupOwn(w, false, n, members, path, other).Done?
    ensures Weaker(LookupOwn(w, true, m, members, path, seen).value, LookupOwn(w, false, n, members, path, other).value)
    decreases m, 1
  {
    var own := OwnProperty(members, path[0]).value;
    if |path| > 1 && own.typ.Some? {
      GuardWeakens(w, m, n, own.typ.value, path[1..], seen, other);
    }
  }

  lemma {:induction false} PartsWeaken(
      w: World, m: nat, n: nat, parts: seq<Type>, path: Path, seen: Seen, other: Seen)
    requires LookupParts(w, true, m, parts, path, seen).Done? && LookupParts(w, false, n, parts, path, other).Done?
    ensures var a := LookupParts(w, true, m, parts, path, seen).value;
            var b := LookupParts(w, false, n, parts, path, other).value;
      forall i :: 0 <= i < |parts| ==> Weaker(a[i], b[i])
    decreases m, 1, |parts|
  {
    if parts != [] {
      GuardWeakens(w, m, n, parts[0], path, seen, other);
      PartsWeaken(w, m, n, parts[1..], path,
        Lookup(w, true, m, parts[0], path, seen).seen, Lookup(w, false, n, parts[0], path, other).seen);
    }
  }

  lemma {:induction false} BasesWeaken(
      w: World, m: nat, n: nat, bases: seq<Option<DeclId>>, path: Path, seen: Seen, other: Seen)
    requires LookupBases(w, true, m, bases, path, seen).Done? && LookupBases(w, false, n, bases, path, other).Done?
    ensures var a := LookupBases(w, true, m, bases, path, seen).value;
            var b := LookupBases(w, false, n, bases, path, other).value;
      forall i :: 0 <= i < |bases| ==> Weaker(a[i], b[i])
    decreases m, 2, |bases|
  {
    if bases != [] {
      if bases[0].Some? && bases[0].value in w {
        DeclWeakens(w, m, n, bases[0].value, path, seen, other);
      }
      BasesWeaken(w, m, n, bases[1..], path,
        LookupTarget(w, true, m, bases[0], path, seen).seen, LookupTarget(w, false, n, bases[0], path, other).seen);
    }
  }

  lemma {:induction false} DeclWeakens(w: World, m: nat, n: nat, d: DeclId, path: Path, seen: Seen, other: Seen)
    requires d in w
    requires LookupDecl(w, true, m, d, path, seen).Done? && LookupDecl(w, false, n, d, path, other).Done?
    ensures Weaker(LookupDecl(w, true, m, d, path, seen).value, LookupDecl(w, false, n, d, path, other).value)
    decreases m, 0
  {
    if path != [] && (d, |path|) !in seen {
      var marked, others := seen + {(d, |path|)}, other + {(d, |path|)};
      match w[d]
      case Alias(typ) => GuardWeakens(w, m - 1, n - 1, typ, path, marked, others);
      case Interface(members, bases) =>
        if path[0].Member? {
          if OwnProperty(members, path[0]).Some? {
            OwnWeakens(w, m - 1, n - 1, members, path, marked, others);
          } else {
            BasesWeaken(w, m - 1, n - 1, bases, path, marked, others);
            WeakerTogether(LookupBases(w, true, m - 1, bases, path, marked).value,
              LookupBases(w, false, n - 1, bases, path, others).value);
          }
        }
    }
  }

  // ----- And only where a declaration is entered again -----

  type Key = (DeclId, nat)

  /** The declarations a plain lookup enters, each with the number of steps left, in order. */
  function Entered(w: World, fuel: nat, t: Type, path: Path): seq<Key>
    decreases fuel, 0
  {
    if fuel == 0 || path == [] then []
    else match t
      case Literal(members) =>
        if path[0].Member? && OwnProperty(members, path[0]).Some? then EnteredOwn(w, fuel - 1, members, path) else []
      case Parenthesized(inner) => Entered(w, fuel - 1, inner, path)
      case Operator(inner) => Entered(w, fuel - 1, inner, path)
      case Intersection(parts) => EnteredParts(w, fuel - 1, parts, path)
      case Union(parts) => EnteredParts(w, fuel - 1, parts, path)
      case ArrayOf(element) => if path[0].Element? then Entered(w, fuel - 1, element, path[1..]) else []
      case IndexedAccess(owner, index) =>
        if index.Some? then Entered(w, fuel - 1, owner, [Member(index.value)] + path) else []
      case Reference(name, qualified, argument, target) =>
        if name in WRAPPERS && argument.Some? then Entered(w, fuel - 1, argument.value, path)
        else if name in ARRAYS && argument.Some? then
          if path[0].Element? then Entered(w, fuel - 1, argument.value, path[1..]) else []
        else if qualified then []
        else EnteredTarget(w, fuel - 1, target, path)
      case Other => []
  }

  function EnteredOwn(w: World, fuel: nat, members: seq<Signature>, path: Path): seq<Key>
    requires path != [] && OwnProperty(members, path[0]).Some?
    decreases fuel, 1
  {
    var own := OwnProperty(members, path[0]).value;
    if |path| == 1 || own.typ.None? then [] else Entered(w, fuel, own.typ.value, path[1..])
  }

  function EnteredParts(w: World, fuel: nat, parts: seq<Type>, path: Path): seq<Key>
    decreases fuel, 1, |parts|
  {
    if parts == [] then [] else Entered(w, fuel, parts[0], path) + EnteredParts(w, fuel, parts[1..], path)
  }

  function EnteredTarget(w: World, fuel: nat, target: Option<DeclId>, path: Path): seq<Key>
    decreases fuel, 1
  {
    if target.None? || target.value !in w then [] else EnteredDecl(w, fuel, target.value, path)
  }

  function EnteredBases(w: World, fuel: nat, bases: seq<Option<DeclId>>, path: Path): seq<Key>
    decreases fuel, 2, |bases|
  {
    if bases == [] then [] else EnteredTarget(w, fuel, bases[0], path) + EnteredBases(w, fuel, bases[1..], path)
  }

  function EnteredDecl(w: World, fuel: nat, d: DeclId, path: Path): seq<Key>
    requires d in w
    decreases fuel, 0
  {
    if fuel == 0 || path == [] then [] else [(d, |path|)] + EnteredWithin(w, fuel - 1, w[d], path)
  }

  function EnteredWithin(w: World, fuel: nat, declaration: Declaration, path: Path): seq<Key>
    requires path != []
    decreases fuel, 3
  {
    match declaration
    case Alias(typ) => Entered(w, fuel, typ, path)
    case Interface(members, bases) =>
      if path[0].Element? then []
      else if OwnProperty(members, path[0]).Some? then EnteredOwn(w, fuel, members, path)
      else EnteredBases(w, fuel, bases, path)
  }

  function Keys(keys: seq<Key>): set<Key> {
    set key | key in keys
  }

  /** No key occurs twice, nor is in the set before. */
  ghost predicate Fresh(keys: seq<Key>, seen: Seen) {
    && (forall i, j :: 0 <= i < j < |keys| ==> keys[i] != keys[j])
    && (forall key :: key in keys ==> key !in seen)
  }

  lemma FreshParts(a: seq<Key>, b: seq<Key>, seen: Seen)
    requires Fresh(a + b, seen)
    ensures Fresh(a, seen) && Fresh(b, seen + Keys(a))
    ensures seen + Keys(a) + Keys(b) == seen + Keys(a + b)
  {
    assert forall i :: 0 <= i < |a| ==> (a + b)[i] == a[i];
    assert forall i :: 0 <= i < |b| ==> (a + b)[|a| + i] == b[i];
    forall key | key in a ensures key in a + b && key !in b {
    }
    forall key | key in b ensures key in a + b {
    }
  }

  /** The two runs agree, and have entered just these declarations. */
  ghost predicate Agree<T>(plain: Run<T>, guarded: Run<T>, seen: Seen, keys: seq<Key>) {
    plain.Done? && guarded == plain && plain.seen == seen + Keys(keys)
  }

  /** With no declaration met twice the guard changes nothing, and the set gains just the keys entered. */
  lemma {:induction false} FreshLookup(w: World, fuel: nat, t: Type, path: Path, seen: Seen)
    requires Lookup(w, false, fuel, t, path, seen).Done? && Fresh(Entered(w, fuel, t, path), seen)
    ensures Agree(Lookup(w, false, fuel, t, path, seen), Lookup(w, true, fuel, t, path, seen), seen, Entered(w, fuel, t, path))
    decreases fuel, 0
  {
    hide Fresh;
    assert seen + Keys([]) == seen;
    if path != [] {
      match t
      case Literal(members) =>
        if path[0].Member? && OwnProperty(members, path[0]).Some? {
          FreshOwn(w, fuel - 1, members, path, seen);
        }
      case Parenthesized(inner) => FreshLookup(w, fuel - 1, inner, path, seen);
      case Operator(inner) => FreshLookup(w, fuel - 1, inner, path, seen);
      case Intersection(parts) => FreshLookups(w, fuel - 1, parts, path, seen);
      case Union(parts) => FreshLookups(w, fuel - 1, parts, path, seen);
      case ArrayOf(element) =>
        if path[0].Element? {
          FreshLookup(w, fuel - 1, element, path[1..], seen);
        }
      case IndexedAccess(owner, index) =>
        if index.Some? {
          FreshLookup(w, fuel - 1, owner, [Member(index.value)] + path, seen);
        }
      case Reference(name, qualified, argument, target) =>
        if name in WRAPPERS && argument.Some? {
          FreshLookup(w, fuel - 1, argument.value, path, seen);
        } else if name in ARRAYS && argument.Some? {
          if path[0].Element? {
            FreshLookup(w, fuel - 1, argument.value, path[1..], seen);
          }
        } else if !qualified {
          FreshTarget(w, fuel - 1, target, path, seen);
        }
      case Other =>
    }
  }

  lemma {:induction false} FreshOwn(w: World, fuel: nat, members: seq<Signature>, path: Path, seen: Seen)
    requires path != [] && OwnProperty(members, path[0]).Some?
    requires LookupOwn(w, false, fuel, members, path, seen).Done? && Fresh(EnteredOwn(w, fuel, members, path), seen)
    ensures Agree(LookupOwn(w, false, fuel, members, path, seen), LookupOwn(w, true, fuel, members, path, seen),
                  seen, EnteredOwn(w, fuel, members, path))
    decreases fuel, 1
  {
    assert seen + Keys([]) == seen;
    var own := OwnProperty(members, path[0]).value;
    if |path| > 1 && own.typ.Some? {
      FreshLookup(w, fuel, own.typ.value, path[1..], seen);
    }
  }

  lemma {:induction false} FreshLookups(w: World, fuel: nat, parts: seq<Type>, path: Path, seen: Seen)
    requires LookupParts(w, false, fuel, parts, path, seen).Done? && Fresh(EnteredParts(w, fuel, parts, path), seen)
    ensures Agree(LookupParts(w, false, fuel, parts, path, seen), LookupParts(w, true, fuel, parts, path, seen),
                  seen, EnteredParts(w, fuel, parts, path))
    decreases fuel, 1, |parts|
  {
    hide Fresh;
    assert seen + Keys([]) == seen;
    if parts != [] {
      var first, rest := Entered(w, fuel, parts[0], path), EnteredParts(w, fuel, parts[1..], path);
      FreshParts(first, rest, seen);
      FreshLookup(w, fuel, parts[0], path, seen);
      FreshLookups(w, fuel, parts[1..], path, seen + Keys(first));
    }
  }

  lemma {:induction false} FreshTarget(w: World, fuel: nat, target: Option<DeclId>, path: Path, seen: Seen)
    requires LookupTarget(w, false, fuel, target, path, seen).Done? && Fresh(EnteredTarget(w, fuel, target, path), seen)
    ensures Agree(LookupTarget(w, false, fuel, target, path, seen), LookupTarget(w, true, fuel, target, path, seen),
                  seen, EnteredTarget(w, fuel, target, path))
    decreases fuel, 1
  {
    assert seen + Keys([]) == seen;
    if target.Some? && target.value in w {
      FreshDeclaration(w, fuel, target.value, path, seen);
    }
  }

  lemma {:induction false} FreshBases(w: World, fuel: nat, bases: seq<Option<DeclId>>, path: Path, seen: Seen)
    requires LookupBases(w, false, fuel, bases, path, seen).Done? && Fresh(EnteredBases(w, fuel, bases, path), seen)
    ensures Agree(LookupBases(w, false, fuel, bases, path, seen), LookupBases(w, true, fuel, bases, path, seen),
                  seen, EnteredBases(w, fuel, bases, path))
    decreases fuel, 2, |bases|
  {
    hide Fresh;
    assert seen + Keys([]) == seen;
    if bases != [] {
      var first, rest := EnteredTarget(w, fuel, bases[0], path), EnteredBases(w, fuel, bases[1..], path);
      FreshParts(first, rest, seen);
      FreshTarget(w, fuel, bases[0], path, seen);
      FreshBases(w, fuel, bases[1..], path, seen + Keys(first));
    }
  }

  /**
   * The guarded lookup is the plain one unless some declaration is entered twice with as many steps left,
   * or was so before: only then may it say less.
   */
  lemma {:induction false} FreshDeclaration(w: World, fuel: nat, d: DeclId, path: Path, seen: Seen)
    requires d in w
    requires LookupDecl(w, false, fuel, d, path, seen).Done? && Fresh(EnteredDecl(w, fuel, d, path), seen)
    ensures Agree(LookupDecl(w, false, fuel, d, path, seen), LookupDecl(w, true, fuel, d, path, seen),
                  seen, EnteredDecl(w, fuel, d, path))
    decreases fuel, 0
  {
    hide Fresh;
    assert seen + Keys([]) == seen;
    if path != [] {
      var key := [(d, |path|)];
      var marked := seen + {(d, |path|)};
      var rest := EnteredWithin(w, fuel - 1, w[d], path);
      FreshParts(key, rest, seen);
      FreshHead(d, |path|, rest, seen);
      assert marked + Keys([]) == marked;
      match w[d]
      case Alias(typ) => FreshLookup(w, fuel - 1, typ, path, marked);
      case Interface(members, bases) =>
        if path[0].Member? {
          if OwnProperty(members, path[0]).Some? {
            FreshOwn(w, fuel - 1, members, path, marked);
          } else {
            FreshBases(w, fuel - 1, bases, path, marked);
          }
        }
    }
  }

  lemma FreshHead(d: DeclId, n: nat, rest: seq<Key>, seen: Seen)
    requires Fresh([(d, n)] + rest, seen)
    ensures (d, n) !in seen && seen + Keys([(d, n)]) == seen + {(d, n)}
  {
    assert ([(d, n)] + rest)[0] in [(d, n)] + rest;
  }

  // ----- Termination -----

  function Max(a: nat, b: nat): nat {
    if a < b then b else a
  }

  function Height(t: Type): nat {
    1 + match t
      case Literal(members) => MembersHeight(members)
      case Parenthesized(inner) => Height(inner)
      case Operator(inner) => Height(inner)
      case Intersection(parts) => PartsHeight(parts)
      case Union(parts) => PartsHeight(parts)
      case ArrayOf(element) => Height(element)
      case IndexedAccess(owner, index) => Height(owner)
      case Reference(name, qualified, argument, target) => if argument.Some? then Height(argument.value) else 0
      case Other => 0
  }

  function MembersHeight(members: seq<Signature>): nat {
    if members == [] then 0
    else Max(if members[0].typ.Some? then Height(members[0].typ.value) else 0, MembersHeight(members[1..]))
  }

  function PartsHeight(parts: seq<Type>): nat {
    if parts == [] then 0 else Max(Height(parts[0]), PartsHeight(parts[1..]))
  }

  /** A number for each declaration, zero unless listed, to weigh the length of the path it is entered with. */
  datatype Potential = Potential(listed: map<DeclId, int>) {
    function At(d: DeclId): int {
      if d in listed then listed[d] else 0
    }
  }

  /**
   * From a type entered at `level`, no reference is reached at a level above the potential of its
   * declaration; a member or element step lowers the level by one, indexed access by a literal raises it.
   */
  predicate Levelled(w: World, p: Potential, t: Type, level: int) {
    match t
    case Literal(members) => LevelledMembers(w, p, members, level)
    case Parenthesized(inner) => Levelled(w, p, inner, level)
    case Operator(inner) => Levelled(w, p, inner, level)
    case Intersection(parts) => LevelledParts(w, p, parts, level)
    case Union(parts) => LevelledParts(w, p, parts, level)
    case ArrayOf(element) => Levelled(w, p, element, level - 1)
    case IndexedAccess(owner, index) => index.Some? ==> Levelled(w, p, owner, level + 1)
    case Reference(name, qualified, argument, target) =>
      if name in WRAPPERS && argument.Some? then Levelled(w, p, argument.value, level)
      else if name in ARRAYS && argument.Some? then Levelled(w, p, argument.value, level - 1)
      else qualified || target.None? || target.value !in w || level <= p.At(target.value)
    case Other => true
  }

  predicate LevelledMembers(w: World, p: Potential, members: seq<Signature>, level: int) {
    members != [] ==>
      (members[0].typ.Some? ==> Levelled(w, p, members[0].typ.value, level - 1)) && LevelledMembers(w, p, members[1..], level)
  }

  predicate LevelledParts(w: World, p: Potential, parts: seq<Type>, level: int) {
    parts != [] ==> Levelled(w, p, parts[0], level) && LevelledParts(w, p, parts[1..], level)
  }

  predicate LevelledBases(w: World, p: Potential, bases: seq<Option<DeclId>>, level: int) {
    bases != [] ==>
      (bases[0].Some? && bases[0].value in w ==> level <= p.At(bases[0].value)) && LevelledBases(w, p, bases[1..], level)
  }

  /** No cycle of references lengthens the path; bodies are at most `h` high and stay below level `top`. */
  ghost predicate LevelledWorld(w: World, p: Potential, h: nat, top: int) {
    forall d :: d in w ==> LevelledDeclaration(w, p, d, h, top)
  }

  predicate LevelledDeclaration(w: World, p: Potential, d: DeclId, h: nat, top: int)
    requires d in w
  {
    p.At(d) + h <= top &&
      match w[d]
      case Alias(typ) => Levelled(w, p, typ, p.At(d)) && Height(typ) <= h
      case Interface(members, bases) =>
        && LevelledMembers(w, p, members, p.At(d)) && MembersHeight(members) <= h
        && LevelledBases(w, p, bases, p.At(d))
  }

  lemma {:induction false} OwnPropertyLevelled(w: World, p: Potential, members: seq<Signature>, step: Step, level: int)
    requires LevelledMembers(w, p, members, level) && OwnProperty(members, step).Some?
    ensures var own := OwnProperty(members, step).value;
      own.typ.Some? ==> Levelled(w, p, own.typ.value, level - 1) && Height(own.typ.value) <= MembersHeight(members)
  {
    if !(members[0].kind.PropertyKind? && members[0].raw == step.name) {
      OwnPropertyLevelled(w, p, members[1..], step, level);
    }
  }

  /** No indexed access by a literal name anywhere. */
  predicate Plain(t: Type) {
    match t
    case Literal(members) => PlainMembers(members)
    case Parenthesized(inner) => Plain(inner)
    case Operator(inner) => Plain(inner)
    case Intersection(parts) => PlainParts(parts)
    case Union(parts) => PlainParts(parts)
    case ArrayOf(element) => Plain(element)
    case IndexedAccess(owner, index) => index.None?
    case Reference(name, qualified, argument, target) => argument.Some? ==> Plain(argument.value)
    case Other => true
  }

  predicate PlainMembers(members: seq<Signature>) {
    members != [] ==> (members[0].typ.Some? ==> Plain(members[0].typ.value)) && PlainMembers(members[1..])
  }

  predicate PlainParts(parts: seq<Type>) {
    parts != [] ==> Plain(parts[0]) && PlainParts(parts[1..])
  }

  const FLAT := Potential(map[])

  /** Without literal indexed access no path is ever lengthened, so no potential is needed. */
  lemma {:induction false} PlainIsLevelled(w: World, t: Type, level: int)
    requires Plain(t) && level <= 0
    ensures Levelled(w, FLAT, t, level)
    decreases t
  {
    match t
    case Literal(members) => PlainMembersLevelled(w, members, level);
    case Parenthesized(inner) => PlainIsLevelled(w, inner, level);
    case Operator(inner) => PlainIsLevelled(w, inner, level);
    case Intersection(parts) => PlainPartsLevelled(w, parts, level);
    case Union(parts) => PlainPartsLevelled(w, parts, level);
    case ArrayOf(element) => PlainIsLevelled(w, element, level - 1);
    case IndexedAccess(owner, index) =>
    case Reference(name, qualified, argument, target) =>
      if argument.Some? {
        PlainIsLevelled(w, argument.value, level);
        PlainIsLevelled(w, argument.value, level - 1);
      }
    case Other =>
  }

  predicate PlainDeclaration(declaration: Declaration, h: nat) {
    match declaration
    case Alias(typ) => Plain(typ) && Height(typ) <= h
    case Interface(members, bases) => PlainMembers(members) && MembersHeight(members) <= h
  }

  lemma PlainWorldIsLevelled(w: World, h: nat)
    requires forall d :: d in w ==> PlainDeclaration(w[d], h)
    ensures LevelledWorld(w, FLAT, h, h)
  {
    forall d | d in w ensures LevelledDeclaration(w, FLAT, d, h, h) {
      assert PlainDeclaration(w[d], h);
      match w[d]
      case Alias(typ) => PlainIsLevelled(w, typ, 0);
      case Interface(members, bases) =>
        PlainMembersLevelled(w, members, 0);
        FlatBasesLevelled(w, bases);
    }
  }

  lemma {:induction false} FlatBasesLevelled(w: World, bases: seq<Option<DeclId>>)
    ensures LevelledBases(w, FLAT, bases, 0)
  {
    if bases != [] {
      FlatBasesLevelled(w, bases[1..]);
    }
  }

  lemma {:induction false} PlainMembersLevelled(w: World, members: seq<Signature>, level: int)
    requires PlainMembers(members) && level <= 0
    ensures LevelledMembers(w, FLAT, members, level)
    decreases members
  {
    if members != [] {
      if members[0].typ.Some? {
        PlainIsLevelled(w, members[0].typ.value, level - 1);
      }
      PlainMembersLevelled(w, members[1..], level);
    }
  }

  lemma {:induction false} PlainPartsLevelled(w: World, parts: seq<Type>, level: int)
    requires PlainParts(parts) && level <= 0
    ensures LevelledParts(w, FLAT, parts, level)
    decreases parts
  {
    if parts != [] {
      PlainIsLevelled(w, parts[0], level);
      PlainPartsLevelled(w, parts[1..], level);
    }
  }

  /** The keys a lookup of a path of length at most `n` can still add. */
  function Unseen(w: World, n: nat, seen: Seen): Seen {
    (set d, l | d in w && 1 <= l <= n :: (d, l)) - seen
  }

  /** Frames that the unvisited declarations can take up. */
  function Budget(w: World, n: nat, h: nat, seen: Seen): nat {
    |Unseen(w, n, seen)| * (h + 1)
  }

  lemma SubsetCardinality<T>(a: set<T>, b: set<T>)
    requires a <= b
    ensures |a| <= |b|
  {
    assert b == a + (b - a);
  }

  lemma BudgetShrinks(w: World, n: nat, h: nat, seen: Seen, more: Seen)
    requires seen <= more
    ensures Budget(w, n, h, more) <= Budget(w, n, h, seen)
  {
    SubsetCardinality(Unseen(w, n, more), Unseen(w, n, seen));
  }

  lemma BudgetSpent(w: World, n: nat, h: nat, seen: Seen, d: DeclId, l: nat)
    requires d in w && 1 <= l <= n && (d, l) !in seen
    ensures Budget(w, n, h, seen + {(d, l)}) + h + 1 == Budget(w, n, h, seen)
  {
    assert Unseen(w, n, seen) == Unseen(w, n, seen + {(d, l)}) + {(d, l)};
    assert |Unseen(w, n, seen)| == |Unseen(w, n, seen + {(d, l)})| + 1;
  }

  /**
   * Where no cycle of references lengthens the path, and with enough stack for every declaration once per
   * path length, the lookup returns. `|path| - level` never grows, so no path gets longer than `n`.
   */
  lemma {:induction false} LookupTerminates(
      w: World, p: Potential, h: nat, top: int, n: nat, fuel: nat, t: Type, level: int, path: Path, seen: Seen)
    requires LevelledWorld(w, p, h, top) && Levelled(w, p, t, level)
    requires |path| + top - level <= n && level + Height(t) <= top
    requires fuel > Budget(w, n, h, seen) + Height(t)
    ensures Lookup(w, true, fuel, t, path, seen).Done? && seen <= Lookup(w, true, fuel, t, path, seen).seen
    decreases fuel, 0
  {
    hide Budget, LevelledWorld;
    if path != [] {
      match t
      case Literal(members) =>
        if path[0].Member? && OwnProperty(members, path[0]).Some? {
          OwnTerminates(w, p, h, top, n, fuel - 1, members, level, path, seen);
        }
      case Parenthesized(inner) => LookupTerminates(w, p, h, top, n, fuel - 1, inner, level, path, seen);
      case Operator(inner) => LookupTerminates(w, p, h, top, n, fuel - 1, inner, level, path, seen);
      case Intersection(parts) => PartsTerminate(w, p, h, top, n, fuel - 1, parts, level, path, seen);
      case Union(parts) => PartsTerminate(w, p, h, top, n, fuel - 1, parts, level, path, seen);
      case ArrayOf(element) =>
        if path[0].Element? {
          LookupTerminates(w, p, h, top, n, fuel - 1, element, level - 1, path[1..], seen);
        }
      case IndexedAccess(owner, index) =>
        if index.Some? {
          LookupTerminates(w, p, h, top, n, fuel - 1, owner, level + 1, [Member(index.value)] + path, seen);
        }
      case Reference(name, qualified, argument, target) =>
        if name in WRAPPERS && argument.Some? {
          LookupTerminates(w, p, h, top, n, fuel - 1, argument.value, level, path, seen);
        } else if name in ARRAYS && argument.Some? {
          if path[0].Element? {
            LookupTerminates(w, p, h, top, n, fuel - 1, argument.value, level - 1, path[1..], seen);
          }
        } else if !qualified && target.Some? && target.value in w {
          DeclTerminates(w, p, h, top, n, fuel - 1, target.value, path, seen);
        }
      case Other =>
    }
  }

  lemma {:induction false} OwnTerminates(
      w: World, p: Potential, h: nat, top: int, n: nat, fuel: nat, members: seq<Signature>, level: int, path: Path, seen: Seen)
    requires LevelledWorld(w, p, h, top) && LevelledMembers(w, p, members, level)
    requires |path| + top - level <= n && level + MembersHeight(members) <= top
    requires path != [] && OwnProperty(members, path[0]).Some?
    requires fuel > Budget(w, n, h, seen) + MembersHeight(members)
    ensures LookupOwn(w, true, fuel, members, path, seen).Done?
    ensures seen <= LookupOwn(w, true, fuel, members, path, seen).seen
    decreases fuel, 1
  {
    hide Budget, LevelledWorld;
    OwnPropertyLevelled(w, p, members, path[0], level);
    var own := OwnProperty(members, path[0]).value;
    if |path| > 1 && own.typ.Some? {
      LookupTerminates(w, p, h, top, n, fuel, own.typ.value, level - 1, path[1..], seen);
    }
  }

  lemma {:induction false} PartsTerminate(
      w: World, p: Potential, h: nat, top: int, n: nat, fuel: nat, parts: seq<Type>, level: int, path: Path, seen: Seen)
    requires LevelledWorld(w, p, h, top) && LevelledParts(w, p, parts, level)
    requires |path| + top - level <= n && level + PartsHeight(parts) <= top
    requires fuel > Budget(w, n, h, seen) + PartsHeight(parts)
    ensures LookupParts(w, true, fuel, parts, path, seen).Done?
    ensures seen <= LookupParts(w, true, fuel, parts, path, seen).seen
    decreases fuel, 1, |parts|
  {
    hide Budget, LevelledWorld;
    if parts != [] {
      LookupTerminates(w, p, h, top, n, fuel, parts[0], level, path, seen);
      var after := Lookup(w, true, fuel, parts[0], path, seen).seen;
      BudgetShrinks(w, n, h, seen, after);
      PartsTerminate(w, p, h, top, n, fuel, parts[1..], level, path, after);
    }
  }

  lemma {:induction false} BasesTerminate(
      w: World, p: Potential, h: nat, top: int, n: nat, fuel: nat, bases: seq<Option<DeclId>>, level: int, path: Path, seen: Seen)
    requires LevelledWorld(w, p, h, top) && |path| + top - level <= n
    requires LevelledBases(w, p, bases, level)
    requires fuel > Budget(w, n, h, seen)
    ensures LookupBases(w, true, fuel, bases, path, seen).Done?
    ensures seen <= LookupBases(w, true, fuel, bases, path, seen).seen
    decreases fuel, 2, |bases|
  {
    hide Budget, LevelledWorld;
    if bases != [] {
      if bases[0].Some? && bases[0].value in w {
        DeclTerminates(w, p, h, top, n, fuel, bases[0].value, path, seen);
      }
      var after := LookupTarget(w, true, fuel, bases[0], path, seen).seen;
      BudgetShrinks(w, n, h, seen, after);
      BasesTerminate(w, p, h, top, n, fuel, bases[1..], level, path, after);
    }
  }

  lemma {:induction false} DeclTerminates(
      w: World, p: Potential, h: nat, top: int, n: nat, fuel: nat, d: DeclId, path: Path, seen: Seen)
    requires LevelledWorld(w, p, h, top) && d in w && |path| + top - p.At(d) <= n
    requires fuel > Budget(w, n, h, seen)
    ensures LookupDecl(w, true, fuel, d, path, seen).Done?
    ensures seen <= LookupDecl(w, true, fuel, d, path, seen).seen
    decreases fuel, 0
  {
    hide Budget;
    assert LevelledDeclaration(w, p, d, h, top);
    if path != [] && (d, |path|) !in seen {
      var marked := seen + {(d, |path|)};
      BudgetSpent(w, n, h, seen, d, |path|);
      match w[d]
      case Alias(typ) => LookupTerminates(w, p, h, top, n, fuel - 1, typ, p.At(d), path, marked);
      case Interface(members, bases) =>
        if path[0].Member? {
          if OwnProperty(members, path[0]).Some? {
            OwnTerminates(w, p, h, top, n, fuel - 1, members, p.At(d), path, marked);
          } else {
            BasesTerminate(w, p, h, top, n, fuel - 1, bases, p.At(d), path, marked);
          }
        }
    }
  }

  /** `interface Config { x: Config }` and `type T = Config['x']`: weighing `Config` by one is enough. */
  const CONFIG_INDEXED: World := map[
    0 := Interface([Signature(PropertyKind, "x", "x", Some(Reference("Config", false, None, Some(0))))], []),
    1 := Alias(IndexedAccess(Reference("Config", false, None, Some(0)), Some("x")))]

  lemma ConfigIndexedIsLevelled()
    ensures LevelledWorld(CONFIG_INDEXED, Potential(map[0 := 1]), 2, 3)
  {
    var w, p := CONFIG_INDEXED, Potential(map[0 := 1]);
    var config := Reference("Config", false, None, Some(0));
    assert "Config" !in WRAPPERS && "Config" !in ARRAYS;
    assert Levelled(w, p, config, 0) && Levelled(w, p, config, 1) && Height(config) == 1;
    assert LevelledMembers(w, p, [], 1) && MembersHeight([]) == 0;
    assert LevelledDeclaration(w, p, 0, 2, 3);
    assert LevelledDeclaration(w, p, 1, 2, 3);
  }

  // ----- Indexed access defeats the guard -----

  /** `type T = T['x']` */
  const SELF_INDEXED: World := map[0 := Alias(IndexedAccess(Reference("T", false, None, Some(0)), Some("x")))]

  /** The comment says that a recursive type bails out rather than loops; this one overflows any stack. */
  lemma {:induction false} SelfIndexedOverflows(fuel: nat, path: Path, seen: Seen)
    requires path != [] && forall key :: key in seen ==> key.1 < |path|
    ensures LookupDecl(SELF_INDEXED, true, fuel, 0, path, seen) == Overflow
  {
    var marked, longer := seen + {(0, |path|)}, [Member("x")] + path;
    var reference := Reference("T", false, None, Some(0));
    if fuel >= 1 {
      assert LookupDecl(SELF_INDEXED, true, fuel, 0, path, seen)
          == Lookup(SELF_INDEXED, true, fuel - 1, IndexedAccess(reference, Some("x")), path, marked);
    }
    if fuel >= 2 {
      assert "T" !in WRAPPERS && "T" !in ARRAYS;
      assert Lookup(SELF_INDEXED, true, fuel - 1, IndexedAccess(reference, Some("x")), path, marked)
          == Lookup(SELF_INDEXED, true, fuel - 2, reference, longer, marked);
    }
    if fuel >= 3 {
      assert Lookup(SELF_INDEXED, true, fuel - 2, reference, longer, marked)
          == LookupDecl(SELF_INDEXED, true, fuel - 3, 0, longer, marked);
      SelfIndexedOverflows(fuel - 3, longer, marked);
    }
  }

  /** No potential fits it: every turn round its cycle lengthens the path. */
  lemma SelfIndexedIsNotLevelled(p: Potential, h: nat, top: int)
    ensures !LevelledWorld(SELF_INDEXED, p, h, top)
  {
    var reference := Reference("T", false, None, Some(0));
    assert "T" !in WRAPPERS && "T" !in ARRAYS;
    assert !Levelled(SELF_INDEXED, p, reference, p.At(0) + 1);
    assert 0 in SELF_INDEXED && !LevelledDeclaration(SELF_INDEXED, p, 0, h, top);
  }
}
