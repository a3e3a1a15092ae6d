/** The dependency-closure probe: which packages a selection ships, and the verdict
    on them. */
module ClosureProbe {
  import opened Basics
  import opened Graph

  // ----- Cargo metadata -----

  datatype DepKind = Unspecified | Normal | Build | OtherKind

  datatype Dependency = Dependency(pkg: Option<Id>, kinds: seq<DepKind>)

  /** `ownManifest`: the manifest is a file inside the root and not vendored.
      `licenseFile`: whether the named license file exists. */
  datatype Package = Package(name: string, version: string, source: Option<string>, ownManifest: bool,
                             licensed: bool, licenseFile: Option<bool>)

  datatype Document = Document(order: seq<Id>, packages: map<Id, Package>, nodes: map<Id, seq<Dependency>>,
                               members: seq<Id>, resolveRoot: Option<Id>) {
    /** `order` lists the package table's keys. */
    ghost predicate Valid() {
      forall v :: v in order <==> v in packages
    }

    predicate Present(id: Id) { id in packages && id in nodes }
  }

  datatype Receipt = Receipt(hasRevision: bool, hasOrigin: bool, dirty: bool)

  datatype Unresolved =
    | NoSuchSelector(selector: string)
    | AmbiguousWorkspace
    | NoRoots
    | NoRevision
    | NoOrigin
    | DirtyTree
    | AbsentPackage(package: Id)
    | NoLicense(package: Id)
    | AbsentDependency(from: Id, dependency: Option<Id>)
    | NoMetadata

  datatype Violation =
    | NoManifest
    | ForbiddenDependency(package: Id)
    | UnapprovedOrigin(package: Id)
    | MissingLicenseFile(package: Id)
    | DuplicateRuntimeVersion(family: string)
    | MultipleRuntimeFamilies

  // ----- Package rules -----

  predicate Shipping(dependency: Dependency) {
    dependency.kinds == [] || exists i :: 0 <= i < |dependency.kinds| && !dependency.kinds[i].OtherKind?
  }

  /** Only a dependency whose listed kinds are all of another sort, such as development
      ones, does not ship. */
  lemma OnlyOthersStay(dependency: Dependency)
    ensures !Shipping(dependency) <==>
      dependency.kinds != [] && forall kind :: kind in dependency.kinds ==> kind.OtherKind?
  {
    if !Shipping(dependency) {
      forall kind | kind in dependency.kinds ensures kind.OtherKind? {}
    }
  }

  function LowerChar(c: char): char {
    if 'A' <= c <= 'Z' then (c as int + 32) as char else c
  }

  function Lower(s: string): string {
    seq(|s|, i requires 0 <= i < |s| => LowerChar(s[i]))
  }

  /** Letter by letter; everything else stays. */
  lemma LowerLetters()
    ensures Lower("ABCDEFGHIJKLMNOPQRSTUVWXYZ") == "abcdefghijklmnopqrstuvwxyz"
  {
  }

  lemma LowerStays(s: string)
    ensures (forall i :: 0 <= i < |s| ==> !('A' <= s[i] <= 'Z')) ==> Lower(s) == s
    ensures |Lower(s)| == |s| && Lower(Lower(s)) == Lower(s)
  {
  }

  const FORBIDDEN_PACKAGES: set<string> := {
    "async-std", "cosmic-text", "electron", "egui", "freefont", "harfbuzz", "iced", "metal", "objc2", "rayon",
    "rayon-core", "serde", "serde_derive", "serde_json", "serde_yaml", "skia-safe", "tantivy", "tokio", "tokio-util",
    "tree-sitter", "webview", "wgpu", "winit"}

  const FORBIDDEN_PREFIXES: seq<string> := ["serde-", "serde_", "tokio-", "tree-sitter-", "wgpu-", "winit-"]

  predicate IsForbidden(name: string) {
    || Lower(name) in FORBIDDEN_PACKAGES
    || exists i :: 0 <= i < |FORBIDDEN_PREFIXES| && FORBIDDEN_PREFIXES[i] <= Lower(name)
  }

  /** What is forbidden, whatever the case of its letters. */
  lemma ForbiddenNames(name: string)
    ensures IsForbidden(name) <==>
      var low := Lower(name);
      || low in {"async-std", "cosmic-text", "electron", "egui", "freefont", "harfbuzz", "iced", "metal", "objc2",
                 "rayon", "rayon-core", "serde", "serde_derive", "serde_json", "serde_yaml", "skia-safe", "tantivy",
                 "tokio", "tokio-util", "tree-sitter", "webview", "wgpu", "winit"}
      || "serde-" <= low || "serde_" <= low || "tokio-" <= low || "tree-sitter-" <= low || "wgpu-" <= low
      || "winit-" <= low
  {
    hide Lower;
    var low := Lower(name);
    var prefixes := FORBIDDEN_PREFIXES;
    assert (exists i :: 0 <= i < |prefixes| && prefixes[i] <= low) <==>
        prefixes[0] <= low || prefixes[1] <= low || prefixes[2] <= low || prefixes[3] <= low || prefixes[4] <= low
        || prefixes[5] <= low;
  }

  const RUNTIME_FAMILIES: set<string> := {"asupersync", "async-std", "smol", "tokio"}

  function WithoutPrefix(s: string, prefix: string): string {
    if prefix <= s then s[|prefix|..] else s
  }

  function WithoutSuffix(s: string, suffix: string): string {
    if |suffix| <= |s| && s[|s| - |suffix|..] == suffix then s[..|s| - |suffix|] else s
  }

  /** The part before the first occurrence of c. */
  function UpTo(s: string, c: char): string {
    if s == [] || s[0] == c then [] else [s[0]] + UpTo(s[1..], c)
  }

  function WithoutTrailing(s: string, c: char): string {
    if s != [] && s[|s| - 1] == c then WithoutTrailing(s[..|s| - 1], c) else s
  }

  function CanonicalOrigin(value: string): string {
    WithoutSuffix(WithoutTrailing(UpTo(WithoutPrefix(value, "git+"), '?'), '/'), ".git")
  }

  lemma {:induction false} TrailingGone(s: string, c: char, n: nat)
    requires s != [] ==> s[|s| - 1] != c
    ensures WithoutTrailing(s + seq(n, _ => c), c) == s
  {
    var tail := seq(n, _ => c);
    if n == 0 {
      assert s + tail == s;
    } else {
      assert (s + tail)[..|s + tail| - 1] == s + seq(n - 1, _ => c);
      TrailingGone(s, c, n - 1);
    }
  }

  lemma {:induction false} UpToIs(s: string, c: char, rest: string)
    requires c !in s && (rest == [] || rest[0] == c)
    ensures UpTo(s + rest, c) == s
  {
    if s == [] {
      assert s + rest == rest;
    } else {
      assert (s + rest)[1..] == s[1..] + rest;
      UpToIs(s[1..], c, rest);
    }
  }

  /** One repository, however its address is decorated: a `git+` in front, a `.git`, any
      number of slashes and a query behind. */
  datatype Address = Address(gitPlus: bool, base: string, dotGit: bool, slashes: nat, query: string) {
    function Path(): string { base + if dotGit then ".git" else "" }

    function Text(): string {
      (if gitPlus then "git+" else "") + Path() + seq(slashes, _ => '/') + query
    }

    /** The decorations are decorations: the base carries none of them itself. */
    predicate Plain() {
      && '?' !in base && (query == [] || query[0] == '?')
      && (!gitPlus ==> !("git+" <= Text()))
      && (!dotGit ==> base != [] && base[|base| - 1] != '/' && WithoutSuffix(base, ".git") == base)
    }
  }

  /** All of them come to the base. */
  lemma OriginIsBase(address: Address)
    requires address.Plain()
    ensures CanonicalOrigin(address.Text()) == address.base
  {
    hide WithoutTrailing, UpTo;
    var path, slashes := address.Path(), seq(address.slashes, _ => '/');
    assert WithoutPrefix(address.Text(), "git+") == path + slashes + address.query by {
      assert address.gitPlus ==> address.Text() == "git+" + (path + slashes + address.query);
      assert !address.gitPlus ==> address.Text() == path + slashes + address.query;
    }
    UpToIs(path + slashes, '?', address.query);
    TrailingGone(path, '/', address.slashes);
    if address.dotGit { assert path[..|address.base|] == address.base && path[|address.base|..] == ".git"; }
  }

  predicate Local(package: Package) {
    package.source.None? && package.ownManifest
  }

  predicate OriginAllowed(package: Package, allowed: seq<string>) {
    || Local(package)
    || (package.source.Some? &&
        exists i :: 0 <= i < |allowed| && CanonicalOrigin(package.source.value) == CanonicalOrigin(allowed[i]))
  }

  /** A package from elsewhere is allowed when, and only when, some allowed address is of
      the same repository; without an origin only a package of the root itself is. */
  lemma AllowedOrigins(package: Package, allowed: seq<Address>, from: Address)
    requires from.Plain() && forall i :: 0 <= i < |allowed| ==> allowed[i].Plain()
    ensures
      var texts := seq(|allowed|, i requires 0 <= i < |allowed| => allowed[i].Text());
      && (package.source == Some(from.Text()) ==>
            (OriginAllowed(package, texts) <==> exists i :: 0 <= i < |allowed| && allowed[i].base == from.base))
      && (package.source.None? ==> (OriginAllowed(package, texts) <==> package.ownManifest))
  {
    hide CanonicalOrigin, Address.Text, Address.Plain;
    OriginIsBase(from);
    forall i | 0 <= i < |allowed| ensures CanonicalOrigin(allowed[i].Text()) == allowed[i].base {
      OriginIsBase(allowed[i]);
    }
    var texts := seq(|allowed|, i requires 0 <= i < |allowed| => allowed[i].Text());
    if i :| 0 <= i < |allowed| && allowed[i].base == from.base { assert texts[i] == allowed[i].Text(); }
  }

  // ----- What a selection ships -----

  function ShippingTargets(deps: seq<Dependency>): seq<Id> {
    if deps == [] then []
    else (if deps[0].pkg.Some? && Shipping(deps[0]) then [deps[0].pkg.value] else []) + ShippingTargets(deps[1..])
  }

  /** The targets are the packages that shipping dependencies name. */
  lemma {:induction false} TargetsAre(deps: seq<Dependency>, w: Id)
    ensures w in ShippingTargets(deps) <==> exists i :: 0 <= i < |deps| && Shipping(deps[i]) && deps[i].pkg == Some(w)
  {
    if deps != [] {
      TargetsAre(deps[1..], w);
      hide Shipping;
      assert forall i :: 0 <= i < |deps[1..]| ==> deps[1..][i] == deps[i + 1];
      assert forall i :: 0 < i < |deps| ==> deps[i] == deps[1..][i - 1];
    }
  }

  /** Shipping edges between packages; one that is absent has none. */
  function ShippingGraph(doc: Document): Graph {
    map id | id in doc.nodes && doc.Present(id) :: ShippingTargets(doc.nodes[id])
  }

  /** Some walk of shipping edges leads from a root to v. */
  ghost predicate Shipped(doc: Document, roots: seq<Id>, v: Id) {
    exists p :: IsWalk(ShippingGraph(doc), p) && p[0] in roots && p[|p| - 1] == v
  }

  lemma RootIsShipped(doc: Document, roots: seq<Id>, r: Id)
    requires r in roots
    ensures Shipped(doc, roots, r)
  {
    assert IsWalk(ShippingGraph(doc), [r]);
  }

  lemma EdgeIsShipped(doc: Document, roots: seq<Id>, v: Id, w: Id)
    requires Shipped(doc, roots, v) && w in Successors(ShippingGraph(doc), v)
    ensures Shipped(doc, roots, w)
  {
    hide ShippingGraph, ShippingTargets, Successors;
    var p :| IsWalk(ShippingGraph(doc), p) && p[0] in roots && p[|p| - 1] == v;
    WalkExtends(ShippingGraph(doc), p, w);
    assert (p + [w])[0] in roots;
  }

  /** The search state: everything seen is shipped, and every root and every shipping
      edge out of a marked package leads to something seen. */
  ghost predicate Searching(doc: Document, roots: seq<Id>, reachable: set<Id>, absent: seq<Id>, queue: seq<Id>) {
    && (forall v :: v in queue ==> Shipped(doc, roots, v))
    && (forall v :: v in reachable ==> Shipped(doc, roots, v) && doc.Present(v))
    && (forall v :: v in absent ==> Shipped(doc, roots, v) && !doc.Present(v))
    && (forall v :: v in roots ==> v in reachable || v in absent || v in queue)
    && (forall v, w :: v in reachable && w in Successors(ShippingGraph(doc), v) ==>
          w in reachable || w in absent || w in queue)
  }

  lemma PresentEdges(doc: Document, id: Id)
    requires doc.Present(id)
    ensures Successors(ShippingGraph(doc), id) == ShippingTargets(doc.nodes[id])
  {
  }

  lemma SearchStarts(doc: Document, roots: seq<Id>)
    ensures Searching(doc, roots, {}, [], roots)
  {
    forall v | v in roots ensures Shipped(doc, roots, v) { RootIsShipped(doc, roots, v); }
  }

  lemma MarkPresent(doc: Document, roots: seq<Id>, reachable: set<Id>, absent: seq<Id>, id: Id, queue: seq<Id>)
    requires Searching(doc, roots, reachable, absent, [id] + queue) && doc.Present(id)
    ensures Searching(doc, roots, reachable + {id}, absent, queue + ShippingTargets(doc.nodes[id]))
  {
    var targets := ShippingTargets(doc.nodes[id]);
    PresentEdges(doc, id);
    hide Shipped, ShippingTargets, ShippingGraph, Successors;
    QueueMoves(id, queue, targets);
    forall w | w in targets ensures Shipped(doc, roots, w) {
      EdgeIsShipped(doc, roots, id, w);
    }
  }

  lemma QueueMoves(id: Id, queue: seq<Id>, targets: seq<Id>)
    ensures forall v :: v in [id] + queue <==> v == id || v in queue
    ensures forall v :: v in queue + targets <==> v in queue || v in targets
  {
  }

  lemma SkipSeen(doc: Document, roots: seq<Id>, reachable: set<Id>, absent: seq<Id>, id: Id, queue: seq<Id>)
    requires Searching(doc, roots, reachable, absent, [id] + queue) && id in reachable
    ensures Searching(doc, roots, reachable, absent, queue)
  {
    hide Shipped, ShippingGraph, Successors;
  }

  lemma MarkAbsent(doc: Document, roots: seq<Id>, reachable: set<Id>, absent: seq<Id>, id: Id, queue: seq<Id>)
    requires Searching(doc, roots, reachable, absent, [id] + queue) && !doc.Present(id)
    ensures Searching(doc, roots, reachable, absent + [id], queue)
  {
    hide Shipped, ShippingGraph, Successors;
    assert id in [id] + queue;
  }

  lemma SearchDone(doc: Document, roots: seq<Id>, reachable: set<Id>, absent: seq<Id>)
    requires Searching(doc, roots, reachable, absent, [])
    ensures forall v :: v in reachable <==> Shipped(doc, roots, v) && doc.Present(v)
    ensures forall v :: v in absent <==> Shipped(doc, roots, v) && !doc.Present(v)
  {
    var g := ShippingGraph(doc);
    var all := reachable + set v | v in absent;
    forall v | Shipped(doc, roots, v) ensures v in all {
      var p :| IsWalk(g, p) && p[0] in roots && p[|p| - 1] == v;
      ClosedSetHoldsWalkFrom(g, all, p, |p| - 1);
    }
  }

  /** Breadth-first search from the roots: what it marks is exactly what is shipped
      and present, and what it records as absent exactly what is shipped but not. */
  method WalkShipped(doc: Document, roots: seq<Id>) returns (reachable: set<Id>, absent: seq<Id>)
    ensures forall v :: v in reachable <==> Shipped(doc, roots, v) && doc.Present(v)
    ensures forall v :: v in absent <==> Shipped(doc, roots, v) && !doc.Present(v)
  {
    reachable, absent := {}, [];
    var queue := roots;
    SearchStarts(doc, roots);
    hide Shipped, ShippingTargets, Searching;
    while queue != []
      invariant Searching(doc, roots, reachable, absent, queue)
      decreases doc.nodes.Keys - reachable, |queue|
    {
      var id, rest := queue[0], queue[1..];
      assert queue == [id] + rest;
      if id in reachable {
        SkipSeen(doc, roots, reachable, absent, id, rest);
        queue := rest;
      } else if doc.Present(id) {
        MarkPresent(doc, roots, reachable, absent, id, rest);
        reachable, queue := reachable + {id}, rest + ShippingTargets(doc.nodes[id]);
      } else {
        MarkAbsent(doc, roots, reachable, absent, id, rest);
        absent, queue := absent + [id], rest;
      }
    }
    SearchDone(doc, roots, reachable, absent);
  }

  // ----- Selecting roots -----

  predicate Matches(doc: Document, id: Id, selector: string) {
    id in doc.packages && (doc.packages[id].name == selector || id == selector)
  }

  /** Every package answers to its name and to its id, and to nothing else. */
  lemma NameOrId(doc: Document, id: Id, selector: string)
    requires id in doc.packages
    ensures Matches(doc, id, id) && Matches(doc, id, doc.packages[id].name)
    ensures Matches(doc, id, selector) ==> selector in {id, doc.packages[id].name}
  {
  }

  ghost predicate IsRoot(doc: Document, selectors: seq<string>, id: Id) {
    if selectors != [] then exists i :: 0 <= i < |selectors| && Matches(doc, id, selectors[i])
    else if doc.resolveRoot.Some? then id == doc.resolveRoot.value
    else |doc.members| == 1 && id == doc.members[0]
  }

  ghost predicate SelectorMatches(doc: Document, selector: string) {
    exists id :: Matches(doc, id, selector)
  }

  ghost predicate SelectionOk(doc: Document, selectors: seq<string>) {
    if selectors != [] then forall i :: 0 <= i < |selectors| ==> SelectorMatches(doc, selectors[i])
    else doc.resolveRoot.Some? || |doc.members| == 1
  }

  method MatchSelector(doc: Document, selector: string) returns (matches: seq<Id>)
    requires doc.Valid()
    ensures forall id :: id in matches <==> Matches(doc, id, selector)
  {
    matches := [];
    for i := 0 to |doc.order|
      invariant forall id :: id in matches <==> id in doc.order[..i] && Matches(doc, id, selector)
    {
      if Matches(doc, doc.order[i], selector) { matches := matches + [doc.order[i]]; }
    }
    assert doc.order[..|doc.order|] == doc.order;
  }

  /** What is unresolved about a selection. */
  ghost predicate SelectionEntry(doc: Document, selectors: seq<string>, x: Unresolved) {
    match x
    case NoSuchSelector(s) => s in selectors && !SelectorMatches(doc, s)
    case AmbiguousWorkspace => selectors == [] && doc.resolveRoot.None? && |doc.members| != 1
    case NoRoots => forall id :: !IsRoot(doc, selectors, id)
    case _ => false
  }

  method SelectRoots(doc: Document, selectors: seq<string>) returns (roots: seq<Id>, unresolved: seq<Unresolved>)
    requires doc.Valid()
    ensures forall id :: id in roots <==> IsRoot(doc, selectors, id)
    ensures unresolved == [] <==> SelectionOk(doc, selectors)
    ensures forall x :: x in unresolved <==> SelectionEntry(doc, selectors, x)
  {
    roots, unresolved := [], [];
    if selectors != [] {
      for i := 0 to |selectors|
        invariant forall id :: id in roots <==> exists k :: 0 <= k < i && Matches(doc, id, selectors[k])
        invariant unresolved == [] <==> forall k :: 0 <= k < i ==> SelectorMatches(doc, selectors[k])
        invariant unresolved == [] && 0 < i ==> roots != []
        invariant forall x :: x in unresolved <==>
          x.NoSuchSelector? && x.selector in selectors[..i] && !SelectorMatches(doc, x.selector)
      {
        var matches := MatchSelector(doc, selectors[i]);
        if matches == [] {
          unresolved := unresolved + [NoSuchSelector(selectors[i])];
          assert !SelectorMatches(doc, selectors[i]);
        } else {
          assert matches[0] in matches && SelectorMatches(doc, selectors[i]);
        }
        roots := roots + matches;
        assert selectors[..i + 1] == selectors[..i] + [selectors[i]];
      }
      assert selectors[..|selectors|] == selectors;
    } else if doc.resolveRoot.Some? {
      roots := [doc.resolveRoot.value];
    } else if |doc.members| == 1 {
      roots := doc.members;
    } else {
      unresolved := unresolved + [AmbiguousWorkspace];
    }
    assert roots != [] ==> IsRoot(doc, selectors, roots[0]) by { FirstIsIn(roots); }
    if roots == [] { unresolved := unresolved + [NoRoots]; }
  }

  lemma FirstIsIn(ids: seq<Id>)
    ensures ids != [] ==> ids[0] in ids
  {
  }

  /** Reached from a selected root along shipping edges. */
  ghost predicate InClosure(doc: Document, selectors: seq<string>, v: Id) {
    exists p :: IsWalk(ShippingGraph(doc), p) && IsRoot(doc, selectors, p[0]) && p[|p| - 1] == v
  }

  lemma ClosureIsShipped(doc: Document, selectors: seq<string>, roots: seq<Id>, v: Id)
    requires forall id :: id in roots <==> IsRoot(doc, selectors, id)
    ensures Shipped(doc, roots, v) <==> InClosure(doc, selectors, v)
  {
    hide IsRoot, ShippingGraph;
    var g := ShippingGraph(doc);
    if Shipped(doc, roots, v) {
      var p :| IsWalk(g, p) && p[0] in roots && p[|p| - 1] == v;
      assert IsRoot(doc, selectors, p[0]);
    }
    if InClosure(doc, selectors, v) {
      var p :| IsWalk(g, p) && IsRoot(doc, selectors, p[0]) && p[|p| - 1] == v;
      assert p[0] in roots;
    }
  }

  // ----- Per package -----

  function PackageViolations(doc: Document, id: Id, allowed: seq<string>): seq<Violation>
    requires id in doc.packages
  {
    var package := doc.packages[id];
    (if IsForbidden(package.name) then [ForbiddenDependency(id)]
     else if !OriginAllowed(package, allowed) then [UnapprovedOrigin(id)] else [])
    + (if package.licenseFile == Some(false) then [MissingLicenseFile(id)] else [])
  }

  predicate PackageCompliant(doc: Document, id: Id, allowed: seq<string>)
    requires id in doc.packages
  {
    var package := doc.packages[id];
    !IsForbidden(package.name) && OriginAllowed(package, allowed) && package.licenseFile != Some(false)
  }

  function AbsentDependencies(id: Id, deps: seq<Dependency>, reachable: set<Id>): seq<Unresolved> {
    if deps == [] then []
    else
      var here := Shipping(deps[0]) && (deps[0].pkg.None? || deps[0].pkg.value !in reachable);
      (if here then [AbsentDependency(id, deps[0].pkg)] else []) + AbsentDependencies(id, deps[1..], reachable)
  }

  function PackageUnresolved(doc: Document, id: Id, reachable: set<Id>): seq<Unresolved>
    requires doc.Present(id)
  {
    (if !doc.packages[id].licensed && doc.packages[id].licenseFile.None? then [NoLicense(id)] else [])
    + AbsentDependencies(id, doc.nodes[id], reachable)
  }

  /** Licensed, and every shipping dependency names a package. */
  predicate PackageDocumented(doc: Document, id: Id)
    requires doc.Present(id)
  {
    && (doc.packages[id].licensed || doc.packages[id].licenseFile.Some?)
    && forall i :: 0 <= i < |doc.nodes[id]| && Shipping(doc.nodes[id][i]) ==> doc.nodes[id][i].pkg.Some?
  }

  lemma {:induction false} NoAbsentDependencies(id: Id, deps: seq<Dependency>, reachable: set<Id>)
    ensures AbsentDependencies(id, deps, reachable) == [] <==>
      && (forall i :: 0 <= i < |deps| && Shipping(deps[i]) ==> deps[i].pkg.Some?)
      && (forall w :: w in ShippingTargets(deps) ==> w in reachable)
    decreases |deps|
  {
    if deps != [] {
      NoAbsentDependencies(id, deps[1..], reachable);
      hide Shipping;
      assert deps == [deps[0]] + deps[1..];
      assert ShippingTargets(deps) ==
        (if deps[0].pkg.Some? && Shipping(deps[0]) then [deps[0].pkg.value] else []) + ShippingTargets(deps[1..]);
    }
  }

  lemma ViolationsMatter(doc: Document, id: Id, allowed: seq<string>)
    requires id in doc.packages
    ensures PackageViolations(doc, id, allowed) == [] <==> PackageCompliant(doc, id, allowed)
  {
    hide IsForbidden, OriginAllowed;
  }

  /** What the rules hold against one package. */
  predicate PackageFault(doc: Document, id: Id, allowed: seq<string>, x: Violation)
    requires id in doc.packages
  {
    var package := doc.packages[id];
    match x
    case ForbiddenDependency(p) => p == id && IsForbidden(package.name)
    case UnapprovedOrigin(p) => p == id && !IsForbidden(package.name) && !OriginAllowed(package, allowed)
    case MissingLicenseFile(p) => p == id && package.licenseFile == Some(false)
    case _ => false
  }

  lemma FaultsAreListed(doc: Document, id: Id, allowed: seq<string>, x: Violation)
    requires id in doc.packages
    ensures x in PackageViolations(doc, id, allowed) <==> PackageFault(doc, id, allowed, x)
  {
    hide IsForbidden, OriginAllowed;
  }

  /** A shipping dependency that names no package, or one that is not in the set. */
  ghost predicate LacksDependency(deps: seq<Dependency>, reachable: set<Id>, dependency: Option<Id>) {
    && (exists i :: 0 <= i < |deps| && Shipping(deps[i]) && deps[i].pkg == dependency)
    && (dependency.None? || dependency.value !in reachable)
  }

  lemma {:induction false} LackingAreListed(id: Id, deps: seq<Dependency>, reachable: set<Id>, x: Unresolved)
    ensures x in AbsentDependencies(id, deps, reachable) <==>
      x.AbsentDependency? && x.from == id && LacksDependency(deps, reachable, x.dependency)
  {
    if deps != [] {
      LackingAreListed(id, deps[1..], reachable, x);
      hide Shipping;
      assert forall i :: 0 < i < |deps| ==> deps[i] == deps[1..][i - 1];
      assert forall i :: 0 <= i < |deps[1..]| ==> deps[1..][i] == deps[i + 1];
    }
  }

  /** What is unresolved about one package among the reachable ones. */
  ghost predicate PackageEntry(doc: Document, id: Id, reachable: set<Id>, x: Unresolved)
    requires doc.Present(id)
  {
    match x
    case NoLicense(p) => p == id && !doc.packages[id].licensed && doc.packages[id].licenseFile.None?
    case AbsentDependency(from, dependency) => from == id && LacksDependency(doc.nodes[id], reachable, dependency)
    case _ => false
  }

  lemma EntriesAreListed(doc: Document, id: Id, reachable: set<Id>, x: Unresolved)
    requires doc.Present(id)
    ensures x in PackageUnresolved(doc, id, reachable) <==> PackageEntry(doc, id, reachable, x)
  {
    LackingAreListed(id, doc.nodes[id], reachable, x);
    hide LacksDependency, AbsentDependencies;
  }

  datatype Findings = Findings(violations: seq<Violation>, unresolved: seq<Unresolved>, runtimes: set<(string, string)>)

  ghost predicate IsRuntime(doc: Document, id: Id, pair: (string, string)) {
    && id in doc.packages && doc.packages[id].name in {"asupersync", "async-std", "smol", "tokio"}
    && pair == (doc.packages[id].name, doc.packages[id].version)
  }

  /** Look at every reachable package once. */
  method InspectPackages(doc: Document, reachable: set<Id>, allowed: seq<string>) returns (f: Findings)
    requires forall v :: v in reachable ==> v in doc.packages && v in doc.nodes
    ensures f.violations == [] <==> forall v :: v in reachable ==> PackageCompliant(doc, v, allowed)
    ensures forall x :: x in f.violations <==>
      exists v :: v in reachable && x in PackageViolations(doc, v, allowed)
    ensures f.unresolved == [] <==> forall v :: v in reachable ==> PackageUnresolved(doc, v, reachable) == []
    ensures forall x :: x in f.unresolved <==>
      exists v :: v in reachable && x in PackageUnresolved(doc, v, reachable)
    ensures forall pair :: pair in f.runtimes <==> exists v :: v in reachable && IsRuntime(doc, v, pair)
  {
    hide PackageCompliant, PackageViolations, PackageUnresolved;
    var violations: seq<Violation>, unresolved: seq<Unresolved>, runtimes: set<(string, string)> := [], [], {};
    var rest := reachable;
    while rest != {}
      invariant rest <= reachable
      invariant violations == [] <==> forall v :: v in reachable - rest ==> PackageCompliant(doc, v, allowed)
      invariant forall x :: x in violations <==>
        exists v :: v in reachable - rest && x in PackageViolations(doc, v, allowed)
      invariant unresolved == [] <==> forall v :: v in reachable - rest ==> PackageUnresolved(doc, v, reachable) == []
      invariant forall x :: x in unresolved <==>
        exists v :: v in reachable - rest && x in PackageUnresolved(doc, v, reachable)
      invariant forall pair :: pair in runtimes <==> exists v :: v in reachable - rest && IsRuntime(doc, v, pair)
    {
      var id :| id in rest;
      ghost var before := reachable - rest;
      rest := rest - {id};
      assert reachable - rest == before + {id};
      var package := doc.packages[id];
      if package.name in RUNTIME_FAMILIES { runtimes := runtimes + {(package.name, package.version)}; }
      ViolationsMatter(doc, id, allowed);
      violations := violations + PackageViolations(doc, id, allowed);
      unresolved := unresolved + PackageUnresolved(doc, id, reachable);
    }
    assert reachable - rest == reachable;
    f := Findings(violations, unresolved, runtimes);
  }

  // ----- One root -----

  predicate ReceiptClean(receipt: Receipt) {
    receipt.hasRevision && receipt.hasOrigin && !receipt.dirty
  }

  function ReceiptUnresolved(receipt: Receipt): seq<Unresolved> {
    (if !receipt.hasRevision then [NoRevision] else [])
    + (if !receipt.hasOrigin then [NoOrigin] else [])
    + (if receipt.dirty then [DirtyTree] else [])
  }

  /** Every package the selection ships that the graph knows is compliant. */
  ghost predicate RootCompliant(doc: Document, selectors: seq<string>, allowed: seq<string>) {
    forall v :: InClosure(doc, selectors, v) && doc.Present(v) ==> PackageCompliant(doc, v, allowed)
  }

  /** The selection is settled, the input is clean, and every package shipped is in
      the resolve graph with its license and its own dependencies named. */
  ghost predicate RootResolved(doc: Document, selectors: seq<string>, receipt: Receipt) {
    && SelectionOk(doc, selectors)
    && ReceiptClean(receipt)
    && forall v :: InClosure(doc, selectors, v) ==> doc.Present(v) && PackageDocumented(doc, v)
  }

  ghost predicate ShipsRuntime(doc: Document, selectors: seq<string>, pair: (string, string)) {
    exists v :: InClosure(doc, selectors, v) && doc.Present(v) && IsRuntime(doc, v, pair)
  }

  /** Shipped by the selection and known to the graph. */
  ghost predicate Ships(doc: Document, selectors: seq<string>, id: Id) {
    InClosure(doc, selectors, id) && doc.Present(id)
  }

  ghost predicate RootViolation(doc: Document, selectors: seq<string>, allowed: seq<string>, x: Violation) {
    exists v :: Ships(doc, selectors, v) && PackageFault(doc, v, allowed, x)
  }

  predicate ReceiptEntry(receipt: Receipt, x: Unresolved) {
    || (x.NoRevision? && !receipt.hasRevision)
    || (x.NoOrigin? && !receipt.hasOrigin)
    || (x.DirtyTree? && receipt.dirty)
  }

  /** A package shipped but absent; or one that ships without a license, or whose
      shipping dependency names no package or an absent one. */
  ghost predicate ShippedEntry(doc: Document, selectors: seq<string>, x: Unresolved) {
    match x
    case AbsentPackage(p) => InClosure(doc, selectors, p) && !doc.Present(p)
    case NoLicense(p) => Ships(doc, selectors, p) && !doc.packages[p].licensed && doc.packages[p].licenseFile.None?
    case AbsentDependency(from, dependency) =>
      && Ships(doc, selectors, from)
      && (exists i :: 0 <= i < |doc.nodes[from]| && Shipping(doc.nodes[from][i])
           && doc.nodes[from][i].pkg == dependency)
      && (dependency.None? || !Ships(doc, selectors, dependency.value))
    case _ => false
  }

  ghost predicate RootEntry(doc: Document, selectors: seq<string>, receipt: Receipt, x: Unresolved) {
    SelectionEntry(doc, selectors, x) || ReceiptEntry(receipt, x) || ShippedEntry(doc, selectors, x)
  }

  lemma ShippedEntries(doc: Document, selectors: seq<string>, reachable: set<Id>, x: Unresolved)
    requires forall v :: v in reachable ==> doc.Present(v)
    requires forall v :: v in reachable <==> Ships(doc, selectors, v)
    ensures x.AbsentPackage? || (ShippedEntry(doc, selectors, x) <==>
      exists v :: v in reachable && x in PackageUnresolved(doc, v, reachable))
  {
    hide InClosure, PackageUnresolved;
    forall v | v in reachable
      ensures x in PackageUnresolved(doc, v, reachable) <==> PackageEntry(doc, v, reachable, x)
    {
      EntriesAreListed(doc, v, reachable, x);
    }
  }

  lemma FaultsOfAll(doc: Document, allowed: seq<string>, reachable: set<Id>, x: Violation)
    requires forall v :: v in reachable ==> v in doc.packages
    ensures (exists v :: v in reachable && x in PackageViolations(doc, v, allowed))
       <==> (exists v :: v in reachable && PackageFault(doc, v, allowed, x))
  {
    hide PackageViolations, PackageFault;
    forall v | v in reachable ensures x in PackageViolations(doc, v, allowed) <==> PackageFault(doc, v, allowed, x) {
      FaultsAreListed(doc, v, allowed, x);
    }
  }

  lemma ShippedFaults(doc: Document, selectors: seq<string>, allowed: seq<string>, reachable: set<Id>, x: Violation)
    requires forall v :: v in reachable ==> v in doc.packages
    requires forall v :: v in reachable <==> Ships(doc, selectors, v)
    ensures RootViolation(doc, selectors, allowed, x) <==>
        exists v :: v in reachable && PackageFault(doc, v, allowed, x)
  {
    hide InClosure, PackageFault;
  }

  datatype RootReport = RootReport(manifestCount: nat, findings: Findings)

  /** With every shipped package present, an absent dependency can only be an
      unnamed one. */
  lemma DocumentedWhenPresent(doc: Document, selectors: seq<string>, reachable: set<Id>, v: Id)
    requires InClosure(doc, selectors, v) && doc.Present(v)
    requires forall w :: InClosure(doc, selectors, w) ==> w in reachable
    ensures PackageUnresolved(doc, v, reachable) == [] <==> PackageDocumented(doc, v)
  {
    NoAbsentDependencies(v, doc.nodes[v], reachable);
    PresentEdges(doc, v);
    forall w | w in ShippingTargets(doc.nodes[v]) ensures w in reachable {
      ClosureGrows(doc, selectors, v, w);
    }
    hide AbsentDependencies, ShippingTargets, Shipping;
  }

  lemma ClosureGrows(doc: Document, selectors: seq<string>, v: Id, w: Id)
    requires InClosure(doc, selectors, v) && w in Successors(ShippingGraph(doc), v)
    ensures InClosure(doc, selectors, w)
  {
    hide ShippingGraph, IsRoot, Successors;
    var g := ShippingGraph(doc);
    var p :| IsWalk(g, p) && IsRoot(doc, selectors, p[0]) && p[|p| - 1] == v;
    WalkExtends(g, p, w);
    assert (p + [w])[0] == p[0];
  }

  method InspectMetadataRoot(doc: Document, selectors: seq<string>, receipt: Receipt, allowed: seq<string>)
      returns (report: RootReport)
    requires doc.Valid()
    ensures report.findings.violations == [] <==> RootCompliant(doc, selectors, allowed)
    ensures report.findings.unresolved == [] && 0 < report.manifestCount <==> RootResolved(doc, selectors, receipt)
    ensures exists shipped: set<Id> ::
      (forall v :: v in shipped <==> Ships(doc, selectors, v)) && report.manifestCount == |shipped|
    ensures forall pair :: pair in report.findings.runtimes <==> ShipsRuntime(doc, selectors, pair)
    ensures forall x :: x in report.findings.violations <==> RootViolation(doc, selectors, allowed, x)
    ensures forall x :: x in report.findings.unresolved <==> RootEntry(doc, selectors, receipt, x)
  {
    hide InClosure, Shipped, IsRoot, SelectionOk, PackageCompliant, PackageDocumented, PackageUnresolved,
      PackageViolations, PackageFault, RootViolation, ShippedEntry, SelectionEntry, RootResolved;
    var roots, selection := SelectRoots(doc, selectors);
    var reachable, absent := WalkShipped(doc, roots);
    forall v ensures Shipped(doc, roots, v) <==> InClosure(doc, selectors, v) {
      ClosureIsShipped(doc, selectors, roots, v);
    }
    var inspected := InspectPackages(doc, reachable, allowed);
    var missing := seq(|absent|, i requires 0 <= i < |absent| => AbsentPackage(absent[i]));
    var unresolved := selection + ReceiptUnresolved(receipt) + missing + inspected.unresolved;
    Resolution(doc, selectors, receipt, reachable, absent, selection, missing, inspected.unresolved);
    forall x ensures x in inspected.violations <==> RootViolation(doc, selectors, allowed, x) {
      FaultsOfAll(doc, allowed, reachable, x);
      ShippedFaults(doc, selectors, allowed, reachable, x);
    }
    forall x ensures x in unresolved <==> RootEntry(doc, selectors, receipt, x) {
      ShippedEntries(doc, selectors, reachable, x);
      InspectedNamesNoAbsentPackage(doc, reachable, x);
      MissingNamed(doc, selectors, absent, missing, x);
    }
    report := RootReport(|reachable|, inspected.(unresolved := unresolved));
  }

  /** Nothing is left unresolved exactly when the root is. */
  lemma Resolution(doc: Document, selectors: seq<string>, receipt: Receipt, reachable: set<Id>, absent: seq<Id>,
                   selection: seq<Unresolved>, missing: seq<Unresolved>, inspected: seq<Unresolved>)
    requires forall v :: v in reachable <==> InClosure(doc, selectors, v) && doc.Present(v)
    requires forall v :: v in absent <==> InClosure(doc, selectors, v) && !doc.Present(v)
    requires |missing| == |absent| && (selection == [] <==> SelectionOk(doc, selectors))
    requires inspected == [] <==> forall v :: v in reachable ==> PackageUnresolved(doc, v, reachable) == []
    ensures selection + ReceiptUnresolved(receipt) + missing + inspected == [] && 0 < |reachable|
       <==> RootResolved(doc, selectors, receipt)
  {
    hide InClosure, SelectionOk, PackageDocumented, PackageUnresolved;
    if absent == [] {
      assert forall v :: InClosure(doc, selectors, v) ==> v in reachable;
      forall v | v in reachable
        ensures PackageUnresolved(doc, v, reachable) == [] <==> PackageDocumented(doc, v)
      {
        DocumentedWhenPresent(doc, selectors, reachable, v);
      }
      if SelectionOk(doc, selectors) { SelectionShipsSomething(doc, selectors); }
    } else {
      assert absent[0] in absent;
    }
  }

  lemma InspectedNamesNoAbsentPackage(doc: Document, reachable: set<Id>, x: Unresolved)
    requires forall v :: v in reachable ==> doc.Present(v)
    ensures x.AbsentPackage? ==> forall v :: v in reachable ==> x !in PackageUnresolved(doc, v, reachable)
  {
    forall v | v in reachable && x.AbsentPackage? ensures x !in PackageUnresolved(doc, v, reachable) {
      EntriesAreListed(doc, v, reachable, x);
    }
  }

  lemma MissingNamed(doc: Document, selectors: seq<string>, absent: seq<Id>, missing: seq<Unresolved>, x: Unresolved)
    requires forall v :: v in absent <==> InClosure(doc, selectors, v) && !doc.Present(v)
    requires |missing| == |absent| && forall i :: 0 <= i < |absent| ==> missing[i] == AbsentPackage(absent[i])
    ensures x in missing <==> x.AbsentPackage? && ShippedEntry(doc, selectors, x)
  {
    hide InClosure;
    if x.AbsentPackage? && x.package in absent {
      var i :| 0 <= i < |absent| && absent[i] == x.package;
      assert missing[i] == x;
    }
  }

  /** A settled selection has at least one root. */
  lemma SelectionShipsSomething(doc: Document, selectors: seq<string>)
    requires SelectionOk(doc, selectors)
    ensures exists v :: InClosure(doc, selectors, v)
  {
    var r: Id;
    if selectors != [] {
      assert SelectorMatches(doc, selectors[0]);
      r :| Matches(doc, r, selectors[0]);
    } else {
      r := if doc.resolveRoot.Some? then doc.resolveRoot.value else doc.members[0];
    }
    assert IsRoot(doc, selectors, r);
    hide IsRoot;
    assert IsWalk(ShippingGraph(doc), [r]);
    assert InClosure(doc, selectors, r);
  }

  // ----- The verdict -----

  datatype RootInput = NotCargo | WithoutMetadata(receipt: Receipt) | Inspected(doc: Document, receipt: Receipt)

  datatype Qualification = Qualified | Noncompliant | Incomplete

  const DEFAULT_ALLOWED_ORIGINS: seq<string> := [
    "https://github.com/Dicklesworthstone/asupersync",
    "https://github.com/Dicklesworthstone/coding_agent_session_search",
    "https://github.com/Dicklesworthstone/franken_code_browser",
    "https://github.com/Dicklesworthstone/franken_markdown",
    "https://github.com/Dicklesworthstone/franken_manim",
    "https://github.com/Dicklesworthstone/franken_networkx",
    "https://github.com/Dicklesworthstone/franken_numpy",
    "https://github.com/Dicklesworthstone/franken_sqlite",
    "https://github.com/Dicklesworthstone/frankensqlite",
    "https://github.com/Dicklesworthstone/frankenterm",
    "https://github.com/Dicklesworthstone/frankentui",
    "https://github.com/Dicklesworthstone/franken_threed"]

  function Origins(allowed: seq<string>): seq<string> {
    if allowed == [] then DEFAULT_ALLOWED_ORIGINS else allowed
  }

  /** Twelve origins are allowed by default, and only those asked for otherwise. */
  lemma OriginsAskedFor(allowed: seq<string>)
    ensures allowed != [] ==> Origins(allowed) == allowed
    ensures |Origins([])| == 12
  {
  }

  ghost predicate InputCompliant(input: RootInput, selectors: seq<string>, allowed: seq<string>) {
    !input.NotCargo? && (input.Inspected? ==> RootCompliant(input.doc, selectors, allowed))
  }

  ghost predicate InputResolved(input: RootInput, selectors: seq<string>) {
    input.Inspected? && RootResolved(input.doc, selectors, input.receipt)
  }

  ghost predicate InputRuntime(input: RootInput, selectors: seq<string>, pair: (string, string)) {
    input.Inspected? && ShipsRuntime(input.doc, selectors, pair)
  }

  ghost predicate AnyRuntime(inputs: seq<RootInput>, selectors: seq<string>, pair: (string, string)) {
    exists k :: 0 <= k < |inputs| && InputRuntime(inputs[k], selectors, pair)
  }

  /** At most one runtime family, at one version, across all roots together. */
  ghost predicate OneRuntime(inputs: seq<RootInput>, selectors: seq<string>) {
    forall p, q :: AnyRuntime(inputs, selectors, p) && AnyRuntime(inputs, selectors, q) ==> p == q
  }

  ghost predicate NoViolation(inputs: seq<RootInput>, selectors: seq<string>, allowed: seq<string>) {
    && (forall i :: 0 <= i < |inputs| ==> InputCompliant(inputs[i], selectors, allowed))
    && OneRuntime(inputs, selectors)
  }

  ghost predicate InputViolation(input: RootInput, selectors: seq<string>, allowed: seq<string>, x: Violation) {
    match input
    case NotCargo => x == NoManifest
    case WithoutMetadata(_) => false
    case Inspected(doc, _) => RootViolation(doc, selectors, allowed, x)
  }

  ghost predicate InputEntry(input: RootInput, selectors: seq<string>, x: Unresolved) {
    match input
    case NotCargo => false
    case WithoutMetadata(receipt) => x == NoMetadata || ReceiptEntry(receipt, x)
    case Inspected(doc, receipt) => RootEntry(doc, selectors, receipt, x)
  }

  lemma {:induction false} ManyMeansTwo<T>(s: set<T>)
    ensures 1 < |s| <==> exists x, y :: x in s && y in s && x != y
  {
    if s != {} {
      var x :| x in s;
      assert |s - {x}| == |s| - 1;
      if 1 < |s| {
        var y :| y in s - {x};
      } else {
        assert s == {x} + (s - {x}) == {x};
      }
    }
  }

  /** What several runtimes together violate. */
  ghost predicate RuntimeClash(runtimes: set<(string, string)>, x: Violation) {
    match x
    case DuplicateRuntimeVersion(family) =>
      exists p, q :: p in runtimes && q in runtimes && p.0 == q.0 == family && p.1 != q.1
    case MultipleRuntimeFamilies => exists p, q :: p in runtimes && q in runtimes && p.0 != q.0
    case _ => false
  }

  /** One violation for each family at several versions, and one for several
      families. */
  method CheckRuntimes(runtimes: set<(string, string)>) returns (violations: seq<Violation>)
    ensures violations == [] <==> forall p, q :: p in runtimes && q in runtimes ==> p == q
    ensures forall x :: x in violations <==> RuntimeClash(runtimes, x)
  {
    hide RuntimeClash;
    violations := [];
    var families := set p | p in runtimes :: p.0;
    var rest := families;
    while rest != {}
      invariant rest <= families
      invariant violations == [] <==>
        forall p, q :: p in runtimes && q in runtimes && p.0 == q.0 && p.0 !in rest ==> p.1 == q.1
      invariant forall x :: x in violations <==>
        x.DuplicateRuntimeVersion? && x.family in families - rest && RuntimeClash(runtimes, x)
    {
      var family :| family in rest;
      var versions := set p | p in runtimes && p.0 == family :: p.1;
      ManyMeansTwo(versions);
      VersionsDiffer(runtimes, family, versions);
      ghost var before := rest;
      rest := rest - {family};
      assert families - rest == families - before + {family};
      assert |versions| > 1 <==> RuntimeClash(runtimes, DuplicateRuntimeVersion(family)) by {
        ClashMeans(runtimes, family);
      }
      if |versions| > 1 { violations := violations + [DuplicateRuntimeVersion(family)]; }
    }
    ManyMeansTwo(families);
    FamiliesDiffer(runtimes, families);
    forall x ensures RuntimeClash(runtimes, x) ==>
      x.MultipleRuntimeFamilies? || (x.DuplicateRuntimeVersion? && x.family in families)
    {
      ClashKinds(runtimes, families, x);
    }
    assert |families| > 1 <==> RuntimeClash(runtimes, MultipleRuntimeFamilies) by { ClashMeans(runtimes, ""); }
    if |families| > 1 { violations := violations + [MultipleRuntimeFamilies]; }
  }

  lemma ClashMeans(runtimes: set<(string, string)>, family: string)
    ensures RuntimeClash(runtimes, DuplicateRuntimeVersion(family)) <==>
      exists p, q :: p in runtimes && q in runtimes && p.0 == q.0 == family && p.1 != q.1
    ensures RuntimeClash(runtimes, MultipleRuntimeFamilies) <==>
        exists p, q :: p in runtimes && q in runtimes && p.0 != q.0
  {
  }

  lemma ClashKinds(runtimes: set<(string, string)>, families: set<string>, x: Violation)
    requires families == set p | p in runtimes :: p.0
    ensures RuntimeClash(runtimes, x) ==>
      x.MultipleRuntimeFamilies? || (x.DuplicateRuntimeVersion? && x.family in families)
  {
  }

  lemma VersionsDiffer(runtimes: set<(string, string)>, family: string, versions: set<string>)
    requires versions == set p | p in runtimes && p.0 == family :: p.1
    ensures (exists x, y :: x in versions && y in versions && x != y) <==>
      exists p, q :: p in runtimes && q in runtimes && p.0 == q.0 == family && p.1 != q.1
  {
    if x, y :| x in versions && y in versions && x != y {
      var p, q := (family, x), (family, y);
      assert p in runtimes && q in runtimes && p.0 == q.0 == family && p.1 != q.1;
    }
    if p, q :| p in runtimes && q in runtimes && p.0 == q.0 == family && p.1 != q.1 {
      assert p.1 in versions && q.1 in versions;
    }
  }

  lemma FamiliesDiffer(runtimes: set<(string, string)>, families: set<string>)
    requires families == set p | p in runtimes :: p.0
    ensures (exists x, y :: x in families && y in families && x != y) <==>
      exists p, q :: p in runtimes && q in runtimes && p.0 != q.0
  {
    if x, y :| x in families && y in families && x != y {
      var p :| p in runtimes && p.0 == x;
      var q :| q in runtimes && q.0 == y;
      assert p.0 != q.0;
    }
    if p, q :| p in runtimes && q in runtimes && p.0 != q.0 {
      assert p.0 in families && q.0 in families;
    }
  }

  /** What several runtimes across all roots together violate. */
  ghost predicate RuntimesClash(inputs: seq<RootInput>, selectors: seq<string>, x: Violation) {
    match x
    case DuplicateRuntimeVersion(family) =>
      exists p, q ::
        AnyRuntime(inputs, selectors, p) && AnyRuntime(inputs, selectors, q) && p.0 == q.0 == family && p.1 != q.1
    case MultipleRuntimeFamilies =>
      exists p, q :: AnyRuntime(inputs, selectors, p) && AnyRuntime(inputs, selectors, q) && p.0 != q.0
    case _ => false
  }

  lemma ClashesAre(runtimes: set<(string, string)>, inputs: seq<RootInput>, selectors: seq<string>, x: Violation)
    requires forall pair :: pair in runtimes <==> AnyRuntime(inputs, selectors, pair)
    ensures RuntimeClash(runtimes, x) <==> RuntimesClash(inputs, selectors, x)
  {
    hide AnyRuntime;
  }

  datatype InputReport = InputReport(violations: seq<Violation>, unresolved: seq<Unresolved>, counted: bool,
                                     runtimes: set<(string, string)>)

  /** One root, inspected or not. */
  method InspectInput(input: RootInput, selectors: seq<string>, allowed: seq<string>) returns (report: InputReport)
    requires input.Inspected? ==> input.doc.Valid()
    ensures report.violations == [] <==> InputCompliant(input, selectors, allowed)
    ensures report.unresolved == [] && report.counted <==> InputResolved(input, selectors)
    ensures forall pair :: pair in report.runtimes <==> InputRuntime(input, selectors, pair)
    ensures forall x :: x in report.violations <==> InputViolation(input, selectors, allowed, x)
    ensures forall x :: x in report.unresolved <==> InputEntry(input, selectors, x)
  {
    hide RootCompliant, RootResolved, ShipsRuntime, RootViolation, RootEntry;
    match input
    case NotCargo =>
      report := InputReport([NoManifest], [], false, {});
    case WithoutMetadata(receipt) =>
      report := InputReport([], [NoMetadata] + ReceiptUnresolved(receipt), false, {});
    case Inspected(doc, receipt) =>
      var root := InspectMetadataRoot(doc, selectors, receipt, allowed);
      report := InputReport(root.findings.violations, root.findings.unresolved, 0 < root.manifestCount,
          root.findings.runtimes);
  }

  /** The probe's verdict over all roots: qualified exactly when the conditions it
      stands for hold, noncompliant exactly when one of them is violated; every violation
      and every unresolved entry is listed, and nothing else. */
  method InspectRoots(inputs: seq<RootInput>, selectors: seq<string>, allowed: seq<string>)
      returns (verdict: Qualification, violations: seq<Violation>, unresolved: seq<Unresolved>)
    requires forall i :: 0 <= i < |inputs| && inputs[i].Inspected? ==> inputs[i].doc.Valid()
    ensures verdict.Noncompliant? <==> violations != []
    ensures violations == [] <==> NoViolation(inputs, selectors, Origins(allowed))
    ensures verdict.Qualified? <==>
      && NoViolation(inputs, selectors, Origins(allowed))
      && inputs != [] && forall i :: 0 <= i < |inputs| ==> InputResolved(inputs[i], selectors)
    ensures forall x :: x in violations <==>
      || RuntimesClash(inputs, selectors, x)
      || exists k :: 0 <= k < |inputs| && InputViolation(inputs[k], selectors, Origins(allowed), x)
    ensures forall x :: x in unresolved <==> exists k :: 0 <= k < |inputs| && InputEntry(inputs[k], selectors, x)
  {
    hide InputCompliant, InputResolved, InputRuntime, InputViolation, InputEntry, RuntimeClash, RuntimesClash, Origins;
    violations, unresolved := [], [];
    var runtimes: set<(string, string)>, counted := {}, true;
    for i := 0 to |inputs|
      invariant violations == [] <==> forall k :: 0 <= k < i ==> InputCompliant(inputs[k], selectors, Origins(allowed))
      invariant unresolved == [] && counted <==> forall k :: 0 <= k < i ==> InputResolved(inputs[k], selectors)
      invariant forall pair :: pair in runtimes <==> exists k :: 0 <= k < i && InputRuntime(inputs[k], selectors, pair)
      invariant forall x :: x in violations <==>
        exists k :: 0 <= k < i && InputViolation(inputs[k], selectors, Origins(allowed), x)
      invariant forall x :: x in unresolved <==> exists k :: 0 <= k < i && InputEntry(inputs[k], selectors, x)
    {
      var report := InspectInput(inputs[i], selectors, Origins(allowed));
      violations := violations + report.violations;
      unresolved := unresolved + report.unresolved;
      counted := counted && report.counted;
      runtimes := runtimes + report.runtimes;
    }
    var clashes := CheckRuntimes(runtimes);
    assert forall pair :: pair in runtimes <==> AnyRuntime(inputs, selectors, pair);
    forall x ensures x in clashes <==> RuntimesClash(inputs, selectors, x) {
      ClashesAre(runtimes, inputs, selectors, x);
    }
    violations := violations + clashes;
    var complete := inputs != [] && counted && unresolved == [];
    verdict := if violations != [] then Noncompliant else if complete then Qualified else Incomplete;
  }
}
