/** The license guard: no MIT-compatible workspace package may reach an AGPL one over workspace dependencies.
    The search is a depth-first walk with an explicit stack of paths and a set of names already seen. */
module LicenseGraph {
  import opened Wrappers

  /** What a manifest's license text matches: `AGPL` anywhere, or one of the listed MIT-compatible names. */
  datatype License = MitCompatible | Agpl | Neither

  datatype Package = Package(name: string, license: License, deps: seq<string>)
  datatype Hit = Hit(name: string, path: seq<string>)

  type Graph = map<string, Package>

  /** `b` is a dependency of the workspace package `a`. */
  predicate Edge(g: Graph, a: string, b: string) { a in g && b in g[a].deps }

  predicate IsAgpl(g: Graph, n: string) { n in g && g[n].license == Agpl }

  /** A walk that leaves `start` by one of its dependencies and follows dependencies from there. */
  predicate Path(g: Graph, start: Package, p: seq<string>) {
    && |p| >= 2 && p[0] == start.name && p[1] in start.deps
    && forall i :: 1 <= i < |p| - 1 ==> Edge(g, p[i], p[i + 1])
  }

  ghost predicate Reachable(g: Graph, start: Package, n: string) {
    exists p :: Path(g, start, p) && p[|p| - 1] == n
  }

  /** No AGPL package is reachable. */
  ghost predicate Clean(g: Graph, start: Package) {
    forall n :: Reachable(g, start, n) ==> !IsAgpl(g, n)
  }

  ghost function Names(g: Graph, start: Package): set<string> {
    (set n, d | n in g && d in g[n].deps :: d) + (set d | d in start.deps)
  }

  ghost function Pending(stack: seq<Hit>): set<string> { set i | 0 <= i < |stack| :: stack[i].name }

  /** Every dependency of a seen package is seen or waiting on the stack, and no seen package is AGPL. */
  ghost predicate Explored(g: Graph, start: Package, seen: set<string>, waiting: set<string>) {
    && (forall d :: d in start.deps ==> d in seen + waiting)
    && (forall n, d :: n in seen && Edge(g, n, d) ==> d in seen + waiting)
    && (forall n :: n in seen ==> !IsAgpl(g, n))
  }

  predicate Entry(g: Graph, start: Package, h: Hit) { Path(g, start, h.path) && h.path[|h.path| - 1] == h.name }

  /** With nothing waiting, the seen set is everything a path can arrive at. */
  lemma {:induction false} SeenCovers(g: Graph, start: Package, seen: set<string>, p: seq<string>, i: nat)
    requires Explored(g, start, seen, {})
    requires Path(g, start, p) && 1 <= i < |p|
    ensures p[i] in seen
  {
    if i > 1 {
      SeenCovers(g, start, seen, p, i - 1);
      assert Edge(g, p[i - 1], p[i]);
    }
  }

  lemma NothingFound(g: Graph, start: Package, seen: set<string>)
    requires Explored(g, start, seen, {})
    ensures Clean(g, start)
  {
    forall n | Reachable(g, start, n) ensures !IsAgpl(g, n) {
      var p :| Path(g, start, p) && p[|p| - 1] == n;
      SeenCovers(g, start, seen, p, |p| - 1);
    }
  }

  ghost predicate StackOk(g: Graph, start: Package, stack: seq<Hit>) {
    forall i :: 0 <= i < |stack| ==> Entry(g, start, stack[i]) && stack[i].name in Names(g, start)
  }

  lemma PendingPush(stack: seq<Hit>, h: Hit)
    ensures Pending(stack + [h]) == Pending(stack) + {h.name}
  {
    assert forall i :: 0 <= i < |stack| ==> (stack + [h])[i] == stack[i];
    assert (stack + [h])[|stack|] == h;
  }

  lemma HitIsReachable(g: Graph, start: Package, h: Hit)
    requires Entry(g, start, h) && IsAgpl(g, h.name)
    ensures !Clean(g, start)
  {
    assert Reachable(g, start, h.name);
  }

  method PushDeps(g: Graph, ghost start: Package, stack: seq<Hit>, top: Hit) returns (r: seq<Hit>)
    requires StackOk(g, start, stack) && Entry(g, start, top) && top.name in g
    ensures StackOk(g, start, r)
    ensures Pending(r) == Pending(stack) + Deps(g, top.name)
  {
    r := stack;
    var deps := g[top.name].deps;
    for k := 0 to |deps|
      invariant StackOk(g, start, r)
      invariant Pending(r) == Pending(stack) + (set d | d in deps[..k])
    {
      PathGrows(g, start, top, deps[k]);
      PendingPush(r, Hit(deps[k], top.path + [deps[k]]));
      r := r + [Hit(deps[k], top.path + [deps[k]])];
      assert deps[..k + 1] == deps[..k] + [deps[k]];
    }
    assert deps[..|deps|] == deps;
  }

  ghost function Deps(g: Graph, n: string): set<string> { if n in g then (set d | d in g[n].deps) else {} }

  /** Popping `t` keeps the walk explored: it was seen already, or it is seen now and its dependencies wait. */
  lemma ExploredPop(g: Graph, start: Package, seen: set<string>, waiting: set<string>, t: string)
    requires Explored(g, start, seen, waiting + {t})
    ensures t in seen ==> Explored(g, start, seen, waiting)
    ensures !IsAgpl(g, t) ==> Explored(g, start, seen + {t}, waiting + Deps(g, t))
  {
  }

  function FirstHits(start: Package): seq<Hit> {
    seq(|start.deps|, i requires 0 <= i < |start.deps| => Hit(start.deps[i], [start.name, start.deps[i]]))
  }

  /** What holds between two turns of the search. */
  ghost predicate Walk(g: Graph, start: Package, stack: seq<Hit>, seen: set<string>) {
    StackOk(g, start, stack) && seen <= Names(g, start) && Explored(g, start, seen, Pending(stack))
  }

  lemma WalkStarts(g: Graph, start: Package)
    ensures Walk(g, start, FirstHits(start), {})
  {
    var stack := FirstHits(start);
    forall d | d in start.deps ensures d in Pending(stack) {
      var i :| 0 <= i < |stack| && start.deps[i] == d;
      assert stack[i].name == d;
    }
  }

  lemma WalkPops(g: Graph, start: Package, stack: seq<Hit>, top: Hit, seen: set<string>)
    requires Walk(g, start, stack + [top], seen)
    ensures StackOk(g, start, stack) && Entry(g, start, top)
    ensures top.name in seen || (top.name !in g) ==> Walk(g, start, stack, seen + {top.name})
  {
    assert forall i :: 0 <= i < |stack| ==> (stack + [top])[i] == stack[i];
    assert (stack + [top])[|stack|] == top;
    PendingPush(stack, top);
    ExploredPop(g, start, seen, Pending(stack), top.name);
    if top.name in seen {
      assert seen + {top.name} == seen;
    } else if top.name !in g {
      assert Pending(stack) + Deps(g, top.name) == Pending(stack);
    }
  }

  lemma WalkVisits(g: Graph, start: Package, stack: seq<Hit>, top: Hit, seen: set<string>, pushed: seq<Hit>)
    requires Walk(g, start, stack + [top], seen) && !IsAgpl(g, top.name)
    requires StackOk(g, start, pushed) && Pending(pushed) == Pending(stack) + Deps(g, top.name)
    ensures Walk(g, start, pushed, seen + {top.name})
  {
    assert (stack + [top])[|stack|] == top;
    PendingPush(stack, top);
    ExploredPop(g, start, seen, Pending(stack), top.name);
  }

  lemma WalkShrinks(g: Graph, start: Package, stack: seq<Hit>, top: Hit, seen: set<string>)
    requires Walk(g, start, stack + [top], seen) && top.name !in seen
    ensures |Names(g, start) - (seen + {top.name})| < |Names(g, start) - seen|
  {
    assert (stack + [top])[|stack|] == top;
    Shrinks(Names(g, start) - (seen + {top.name}), Names(g, start) - seen);
  }

  lemma WalkEnds(g: Graph, start: Package, seen: set<string>)
    requires Walk(g, start, [], seen)
    ensures Clean(g, start)
  {
    assert Pending([]) == {};
    NothingFound(g, start, seen);
  }

  /** `None` exactly when no AGPL package is reachable; otherwise a real dependency path that ends at one. */
  method Reaches(g: Graph, start: Package) returns (r: Option<Hit>)
    ensures r.None? <==> Clean(g, start)
    ensures r.Some? ==> IsAgpl(g, r.value.name) && Entry(g, start, r.value)
  {
    var seen: set<string> := {};
    var stack := FirstHits(start);
    WalkStarts(g, start);
    hide FirstHits, Walk, StackOk, Entry, Clean, Names, Pending, Deps;
    while |stack| > 0
      invariant Walk(g, start, stack, seen)
      decreases |Names(g, start) - seen|, |stack|
    {
      var top := stack[|stack| - 1];
      assert stack == stack[..|stack| - 1] + [top];
      stack := stack[..|stack| - 1];
      WalkPops(g, start, stack, top, seen);
      if top.name in seen {
        assert seen + {top.name} == seen;
        continue;
      }
      WalkShrinks(g, start, stack, top, seen);
      ghost var was := seen;
      seen := seen + {top.name};
      if top.name !in g {
        continue;
      }
      if g[top.name].license == Agpl {
        HitIsReachable(g, start, top);
        return Some(top);
      }
      ghost var rest := stack;
      stack := PushDeps(g, start, stack, top);
      WalkVisits(g, start, rest, top, was, stack);
    }
    WalkEnds(g, start, seen);
    r := None;
  }

  lemma Shrinks(a: set<string>, b: set<string>)
    requires a < b
    ensures |a| < |b|
  {
    var rest := b - a;
    assert b == a + rest && a !! rest && rest != {};
  }

  lemma PathGrows(g: Graph, start: Package, h: Hit, d: string)
    requires Entry(g, start, h) && Edge(g, h.name, d)
    ensures Entry(g, start, Hit(d, h.path + [d])) && d in Names(g, start)
  {
    var p := h.path + [d];
    forall i | 1 <= i < |p| - 1 ensures Edge(g, p[i], p[i + 1]) {
      if i < |h.path| - 1 { assert Edge(g, h.path[i], h.path[i + 1]); }
    }
  }

  // ---------------------------------------------------------------- the guard

  /** The names of the first `k` manifests. */
  function Named(manifests: seq<Package>, k: nat): set<string>
    requires k <= |manifests|
  {
    set i | 0 <= i < k :: manifests[i].name
  }

  /** The names of the workspace: a dependency is kept when it is one of them. */
  function Workspace(manifests: seq<Package>): set<string> { Named(manifests, |manifests|) }

  function Kept(deps: seq<string>, names: set<string>): seq<string> {
    if deps == [] then []
    else (if deps[0] in names then [deps[0]] else []) + Kept(deps[1..], names)
  }

  lemma {:induction false} KeptExactly(deps: seq<string>, names: set<string>, d: string)
    ensures d in Kept(deps, names) <==> d in deps && d in names
  {
    if deps != [] { KeptExactly(deps[1..], names, d); }
  }

  /** The last of the first `k` manifests with its name. */
  predicate Last(manifests: seq<Package>, k: nat, i: int)
    requires k <= |manifests|
  {
    0 <= i < k && forall j :: i < j < k ==> manifests[j].name != manifests[i].name
  }

  /** The graph of the first `k` manifests: a later one of the same name wins. */
  ghost predicate Built(manifests: seq<Package>, k: nat, g: Graph)
    requires k <= |manifests|
  {
    && (forall n :: n in g <==> exists i :: 0 <= i < k && manifests[i].name == n)
    && forall i :: Last(manifests, k, i) ==>
         manifests[i].name in g && Stands(manifests, manifests[i], g[manifests[i].name])
  }

  /** The package is the manifest's: its name, its license, and of its dependencies those that some manifest is
      called. */
  ghost predicate Stands(manifests: seq<Package>, m: Package, p: Package) {
    && p.name == m.name && p.license == m.license
    && forall d :: d in p.deps <==> d in m.deps && exists j :: 0 <= j < |manifests| && manifests[j].name == d
  }

  lemma NodeStands(manifests: seq<Package>, m: Package)
    ensures Stands(manifests, m, Node(manifests, m))
  {
    forall d ensures d in Node(manifests, m).deps <==> d in m.deps && d in Workspace(manifests) {
      KeptExactly(m.deps, Workspace(manifests), d);
    }
  }

  function Node(manifests: seq<Package>, m: Package): Package { m.(deps := Kept(m.deps, Workspace(manifests))) }

  lemma LastBefore(manifests: seq<Package>, k: nat, i: int)
    requires k < |manifests| && Last(manifests, k + 1, i)
    ensures 0 <= i <= k && (i < k ==> Last(manifests, k, i) && manifests[i].name != manifests[k].name)
  {
  }

  lemma BuiltNext(manifests: seq<Package>, k: nat, g: Graph)
    requires k < |manifests| && Built(manifests, k, g)
    ensures Built(manifests, k + 1, g[manifests[k].name := Node(manifests, manifests[k])])
  {
    NodeStands(manifests, manifests[k]);
    hide Node, Last, Stands;
    var after := g[manifests[k].name := Node(manifests, manifests[k])];
    forall i | Last(manifests, k + 1, i)
      ensures 0 <= i <= k && manifests[i].name in after
      ensures Stands(manifests, manifests[i], after[manifests[i].name])
    {
      LastBefore(manifests, k, i);
    }
    forall n ensures n in after <==> exists i :: 0 <= i < k + 1 && manifests[i].name == n {
      if n in g { var i :| 0 <= i < k && manifests[i].name == n; }
      assert n == manifests[k].name ==> exists i :: 0 <= i < k + 1 && manifests[i].name == n;
    }
  }

  method Build(manifests: seq<Package>) returns (g: Graph)
    ensures Built(manifests, |manifests|, g)
  {
    g := map[];
    assert Built(manifests, 0, g);
    hide Built, Node;
    for k := 0 to |manifests|
      invariant Built(manifests, k, g)
    {
      BuiltNext(manifests, k, g);
      g := g[manifests[k].name := Node(manifests, manifests[k])];
    }
  }

  ghost predicate Violates(g: Graph, n: string) {
    n in g && g[n].license == MitCompatible && !Clean(g, g[n])
  }

  /** The guard passes exactly when no MIT-compatible package of the workspace reaches an AGPL one, and it
      reports every package that does. */
  method Check(manifests: seq<Package>) returns (violations: set<string>, g: Graph)
    ensures Built(manifests, |manifests|, g)
    ensures forall n :: n in violations <==> Violates(g, n)
  {
    g := Build(manifests);
    violations := {};
    var left := g.Keys;
    while left != {}
      invariant left <= g.Keys
      invariant forall n :: n in violations <==> n in g.Keys - left && Violates(g, n)
      decreases |left|
    {
      var n :| n in left;
      left := left - {n};
      if g[n].license == MitCompatible {
        var hit := Reaches(g, g[n]);
        if hit.Some? { violations := violations + {n}; }
      }
    }
  }
}
