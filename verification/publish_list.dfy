/**
 The guard over the release workflow's publish list: the list must be the root crate's whole
 publishable dependency closure, each crate once, after the crates it depends on.
 */
module PublishList {

  type Crate = string

  datatype Kind = Normal | Build | Dev
  datatype Dependency = Dependency(name: Crate, kind: Kind, req: string)

  /** `noRegistry`: the manifest says `publish = []`. */
  datatype Package = Package(noRegistry: bool, dependencies: seq<Dependency>)

  type Metadata = map<Crate, Package>
  type Graph = map<Crate, set<Crate>>

  /** A development dependency gates a release only when it carries a version. */
  predicate Gates(d: Dependency) {
    d.kind != Dev || d.req != "*"
  }

  function GatingDeps(pkgs: Metadata, c: Crate): set<Crate>
    requires c in pkgs
  {
    set i | 0 <= i < |pkgs[c].dependencies| && pkgs[c].dependencies[i].name in pkgs && Gates(pkgs[c].dependencies[i])
      :: pkgs[c].dependencies[i].name
  }

  function DependencyGraph(pkgs: Metadata): Graph {
    map c | c in pkgs :: GatingDeps(pkgs, c)
  }

  /** The dependencies of one crate that gate its release, listed one by one. */
  method CollectDeps(pkgs: Metadata, c: Crate) returns (deps: set<Crate>)
    requires c in pkgs
    ensures deps == GatingDeps(pkgs, c)
  {
    deps := {};
    var listed := pkgs[c].dependencies;
    for i := 0 to |listed|
      invariant deps == set j | 0 <= j < i && listed[j].name in pkgs && Gates(listed[j]) :: listed[j].name
    {
      var d := listed[i];
      if d.name !in pkgs { continue; }
      if d.kind == Normal || d.kind == Build || (d.kind == Dev && d.req != "*") {
        deps := deps + {d.name};
      }
    }
  }

  method BuildGraph(pkgs: Metadata) returns (g: Graph)
    ensures g == DependencyGraph(pkgs)
  {
    g := map[];
    var rest := pkgs.Keys;
    while rest != {}
      invariant rest <= pkgs.Keys && g.Keys == pkgs.Keys - rest
      invariant forall c :: c in g ==> g[c] == GatingDeps(pkgs, c)
      decreases |rest|
    {
      var c :| c in rest;
      var deps := CollectDeps(pkgs, c);
      g := g[c := deps];
      rest := rest - {c};
    }
  }

  function Deps(g: Graph, c: Crate): set<Crate> {
    if c in g then g[c] else {}
  }

  // ---- the closure

  /** Each crate of the path depends on the next. */
  ghost predicate Path(g: Graph, p: seq<Crate>) {
    p != [] && forall i {:trigger p[i]} :: 0 <= i < |p| - 1 ==> p[i + 1] in Deps(g, p[i])
  }

  ghost predicate Reaches(g: Graph, a: Crate, b: Crate) {
    exists p :: Path(g, p) && p[0] == a && p[|p| - 1] == b
  }

  lemma ReachesSelf(g: Graph, a: Crate)
    ensures Reaches(g, a, a)
  {
    assert Path(g, [a]) && [a][0] == a;
  }

  lemma ReachesMore(g: Graph, a: Crate, b: Crate, c: Crate)
    requires Reaches(g, a, b) && c in Deps(g, b)
    ensures Reaches(g, a, c)
  {
    var p :| Path(g, p) && p[0] == a && p[|p| - 1] == b;
    var q := p + [c];
    forall i {:trigger q[i]} | 0 <= i < |q| - 1 ensures q[i + 1] in Deps(g, q[i]) {
      if i < |p| - 1 { assert p[i + 1] in Deps(g, p[i]); }
    }
    assert Path(g, q) && q[0] == a && q[|q| - 1] == c;
  }

  /** A set that holds a crate and the dependencies of its members holds all it reaches. */
  lemma {:induction false} ClosedHoldsPath(g: Graph, s: set<Crate>, p: seq<Crate>, k: nat)
    requires forall c, d :: c in s && d in Deps(g, c) ==> d in s
    requires Path(g, p) && k < |p| && p[0] in s
    ensures p[k] in s
  {
    if k > 0 {
      ClosedHoldsPath(g, s, p, k - 1);
      assert p[k - 1 + 1] in Deps(g, p[k - 1]);
    }
  }

  /** A set's members in some order. */
  method Listing(s: set<Crate>) returns (l: seq<Crate>)
    ensures forall c :: c in l <==> c in s
  {
    l := [];
    var rest := s;
    while rest != {}
      invariant rest <= s
      invariant forall c :: c in s <==> c in l || c in rest
      decreases |rest|
    {
      var c :| c in rest;
      rest := rest - {c};
      l := l + [c];
    }
  }

  /** What the work list still owes: the root, and every dependency of a crate already seen. */
  ghost predicate Pending(g: Graph, root: Crate, seen: set<Crate>, stack: seq<Crate>) {
    && (root in seen || root in stack)
    && (forall c, d :: c in seen && d in Deps(g, c) ==> d in seen || d in stack)
  }

  ghost predicate AllReached(g: Graph, root: Crate, seen: set<Crate>, stack: seq<Crate>) {
    && (forall c :: c in seen ==> Reaches(g, root, c))
    && (forall c :: c in stack ==> Reaches(g, root, c))
  }

  lemma PendingPop(g: Graph, root: Crate, seen: set<Crate>, stack: seq<Crate>, more: seq<Crate>)
    requires stack != [] && Pending(g, root, seen, stack)
    requires forall d :: d in more <==> d in Deps(g, stack[|stack| - 1])
    ensures Pending(g, root, seen + {stack[|stack| - 1]}, stack[..|stack| - 1] + more)
    ensures stack[|stack| - 1] in seen ==> Pending(g, root, seen, stack[..|stack| - 1])
  {
    var c, rest := stack[|stack| - 1], stack[..|stack| - 1];
    assert stack == rest + [c];
  }

  lemma ReachedPush(g: Graph, root: Crate, seen: set<Crate>, stack: seq<Crate>, c: Crate, more: seq<Crate>)
    requires AllReached(g, root, seen, stack) && Reaches(g, root, c)
    requires forall d :: d in more <==> d in Deps(g, c)
    ensures AllReached(g, root, seen + {c}, stack + more)
  {
    forall d | d in more ensures Reaches(g, root, d) { ReachesMore(g, root, c, d); }
  }

  lemma {:induction false} SubsetSize(a: set<Crate>, b: set<Crate>)
    requires a < b
    ensures |a| < |b|
  {
    var x :| x in b && x !in a;
    if a != {} {
      var y :| y in a;
      SubsetSize(a - {y}, b - {y});
    }
  }

  /** The loop's invariant: everything seen or stacked is reached, and nothing owed is forgotten. */
  ghost predicate Working(g: Graph, root: Crate, all: set<Crate>, seen: set<Crate>, stack: seq<Crate>) {
    && seen <= all && (forall c :: c in stack ==> c in all)
    && Pending(g, root, seen, stack) && AllReached(g, root, seen, stack)
  }

  lemma WorkingPop(g: Graph, root: Crate, all: set<Crate>, seen: set<Crate>, stack: seq<Crate>, more: seq<Crate>)
    requires Working(g, root, all, seen, stack) && stack != []
    requires forall d :: d in more <==> d in Deps(g, stack[|stack| - 1])
    requires forall c, d :: d in Deps(g, c) ==> d in all
    ensures var c, rest := stack[|stack| - 1], stack[..|stack| - 1];
      && c in all && (c in seen ==> Working(g, root, all, seen, rest))
      && Working(g, root, all, seen + {c}, rest + more)
  {
    var c, rest := stack[|stack| - 1], stack[..|stack| - 1];
    assert c in stack;
    PendingPop(g, root, seen, stack, more);
    ReachedPush(g, root, seen, rest, c, more);
  }

  lemma SeenGrows(all: set<Crate>, seen: set<Crate>, c: Crate)
    requires c in all && c !in seen
    ensures |all - (seen + {c})| < |all - seen|
  {
    assert c in all - seen;
    SubsetSize(all - (seen + {c}), all - seen);
  }

  lemma Finished(g: Graph, root: Crate, all: set<Crate>, seen: set<Crate>)
    requires Working(g, root, all, seen, [])
    ensures forall c :: c in seen <==> Reaches(g, root, c)
  {
    forall c | Reaches(g, root, c) ensures c in seen {
      var p :| Path(g, p) && p[0] == root && p[|p| - 1] == c;
      ClosedHoldsPath(g, seen, p, |p| - 1);
    }
  }

  /** The work list finds exactly what the root reaches. */
  method Seen(g: Graph, root: Crate) returns (seen: set<Crate>)
    requires forall c, d :: c in g && d in g[c] ==> d in g
    ensures forall c :: c in seen <==> Reaches(g, root, c)
  {
    seen := {};
    var stack := [root];
    ghost var all := g.Keys + {root};
    ReachesSelf(g, root);
    while stack != []
      invariant Working(g, root, all, seen, stack)
      decreases |all - seen|, |stack|
    {
      var c := stack[|stack| - 1];
      var more := Listing(Deps(g, c));
      WorkingPop(g, root, all, seen, stack, more);
      stack := stack[..|stack| - 1];
      if c !in seen {
        SeenGrows(all, seen, c);
        seen := seen + {c};
        stack := stack + more;
      }
    }
    Finished(g, root, all, seen);
  }

  ghost predicate InClosure(pkgs: Metadata, root: Crate, c: Crate) {
    Reaches(DependencyGraph(pkgs), root, c) && !(c in pkgs && pkgs[c].noRegistry)
  }

  /** The publishable closure: everything reached, the unpublished crates left out at the end only. */
  method PublishableClosure(pkgs: Metadata, root: Crate) returns (closure: set<Crate>, graph: Graph)
    ensures graph == DependencyGraph(pkgs)
    ensures forall c :: c in closure <==> InClosure(pkgs, root, c)
  {
    graph := BuildGraph(pkgs);
    var seen := Seen(graph, root);
    closure := set c | c in seen && !(c in pkgs && pkgs[c].noRegistry);
  }

  // ---- the check

  ghost predicate NoDuplicates(l: seq<Crate>) {
    forall i, j :: 0 <= i < j < |l| ==> l[i] != l[j]
  }

  function Members(l: seq<Crate>): set<Crate> { set c | c in l }

  /** A listing of the closure, each crate once, none before a crate it depends on. */
  ghost predicate InOrder(l: seq<Crate>, closure: set<Crate>, g: Graph) {
    && NoDuplicates(l) && Members(l) == closure
    && forall i, j :: 0 <= i < j < |l| ==> l[j] !in Deps(g, l[i])
  }

  lemma {:induction false} DistinctCount(l: seq<Crate>)
    ensures |Members(l)| <= |l|
    ensures |Members(l)| == |l| <==> NoDuplicates(l)
  {
    if l != [] {
      var front, c := l[..|l| - 1], l[|l| - 1];
      DistinctCount(front);
      assert Members(l) == Members(front) + {c};
      if c in front {
        assert Members(l) == Members(front);
        var i :| 0 <= i < |front| && front[i] == c;
        assert l[i] == l[|l| - 1];
      } else {
        assert NoDuplicates(front) ==> NoDuplicates(l);
        assert NoDuplicates(l) ==> NoDuplicates(front) by {
          forall i, j | NoDuplicates(l) && 0 <= i < j < |front| ensures front[i] != front[j] {
            assert l[i] == front[i] && l[j] == front[j];
          }
        }
      }
    }
  }

  /** The last position of each listed crate. */
  method Positions(l: seq<Crate>) returns (pos: map<Crate, nat>)
    ensures forall c :: c in pos <==> c in l
    ensures forall c :: c in pos ==> pos[c] < |l| && l[pos[c]] == c && c !in l[pos[c] + 1..]
  {
    pos := map[];
    for i := 0 to |l|
      invariant forall c :: c in pos <==> c in l[..i]
      invariant forall c :: c in pos ==> pos[c] < i && l[pos[c]] == c && c !in l[pos[c] + 1..i]
    {
      assert l[..i + 1] == l[..i] + [l[i]];
      forall c | c in pos && c != l[i] ensures c !in l[pos[c] + 1..i + 1] {
        assert l[pos[c] + 1..i + 1] == l[pos[c] + 1..i] + [l[i]];
      }
      pos := pos[l[i] := i];
    }
    assert l[..|l|] == l;
  }

  ghost predicate Misplaced(closure: set<Crate>, g: Graph, pos: map<Crate, nat>, c: Crate, d: Crate) {
    c in pos && d in Deps(g, c) && d in closure && d in pos && pos[d] > pos[c]
  }

  method CheckDeps(deps: seq<Crate>, closure: set<Crate>, pos: map<Crate, nat>, c: Crate) returns (ok: bool)
    requires c in pos
    ensures ok <==> forall d :: d in deps && d in closure && d in pos ==> pos[d] <= pos[c]
  {
    ok := true;
    for k := 0 to |deps|
      invariant ok <==> forall d :: d in deps[..k] && d in closure && d in pos ==> pos[d] <= pos[c]
    {
      assert deps[..k + 1] == deps[..k] + [deps[k]];
      if deps[k] in closure && deps[k] in pos && pos[deps[k]] > pos[c] { ok := false; }
    }
    assert deps[..|deps|] == deps;
  }

  method CheckOrder(l: seq<Crate>, closure: set<Crate>, g: Graph, pos: map<Crate, nat>) returns (ok: bool)
    requires forall c :: c in pos <==> c in l
    ensures ok <==> forall c, d :: !Misplaced(closure, g, pos, c, d)
  {
    ok := true;
    for k := 0 to |l|
      invariant ok <==> forall c, d :: c in l[..k] ==> !Misplaced(closure, g, pos, c, d)
    {
      assert l[..k + 1] == l[..k] + [l[k]];
      var deps := Listing(Deps(g, l[k]));
      var good := CheckDeps(deps, closure, pos, l[k]);
      assert l[k] in l;
      assert forall d :: Misplaced(closure, g, pos, l[k], d) <==> d in deps && d in closure && d in pos && pos[d] > pos[l[k]];
      if !good { ok := false; }
    }
    assert l[..|l|] == l;
  }

  lemma OrderByPositions(l: seq<Crate>, closure: set<Crate>, g: Graph, pos: map<Crate, nat>)
    requires NoDuplicates(l) && Members(l) == closure
    requires forall c :: c in pos <==> c in l
    requires forall c :: c in pos ==> pos[c] < |l| && l[pos[c]] == c
    ensures InOrder(l, closure, g) <==> forall c, d :: !Misplaced(closure, g, pos, c, d)
  {
    forall i | 0 <= i < |l| ensures l[i] in pos && pos[l[i]] == i && l[i] in closure {
      assert l[i] in Members(l);
    }
    if forall c, d :: !Misplaced(closure, g, pos, c, d) {
      forall i, j | 0 <= i < j < |l| ensures l[j] !in Deps(g, l[i]) {
        assert !Misplaced(closure, g, pos, l[i], l[j]);
      }
    }
  }

  /** The guard passes exactly the duplicate-free listings of the closure in dependency order. */
  method Check(pkgs: Metadata, root: Crate, listed: seq<Crate>) returns (ok: bool, closure: set<Crate>)
    ensures forall c :: c in closure <==> InClosure(pkgs, root, c)
    ensures ok <==> InOrder(listed, closure, DependencyGraph(pkgs))
  {
    var graph;
    closure, graph := PublishableClosure(pkgs, root);
    var listedSet := Members(listed);
    ok := true;
    if closure - listedSet != {} { ok := false; }
    if listedSet - closure != {} { ok := false; }
    DistinctCount(listed);
    if |listed| != |listedSet| { ok := false; }
    assert ok <==> listedSet == closure && NoDuplicates(listed);
    var pos := Positions(listed);
    var ordered := CheckOrder(listed, closure, graph, pos);
    if !ordered { ok := false; }
    if NoDuplicates(listed) && listedSet == closure {
      OrderByPositions(listed, closure, graph, pos);
    }
  }

  // ---- what an accepted list guarantees

  /** Publishing one crate after another: each finds the crates it depends on in the index. */
  ghost predicate Publishes(l: seq<Crate>, g: Graph, index: set<Crate>) {
    l == [] ||
    ((forall d :: d in Deps(g, l[0]) && d != l[0] ==> d in index) && Publishes(l[1..], g, index + {l[0]}))
  }

  /** Dependencies that gate the release but are never published themselves. */
  ghost predicate Blocked(closure: set<Crate>, g: Graph) {
    exists c, d :: c in closure && d in Deps(g, c) && d != c && d !in closure
  }

  lemma {:induction false} PublishesFrom(l: seq<Crate>, closure: set<Crate>, g: Graph, k: nat)
    requires InOrder(l, closure, g) && k <= |l|
    ensures Publishes(l[k..], g, Members(l[..k]))
      <==> forall i, d :: k <= i < |l| && d in Deps(g, l[i]) && d != l[i] ==> d in closure
    decreases |l| - k
  {
    if k < |l| {
      PublishesFrom(l, closure, g, k + 1);
      var rest := l[k..];
      assert rest[0] == l[k] && rest[1..] == l[k + 1..];
      assert Members(l[..k]) + {l[k]} == Members(l[..k + 1]);
      EarlierExactly(l, closure, g, k);
    }
  }

  lemma EarlierExactly(l: seq<Crate>, closure: set<Crate>, g: Graph, k: nat)
    requires InOrder(l, closure, g) && k < |l|
    ensures forall d :: d in Deps(g, l[k]) && d != l[k] ==> (d in closure <==> d in Members(l[..k]))
  {
    forall d | d in Deps(g, l[k]) && d != l[k] ensures d in closure <==> d in Members(l[..k]) {
      if d in closure {
        assert d in Members(l);
        var j :| 0 <= j < |l| && l[j] == d;
        assert j < k;
        assert l[..k][j] == d;
      }
      if d in Members(l[..k]) {
        var j :| 0 <= j < k && l[..k][j] == d;
        assert l[j] == d && d in Members(l);
      }
    }
  }

  /**
   An accepted list publishes to the end, every dependency found in the index, exactly when no
   publishable crate depends on an unpublished one; the guard does not look at such edges.
   */
  lemma AcceptedListPublishes(l: seq<Crate>, closure: set<Crate>, g: Graph)
    requires InOrder(l, closure, g)
    ensures Publishes(l, g, {}) <==> !Blocked(closure, g)
  {
    PublishesFrom(l, closure, g, 0);
    assert l[0..] == l && Members(l[..0]) == {};
    if Publishes(l, g, {}) {
      forall c, d | c in closure && d in Deps(g, c) && d != c ensures d in closure {
        assert c in Members(l);
        var i :| 0 <= i < |l| && l[i] == c;
      }
    } else {
      var i, d :| 0 <= i < |l| && d in Deps(g, l[i]) && d != l[i] && d !in closure;
      assert l[i] in Members(l);
    }
  }

  /** A crate that depends on one declared `publish = []`. */
  const BLOCKED: Metadata := map[
    "app" := Package(false, [Dependency("tool", Normal, "^1")]),
    "tool" := Package(true, [])]

  lemma BlockedReaches(c: Crate)
    ensures InClosure(BLOCKED, "app", c) <==> c == "app"
  {
    var g := DependencyGraph(BLOCKED);
    ReachesSelf(g, "app");
    if InClosure(BLOCKED, "app", c) {
      var p :| Path(g, p) && p[0] == "app" && p[|p| - 1] == c;
      ClosedHoldsPath(g, {"app", "tool"}, p, |p| - 1);
    }
  }

  /** The guard accepts its list, and publishing stops at the first crate. */
  method AcceptsBlockedList() returns (ok: bool)
    ensures ok && !Publishes(["app"], DependencyGraph(BLOCKED), {})
  {
    var g := DependencyGraph(BLOCKED);
    var closure;
    ok, closure := Check(BLOCKED, "app", ["app"]);
    forall c ensures c in closure <==> c == "app" { BlockedReaches(c); }
    assert closure == {"app"} == Members(["app"]);
    assert BLOCKED["app"].dependencies[0].name == "tool";
    assert "tool" in Deps(g, "app") && "app" !in Deps(g, "app");
    assert ["app"][0] == "app";
  }

  // ---- when a list can be accepted at all

  ghost predicate Edge(closure: set<Crate>, g: Graph, a: Crate, b: Crate) {
    a in closure && b in closure && a != b && b in Deps(g, a)
  }

  ghost predicate EdgeAt(closure: set<Crate>, g: Graph, p: seq<Crate>, i: int) {
    0 <= i < |p| - 1 ==> Edge(closure, g, p[i], p[i + 1])
  }

  ghost predicate Walk(closure: set<Crate>, g: Graph, p: seq<Crate>) {
    forall i :: EdgeAt(closure, g, p, i)
  }

  /** A dependency cycle through at least two crates of the closure. */
  ghost predicate Cycle(closure: set<Crate>, g: Graph, p: seq<Crate>) {
    |p| >= 2 && Walk(closure, g, p) && p[0] == p[|p| - 1]
  }

  ghost predicate Acyclic(closure: set<Crate>, g: Graph) {
    forall p :: !Cycle(closure, g, p)
  }

  /** Along a walk the positions in the list go down. */
  lemma {:induction false} WalkGoesBack(l: seq<Crate>, closure: set<Crate>, g: Graph, p: seq<Crate>, k: nat, i: nat, j: nat)
    requires InOrder(l, closure, g) && Walk(closure, g, p) && 0 < k < |p|
    requires i < |l| && j < |l| && l[i] == p[0] && l[j] == p[k]
    ensures j < i
  {
    assert EdgeAt(closure, g, p, k - 1);
    if k == 1 {
      assert l[j] in Deps(g, l[i]);
    } else {
      assert p[k - 1] in Members(l);
      var m :| 0 <= m < |l| && l[m] == p[k - 1];
      WalkGoesBack(l, closure, g, p, k - 1, i, m);
      assert l[j] in Deps(g, l[m]);
    }
  }

  lemma AcceptedIsAcyclic(l: seq<Crate>, closure: set<Crate>, g: Graph)
    requires InOrder(l, closure, g)
    ensures Acyclic(closure, g)
  {
    forall p ensures !Cycle(closure, g, p) {
      if Cycle(closure, g, p) {
        assert EdgeAt(closure, g, p, 0);
        assert p[0] in Members(l);
        var i :| 0 <= i < |l| && l[i] == p[0];
        WalkGoesBack(l, closure, g, p, |p| - 1, i, i);
      }
    }
  }

  /** All dependencies inside the closure, other than itself, are already listed. */
  ghost predicate Ready(closure: set<Crate>, g: Graph, listed: set<Crate>, c: Crate) {
    c in closure && c !in listed && forall d :: Edge(closure, g, c, d) ==> d in listed
  }

  /** If nothing is ready, one can walk for ever among the crates not listed. */
  lemma {:induction false} EndlessWalk(closure: set<Crate>, g: Graph, listed: set<Crate>, c: Crate, n: nat) returns (p: seq<Crate>)
    requires forall x :: !Ready(closure, g, listed, x)
    requires c in closure - listed
    ensures |p| == n + 1 && p[0] == c && Walk(closure, g, p)
    ensures forall i :: 0 <= i < |p| ==> p[i] in closure
    decreases n
  {
    if n == 0 {
      p := [c];
    } else {
      assert !Ready(closure, g, listed, c);
      var d :| Edge(closure, g, c, d) && d !in listed;
      var q := EndlessWalk(closure, g, listed, d, n - 1);
      p := [c] + q;
      forall i ensures EdgeAt(closure, g, p, i) {
        assert EdgeAt(closure, g, q, i - 1);
      }
    }
  }

  lemma LongWalkRepeats(closure: set<Crate>, p: seq<Crate>)
    requires |p| > |closure| && forall i :: 0 <= i < |p| ==> p[i] in closure
    ensures !NoDuplicates(p)
  {
    DistinctCount(p);
    assert Members(p) <= closure;
    if Members(p) != closure { SubsetSize(Members(p), closure); }
  }

  lemma SubWalk(closure: set<Crate>, g: Graph, p: seq<Crate>, i: nat, j: nat)
    requires i < j <= |p| && Walk(closure, g, p)
    ensures Walk(closure, g, p[i..j])
  {
    var q := p[i..j];
    forall m ensures EdgeAt(closure, g, q, m) {
      assert EdgeAt(closure, g, p, i + m);
    }
  }

  lemma LongWalkHasCycle(closure: set<Crate>, g: Graph, p: seq<Crate>)
    requires Walk(closure, g, p) && |p| > |closure| && forall i :: 0 <= i < |p| ==> p[i] in closure
    ensures !Acyclic(closure, g)
  {
    LongWalkRepeats(closure, p);
    var i, j :| 0 <= i < j < |p| && p[i] == p[j];
    RepeatIsCycle(closure, g, p, i, j);
  }

  lemma RepeatIsCycle(closure: set<Crate>, g: Graph, p: seq<Crate>, i: nat, j: nat)
    requires Walk(closure, g, p) && i < j < |p| && p[i] == p[j]
    ensures Cycle(closure, g, p[i..j + 1])
  {
    SubWalk(closure, g, p, i, j + 1);
    var q := p[i..j + 1];
    assert q[0] == p[i] && q[|q| - 1] == p[j];
  }

  lemma StuckMeansCycle(closure: set<Crate>, g: Graph, listed: set<Crate>)
    requires closure - listed != {} && forall x :: !Ready(closure, g, listed, x)
    ensures !Acyclic(closure, g)
  {
    var c :| c in closure - listed;
    var p := EndlessWalk(closure, g, listed, c, |closure|);
    LongWalkHasCycle(closure, g, p);
  }

  /** An ordered list of part of the closure, complete downwards. */
  ghost predicate Partial(l: seq<Crate>, closure: set<Crate>, g: Graph) {
    && NoDuplicates(l) && Members(l) <= closure
    && (forall i, j :: 0 <= i < j < |l| ==> l[j] !in Deps(g, l[i]))
    && (forall i, d :: 0 <= i < |l| && Edge(closure, g, l[i], d) ==> d in l)
  }

  lemma PartialMore(l: seq<Crate>, closure: set<Crate>, g: Graph, c: Crate)
    requires Partial(l, closure, g) && Ready(closure, g, Members(l), c)
    ensures Partial(l + [c], closure, g) && Members(l + [c]) == Members(l) + {c}
  {
    var more := l + [c];
    forall i, j | 0 <= i < j < |more| ensures more[j] !in Deps(g, more[i]) && more[i] != more[j] {
      if j < |l| {
        assert more[i] == l[i] && more[j] == l[j];
      } else {
        assert more[i] == l[i] && l[i] in Members(l);
        assert !Edge(closure, g, l[i], c);
      }
    }
    forall i, d | 0 <= i < |more| && Edge(closure, g, more[i], d) ensures d in more {
      if i < |l| { assert more[i] == l[i]; } else { assert d in Members(l); }
    }
  }

  lemma {:induction false} OrderExists(l: seq<Crate>, closure: set<Crate>, g: Graph) returns (full: seq<Crate>)
    requires Partial(l, closure, g) && Acyclic(closure, g)
    ensures InOrder(full, closure, g)
    decreases |closure - Members(l)|
  {
    if closure - Members(l) == {} {
      full := l;
    } else {
      if forall x :: !Ready(closure, g, Members(l), x) { StuckMeansCycle(closure, g, Members(l)); }
      var c :| Ready(closure, g, Members(l), c);
      PartialMore(l, closure, g, c);
      assert c in closure - Members(l);
      SubsetSize(closure - Members(l + [c]), closure - Members(l));
      full := OrderExists(l + [c], closure, g);
    }
  }

  /** Some list is accepted exactly when no dependency cycle joins two crates of the closure. */
  lemma AcceptableExactlyWhenAcyclic(closure: set<Crate>, g: Graph)
    ensures (exists l :: InOrder(l, closure, g)) <==> Acyclic(closure, g)
  {
    if Acyclic(closure, g) {
      var full := OrderExists([], closure, g);
    }
    if exists l :: InOrder(l, closure, g) {
      var l :| InOrder(l, closure, g);
      AcceptedIsAcyclic(l, closure, g);
    }
  }
}
