/**
 The replicated growable array (`uni-crdt/src/rga.rs`). A node hangs under the node it was
 inserted after; the list is the preorder walk of that forest, siblings newest first.
 Proved: the explicit-stack walk terminates on every node map, cycles and orphans included,
 and shows each reachable live node exactly once in one fixed order; merging commutes exactly
 when the replicas agree on shared nodes; and no merge ever reorders elements.
 */
module Rga {
  import opened Basics

  type Id = nat
  type Elem = string

  datatype Node = Node(elem: Elem, origin: Option<Id>, tombstone: bool, timestamp: int)

  type Nodes = map<Id, Node>

  /** Sibling order: newer first, then larger id first. */
  predicate Precedes(nodes: Nodes, x: Id, y: Id)
    requires x in nodes && y in nodes
  {
    nodes[x].timestamp > nodes[y].timestamp || (nodes[x].timestamp == nodes[y].timestamp && x > y)
  }

  predicate IsFirst(nodes: Nodes, ids: set<Id>, m: Id)
    requires ids <= nodes.Keys
  {
    m in ids && forall y :: y in ids && y != m ==> Precedes(nodes, m, y)
  }

  lemma {:induction false} FirstExists(nodes: Nodes, ids: set<Id>)
    requires ids <= nodes.Keys && ids != {}
    ensures exists m :: IsFirst(nodes, ids, m)
  {
    var x :| x in ids;
    if ids == {x} {
      assert IsFirst(nodes, ids, x);
    } else {
      var rest := ids - {x};
      FirstExists(nodes, rest);
      var m :| IsFirst(nodes, rest, m);
      var first := if Precedes(nodes, x, m) then x else m;
      forall y | y in ids && y != first ensures Precedes(nodes, first, y) {
        if y != x && y != m { assert y in rest && Precedes(nodes, m, y); }
      }
      assert IsFirst(nodes, ids, first);
    }
  }

  /** The ids in sibling order. */
  function Sorted(nodes: Nodes, ids: set<Id>): seq<Id>
    requires ids <= nodes.Keys
  {
    if ids == {} then []
    else
      FirstExists(nodes, ids);
      var m :| m in ids && IsFirst(nodes, ids, m);
      [m] + Sorted(nodes, ids - {m})
  }

  lemma {:induction false} SortedIsSorted(nodes: Nodes, ids: set<Id>)
    requires ids <= nodes.Keys
    ensures forall x :: x in Sorted(nodes, ids) <==> x in ids
    ensures forall i, j :: 0 <= i < j < |Sorted(nodes, ids)| ==>
      Sorted(nodes, ids)[i] in nodes && Sorted(nodes, ids)[j] in nodes
      && Precedes(nodes, Sorted(nodes, ids)[i], Sorted(nodes, ids)[j])
  {
    if ids != {} {
      FirstExists(nodes, ids);
      var m :| m in ids && IsFirst(nodes, ids, m);
      var rest := Sorted(nodes, ids - {m});
      SortedIsSorted(nodes, ids - {m});
      assert Sorted(nodes, ids) == [m] + rest;
      forall i, j | 0 <= i < j < |rest| + 1
        ensures ([m] + rest)[i] in nodes && ([m] + rest)[j] in nodes && Precedes(nodes, ([m] + rest)[i], ([m] + rest)[j])
      {
        assert ([m] + rest)[j] == rest[j - 1] && rest[j - 1] in rest;
      }
    }
  }

  // ---- paths from the root

  function ChildSet(nodes: Nodes, parent: Option<Id>): set<Id> {
    set id | id in nodes && nodes[id].origin == parent
  }

  /** Each node on a path hangs under the one before it; the first hangs under the root. */
  predicate IsPath(nodes: Nodes, path: seq<Id>) {
    forall i :: 0 <= i < |path| ==> path[i] in nodes && nodes[path[i]].origin == Above(path, i)
  }

  function Above(path: seq<Id>, i: nat): Option<Id>
    requires i < |path|
  {
    if i == 0 then None else Some(path[i - 1])
  }

  function Tip(path: seq<Id>): Option<Id> { if path == [] then None else Some(path[|path| - 1]) }

  function Kids(nodes: Nodes, parent: Option<Id>): seq<Id> { Sorted(nodes, ChildSet(nodes, parent)) }

  lemma {:induction false} PathIsSimple(nodes: Nodes, path: seq<Id>, i: nat, j: nat)
    requires IsPath(nodes, path) && i < j < |path|
    ensures path[i] != path[j]
    decreases i
  {
    assert nodes[path[j]].origin == Above(path, j) && nodes[path[i]].origin == Above(path, i);
    if i > 0 { PathIsSimple(nodes, path, i - 1, j - 1); }
  }

  lemma {:induction false} SimpleLength(s: seq<Id>, within: set<Id>)
    requires forall i, j :: 0 <= i < j < |s| ==> s[i] != s[j]
    requires forall i :: 0 <= i < |s| ==> s[i] in within
    ensures |s| <= |within|
  {
    if s != [] {
      SimpleLength(s[1..], within - {s[0]});
    }
  }

  lemma PathIsShort(nodes: Nodes, path: seq<Id>)
    requires IsPath(nodes, path)
    ensures |path| <= |nodes|
  {
    forall i, j | 0 <= i < j < |path| ensures path[i] != path[j] { PathIsSimple(nodes, path, i, j); }
    SimpleLength(path, nodes.Keys);
  }

  lemma ChildPath(nodes: Nodes, path: seq<Id>, child: Id)
    requires IsPath(nodes, path)
    ensures child in Kids(nodes, Tip(path)) <==> child in nodes && IsPath(nodes, path + [child])
    ensures child in Kids(nodes, Tip(path)) ==> |path| < |nodes|
  {
    SortedIsSorted(nodes, ChildSet(nodes, Tip(path)));
    var longer := path + [child];
    assert forall i :: 0 <= i < |path| ==> longer[i] == path[i] && Above(longer, i) == Above(path, i);
    assert Above(longer, |path|) == Tip(path);
    if child in Kids(nodes, Tip(path)) { PathIsShort(nodes, longer); }
    if child in nodes && IsPath(nodes, longer) { assert longer[|path|] == child; }
  }

  /** The preorder walk below `path`, from its `idx`-th child on, as the list of paths visited. */
  ghost function Walk(nodes: Nodes, path: seq<Id>, idx: nat): seq<seq<Id>>
    requires IsPath(nodes, path)
    decreases |nodes| - |path|, |Kids(nodes, Tip(path))| - idx
  {
    var kids := Kids(nodes, Tip(path));
    if idx >= |kids| then []
    else
      ChildPath(nodes, path, kids[idx]);
      var c := path + [kids[idx]];
      [c] + Walk(nodes, c, 0) + Walk(nodes, path, idx + 1)
  }

  /** Ancestors come first; otherwise sibling order decides at the first difference. */
  ghost predicate PathBefore(nodes: Nodes, p: seq<Id>, q: seq<Id>)
    requires (forall x :: x in p ==> x in nodes) && (forall x :: x in q ==> x in nodes)
  {
    q != [] && (p == [] || Precedes(nodes, p[0], q[0]) || (p[0] == q[0] && PathBefore(nodes, p[1..], q[1..])))
  }

  // ---- what the walk visits, and in which order

  ghost predicate Below(nodes: Nodes, path: seq<Id>, idx: nat, q: seq<Id>) {
    && IsPath(nodes, q) && |path| < |q| && q[..|path|] == path
    && exists j :: idx <= j < |Kids(nodes, Tip(path))| && Kids(nodes, Tip(path))[j] == q[|path|]
  }

  lemma PrefixIsPath(nodes: Nodes, q: seq<Id>, k: nat)
    requires IsPath(nodes, q) && k <= |q|
    ensures IsPath(nodes, q[..k])
  {
    forall i | 0 <= i < k ensures q[..k][i] in nodes && nodes[q[..k][i]].origin == Above(q[..k], i) {
      assert q[..k][i] == q[i] && Above(q[..k], i) == Above(q, i);
    }
  }

  lemma BelowChild(nodes: Nodes, path: seq<Id>, idx: nat, q: seq<Id>)
    requires IsPath(nodes, path) && idx < |Kids(nodes, Tip(path))|
    requires var c := path + [Kids(nodes, Tip(path))[idx]]; (q == c && IsPath(nodes, c)) || Below(nodes, c, 0, q)
    ensures Below(nodes, path, idx, q) && q[|path|] == Kids(nodes, Tip(path))[idx]
  {
    var c := path + [Kids(nodes, Tip(path))[idx]];
    assert q[..|c|] == c;
    assert q[..|path|] == q[..|c|][..|path|] == path;
    assert q[|path|] == q[..|c|][|path|];
  }

  /** The next step of a path leads to a child of the part before it. */
  lemma NextIsChild(nodes: Nodes, q: seq<Id>, k: nat)
    requires IsPath(nodes, q) && k < |q|
    ensures q[k] in Kids(nodes, Tip(q[..k]))
  {
    PrefixIsPath(nodes, q, k);
    PrefixIsPath(nodes, q, k + 1);
    assert q[..k + 1] == q[..k] + [q[k]];
    ChildPath(nodes, q[..k], q[k]);
  }

  lemma BelowThrough(nodes: Nodes, path: seq<Id>, idx: nat, q: seq<Id>)
    requires IsPath(nodes, path) && idx < |Kids(nodes, Tip(path))|
    requires Below(nodes, path, idx, q) && q[|path|] == Kids(nodes, Tip(path))[idx]
    ensures var c := path + [Kids(nodes, Tip(path))[idx]]; q == c || Below(nodes, c, 0, q)
  {
    var c := path + [Kids(nodes, Tip(path))[idx]];
    assert q[..|c|] == c;
    if |c| < |q| {
      NextIsChild(nodes, q, |c|);
    } else {
      assert q == c;
    }
  }

  /** Below a path from a child on: that child, below it, or below a later child. */
  lemma BelowUnfolds(nodes: Nodes, path: seq<Id>, idx: nat, q: seq<Id>)
    requires IsPath(nodes, path) && idx < |Kids(nodes, Tip(path))|
    ensures var c := path + [Kids(nodes, Tip(path))[idx]];
      IsPath(nodes, c) && (Below(nodes, path, idx, q) <==> q == c || Below(nodes, c, 0, q) || Below(nodes, path, idx + 1, q))
  {
    var kids := Kids(nodes, Tip(path));
    ChildPath(nodes, path, kids[idx]);
    var c := path + [kids[idx]];
    if q == c || Below(nodes, c, 0, q) {
      BelowChild(nodes, path, idx, q);
    } else if Below(nodes, path, idx, q) {
      if q[|path|] == kids[idx] { BelowThrough(nodes, path, idx, q); }
    }
  }

  /** The walk visits exactly the paths that leave `path` through a child it has not passed. */
  lemma {:induction false} WalkVisits(nodes: Nodes, path: seq<Id>, idx: nat, q: seq<Id>)
    requires IsPath(nodes, path)
    ensures q in Walk(nodes, path, idx) <==> Below(nodes, path, idx, q)
    decreases |nodes| - |path|, |Kids(nodes, Tip(path))| - idx
  {
    var kids := Kids(nodes, Tip(path));
    if idx < |kids| {
      ChildPath(nodes, path, kids[idx]);
      WalkVisits(nodes, path + [kids[idx]], 0, q);
      WalkVisits(nodes, path, idx + 1, q);
      WalkUnfolds(nodes, path, idx, q);
      BelowUnfolds(nodes, path, idx, q);
    }
  }

  lemma WalkUnfolds(nodes: Nodes, path: seq<Id>, idx: nat, q: seq<Id>)
    requires IsPath(nodes, path) && idx < |Kids(nodes, Tip(path))|
    ensures var c := path + [Kids(nodes, Tip(path))[idx]];
      && IsPath(nodes, c)
      && (q in Walk(nodes, path, idx) <==> q == c || q in Walk(nodes, c, 0) || q in Walk(nodes, path, idx + 1))
  {
    ChildPath(nodes, path, Kids(nodes, Tip(path))[idx]);
  }

  lemma {:induction false} BeforeAt(nodes: Nodes, p: seq<Id>, q: seq<Id>, k: nat)
    requires (forall x :: x in p ==> x in nodes) && (forall x :: x in q ==> x in nodes)
    requires k < |p| && k < |q| && p[..k] == q[..k] && Precedes(nodes, p[k], q[k])
    ensures PathBefore(nodes, p, q)
  {
    if k > 0 {
      assert p[0] == p[..k][0] == q[0];
      assert p[1..][..k - 1] == p[..k][1..] == q[1..][..k - 1];
      BeforeAt(nodes, p[1..], q[1..], k - 1);
    }
  }

  lemma {:induction false} BeforeDescendant(nodes: Nodes, p: seq<Id>, q: seq<Id>)
    requires (forall x :: x in p ==> x in nodes) && (forall x :: x in q ==> x in nodes)
    requires |p| < |q| && q[..|p|] == p
    ensures PathBefore(nodes, p, q)
  {
    if p != [] {
      assert q[0] == q[..|p|][0];
      assert q[1..][..|p| - 1] == q[..|p|][1..];
      BeforeDescendant(nodes, p[1..], q[1..]);
    }
  }

  ghost predicate InOrder(nodes: Nodes, ps: seq<seq<Id>>) {
    && (forall i :: 0 <= i < |ps| ==> IsPath(nodes, ps[i]))
    && forall i, j :: 0 <= i < j < |ps| ==> Ordered(nodes, ps[i], ps[j])
  }

  ghost predicate Ordered(nodes: Nodes, p: seq<Id>, q: seq<Id>) {
    IsPath(nodes, p) && IsPath(nodes, q) && PathBefore(nodes, p, q)
  }

  lemma OrderedAcross(nodes: Nodes, path: seq<Id>, idx: nat, p: seq<Id>, q: seq<Id>)
    requires IsPath(nodes, path) && idx < |Kids(nodes, Tip(path))|
    requires IsPath(nodes, p) && |path| < |p| && p[..|path|] == path && p[|path|] == Kids(nodes, Tip(path))[idx]
    requires Below(nodes, path, idx + 1, q)
    ensures Ordered(nodes, p, q)
  {
    SortedIsSorted(nodes, ChildSet(nodes, Tip(path)));
    BeforeAt(nodes, p, q, |path|);
  }

  /** A child comes before its whole subtree. */
  lemma ChildFirst(nodes: Nodes, c: seq<Id>)
    requires IsPath(nodes, c) && InOrder(nodes, Walk(nodes, c, 0))
    ensures InOrder(nodes, [c] + Walk(nodes, c, 0))
  {
    var inner := Walk(nodes, c, 0);
    forall i | 0 <= i < |inner| ensures Ordered(nodes, c, inner[i]) {
      WalkVisits(nodes, c, 0, inner[i]);
      BeforeDescendant(nodes, c, inner[i]);
    }
    OrderedConcat(nodes, [c], inner);
  }

  /** A child's subtree comes before its later siblings' subtrees. */
  lemma SubtreeFirst(nodes: Nodes, path: seq<Id>, idx: nat, p: seq<Id>, q: seq<Id>)
    requires IsPath(nodes, path) && idx < |Kids(nodes, Tip(path))|
    requires var c := path + [Kids(nodes, Tip(path))[idx]];
      IsPath(nodes, c) && (p == c || p in Walk(nodes, c, 0))
    requires q in Walk(nodes, path, idx + 1)
    ensures Ordered(nodes, p, q)
  {
    var c := path + [Kids(nodes, Tip(path))[idx]];
    WalkVisits(nodes, c, 0, p);
    WalkVisits(nodes, path, idx + 1, q);
    BelowChild(nodes, path, idx, p);
    OrderedAcross(nodes, path, idx, p, q);
  }

  lemma {:induction false} WalkIsOrdered(nodes: Nodes, path: seq<Id>, idx: nat)
    requires IsPath(nodes, path)
    ensures InOrder(nodes, Walk(nodes, path, idx))
    decreases |nodes| - |path|, |Kids(nodes, Tip(path))| - idx
  {
    var kids := Kids(nodes, Tip(path));
    if idx < |kids| {
      ChildPath(nodes, path, kids[idx]);
      var c := path + [kids[idx]];
      WalkIsOrdered(nodes, c, 0);
      WalkIsOrdered(nodes, path, idx + 1);
      ChildFirst(nodes, c);
      var head, rest := [c] + Walk(nodes, c, 0), Walk(nodes, path, idx + 1);
      forall i, j | 0 <= i < |head| && 0 <= j < |rest| ensures Ordered(nodes, head[i], rest[j]) {
        assert head[i] == c || head[i] in Walk(nodes, c, 0);
        SubtreeFirst(nodes, path, idx, head[i], rest[j]);
      }
      OrderedConcat(nodes, head, rest);
      assert Walk(nodes, path, idx) == head + rest;
    }
  }

  lemma OrderedConcat(nodes: Nodes, ps: seq<seq<Id>>, qs: seq<seq<Id>>)
    requires InOrder(nodes, ps) && InOrder(nodes, qs)
    requires forall i, j :: 0 <= i < |ps| && 0 <= j < |qs| ==> Ordered(nodes, ps[i], qs[j])
    ensures InOrder(nodes, ps + qs)
  {
    var all := ps + qs;
    forall i, j | 0 <= i < j < |all| ensures Ordered(nodes, all[i], all[j]) {
      if i < |ps| <= j { assert Ordered(nodes, ps[i], qs[j - |ps|]); }
      else if |ps| <= i { assert Ordered(nodes, qs[i - |ps|], qs[j - |ps|]); }
    }
  }

  lemma {:induction false} BeforeIsStrict(nodes: Nodes, p: seq<Id>, q: seq<Id>)
    requires (forall x :: x in p ==> x in nodes) && (forall x :: x in q ==> x in nodes)
    requires PathBefore(nodes, p, q)
    ensures !PathBefore(nodes, q, p) && p != q
  {
    if p != [] && p[0] == q[0] { BeforeIsStrict(nodes, p[1..], q[1..]); }
  }

  // ---- the list

  function Last(path: seq<Id>): Id
    requires path != []
  {
    path[|path| - 1]
  }

  /** The elements shown for a list of visited paths: tombstones are skipped. */
  ghost function Shown(nodes: Nodes, ps: seq<seq<Id>>): seq<Elem>
    requires Showable(nodes, ps)
  {
    if ps == [] then []
    else (if nodes[Last(ps[0])].tombstone then [] else [nodes[Last(ps[0])].elem]) + Shown(nodes, ps[1..])
  }

  // ---- the order shown, in the nodes' own fields

  /** The paths part at `k`, where the first goes to the newer sibling, of equally old ones to the larger id. */
  ghost predicate PartAt(nodes: Nodes, p: seq<Id>, q: seq<Id>, k: nat) {
    && k < |p| && k < |q| && p[..k] == q[..k] && p[k] in nodes && q[k] in nodes
    && var m, n := nodes[p[k]], nodes[q[k]];
    && (m.timestamp > n.timestamp || (m.timestamp == n.timestamp && p[k] > q[k]))
  }

  lemma PartLater(nodes: Nodes, p: seq<Id>, q: seq<Id>, k: nat)
    requires p != [] && q != [] && p[0] == q[0]
    ensures PartAt(nodes, p, q, k + 1) <==> PartAt(nodes, p[1..], q[1..], k)
    ensures !PartAt(nodes, p, q, 0)
  {
    if k < |p| - 1 && k < |q| - 1 {
      assert p[..k + 1] == [p[0]] + p[1..][..k] && q[..k + 1] == [q[0]] + q[1..][..k];
      assert p[1..][..k] == p[..k + 1][1..] && q[1..][..k] == q[..k + 1][1..];
    }
  }

  /** A node's children are listed newest first, of equally old ones the larger id first. */
  lemma KidsAreNewestFirst(nodes: Nodes, parent: Option<Id>, i: nat, j: nat)
    requires i < j < |Kids(nodes, parent)|
    ensures var x, y := Kids(nodes, parent)[i], Kids(nodes, parent)[j];
      && x in nodes && y in nodes && nodes[x].origin == parent && nodes[y].origin == parent
      && (nodes[x].timestamp > nodes[y].timestamp || (nodes[x].timestamp == nodes[y].timestamp && x > y))
  {
    SortedIsSorted(nodes, ChildSet(nodes, parent));
    assert Kids(nodes, parent)[i] in Kids(nodes, parent) && Kids(nodes, parent)[j] in Kids(nodes, parent);
  }

  /** Before a path come its ancestors, and where two paths part, the newer sibling's branch. */
  lemma {:induction false} BeforeIs(nodes: Nodes, p: seq<Id>, q: seq<Id>)
    requires (forall x :: x in p ==> x in nodes) && (forall x :: x in q ==> x in nodes)
    ensures PathBefore(nodes, p, q) <==> p < q || exists k: nat :: PartAt(nodes, p, q, k)
  {
    if p != [] && q != [] {
      if p[0] == q[0] {
        BeforeIs(nodes, p[1..], q[1..]);
        assert p == [p[0]] + p[1..] && q == [q[0]] + q[1..];
        if k: nat :| PartAt(nodes, p, q, k) { PartLater(nodes, p, q, if k > 0 then k - 1 else 0); }
        if k: nat :| PartAt(nodes, p[1..], q[1..], k) { PartLater(nodes, p, q, k); }
      } else {
        assert PartAt(nodes, p, q, 0) <==> Precedes(nodes, p[0], q[0]);
        forall k: nat ensures PartAt(nodes, p, q, k) ==> k == 0 {
          if 0 < k <= |p| && k <= |q| { assert p[..k][0] == p[0] && q[..k][0] == q[0]; }
        }
      }
    }
  }

  /** The explicit stack, with the path to each frame's node. */
  datatype Frames = Bottom | On(path: seq<Id>, idx: nat, below: Frames)

  ghost predicate FramesOk(nodes: Nodes, frames: Frames) {
    frames.On? ==> IsPath(nodes, frames.path) && FramesOk(nodes, frames.below)
  }

  /** What the walk still has to visit, top frame first. */
  ghost function Remaining(nodes: Nodes, frames: Frames): seq<seq<Id>>
    requires FramesOk(nodes, frames)
  {
    match frames
    case Bottom => []
    case On(path, idx, below) => Walk(nodes, path, idx) + Remaining(nodes, below)
  }

  /** Every path names a node to show. */
  ghost predicate Showable(nodes: Nodes, ps: seq<seq<Id>>) {
    forall i :: 0 <= i < |ps| ==> ps[i] != [] && Last(ps[i]) in nodes
  }

  lemma {:induction false} RemainingOk(nodes: Nodes, frames: Frames)
    requires FramesOk(nodes, frames)
    ensures Showable(nodes, Remaining(nodes, frames))
  {
    if frames.On? {
      RemainingOk(nodes, frames.below);
      WalkOk(nodes, frames.path, frames.idx);
    }
  }

  lemma WalkOk(nodes: Nodes, path: seq<Id>, idx: nat)
    requires IsPath(nodes, path)
    ensures Showable(nodes, Walk(nodes, path, idx))
  {
    var w := Walk(nodes, path, idx);
    forall i | 0 <= i < |w| ensures w[i] != [] && Last(w[i]) in nodes {
      WalkVisits(nodes, path, idx, w[i]);
    }
  }

  /** Entering a child turns the top frame into two. */
  lemma RemainingStep(nodes: Nodes, path: seq<Id>, idx: nat, below: Frames)
    requires FramesOk(nodes, On(path, idx, below)) && idx < |Kids(nodes, Tip(path))|
    ensures var c := path + [Kids(nodes, Tip(path))[idx]];
      && c[|path|] in nodes && FramesOk(nodes, On(c, 0, On(path, idx + 1, below)))
      && Remaining(nodes, On(path, idx, below)) == [c] + Remaining(nodes, On(c, 0, On(path, idx + 1, below)))
  {
    ChildPath(nodes, path, Kids(nodes, Tip(path))[idx]);
  }

  ghost function Rest(nodes: Nodes, frames: Frames): seq<Elem>
    requires FramesOk(nodes, frames)
  {
    RemainingOk(nodes, frames);
    Shown(nodes, Remaining(nodes, frames))
  }

  lemma RestStep(nodes: Nodes, path: seq<Id>, idx: nat, below: Frames)
    requires FramesOk(nodes, On(path, idx, below)) && idx < |Kids(nodes, Tip(path))|
    ensures var child := Kids(nodes, Tip(path))[idx];
      var next := On(path + [child], 0, On(path, idx + 1, below));
      && child in nodes && FramesOk(nodes, next)
      && Rest(nodes, On(path, idx, below)) == (if nodes[child].tombstone then [] else [nodes[child].elem]) + Rest(nodes, next)
      && |Remaining(nodes, next)| < |Remaining(nodes, On(path, idx, below))|
  {
    RemainingStep(nodes, path, idx, below);
    var c := path + [Kids(nodes, Tip(path))[idx]];
    var next := On(c, 0, On(path, idx + 1, below));
    RemainingOk(nodes, On(path, idx, below));
    assert ([c] + Remaining(nodes, next))[1..] == Remaining(nodes, next);
  }

  lemma RestPop(nodes: Nodes, path: seq<Id>, idx: nat, below: Frames)
    requires FramesOk(nodes, On(path, idx, below)) && idx >= |Kids(nodes, Tip(path))|
    ensures Remaining(nodes, below) == Remaining(nodes, On(path, idx, below))
  {
    assert Walk(nodes, path, idx) == [];
  }

  /** The whole list, root to leaves. */
  ghost function List(nodes: Nodes): seq<seq<Id>> { Walk(nodes, [], 0) }

  ghost function Visible(nodes: Nodes): seq<Elem> { WalkOk(nodes, [], 0); Shown(nodes, List(nodes)) }

  ghost function Tips(frames: Frames): seq<(Option<Id>, nat)> {
    match frames
    case Bottom => []
    case On(path, idx, below) => Tips(below) + [(Tip(path), idx)]
  }

  class Replica {
    var nodes: Nodes

    constructor ()
      ensures nodes == map[]
    {
      nodes := map[];
    }

    method Insert(id: Id, prev: Option<Id>, elem: Elem, timestamp: int)
      modifies this
      ensures nodes == old(nodes)[id := Node(elem, prev, false, timestamp)]
    {
      nodes := nodes[id := Node(elem, prev, false, timestamp)];
    }

    method Delete(id: Id)
      modifies this
      ensures nodes == Deleted(old(nodes), id)
    {
      if id in nodes {
        nodes := nodes[id := nodes[id].(tombstone := true)];
      }
    }

    method Merge(other: Replica)
      requires other != this
      modifies this
      ensures nodes == Merged(old(nodes), other.nodes)
    {
      ghost var before := nodes;
      var pending := other.nodes.Keys;
      while pending != {}
        invariant pending <= other.nodes.Keys && other.nodes == old(other.nodes)
        invariant nodes.Keys == before.Keys + (other.nodes.Keys - pending)
        invariant forall id :: id in nodes ==>
          nodes[id] == if id in pending then before[id] else Merged(before, other.nodes)[id]
        decreases pending
      {
        var id :| id in pending;
        if id in nodes {
          if other.nodes[id].tombstone { nodes := nodes[id := nodes[id].(tombstone := true)]; }
        } else {
          nodes := nodes[id := other.nodes[id]];
        }
        pending := pending - {id};
      }
    }

    method ToVec() returns (result: seq<Elem>)
      ensures result == Visible(nodes)
    {
      result := Flatten(nodes);
    }
  }

  /** The stack is the one the frames describe, and what is shown so far plus what is left is the whole list. */
  ghost predicate Walking(nodes: Nodes, stack: seq<(Option<Id>, nat)>, frames: Frames, result: seq<Elem>) {
    FramesOk(nodes, frames) && stack == Tips(frames) && Visible(nodes) == result + Rest(nodes, frames)
  }

  lemma WalkingStarts(nodes: Nodes)
    ensures Walking(nodes, [(None, 0)], On([], 0, Bottom), [])
  {
    assert Remaining(nodes, On([], 0, Bottom)) == List(nodes);
  }

  lemma WalkingTop(nodes: Nodes, stack: seq<(Option<Id>, nat)>, frames: Frames, result: seq<Elem>)
    requires Walking(nodes, stack, frames, result) && stack != []
    ensures frames.On? && stack[|stack| - 1] == (Tip(frames.path), frames.idx) && stack[..|stack| - 1] == Tips(frames.below)
  {
  }

  lemma WalkingDown(nodes: Nodes, stack: seq<(Option<Id>, nat)>, frames: Frames, result: seq<Elem>)
    requires Walking(nodes, stack, frames, result) && frames.On? && frames.idx < |Kids(nodes, Tip(frames.path))|
    ensures var child := Kids(nodes, Tip(frames.path))[frames.idx];
      var next := On(frames.path + [child], 0, On(frames.path, frames.idx + 1, frames.below));
      && child in nodes && FramesOk(nodes, next) && |Remaining(nodes, next)| < |Remaining(nodes, frames)|
      && Walking(nodes, Tips(frames.below) + [(Tip(frames.path), frames.idx + 1)] + [(Some(child), 0)], next,
                 if nodes[child].tombstone then result else result + [nodes[child].elem])
  {
    var child := Kids(nodes, Tip(frames.path))[frames.idx];
    RestStep(nodes, frames.path, frames.idx, frames.below);
    assert Tip(frames.path + [child]) == Some(child);
  }

  lemma WalkingUp(nodes: Nodes, stack: seq<(Option<Id>, nat)>, frames: Frames, result: seq<Elem>)
    requires Walking(nodes, stack, frames, result) && frames.On? && frames.idx >= |Kids(nodes, Tip(frames.path))|
    ensures Walking(nodes, Tips(frames.below), frames.below, result)
    ensures |Remaining(nodes, frames.below)| == |Remaining(nodes, frames)|
  {
    RestPop(nodes, frames.path, frames.idx, frames.below);
  }

  lemma WalkingEnds(nodes: Nodes, frames: Frames, result: seq<Elem>)
    requires Walking(nodes, [], frames, result)
    ensures result == Visible(nodes)
  {
    assert Rest(nodes, frames) == [];
  }

  /** The explicit-stack walk over children lists sorted newest first. */
  method Flatten(nodes: Nodes) returns (result: seq<Elem>)
    ensures result == Visible(nodes)
  {
    result := [];
    var stack: seq<(Option<Id>, nat)> := [(None, 0)];
    ghost var frames := On([], 0, Bottom);
    WalkingStarts(nodes);
    while stack != []
      invariant FramesOk(nodes, frames) && Walking(nodes, stack, frames, result)
      decreases |Remaining(nodes, frames)|, |stack|
    {
      WalkingTop(nodes, stack, frames, result);
      var n := |stack| - 1;
      var (current, idx) := stack[n];
      stack := stack[..n];
      var kids := Kids(nodes, current);
      if idx < |kids| {
        WalkingDown(nodes, stack + [(current, idx)], frames, result);
        stack := stack + [(current, idx + 1)];
        var child := kids[idx];
        if !nodes[child].tombstone {
          result := result + [nodes[child].elem];
        }
        stack := stack + [(Some(child), 0)];
        frames := On(frames.path + [child], 0, On(frames.path, idx + 1, frames.below));
      } else {
        WalkingUp(nodes, stack + [(current, idx)], frames, result);
        frames := frames.below;
      }
    }
    WalkingEnds(nodes, frames, result);
  }

  function Inserted(nodes: Nodes, id: Id, node: Node): Nodes { nodes[id := node] }

  function Deleted(nodes: Nodes, id: Id): Nodes {
    if id in nodes then nodes[id := nodes[id].(tombstone := true)] else nodes
  }

  function Merged(a: Nodes, b: Nodes): Nodes {
    map id | id in a.Keys + b.Keys ::
      if id in a then a[id].(tombstone := a[id].tombstone || (id in b && b[id].tombstone)) else b[id]
  }

  // ---- laws

  /** Replicas agree on every node they share, up to deletion. */
  ghost predicate Agree(a: Nodes, b: Nodes) {
    forall id :: id in a && id in b ==> a[id].(tombstone := false) == b[id].(tombstone := false)
  }

  lemma MergeCommutesExactly(a: Nodes, b: Nodes)
    ensures Merged(a, b) == Merged(b, a) <==> Agree(a, b)
  {
    if Merged(a, b) == Merged(b, a) {
      forall id | id in a && id in b ensures a[id].(tombstone := false) == b[id].(tombstone := false) {
        assert Merged(a, b)[id].(tombstone := false) == Merged(b, a)[id].(tombstone := false);
      }
    }
    if Agree(a, b) {
      forall id | id in a.Keys + b.Keys ensures Merged(a, b)[id] == Merged(b, a)[id] {
        if id in a && id in b { assert a[id].(tombstone := false) == b[id].(tombstone := false); }
      }
      assert Merged(a, b) == Merged(b, a);
    }
  }

  lemma MergeAssociates(a: Nodes, b: Nodes, c: Nodes)
    ensures Merged(Merged(a, b), c) == Merged(a, Merged(b, c))
  {
    var l, r := Merged(Merged(a, b), c), Merged(a, Merged(b, c));
    assert l.Keys == r.Keys;
    forall id | id in l ensures l[id] == r[id] { MergeAssociatesAt(a, b, c, id); }
  }

  lemma MergeAssociatesAt(a: Nodes, b: Nodes, c: Nodes, id: Id)
    requires id in a || id in b || id in c
    ensures Merged(Merged(a, b), c)[id] == Merged(a, Merged(b, c))[id]
  {
  }

  lemma MergeIdempotent(a: Nodes)
    ensures Merged(a, a) == a
  {
  }

  /** A path of one replica is a path of any replica that agrees and holds its nodes. */
  lemma PathCarriesOver(a: Nodes, b: Nodes, p: seq<Id>)
    requires Agree(a, b) && IsPath(a, p) && forall x :: x in p ==> x in b
    ensures IsPath(b, p)
  {
    forall i | 0 <= i < |p| ensures p[i] in b && b[p[i]].origin == Above(p, i) {
      assert p[i] in p && a[p[i]].(tombstone := false) == b[p[i]].(tombstone := false);
    }
  }

  lemma {:induction false} OrderCarriesOver(a: Nodes, b: Nodes, p: seq<Id>, q: seq<Id>)
    requires Agree(a, b)
    requires forall x :: x in p || x in q ==> x in a && x in b
    ensures PathBefore(a, p, q) <==> PathBefore(b, p, q)
  {
    if p != [] && q != [] {
      assert p[0] in p && q[0] in q;
      assert a[p[0]].(tombstone := false) == b[p[0]].(tombstone := false);
      assert a[q[0]].(tombstone := false) == b[q[0]].(tombstone := false);
      if p[0] == q[0] { OrderCarriesOver(a, b, p[1..], q[1..]); }
    }
  }

  lemma PathNodes(nodes: Nodes, p: seq<Id>)
    requires IsPath(nodes, p)
    ensures forall x :: x in p ==> x in nodes
  {
  }

  /** The list visits exactly the paths of the forest, so each reachable node once. */
  lemma ListVisits(nodes: Nodes, p: seq<Id>)
    ensures p in List(nodes) <==> p != [] && IsPath(nodes, p)
  {
    WalkVisits(nodes, [], 0, p);
    if p != [] && IsPath(nodes, p) {
      PrefixIsPath(nodes, p, 1);
      assert p[..1] == [] + [p[0]];
      ChildPath(nodes, [], p[0]);
    }
  }

  /**
   Merging never reorders: two nodes shown in some order before a merge are shown in the
   same order after it.
   */
  lemma MergeKeepsOrder(a: Nodes, b: Nodes, i: nat, j: nat)
    requires Agree(a, b)
    requires i < j < |List(a)|
    ensures ShownBefore(Merged(a, b), List(a)[i], List(a)[j])
  {
    var m := Merged(a, b);
    assert Agree(a, m);
    var p, q := List(a)[i], List(a)[j];
    WalkIsOrdered(a, [], 0);
    assert Ordered(a, p, q);
    ListVisits(a, p); ListVisits(a, q);
    PathNodes(a, p); PathNodes(a, q);
    SharedOrder(a, m, p, q);
  }

  ghost predicate ShownBefore(nodes: Nodes, p: seq<Id>, q: seq<Id>) {
    exists k, l :: 0 <= k < l < |List(nodes)| && List(nodes)[k] == p && List(nodes)[l] == q
  }

  /** Two replicas that agree show any two nodes they both hold the same way round. */
  lemma SharedOrder(a: Nodes, b: Nodes, p: seq<Id>, q: seq<Id>)
    requires Agree(a, b)
    requires Ordered(a, p, q) && p != []
    requires forall x :: x in p || x in q ==> x in b
    ensures ShownBefore(b, p, q)
  {
    PathNodes(a, p); PathNodes(a, q);
    PathCarriesOver(a, b, p); PathCarriesOver(a, b, q);
    OrderCarriesOver(a, b, p, q);
    ListVisits(b, p); ListVisits(b, q);
    var k :| 0 <= k < |List(b)| && List(b)[k] == p;
    var l :| 0 <= l < |List(b)| && List(b)[l] == q;
    BeforeIsStrict(b, p, q);
    WalkIsOrdered(b, [], 0);
    assert l < k ==> Ordered(b, List(b)[l], List(b)[k]);
  }

  // ---- what is shown, element by element

  /** Where the `i`-th path's element stands among those shown. */
  ghost function Place(nodes: Nodes, ps: seq<seq<Id>>, i: nat): nat
    requires Showable(nodes, ps) && i <= |ps|
  {
    if i == 0 then 0 else (if nodes[Last(ps[0])].tombstone then 0 else 1) + Place(nodes, ps[1..], i - 1)
  }

  lemma {:induction false} ShownAt(nodes: Nodes, ps: seq<seq<Id>>, i: nat, j: nat)
    requires Showable(nodes, ps) && i < j < |ps| && !nodes[Last(ps[i])].tombstone && !nodes[Last(ps[j])].tombstone
    ensures Place(nodes, ps, i) < Place(nodes, ps, j) < |Shown(nodes, ps)|
    ensures Shown(nodes, ps)[Place(nodes, ps, i)] == nodes[Last(ps[i])].elem
    ensures Shown(nodes, ps)[Place(nodes, ps, j)] == nodes[Last(ps[j])].elem
    decreases i + j
  {
    var rest := ps[1..];
    if i > 0 {
      assert rest[i - 1] == ps[i] && rest[j - 1] == ps[j];
      ShownAt(nodes, rest, i - 1, j - 1);
    } else {
      assert rest[j - 1] == ps[j];
      ShownOne(nodes, rest, j - 1);
    }
  }

  lemma {:induction false} ShownOne(nodes: Nodes, ps: seq<seq<Id>>, j: nat)
    requires Showable(nodes, ps) && j < |ps| && !nodes[Last(ps[j])].tombstone
    ensures Place(nodes, ps, j) < |Shown(nodes, ps)| && Shown(nodes, ps)[Place(nodes, ps, j)] == nodes[Last(ps[j])].elem
  {
    if j > 0 {
      assert ps[1..][j - 1] == ps[j];
      ShownOne(nodes, ps[1..], j - 1);
    }
  }

  /** Two elements are shown one before the other. */
  ghost predicate Shows(nodes: Nodes, first: Elem, second: Elem) {
    exists a, b :: 0 <= a < b < |Visible(nodes)| && Visible(nodes)[a] == first && Visible(nodes)[b] == second
  }

  /**
   The live elements at the ends of two paths from the root are shown in this order: an
   ancestor first; else, where the paths part, the branch of the newer sibling, of equally old
   ones that of the larger id.
   */
  lemma ShownInOrder(nodes: Nodes, p: seq<Id>, q: seq<Id>)
    requires p != [] && q != [] && IsPath(nodes, p) && IsPath(nodes, q)
    requires Last(p) in nodes && Last(q) in nodes && !nodes[Last(p)].tombstone && !nodes[Last(q)].tombstone
    requires p < q || exists k: nat :: PartAt(nodes, p, q, k)
    ensures Shows(nodes, nodes[Last(p)].elem, nodes[Last(q)].elem)
  {
    PathNodes(nodes, p); PathNodes(nodes, q);
    BeforeIs(nodes, p, q);
    var i, j := ListedInOrder(nodes, p, q);
    WalkOk(nodes, [], 0);
    ShownAt(nodes, List(nodes), i, j);
    var a, b := Place(nodes, List(nodes), i), Place(nodes, List(nodes), j);
    assert 0 <= a < b < |Visible(nodes)| && Visible(nodes)[a] == nodes[Last(p)].elem && Visible(nodes)[b] == nodes[Last(q)].elem;
  }

  lemma ListedInOrder(nodes: Nodes, p: seq<Id>, q: seq<Id>) returns (i: nat, j: nat)
    requires p != [] && q != [] && Ordered(nodes, p, q)
    ensures i < j < |List(nodes)| && List(nodes)[i] == p && List(nodes)[j] == q
  {
    ListVisits(nodes, p); ListVisits(nodes, q);
    i :| 0 <= i < |List(nodes)| && List(nodes)[i] == p;
    j :| 0 <= j < |List(nodes)| && List(nodes)[j] == q;
    PathNodes(nodes, p); PathNodes(nodes, q);
    NotAfter(nodes, p, q);
    WalkIsOrdered(nodes, [], 0);
    assert j < i ==> Ordered(nodes, List(nodes)[j], List(nodes)[i]);
  }

  /** The order of paths is strict. */
  lemma NotAfter(nodes: Nodes, p: seq<Id>, q: seq<Id>)
    requires (forall x :: x in p ==> x in nodes) && (forall x :: x in q ==> x in nodes) && PathBefore(nodes, p, q)
    ensures p != q && !PathBefore(nodes, q, p)
  {
    BeforeIsStrict(nodes, p, q);
    if PathBefore(nodes, q, p) { BeforeBothWays(nodes, p, q); }
  }

  lemma {:induction false} BeforeBothWays(nodes: Nodes, p: seq<Id>, q: seq<Id>)
    requires (forall x :: x in p ==> x in nodes) && (forall x :: x in q ==> x in nodes)
    ensures !(PathBefore(nodes, p, q) && PathBefore(nodes, q, p))
  {
    if p != [] && q != [] && p[0] == q[0] { BeforeBothWays(nodes, p[1..], q[1..]); }
  }

  // ---- orphans

  ghost predicate Reachable(nodes: Nodes, id: Id) {
    exists p :: p != [] && IsPath(nodes, p) && Last(p) == id
  }

  /** The count the structure reports: every live node, reachable or not. */
  function Len(nodes: Nodes): nat { |LiveIds(nodes)| }

  function LiveIds(nodes: Nodes): set<Id> { set id | id in nodes && !nodes[id].tombstone }

  lemma SubsetCount(part: set<Id>, whole: set<Id>)
    requires part <= whole
    ensures |part| <= |whole| && (|part| == |whole| <==> part == whole)
  {
    assert whole == part + (whole - part);
    if |whole - part| == 0 { assert whole == part; }
  }

  lemma LastOrigin(nodes: Nodes, p: seq<Id>)
    requires IsPath(nodes, p) && p != []
    ensures Last(p) in nodes && nodes[Last(p)].origin == Tip(p[..|p| - 1])
  {
    assert nodes[p[|p| - 1]].origin == Above(p, |p| - 1);
  }

  lemma {:induction false} TipDeterminesPath(nodes: Nodes, p: seq<Id>, q: seq<Id>)
    requires IsPath(nodes, p) && IsPath(nodes, q) && Tip(p) == Tip(q)
    ensures p == q
    decreases |p|
  {
    if p != [] {
      var m, n := |p| - 1, |q| - 1;
      LastOrigin(nodes, p); LastOrigin(nodes, q);
      PrefixIsPath(nodes, p, m); PrefixIsPath(nodes, q, n);
      TipDeterminesPath(nodes, p[..m], q[..n]);
      assert p == p[..m] + [p[m]] && q == q[..n] + [q[n]];
    }
  }

  ghost function LiveTips(nodes: Nodes, ps: seq<seq<Id>>): set<Id>
    requires Showable(nodes, ps)
  {
    set i | 0 <= i < |ps| && !nodes[Last(ps[i])].tombstone :: Last(ps[i])
  }

  ghost function LiveTip(nodes: Nodes, p: seq<Id>): set<Id>
    requires p != [] && Last(p) in nodes
  {
    if nodes[Last(p)].tombstone then {} else {Last(p)}
  }

  lemma LiveTipsCons(nodes: Nodes, p: seq<Id>, rest: seq<seq<Id>>)
    requires p != [] && Last(p) in nodes && Showable(nodes, rest) && Showable(nodes, [p] + rest)
    ensures LiveTips(nodes, [p] + rest) == LiveTip(nodes, p) + LiveTips(nodes, rest)
  {
    var ps := [p] + rest;
    forall id | id in LiveTips(nodes, rest) ensures id in LiveTips(nodes, ps) {
      var i :| 0 <= i < |rest| && !nodes[Last(rest[i])].tombstone && Last(rest[i]) == id;
      assert ps[i + 1] == rest[i];
    }
    forall id | id in LiveTips(nodes, ps) ensures id in LiveTip(nodes, p) + LiveTips(nodes, rest) {
      var i :| 0 <= i < |ps| && !nodes[Last(ps[i])].tombstone && Last(ps[i]) == id;
      if i > 0 { assert rest[i - 1] == ps[i]; }
    }
    assert ps[0] == p;
  }

  lemma {:induction false} ShownCount(nodes: Nodes, ps: seq<seq<Id>>)
    requires Showable(nodes, ps)
    requires forall i, j :: 0 <= i < j < |ps| ==> Last(ps[i]) != Last(ps[j])
    ensures |Shown(nodes, ps)| == |LiveTips(nodes, ps)|
  {
    if ps != [] {
      var rest := ps[1..];
      assert forall i :: 0 <= i < |rest| ==> rest[i] == ps[i + 1];
      ShownCount(nodes, rest);
      assert ps == [ps[0]] + rest;
      LiveTipsCons(nodes, ps[0], rest);
      assert Last(ps[0]) !in LiveTips(nodes, rest);
    }
  }

  lemma ListTipsDiffer(nodes: Nodes, i: nat, j: nat)
    requires i < j < |List(nodes)|
    ensures List(nodes)[i] != [] && List(nodes)[j] != [] && Last(List(nodes)[i]) != Last(List(nodes)[j])
  {
    var p, q := List(nodes)[i], List(nodes)[j];
    ListVisits(nodes, p); ListVisits(nodes, q);
    WalkIsOrdered(nodes, [], 0);
    assert Ordered(nodes, p, q);
    BeforeIsStrict(nodes, p, q);
    if Last(p) == Last(q) { TipDeterminesPath(nodes, p, q); }
  }

  lemma TipIsLiveAndReachable(nodes: Nodes, id: Id)
    requires Showable(nodes, List(nodes))
    ensures id in LiveTips(nodes, List(nodes)) <==> id in nodes && !nodes[id].tombstone && Reachable(nodes, id)
  {
    var ps := List(nodes);
    if id in LiveTips(nodes, ps) {
      var i :| 0 <= i < |ps| && !nodes[Last(ps[i])].tombstone && Last(ps[i]) == id;
      ListVisits(nodes, ps[i]);
    }
    if id in nodes && !nodes[id].tombstone && Reachable(nodes, id) {
      var p :| p != [] && IsPath(nodes, p) && Last(p) == id;
      ListVisits(nodes, p);
      var i :| 0 <= i < |ps| && ps[i] == p;
      assert Last(ps[i]) == id;
    }
  }

  lemma VisibleCount(nodes: Nodes)
    ensures Showable(nodes, List(nodes)) && |Visible(nodes)| == |LiveTips(nodes, List(nodes))|
  {
    WalkOk(nodes, [], 0);
    forall i, j | 0 <= i < j < |List(nodes)| ensures Last(List(nodes)[i]) != Last(List(nodes)[j]) {
      ListTipsDiffer(nodes, i, j);
    }
    ShownCount(nodes, List(nodes));
  }

  /** The reported length equals the length of the list exactly when no live node is cut off from the root. */
  lemma LenCountsOrphans(nodes: Nodes)
    ensures |Visible(nodes)| <= Len(nodes)
    ensures |Visible(nodes)| == Len(nodes) <==> forall id :: id in nodes && !nodes[id].tombstone ==> Reachable(nodes, id)
  {
    VisibleCount(nodes);
    var tips := LiveTips(nodes, List(nodes));
    forall id ensures id in tips <==> id in LiveIds(nodes) && Reachable(nodes, id) {
      TipIsLiveAndReachable(nodes, id);
    }
    SubsetCount(tips, LiveIds(nodes));
  }

  /** A single live node under an origin nobody has: nothing is shown, and the length is one. */
  lemma OrphanIsCounted(id: Id, origin: Id, elem: Elem, timestamp: int)
    ensures var nodes := map[id := Node(elem, Some(origin), false, timestamp)];
      Visible(nodes) == [] && Len(nodes) == 1
  {
    var nodes := map[id := Node(elem, Some(origin), false, timestamp)];
    assert !Reachable(nodes, id) by {
      forall p | p != [] ensures !IsPath(nodes, p) { assert p[0] != id || nodes[p[0]].origin != Above(p, 0); }
    }
    assert LiveIds(nodes) == {id};
    LenCountsOrphans(nodes);
  }

  // ---- runs of many replicas

  datatype Op = Insert(id: Id, node: Node) | Delete(id: Id)

  /** A copy of a replica: its nodes, and the operations it has heard of. */
  datatype Copy = Copy(nodes: Nodes, heard: set<nat>)

  datatype State = State(ops: seq<Op>, replicas: map<string, Copy>, sent: set<Copy>)

  ghost predicate Init(s: State) {
    s.ops == [] && s.sent == {} && forall r :: r in s.replicas ==> s.replicas[r] == Copy(map[], {})
  }

  ghost predicate Unused(ops: seq<Op>, id: Id) { forall i :: 0 <= i < |ops| ==> ops[i].id != id }

  /** Node ids are never reused; the node a new one hangs under is arbitrary. */
  ghost predicate InsertStep(s: State, s': State, r: string, id: Id, node: Node) {
    && r in s.replicas && Unused(s.ops, id) && !node.tombstone
    && var c := s.replicas[r];
    && s' == State(s.ops + [Insert(id, node)], s.replicas[r := Copy(Inserted(c.nodes, id, node), c.heard + {|s.ops|})], s.sent)
  }

  /** Deleting an unknown node does nothing. */
  ghost predicate DeleteStep(s: State, s': State, r: string, id: Id) {
    && r in s.replicas
    && var c := s.replicas[r];
    && s' == if id !in c.nodes then s
             else State(s.ops + [Delete(id)], s.replicas[r := Copy(Deleted(c.nodes, id), c.heard + {|s.ops|})], s.sent)
  }

  ghost predicate SendStep(s: State, s': State, r: string) {
    r in s.replicas && s' == s.(sent := s.sent + {s.replicas[r]})
  }

  /** Copies may arrive late, repeatedly and in any order. */
  ghost predicate MergeStep(s: State, s': State, r: string, c: Copy) {
    && r in s.replicas && c in s.sent
    && var mine := s.replicas[r];
    && s' == s.(replicas := s.replicas[r := Copy(Merged(mine.nodes, c.nodes), mine.heard + c.heard)])
  }

  ghost predicate Step(s: State, s': State) {
    || (exists r, id, node :: InsertStep(s, s', r, id, node))
    || (exists r, id :: DeleteStep(s, s', r, id))
    || (exists r :: SendStep(s, s', r))
    || (exists r, c :: MergeStep(s, s', r, c))
  }

  ghost predicate Run(run: seq<State>) {
    && run != [] && Init(run[0])
    && forall i :: 0 <= i < |run| - 1 ==> Step(run[i], run[i + 1])
  }

  ghost predicate Heard(ops: seq<Op>, heard: set<nat>, op: Op) {
    exists i :: i in heard && i < |ops| && ops[i] == op
  }

  /** The copy holds exactly the nodes it has heard inserted, and as deleted exactly those it has heard deleted. */
  ghost predicate Told(ops: seq<Op>, c: Copy) {
    && (forall i :: i in c.heard ==> i < |ops|)
    && (forall id, node :: Heard(ops, c.heard, Insert(id, node)) <==> id in c.nodes && c.nodes[id].(tombstone := false) == node)
    && (forall id :: Heard(ops, c.heard, Delete(id)) <==> id in c.nodes && c.nodes[id].tombstone)
  }

  ghost predicate InsertedOnce(ops: seq<Op>) {
    forall i, j :: 0 <= i < j < |ops| && ops[i].Insert? && ops[j].Insert? ==> ops[i].id != ops[j].id
  }

  ghost predicate Inv(s: State) {
    && InsertedOnce(s.ops)
    && (forall r :: r in s.replicas ==> Told(s.ops, s.replicas[r])) && forall c :: c in s.sent ==> Told(s.ops, c)
  }

  /** A replica's nodes only grow, and stay what they were up to deletion. */
  ghost predicate Grows(a: Nodes, b: Nodes) {
    a.Keys <= b.Keys && Agree(a, b)
  }

  lemma CopiesAgree(ops: seq<Op>, a: Copy, b: Copy)
    requires InsertedOnce(ops) && Told(ops, a) && Told(ops, b)
    ensures Agree(a.nodes, b.nodes)
  {
    forall id | id in a.nodes && id in b.nodes ensures a.nodes[id].(tombstone := false) == b.nodes[id].(tombstone := false) {
      var m, n := a.nodes[id].(tombstone := false), b.nodes[id].(tombstone := false);
      assert Heard(ops, a.heard, Insert(id, m)) && Heard(ops, b.heard, Insert(id, n));
    }
  }

  lemma HeardBoth(ops: seq<Op>, h: set<nat>, k: set<nat>, op: Op)
    ensures Heard(ops, h + k, op) <==> Heard(ops, h, op) || Heard(ops, k, op)
  {
  }

  lemma MergeIsTold(ops: seq<Op>, a: Copy, b: Copy)
    requires InsertedOnce(ops) && Told(ops, a) && Told(ops, b)
    ensures Told(ops, Copy(Merged(a.nodes, b.nodes), a.heard + b.heard)) && Grows(a.nodes, Merged(a.nodes, b.nodes))
  {
    CopiesAgree(ops, a, b);
    var m := Copy(Merged(a.nodes, b.nodes), a.heard + b.heard);
    forall id, node ensures Heard(ops, m.heard, Insert(id, node)) <==> id in m.nodes && m.nodes[id].(tombstone := false) == node {
      HeardBoth(ops, a.heard, b.heard, Insert(id, node));
    }
    forall id ensures Heard(ops, m.heard, Delete(id)) <==> id in m.nodes && m.nodes[id].tombstone {
      HeardBoth(ops, a.heard, b.heard, Delete(id));
    }
  }

  lemma HeardMore(ops: seq<Op>, heard: set<nat>, last: Op, op: Op)
    requires forall i :: i in heard ==> i < |ops|
    ensures Heard(ops + [last], heard, op) <==> Heard(ops, heard, op)
    ensures Heard(ops + [last], heard + {|ops|}, op) <==> Heard(ops, heard, op) || op == last
  {
    var more := ops + [last];
    assert more[|ops|] == last && forall i :: 0 <= i < |ops| ==> more[i] == ops[i];
    if op == last { assert |ops| in heard + {|ops|} && more[|ops|] == op; }
    if Heard(ops, heard, op) {
      var i :| i in heard && i < |ops| && ops[i] == op;
      assert i in heard + {|ops|} && more[i] == op;
    }
  }

  lemma ToldExtends(ops: seq<Op>, last: Op, c: Copy)
    requires Told(ops, c)
    ensures Told(ops + [last], c)
  {
    forall op ensures Heard(ops + [last], c.heard, op) <==> Heard(ops, c.heard, op) { HeardMore(ops, c.heard, last, op); }
  }

  lemma InsertIsTold(ops: seq<Op>, c: Copy, id: Id, node: Node)
    requires Told(ops, c) && Unused(ops, id) && !node.tombstone
    ensures Told(ops + [Insert(id, node)], Copy(Inserted(c.nodes, id, node), c.heard + {|ops|}))
    ensures Grows(c.nodes, Inserted(c.nodes, id, node))
  {
    var last := Insert(id, node);
    forall op ensures Heard(ops + [last], c.heard + {|ops|}, op) <==> Heard(ops, c.heard, op) || op == last {
      HeardMore(ops, c.heard, last, op);
    }
    assert id in c.nodes ==> Heard(ops, c.heard, Insert(id, c.nodes[id].(tombstone := false)));
    NoneHeard(ops, c.heard, id);
    assert node.(tombstone := false) == node;
  }

  lemma NoneHeard(ops: seq<Op>, heard: set<nat>, id: Id)
    requires Unused(ops, id)
    ensures forall op: Op :: op.id == id ==> !Heard(ops, heard, op)
  {
  }

  lemma DeleteIsTold(ops: seq<Op>, c: Copy, id: Id)
    requires Told(ops, c) && id in c.nodes
    ensures Told(ops + [Delete(id)], Copy(Deleted(c.nodes, id), c.heard + {|ops|}))
    ensures Grows(c.nodes, Deleted(c.nodes, id))
  {
    var last := Delete(id);
    forall op ensures Heard(ops + [last], c.heard + {|ops|}, op) <==> Heard(ops, c.heard, op) || op == last {
      HeardMore(ops, c.heard, last, op);
    }
  }

  ghost predicate AllGrow(s: State, s': State) {
    forall r :: r in s.replicas ==> r in s'.replicas && Grows(s.replicas[r].nodes, s'.replicas[r].nodes)
  }

  /** One replica has changed and perhaps one operation was added; the other copies are untouched. */
  lemma ReplicaChanges(s: State, s': State, t: string, c: Copy)
    requires Inv(s) && t in s.replicas && s'.replicas == s.replicas[t := c] && s'.sent == s.sent
    requires s'.ops == s.ops || (exists op :: s'.ops == s.ops + [op])
    requires InsertedOnce(s'.ops) && Told(s'.ops, c) && Grows(s.replicas[t].nodes, c.nodes)
    ensures Inv(s') && AllGrow(s, s')
  {
    if s'.ops != s.ops {
      var op :| s'.ops == s.ops + [op];
      forall d | Told(s.ops, d) ensures Told(s'.ops, d) { ToldExtends(s.ops, op, d); }
    }
    forall r | r in s.replicas ensures Grows(s.replicas[r].nodes, s'.replicas[r].nodes) {
      if r != t { assert s'.replicas[r] == s.replicas[r]; }
    }
  }

  lemma MergePreserves(s: State, s': State, t: string, c: Copy)
    requires Inv(s) && MergeStep(s, s', t, c)
    ensures Inv(s') && AllGrow(s, s')
  {
    MergeIsTold(s.ops, s.replicas[t], c);
    ReplicaChanges(s, s', t, s'.replicas[t]);
  }

  lemma InsertPreserves(s: State, s': State, t: string, id: Id, node: Node)
    requires Inv(s) && InsertStep(s, s', t, id, node)
    ensures Inv(s') && AllGrow(s, s')
  {
    InsertIsTold(s.ops, s.replicas[t], id, node);
    ReplicaChanges(s, s', t, s'.replicas[t]);
  }

  lemma DeletePreserves(s: State, s': State, t: string, id: Id)
    requires Inv(s) && DeleteStep(s, s', t, id)
    ensures Inv(s') && AllGrow(s, s')
  {
    if id in s.replicas[t].nodes {
      DeleteIsTold(s.ops, s.replicas[t], id);
      ReplicaChanges(s, s', t, s'.replicas[t]);
    }
  }

  lemma SendPreserves(s: State, s': State, t: string)
    requires Inv(s) && SendStep(s, s', t)
    ensures Inv(s') && AllGrow(s, s')
  {
  }

  lemma StepPreserves(s: State, s': State)
    requires Inv(s) && Step(s, s')
    ensures Inv(s') && AllGrow(s, s')
  {
    if t, c :| MergeStep(s, s', t, c) {
      MergePreserves(s, s', t, c);
    } else if t, id, node :| InsertStep(s, s', t, id, node) {
      InsertPreserves(s, s', t, id, node);
    } else if t, id :| DeleteStep(s, s', t, id) {
      DeletePreserves(s, s', t, id);
    } else {
      var t :| SendStep(s, s', t);
      SendPreserves(s, s', t);
    }
  }

  lemma InitInv(s: State)
    requires Init(s)
    ensures Inv(s)
  {
    assert forall op :: !Heard([], {}, op);
  }

  lemma {:induction false} RunKeepsInv(run: seq<State>, i: nat)
    requires Run(run) && i < |run|
    ensures Inv(run[i])
  {
    if i == 0 {
      InitInv(run[0]);
    } else {
      RunKeepsInv(run, i - 1);
      StepPreserves(run[i - 1], run[i]);
    }
  }

  lemma RunStepGrows(run: seq<State>, i: nat)
    requires Run(run) && 0 < i < |run|
    ensures AllGrow(run[i - 1], run[i])
  {
    RunKeepsInv(run, i - 1);
    StepPreserves(run[i - 1], run[i]);
  }

  lemma {:induction false} RunGrows(run: seq<State>, i: nat, j: nat, r: string)
    requires Run(run) && i <= j < |run| && r in run[i].replicas
    ensures r in run[j].replicas && Grows(run[i].replicas[r].nodes, run[j].replicas[r].nodes)
    decreases j
  {
    if i < j {
      RunGrows(run, i, j - 1, r);
      RunStepGrows(run, j);
      GrowsTransitively(run[i].replicas[r].nodes, run[j - 1].replicas[r].nodes, run[j].replicas[r].nodes);
    }
  }

  lemma GrowsTransitively(a: Nodes, b: Nodes, c: Nodes)
    requires Grows(a, b) && Grows(b, c)
    ensures Grows(a, c)
  {
    forall id | id in a ensures a[id].(tombstone := false) == c[id].(tombstone := false) {
      assert b[id].(tombstone := false) == c[id].(tombstone := false);
    }
  }

  /** Once a replica shows p before q, it does so for the rest of the run. */
  lemma OrderIsForEver(run: seq<State>, i: nat, j: nat, r: string, p: seq<Id>, q: seq<Id>)
    requires Run(run) && i <= j < |run|
    requires r in run[i].replicas && ShownBefore(run[i].replicas[r].nodes, p, q)
    ensures r in run[j].replicas && ShownBefore(run[j].replicas[r].nodes, p, q)
  {
    RunGrows(run, i, j, r);
    var a := run[i].replicas[r].nodes;
    OrderedWhenShown(a, p, q);
    PathNodes(a, p); PathNodes(a, q);
    SharedOrder(a, run[j].replicas[r].nodes, p, q);
  }

  lemma OrderedWhenShown(a: Nodes, p: seq<Id>, q: seq<Id>)
    requires ShownBefore(a, p, q)
    ensures Ordered(a, p, q) && p != []
  {
    var k, l :| 0 <= k < l < |List(a)| && List(a)[k] == p && List(a)[l] == q;
    WalkIsOrdered(a, [], 0);
    assert Ordered(a, List(a)[k], List(a)[l]);
    ListVisits(a, p);
  }

  /** At any moment, two replicas show any two nodes they both hold the same way round. */
  lemma ReplicasAgreeOnOrder(run: seq<State>, i: nat, r: string, t: string, p: seq<Id>, q: seq<Id>)
    requires Run(run) && i < |run|
    requires r in run[i].replicas && ShownBefore(run[i].replicas[r].nodes, p, q)
    requires t in run[i].replicas && forall x :: x in p || x in q ==> x in run[i].replicas[t].nodes
    ensures ShownBefore(run[i].replicas[t].nodes, p, q)
  {
    RunKeepsInv(run, i);
    var a, b := run[i].replicas[r], run[i].replicas[t];
    CopiesAgree(run[i].ops, a, b);
    OrderedWhenShown(a.nodes, p, q);
    SharedOrder(a.nodes, b.nodes, p, q);
  }

  /** The nodes are determined by the operations heard of. */
  lemma ToldDetermines(ops: seq<Op>, a: Copy, b: Copy)
    requires Told(ops, a) && Told(ops, b) && a.heard == b.heard
    ensures a.nodes == b.nodes
  {
    forall id ensures id in a.nodes <==> id in b.nodes {
      if id in a.nodes { assert Heard(ops, b.heard, Insert(id, a.nodes[id].(tombstone := false))); }
      if id in b.nodes { assert Heard(ops, a.heard, Insert(id, b.nodes[id].(tombstone := false))); }
    }
    forall id | id in a.nodes ensures a.nodes[id] == b.nodes[id] {
      assert Heard(ops, b.heard, Insert(id, a.nodes[id].(tombstone := false)));
      assert Heard(ops, a.heard, Delete(id)) <==> Heard(ops, b.heard, Delete(id));
    }
  }

  /** Replicas that have heard of the same insertions and deletions show the same list. */
  lemma Converged(run: seq<State>, i: nat, r: string, t: string)
    requires Run(run) && i < |run|
    requires r in run[i].replicas && t in run[i].replicas && run[i].replicas[r].heard == run[i].replicas[t].heard
    ensures run[i].replicas[r].nodes == run[i].replicas[t].nodes
    ensures Visible(run[i].replicas[r].nodes) == Visible(run[i].replicas[t].nodes)
  {
    RunKeepsInv(run, i);
    ToldDetermines(run[i].ops, run[i].replicas[r], run[i].replicas[t]);
  }

  lemma OneMore(run: seq<State>, next: State)
    requires Run(run) && Step(run[|run| - 1], next)
    ensures Run(run + [next])
  {
  }

  lemma Sends(run: seq<State>, r: string) returns (longer: seq<State>)
    requires Run(run) && r in run[|run| - 1].replicas
    ensures Run(longer) && run < longer
    ensures var s, s' := run[|run| - 1], longer[|longer| - 1];
      s' == State(s.ops, s.replicas, s.sent + {s.replicas[r]})
  {
    var s := run[|run| - 1];
    var next := State(s.ops, s.replicas, s.sent + {s.replicas[r]});
    assert SendStep(s, next, r);
    OneMore(run, next);
    longer := run + [next];
  }

  lemma Receives(run: seq<State>, r: string, c: Copy) returns (longer: seq<State>)
    requires Run(run) && r in run[|run| - 1].replicas && c in run[|run| - 1].sent
    ensures Run(longer) && run < longer
    ensures var s, s' := run[|run| - 1], longer[|longer| - 1];
      && s'.ops == s.ops && s'.sent == s.sent && s'.replicas.Keys == s.replicas.Keys
      && s'.replicas[r].heard == s.replicas[r].heard + c.heard
      && forall t :: t in s.replicas && t != r ==> s'.replicas[t] == s.replicas[t]
  {
    var s := run[|run| - 1];
    var mine := s.replicas[r];
    var next := s.(replicas := s.replicas[r := Copy(Merged(mine.nodes, c.nodes), mine.heard + c.heard)]);
    assert MergeStep(s, next, r, c);
    OneMore(run, next);
    longer := run + [next];
  }

  /** After any run, two replicas that send each other what they hold end up showing the same list. */
  lemma ExchangeConverges(run: seq<State>, r: string, t: string) returns (longer: seq<State>)
    requires Run(run) && r in run[|run| - 1].replicas && t in run[|run| - 1].replicas
    ensures Run(longer) && run < longer
    ensures var s, s' := run[|run| - 1], longer[|longer| - 1];
      && r in s'.replicas && t in s'.replicas && s'.ops == s.ops
      && s'.replicas[r].heard == s.replicas[r].heard + s.replicas[t].heard
      && s'.replicas[r] == s'.replicas[t]
      && Visible(s'.replicas[r].nodes) == Visible(s'.replicas[t].nodes)
  {
    var s := run[|run| - 1];
    longer := Sends(run, r);
    longer := Sends(longer, t);
    longer := Receives(longer, r, s.replicas[t]);
    longer := Receives(longer, t, s.replicas[r]);
    Converged(longer, |longer| - 1, r, t);
  }
}
