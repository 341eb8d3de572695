/**
 Two runs that end in a state no serial order of their programs can produce: what conflict
 detection is not told about (pure-CRDT writes, and the edges that go with a deleted vertex)
 does cost serializability.
 */
module TxAnomalies {
  import opened Basics
  import opened CommitRegistry
  import Crdts
  import opened TxStore
  import opened TxSystem

  /** A program that reads these items and then writes. */
  datatype Job = Job(items: seq<Item>, write: seq<Cell> -> Buffer)

  ghost function ProgramOf(j: Job): Program {
    seen => if |seen| < |j.items| then Read(j.items[|seen|]) else Finish(j.write(seen))
  }

  ghost function Lookups(st: Store, xs: seq<Item>): seq<Cell> {
    seq(|xs|, i requires 0 <= i < |xs| => Lookup(st, xs[i]))
  }

  ghost function Outcome(st: Store, j: Job): Store { Apply(st, j.write(Lookups(st, j.items))) }

  ghost function Outcomes(st: Store, js: seq<Job>): Store
    decreases |js|
  {
    if js == [] then st else Outcomes(Outcome(st, js[0]), js[1..])
  }

  /** Running the programs alone, one after another, can end in `final`. */
  ghost predicate Serial(initial: Store, js: seq<Job>, final: Store)
    decreases |js|
  {
    if js == [] then final == initial
    else exists t: Tx, b: Buffer ::
      t.program == ProgramOf(js[0]) && RunsAlone(t, b, initial) && Serial(Apply(initial, b), js[1..], final)
  }

  lemma ReadsWithin(tx: Tx, j: Job, i: nat)
    requires tx.program == ProgramOf(j) && Reads(tx, i)
    ensures i < |j.items| && ItemRead(tx, i) == j.items[i]
  {
    assert |tx.seen[..i]| == i;
  }

  lemma JobAlone(tx: Tx, b: Buffer, st: Store, j: Job)
    requires tx.program == ProgramOf(j) && RunsAlone(tx, b, st)
    ensures b == j.write(Lookups(st, j.items))
  {
    if tx.seen != [] { ReadsWithin(tx, j, |tx.seen| - 1); }
    forall i | 0 <= i < |tx.seen| ensures tx.seen[i] == Lookups(st, j.items)[i] { ReadsWithin(tx, j, i); }
    assert tx.seen == Lookups(st, j.items);
  }

  /** Run alone these programs have one outcome. */
  lemma {:induction false} SerialIsOutcomes(initial: Store, js: seq<Job>, final: Store)
    requires Serial(initial, js, final)
    ensures final == Outcomes(initial, js)
    decreases |js|
  {
    if js != [] {
      var t: Tx, b: Buffer :|
        t.program == ProgramOf(js[0]) && RunsAlone(t, b, initial) && Serial(Apply(initial, b), js[1..], final);
      JobAlone(t, b, initial, js[0]);
      SerialIsOutcomes(Apply(initial, b), js[1..], final);
    }
  }

  /** The numbers below `n`, each once. */
  ghost predicate Permutes(f: seq<nat>, n: nat) {
    |f| == n && (forall i :: 0 <= i < n ==> f[i] < n) && forall i, j :: 0 <= i < j < n ==> f[i] != f[j]
  }

  ghost function Arranged(js: seq<Job>, f: seq<nat>): seq<Job>
    requires Permutes(f, |js|)
  {
    seq(|js|, i requires 0 <= i < |js| => js[f[i]])
  }

  /** No order of the jobs, each alone, ends in this state. */
  ghost predicate Unserializable(initial: Store, js: seq<Job>, final: Store) {
    forall f :: Permutes(f, |js|) ==> !Serial(initial, Arranged(js, f), final)
  }

  // ---- building runs

  /** The state after `id` has committed its finished buffer through the three locked steps. */
  ghost function Committed(s: State, id: nat): State
    requires id in s.live && s.live[id].program(s.live[id].seen).Finish?
  {
    var tx := s.live[id];
    var b := tx.program(tx.seen).buffer;
    var merged := s.(log := s.log + [Commit(tx, b)], lock := Free, live := s.live - {id});
    if b.WriteSetOf().IsEmpty() then merged.(stamps := s.stamps + [s.sequence])
    else merged.(sequence := s.sequence + 1, stamps := s.stamps + [s.sequence + 1],
                 registry := Retained(s.registry + [Stamped(s.sequence + 1, b.WriteSetOf())], s.capacity))
  }

  ghost predicate MayCommit(s: State, id: nat) {
    && s.lock == Free && id in s.live
    && var tx := s.live[id];
    && tx.program(tx.seen).Finish? && tx.program(tx.seen).buffer.Valid()
    && Passes(s, tx, tx.program(tx.seen).buffer)
  }

  lemma CommitSteps(run: seq<State>, id: nat) returns (longer: seq<State>)
    requires Run(run) && MayCommit(run[|run| - 1], id)
    ensures Run(longer) && longer[|longer| - 1] == Committed(run[|run| - 1], id)
  {
    var s := run[|run| - 1];
    var tx := s.live[id];
    var s1 := s.(lock := Validated(id));
    var s2 := s1.(log := s.log + [Commit(tx, tx.program(tx.seen).buffer)], lock := Merged(id));
    assert Validate(s, s1, id);
    assert Merge(s1, s2, id);
    assert Record(s2, Committed(s, id), id);
    longer := run + [s1, s2, Committed(s, id)];
  }

  /** A transaction that began now and has read its first `n` items. */
  ghost function Begun(s: State, j: Job, n: nat): Tx
    requires n <= |j.items|
  {
    Tx(ProgramOf(j), s.sequence, |s.stamps|, Lookups(StoreAt(s.initial, s.log, |s.log|), j.items)[..n], seq(n, _ => |s.log|))
  }

  ghost function Opened(s: State, id: nat, j: Job, n: nat): State
    requires n <= |j.items|
  {
    s.(live := s.live[id := Begun(s, j, n)])
  }

  lemma {:induction false} OpenSteps(run: seq<State>, id: nat, j: Job, n: nat) returns (longer: seq<State>)
    requires Run(run) && id !in run[|run| - 1].live && n <= |j.items| && run[|run| - 1].lock == Free
    requires |run[|run| - 1].stamps| <= |run[|run| - 1].log|
    ensures Run(longer) && longer[|longer| - 1] == Opened(run[|run| - 1], id, j, n)
    decreases n
  {
    var s := run[|run| - 1];
    var all := Lookups(StoreAt(s.initial, s.log, |s.log|), j.items);
    if n == 0 {
      assert all[..0] == [] && seq(0, _ => |s.log|) == [];
      assert Begin(s, Opened(s, id, j, 0), id, ProgramOf(j));
      longer := run + [Opened(s, id, j, 0)];
    } else {
      var before := OpenSteps(run, id, j, n - 1);
      assert all[..n] == all[..n - 1] + [all[n - 1]];
      assert seq(n, _ => |s.log|) == seq(n - 1, _ => |s.log|) + [|s.log|];
      assert ReadStep(Opened(s, id, j, n - 1), Opened(s, id, j, n), id, |s.log|);
      longer := before + [Opened(s, id, j, n)];
    }
  }

  // ---- a deletion against an exempt increment

  /** Deletes vertex 0 if it is there. */
  ghost function Deletes(cs: seq<Cell>): Buffer {
    if |cs| == 1 && cs[0] != Absent then EMPTY_BUFFER.(vertexTombstones := {0}) else EMPTY_BUFFER
  }

  /** Increments a counter on vertex 0 if it is there. */
  ghost function Increments(cs: seq<Cell>): Buffer {
    if |cs| == 1 && cs[0] != Absent then EMPTY_BUFFER.(vertexProps := map[0 := map["n" := Crdt(Crdts.GCounter(map["a" := 1]))]])
    else EMPTY_BUFFER
  }

  ghost function Deleter(): Job { Job([Vertex(0)], Deletes) }

  ghost function Incrementer(): Job { Job([Vertex(0)], Increments) }

  const ONE_VERTEX := Store(map[0 := EMPTY_ROW], map[])

  lemma ExemptFacts()
    ensures Increments([V(EMPTY_ROW)]).Valid() && Increments([V(EMPTY_ROW)]).WriteSetOf().IsEmpty()
    ensures Deletes([V(EMPTY_ROW)]).Valid() && !VariantOverwrite(Deletes([V(EMPTY_ROW)]), ONE_VERTEX)
  {
    var inc, del := Increments([V(EMPTY_ROW)]), Deletes([V(EMPTY_ROW)]);
    assert "n" in inc.vertexProps[0];
    assert inc.edges.Keys == {} && del.edges.Keys == {} && del.vertexProps.Keys == {};
  }

  lemma DeleterRemoves(st: Store)
    ensures 0 !in Outcome(st, Deleter()).vertices
  {
    assert Lookups(st, [Vertex(0)]) == [Lookup(st, Vertex(0))];
  }

  lemma IncrementerNeedsVertex(st: Store)
    requires 0 !in st.vertices
    ensures 0 !in Outcome(st, Incrementer()).vertices
  {
    assert Lookups(st, [Vertex(0)]) == [Absent];
  }

  lemma TwoOrders(f: seq<nat>)
    requires Permutes(f, 2)
    ensures f == [0, 1] || f == [1, 0]
  {
    assert f[0] != f[1];
  }

  lemma TwoOutcomes(st: Store, a: Job, b: Job)
    ensures Outcomes(st, [a, b]) == Outcome(Outcome(st, a), b)
  {
    assert [a, b][1..] == [b] && [b][1..] == [];
    assert Outcomes(Outcome(st, a), [b]) == Outcomes(Outcome(Outcome(st, a), b), [b][1..]);
  }

  lemma GoneEitherWay()
    ensures 0 !in Outcomes(ONE_VERTEX, [Deleter(), Incrementer()]).vertices
    ensures 0 !in Outcomes(ONE_VERTEX, [Incrementer(), Deleter()]).vertices
  {
    TwoOutcomes(ONE_VERTEX, Deleter(), Incrementer());
    TwoOutcomes(ONE_VERTEX, Incrementer(), Deleter());
    DeleterRemoves(ONE_VERTEX);
    IncrementerNeedsVertex(Outcome(ONE_VERTEX, Deleter()));
    DeleterRemoves(Outcome(ONE_VERTEX, Incrementer()));
  }

  /** In neither order does the vertex survive. */
  lemma NoSerialOrderKeepsVertex(final: Store)
    requires 0 in final.vertices
    ensures Unserializable(ONE_VERTEX, [Deleter(), Incrementer()], final)
  {
    GoneEitherWay();
    var js := [Deleter(), Incrementer()];
    forall f | Permutes(f, |js|) ensures !Serial(ONE_VERTEX, Arranged(js, f), final) {
      TwoOrders(f);
      assert Arranged(js, f) == if f == [0, 1] then [Deleter(), Incrementer()] else [Incrementer(), Deleter()];
      if Serial(ONE_VERTEX, Arranged(js, f), final) { SerialIsOutcomes(ONE_VERTEX, Arranged(js, f), final); }
    }
  }

  /** Both have read vertex 0; the deletion commits, then the increment, which nothing validates. */
  lemma DeleteThenIncrement() returns (run: seq<State>)
    ensures Run(run)
    ensures var s := run[|run| - 1];
      && s.initial == ONE_VERTEX && s.live == map[] && s.lock == Free && |s.log| == 2
      && s.log[0].Commit? && s.log[0].tx.program == ProgramOf(Deleter()) && s.log[0].buffer == Deletes([V(EMPTY_ROW)])
      && s.log[1].Commit? && s.log[1].tx.program == ProgramOf(Incrementer()) && s.log[1].buffer == Increments([V(EMPTY_ROW)])
  {
    var s0 := State(0, [], 1, ONE_VERTEX, [], [], Free, map[]);
    run := [s0];
    assert Lookups(ONE_VERTEX, [Vertex(0)])[..1] == [V(EMPTY_ROW)];
    run := OpenSteps(run, 0, Deleter(), 1);
    run := OpenSteps(run, 1, Incrementer(), 1);
    var s := run[|run| - 1];
    ExemptFacts();
    assert MayCommit(s, 0);
    run := CommitSteps(run, 0);
    var t := run[|run| - 1];
    assert StoreAt(ONE_VERTEX, t.log, 1) == Apply(StoreAt(ONE_VERTEX, t.log, 0), Deletes([V(EMPTY_ROW)]));
    assert MayCommit(t, 1);
    run := CommitSteps(run, 1);
  }

  /**
   A deletion commits while a counter increment of the same vertex is in flight. The
   increment's write-set is empty, so it is never validated, and its commit brings the
   deleted vertex back: no serial order of the two programs leaves the vertex present.
   */
  lemma ExemptIncrementResurrectsDeletedVertex()
    ensures exists run: seq<State> ::
      && Run(run)
      && var s := run[|run| - 1];
      && s.initial == ONE_VERTEX && s.live == map[] && s.lock == Free && |s.log| == 2
      && s.log[0].Commit? && s.log[0].tx.program == ProgramOf(Deleter())
      && s.log[1].Commit? && s.log[1].tx.program == ProgramOf(Incrementer())
      && Unserializable(ONE_VERTEX, [Deleter(), Incrementer()], StoreAt(s.initial, s.log, 2))
  {
    var run := DeleteThenIncrement();
    var s := run[|run| - 1];
    assert 0 in s.log[1].buffer.vertexProps;
    assert 0 in Apply(StoreAt(ONE_VERTEX, s.log, 1), s.log[1].buffer).vertices;
    NoSerialOrderKeepsVertex(StoreAt(ONE_VERTEX, s.log, 2));
  }

  // ---- a deletion against an edge inserted meanwhile

  const LINK := EdgeRow(0, 1, 0, map[])
  const MARKED := VertexRow(map["m" := Plain(1)], {})

  /** Deletes vertex 0 if it is there and vertex 1 is not marked. */
  ghost function Removes(cs: seq<Cell>): Buffer {
    if cs == [V(EMPTY_ROW), V(EMPTY_ROW)] then EMPTY_BUFFER.(vertexTombstones := {0}) else EMPTY_BUFFER
  }

  /** Inserts edge 5 from vertex 0 to vertex 1. */
  ghost function Links(cs: seq<Cell>): Buffer { EMPTY_BUFFER.(edges := map[5 := LINK]) }

  /** Marks vertex 1 if edge 5 is there. */
  ghost function Marks(cs: seq<Cell>): Buffer {
    if cs == [E(LINK)] then EMPTY_BUFFER.(vertexProps := map[1 := map["m" := Plain(1)]]) else EMPTY_BUFFER
  }

  ghost function Remover(): Job { Job([Vertex(0), Vertex(1)], Removes) }

  ghost function Linker(): Job { Job([], Links) }

  ghost function Marker(): Job { Job([Edge(5)], Marks) }

  /** The stores that can come up: vertex 0 there or not, vertex 1 marked or not, the edge there or not. */
  ghost function Scene(zero: bool, marked: bool, edge: bool): Store {
    Store(if zero then map[0 := EMPTY_ROW, 1 := if marked then MARKED else EMPTY_ROW] else map[1 := if marked then MARKED else EMPTY_ROW],
          if edge then map[5 := LINK] else map[])
  }

  lemma EmptyBufferChangesNothing(st: Store)
    ensures Apply(st, EMPTY_BUFFER) == st
  {
    assert Cascaded(st, EMPTY_BUFFER) == {};
    assert Apply(st, EMPTY_BUFFER).vertices == st.vertices && Apply(st, EMPTY_BUFFER).edges == st.edges;
  }

  lemma RemoverOn(zero: bool, marked: bool, edge: bool)
    ensures Outcome(Scene(zero, marked, edge), Remover()) == if zero && !marked then Scene(false, false, false) else Scene(zero, marked, edge)
  {
    var st := Scene(zero, marked, edge);
    RowsDiffer();
    assert Lookups(st, Remover().items) == [Lookup(st, Vertex(0)), Lookup(st, Vertex(1))];
    EmptyBufferChangesNothing(st);
    if zero && !marked {
      var b := EMPTY_BUFFER.(vertexTombstones := {0});
      assert Cascaded(st, b) == st.edges.Keys;
      assert Apply(st, b).vertices == Scene(false, false, false).vertices && Apply(st, b).edges == map[];
    }
  }

  lemma LinkerOn(zero: bool, marked: bool, edge: bool)
    ensures Outcome(Scene(zero, marked, edge), Linker()) == Scene(zero, marked, true)
  {
    var st := Scene(zero, marked, edge);
    var b := EMPTY_BUFFER.(edges := map[5 := LINK]);
    assert Cascaded(st, b) == {};
    assert Apply(st, b).vertices == st.vertices && Apply(st, b).edges == map[5 := LINK];
  }

  lemma MarkRow(row: VertexRow)
    requires row == MARKED || row == EMPTY_ROW
    ensures NewRow(row, Marks([E(LINK)]), 1) == MARKED
  {
    assert MergeProps(row.props, map["m" := Plain(1)]) == map["m" := Plain(1)];
    assert row.labels + Marks([E(LINK)]).LabelsOf(1) == {};
  }

  lemma MarkApplied(zero: bool, marked: bool, edge: bool)
    ensures Apply(Scene(zero, marked, edge), Marks([E(LINK)])) == Scene(zero, true, edge)
  {
    var st, b := Scene(zero, marked, edge), Marks([E(LINK)]);
    var after := Apply(st, b);
    assert Cascaded(st, b) == {};
    assert after.edges == st.edges;
    MarkedVertices(zero, marked, edge);
  }

  lemma MarkedVertices(zero: bool, marked: bool, edge: bool)
    ensures Apply(Scene(zero, marked, edge), Marks([E(LINK)])).vertices == Scene(zero, true, edge).vertices
  {
    var st, b := Scene(zero, marked, edge), Marks([E(LINK)]);
    MarkRow(st.vertices[1]);
    var after := Apply(st, b).vertices;
    assert b.vertexProps.Keys == {1};
    assert after.Keys == st.vertices.Keys;
    assert after[1] == MARKED && (zero ==> after[0] == EMPTY_ROW);
  }

  lemma MarkerOn(zero: bool, marked: bool, edge: bool)
    ensures Outcome(Scene(zero, marked, edge), Marker()) == Scene(zero, marked || edge, edge)
  {
    var st := Scene(zero, marked, edge);
    assert Lookups(st, Marker().items) == [Lookup(st, Edge(5))];
    EmptyBufferChangesNothing(st);
    if edge { MarkApplied(zero, marked, edge); }
  }

  lemma ThreeOrders(f: seq<nat>)
    requires Permutes(f, 3)
    ensures f == [0, 1, 2] || f == [0, 2, 1] || f == [1, 0, 2] || f == [1, 2, 0] || f == [2, 0, 1] || f == [2, 1, 0]
  {
    assert f[0] != f[1] && f[0] != f[2] && f[1] != f[2];
  }

  lemma ThreeOutcomes(st: Store, a: Job, b: Job, c: Job)
    ensures Outcomes(st, [a, b, c]) == Outcome(Outcome(Outcome(st, a), b), c)
  {
    assert [a, b, c][1..] == [b, c];
    TwoOutcomes(Outcome(st, a), b, c);
  }

  lemma RemoverFirst()
    ensures Outcomes(Scene(true, false, false), [Remover(), Linker(), Marker()]) == Scene(false, true, true)
    ensures Outcomes(Scene(true, false, false), [Remover(), Marker(), Linker()]) == Scene(false, false, true)
  {
    ThreeOutcomes(Scene(true, false, false), Remover(), Linker(), Marker());
    ThreeOutcomes(Scene(true, false, false), Remover(), Marker(), Linker());
    RemoverOn(true, false, false);
    LinkerOn(false, false, false);
    MarkerOn(false, false, true);
    MarkerOn(false, false, false);
  }

  lemma LinkerFirst()
    ensures Outcomes(Scene(true, false, false), [Linker(), Remover(), Marker()]) == Scene(false, false, false)
    ensures Outcomes(Scene(true, false, false), [Linker(), Marker(), Remover()]) == Scene(true, true, true)
  {
    ThreeOutcomes(Scene(true, false, false), Linker(), Remover(), Marker());
    ThreeOutcomes(Scene(true, false, false), Linker(), Marker(), Remover());
    LinkerOn(true, false, false);
    RemoverOn(true, false, true);
    MarkerOn(false, false, false);
    MarkerOn(true, false, true);
    RemoverOn(true, true, true);
  }

  lemma MarkerFirst()
    ensures Outcomes(Scene(true, false, false), [Marker(), Remover(), Linker()]) == Scene(false, false, true)
    ensures Outcomes(Scene(true, false, false), [Marker(), Linker(), Remover()]) == Scene(false, false, false)
  {
    ThreeOutcomes(Scene(true, false, false), Marker(), Remover(), Linker());
    ThreeOutcomes(Scene(true, false, false), Marker(), Linker(), Remover());
    MarkerOn(true, false, false);
    RemoverOn(true, false, false);
    LinkerOn(false, false, false);
    LinkerOn(true, false, false);
    RemoverOn(true, false, true);
  }

  lemma ScenesDiffer(zero: bool, marked: bool, edge: bool)
    requires zero || !marked || edge
    ensures Scene(zero, marked, edge) != Scene(false, true, false)
  {
    var st, other := Scene(zero, marked, edge), Scene(false, true, false);
    RowsDiffer();
    assert 0 in st.vertices <==> zero;
    assert st.vertices[1] == if marked then MARKED else EMPTY_ROW;
    assert 5 in st.edges <==> edge;
    assert 0 !in other.vertices && other.vertices[1] == MARKED && 5 !in other.edges;
  }

  lemma RowsDiffer()
    ensures MARKED != EMPTY_ROW
  {
    assert "m" in MARKED.props && "m" !in EMPTY_ROW.props;
  }

  ghost function Jobs(): seq<Job> { [Remover(), Linker(), Marker()] }

  lemma NotInThisOrder(f: seq<nat>)
    requires Permutes(f, 3)
    ensures Outcomes(Scene(true, false, false), Arranged(Jobs(), f)) != Scene(false, true, false)
  {
    ThreeOrders(f);
    assert Arranged(Jobs(), f) == [Jobs()[f[0]], Jobs()[f[1]], Jobs()[f[2]]];
    if f[0] == 0 {
      RemoverFirst();
      ScenesDiffer(false, true, true); ScenesDiffer(false, false, true);
    } else if f[0] == 1 {
      LinkerFirst();
      ScenesDiffer(false, false, false); ScenesDiffer(true, true, true);
    } else {
      MarkerFirst();
      ScenesDiffer(false, false, true); ScenesDiffer(false, false, false);
    }
  }

  /** No order deletes vertex 0, marks vertex 1 and ends without the edge. */
  lemma NoOrderMarksAndRemoves()
    ensures Unserializable(Scene(true, false, false), Jobs(), Scene(false, true, false))
  {
    var st, final := Scene(true, false, false), Scene(false, true, false);
    forall f | Permutes(f, |Jobs()|) ensures !Serial(st, Arranged(Jobs(), f), final) {
      NotInThisOrder(f);
      if Serial(st, Arranged(Jobs(), f), final) { SerialIsOutcomes(st, Arranged(Jobs(), f), final); }
    }
  }

  lemma BufferFacts()
    ensures var r, l, m := Removes([V(EMPTY_ROW), V(EMPTY_ROW)]), Links([]), Marks([E(LINK)]);
      && r.Valid() && l.Valid() && m.Valid()
      && r.WriteSetOf() == WriteSet({0}, {}, {}, {}, {}, {}) && l.WriteSetOf() == WriteSet({}, {5}, {}, {}, {}, {})
      && m.WriteSetOf() == WriteSet({1}, {}, {}, {}, {}, {})
      && (forall st :: !VariantOverwrite(r, st) && !VariantOverwrite(l, st) && !VariantOverwrite(m, st))
  {
    var r, l, m := Removes([V(EMPTY_ROW), V(EMPTY_ROW)]), Links([]), Marks([E(LINK)]);
    assert r.edges.Keys == {} && l.edges.Keys == {5} && m.edges.Keys == {};
    assert r.vertexProps.Keys == {} && l.vertexProps.Keys == {} && m.vertexProps.Keys == {1};
    assert "m" in m.vertexProps[1] && !m.CarveOut(1);
  }

  lemma ReadSetOfJob(tx: Tx, j: Job)
    requires tx.program == ProgramOf(j) && |tx.seen| == |j.items|
    ensures ReadSetOf(tx) == ReadSet(set i | 0 <= i < |j.items| && j.items[i].Vertex? :: j.items[i].vid,
                                     set i | 0 <= i < |j.items| && j.items[i].Edge? :: j.items[i].eid)
  {
    forall i | 0 <= i < |j.items| ensures Reads(tx, i) && ItemRead(tx, i) == j.items[i] {
      assert |tx.seen[..i]| == i;
    }
  }

  /** The remover has read both vertices; meanwhile the edge is inserted and committed. */
  ghost function LinkCommitted(): State {
    var r := Tx(ProgramOf(Remover()), 0, 0, [V(EMPTY_ROW), V(EMPTY_ROW)], [0, 0]);
    var l := Tx(ProgramOf(Linker()), 0, 0, [], []);
    State(1, [Stamped(1, Links([]).WriteSetOf())], 2, Scene(true, false, false), [Commit(l, Links([]))], [1], Free, map[0 := r])
  }

  lemma ReachLinkCommitted() returns (run: seq<State>)
    ensures Run(run) && run[|run| - 1] == LinkCommitted()
  {
    var st := Scene(true, false, false);
    var s0 := State(0, [], 2, st, [], [], Free, map[]);
    run := [s0];
    run := OpenSteps(run, 0, Remover(), 2);
    assert Lookups(st, Remover().items)[..2] == [V(EMPTY_ROW), V(EMPTY_ROW)] && seq(2, _ => 0) == [0, 0];
    run := OpenSteps(run, 1, Linker(), 0);
    var s := run[|run| - 1];
    assert Lookups(st, Linker().items)[..0] == [] && seq(0, _ => 0) == [];
    BufferFacts();
    assert MayCommit(s, 1);
    run := CommitSteps(run, 1);
    assert run[|run| - 1] == LinkCommitted();
  }

  /** The marker has read the edge; then the remover commits, and the edge goes with vertex 0. */
  ghost function RemovalCommitted(): State {
    var s := LinkCommitted();
    var m := Tx(ProgramOf(Marker()), 1, 1, [E(LINK)], [1]);
    var r := s.live[0];
    var b := Removes([V(EMPTY_ROW), V(EMPTY_ROW)]);
    s.(sequence := 2, registry := s.registry + [Stamped(2, b.WriteSetOf())], log := s.log + [Commit(r, b)], stamps := [1, 2], live := map[2 := m])
  }

  lemma LinkStore()
    ensures StoreAt(Scene(true, false, false), LinkCommitted().log, 1) == Scene(true, false, true)
  {
    var st := Scene(true, false, false);
    LinkerOn(true, false, false);
    assert StoreAt(st, LinkCommitted().log, 0) == st;
    assert Outcome(st, Linker()) == Apply(st, Links([]));
  }

  /** Neither vertex the remover read is in the write-set of the inserted edge. */
  lemma RemoverMayCommit(t: State)
    requires var s := LinkCommitted(); t == s.(live := s.live[2 := Tx(ProgramOf(Marker()), 1, 1, [E(LINK)], [1])])
    ensures MayCommit(t, 0) && t.live[0].program(t.live[0].seen) == Finish(Removes([V(EMPTY_ROW), V(EMPTY_ROW)]))
  {
    BufferFacts();
    ReadSetOfJob(t.live[0], Remover());
  }

  /** The edge the marker read is not in the write-set of the deletion that removed it. */
  lemma MarkerMayCommit()
    ensures MayCommit(RemovalCommitted(), 2) && RemovalCommitted().live[2].program([E(LINK)]) == Finish(Marks([E(LINK)]))
  {
    BufferFacts();
    ReadSetOfJob(RemovalCommitted().live[2], Marker());
  }

  lemma ReachRemoval() returns (run: seq<State>)
    ensures Run(run) && run[|run| - 1] == RemovalCommitted()
  {
    run := ReachLinkCommitted();
    var s := LinkCommitted();
    LinkStore();
    run := OpenSteps(run, 2, Marker(), 1);
    assert Lookups(Scene(true, false, true), Marker().items)[..1] == [E(LINK)] && seq(1, _ => 1) == [1];
    var t := run[|run| - 1];
    assert t == s.(live := s.live[2 := Tx(ProgramOf(Marker()), 1, 1, [E(LINK)], [1])]);
    RemoverMayCommit(t);
    run := CommitSteps(run, 0);
    assert run[|run| - 1].live == RemovalCommitted().live;
  }

  lemma RemovalStore()
    ensures StoreAt(Scene(true, false, false), RemovalCommitted().log, 2) == Scene(false, false, false)
  {
    var st, log := Scene(true, false, false), RemovalCommitted().log;
    LinkStore();
    StoreAtPrefix(st, LinkCommitted().log, [log[1]], 1);
    RemoverOn(true, false, true);
    assert Lookups(Scene(true, false, true), Remover().items) == [V(EMPTY_ROW), V(EMPTY_ROW)];
  }

  lemma AfterMark(s: State, t: State)
    requires s == RemovalCommitted() && t.initial == s.initial && t.log == s.log + [Commit(s.live[2], Marks([E(LINK)]))]
    ensures StoreAt(t.initial, t.log, 2) == Scene(false, false, false) && StoreAt(t.initial, t.log, 3) == Scene(false, true, false)
    ensures !RunsAlone(t.log[2].tx, t.log[2].buffer, StoreAt(t.initial, t.log, 2))
  {
    RemovalStore();
    StoreAtPrefix(s.initial, s.log, [t.log[2]], 2);
    MarkApplied(false, false, false);
    StaleEdge(t.log[2].tx, t.log[2].buffer);
  }

  lemma StaleEdge(tx: Tx, b: Buffer)
    requires tx.program == ProgramOf(Marker()) && tx.seen == [E(LINK)]
    ensures !RunsAlone(tx, b, Scene(false, false, false))
  {
    assert tx.seen[..0] == [] && ItemRead(tx, 0) == Edge(5);
  }

  /**
   A writer that read an edge commits after a deletion took the edge along. The deletion's
   write-set names only the vertex, so the writer passes validation; no serial order of the
   three programs ends in the state reached.
   */
  lemma CascadeStalesRead()
    ensures exists run: seq<State> ::
      && Run(run)
      && var s := run[|run| - 1];
      && s.initial == Scene(true, false, false) && s.live == map[] && s.lock == Free && |s.log| == 3
      && s.log[0].Commit? && s.log[0].tx.program == ProgramOf(Linker())
      && s.log[1].Commit? && s.log[1].tx.program == ProgramOf(Remover())
      && s.log[2].Commit? && s.log[2].tx.program == ProgramOf(Marker()) && !s.log[2].buffer.WriteSetOf().IsEmpty()
      && !RunsAlone(s.log[2].tx, s.log[2].buffer, StoreAt(s.initial, s.log, 2))
      && Unserializable(s.initial, Jobs(), StoreAt(s.initial, s.log, 3))
  {
    var run := ReachRemoval();
    var s := RemovalCommitted();
    BufferFacts();
    MarkerMayCommit();
    run := CommitSteps(run, 2);
    AfterMark(s, run[|run| - 1]);
    NoOrderMarksAndRemoves();
  }
}
