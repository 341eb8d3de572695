/**
 The tagged CRDT value of a property (`uni-crdt/src/lib.rs`), all eight variants, and the
 direction a stored value moves in when copies are merged into it. Proved: which written copies
 change nothing; which ones lose what was stored; and that without a loss no sequence of merges
 ever returns to an earlier value.
 */
module Crdts {
  import opened Basics
  import Bytes
  import Clocks
  import ORSet
  import Rga
  import VCRegister

  /** A value with its time; the value is its serialized form. */
  datatype Timed = Timed(value: seq<nat>, timestamp: int)

  datatype Crdt =
    | GCounter(counts: Clocks.Clock)
    | GSet(elems: set<string>)
    | ObservedRemove(rep: ORSet.Rep)
    | LastWriter(cell: Timed)
    | LastWriterMap(cells: map<string, Timed>)
    | Sequence(nodes: Rga.Nodes)
    | VectorClock(clock: Clocks.Clock)
    | Causal(reg: VCRegister.Reg)

  predicate SameVariant(a: Crdt, b: Crdt) {
    || (a.GCounter? && b.GCounter?) || (a.GSet? && b.GSet?) || (a.ObservedRemove? && b.ObservedRemove?)
    || (a.LastWriter? && b.LastWriter?) || (a.LastWriterMap? && b.LastWriterMap?) || (a.Sequence? && b.Sequence?)
    || (a.VectorClock? && b.VectorClock?) || (a.Causal? && b.Causal?)
  }

  // ---- last-writer-wins cells

  /** By time, then by serialized form. */
  predicate Older(a: Timed, b: Timed) {
    a.timestamp < b.timestamp || (a.timestamp == b.timestamp && Bytes.Less(a.value, b.value))
  }

  function Later(self: Timed, other: Timed): Timed { if Older(self, other) then other else self }

  predicate CellLeq(a: Timed, b: Timed) { a == b || Older(a, b) }

  lemma CellsAreOrdered(a: Timed, b: Timed)
    ensures CellLeq(a, b) || CellLeq(b, a)
    ensures CellLeq(a, b) && CellLeq(b, a) ==> a == b
  {
    Bytes.LessIsTotal(a.value, b.value);
    if Bytes.Less(a.value, b.value) { Bytes.LessIsAsymmetric(a.value, b.value); }
    if Bytes.Less(b.value, a.value) { Bytes.LessIsAsymmetric(b.value, a.value); }
  }

  /** The merged cell is the later one; of two at one time, the one with the larger serialized value. */
  lemma LaterIs(self: Timed, other: Timed)
    ensures self.timestamp < other.timestamp ==> Later(self, other) == other
    ensures other.timestamp < self.timestamp ==> Later(self, other) == self
    ensures self.timestamp == other.timestamp && Bytes.Less(self.value, other.value) ==> Later(self, other) == other
    ensures self.timestamp == other.timestamp && !Bytes.Less(self.value, other.value) ==> Later(self, other) == self
  {
  }

  /** A map of cells is merged key by key. */
  lemma LaterCellsAre(self: map<string, Timed>, other: map<string, Timed>, k: string)
    ensures k in LaterCells(self, other) <==> k in self || k in other
    ensures k in self && k !in other ==> LaterCells(self, other)[k] == self[k]
    ensures k in other && k !in self ==> LaterCells(self, other)[k] == other[k]
    ensures k in self && k in other ==>
      var m := LaterCells(self, other)[k];
      && (m == self[k] || m == other[k])
      && m.timestamp == (if self[k].timestamp < other[k].timestamp then other[k].timestamp else self[k].timestamp)
      && (self[k].timestamp == other[k].timestamp ==> !Bytes.Less(m.value, self[k].value) && !Bytes.Less(m.value, other[k].value))
  {
    if k in self && k in other {
      var a, b := self[k], other[k];
      LaterIs(a, b);
      Bytes.LessIsTotal(a.value, b.value);
      if Bytes.Less(a.value, b.value) { Bytes.LessIsAsymmetric(a.value, b.value); }
      if Bytes.Less(a.value, a.value) { Bytes.LessIsAsymmetric(a.value, a.value); }
      if Bytes.Less(b.value, b.value) { Bytes.LessIsAsymmetric(b.value, b.value); }
    }
  }

  lemma CellLeqTransitive(a: Timed, b: Timed, c: Timed)
    requires CellLeq(a, b) && CellLeq(b, c)
    ensures CellLeq(a, c)
  {
    if Bytes.Less(a.value, b.value) && Bytes.Less(b.value, c.value) { Bytes.LessIsTransitive(a.value, b.value, c.value); }
  }

  lemma LaterIsAbove(self: Timed, other: Timed)
    ensures CellLeq(other, Later(self, other))
    ensures Later(self, other) == other <==> CellLeq(self, other)
  {
    CellsAreOrdered(self, other);
  }

  function LaterCells(self: map<string, Timed>, other: map<string, Timed>): map<string, Timed> {
    map k | k in self.Keys + other.Keys ::
      if k !in self then other[k] else if k !in other then self[k] else Later(self[k], other[k])
  }

  predicate CellsLeq(m: map<string, Timed>, n: map<string, Timed>) {
    m.Keys <= n.Keys && forall k :: k in m ==> CellLeq(m[k], n[k])
  }

  lemma LaterCellsAreAbove(self: map<string, Timed>, other: map<string, Timed>)
    ensures CellsLeq(other, LaterCells(self, other))
    ensures LaterCells(self, other) == other <==> CellsLeq(self, other)
  {
    var m := LaterCells(self, other);
    forall k | k in other ensures CellLeq(other[k], m[k]) {
      if k in self { LaterIsAbove(self[k], other[k]); }
    }
    if CellsLeq(self, other) {
      assert m.Keys == other.Keys;
      forall k | k in other ensures m[k] == other[k] {
        if k in self { LaterIsAbove(self[k], other[k]); }
      }
    }
    if m == other {
      forall k | k in self ensures k in other && CellLeq(self[k], other[k]) {
        assert k in m;
        LaterIsAbove(self[k], other[k]);
      }
    }
  }

  lemma CellsLeqTransitive(l: map<string, Timed>, m: map<string, Timed>, n: map<string, Timed>)
    requires CellsLeq(l, m) && CellsLeq(m, n)
    ensures CellsLeq(l, n)
  {
    forall k | k in l ensures CellLeq(l[k], n[k]) { CellLeqTransitive(l[k], m[k], n[k]); }
  }

  lemma CellsLeqAntisymmetric(m: map<string, Timed>, n: map<string, Timed>)
    requires CellsLeq(m, n) && CellsLeq(n, m)
    ensures m == n
  {
    assert m.Keys == n.Keys;
    forall k | k in m ensures m[k] == n[k] { CellsAreOrdered(m[k], n[k]); }
  }

  // ---- observed-remove sets, well-formed or not

  ghost predicate NoEmpty(a: ORSet.Rep) { forall e :: e in a.dots ==> a.dots[e] != {} }

  predicate Observed(a: ORSet.Rep, d: ORSet.Dot) { d.counter <= ORSet.Seen(a, d.actor) }

  /** With the same version vector only observed dots have gone, and only unobserved ones have come. */
  ghost predicate DotsMove(a: ORSet.Rep, b: ORSet.Rep) {
    && (forall e, d :: d in ORSet.DotsOf(b, e) && Observed(a, d) ==> d in ORSet.DotsOf(a, e))
    && (forall e, d :: d in ORSet.DotsOf(a, e) && !Observed(a, d) ==> d in ORSet.DotsOf(b, e))
  }

  ghost predicate SetLeq(a: ORSet.Rep, b: ORSet.Rep) {
    a == b || (Clocks.Leq(a.vv, b.vv) && NoEmpty(b) && (a.vv == b.vv ==> DotsMove(a, b)))
  }

  lemma SetLeqTransitive(a: ORSet.Rep, b: ORSet.Rep, c: ORSet.Rep)
    requires SetLeq(a, b) && SetLeq(b, c)
    ensures SetLeq(a, c)
  {
    if a != b && b != c {
      Clocks.LeqTransitive(a.vv, b.vv, c.vv);
      if a.vv == c.vv {
        Clocks.LeqAntisymmetric(a.vv, b.vv);
        DotsMoveOn(a, b, c);
      }
    }
  }

  lemma DotsMoveOn(a: ORSet.Rep, b: ORSet.Rep, c: ORSet.Rep)
    requires a.vv == b.vv && DotsMove(a, b) && DotsMove(b, c)
    ensures DotsMove(a, c)
  {
    assert forall d :: Observed(a, d) <==> Observed(b, d);
  }

  lemma SetLeqAntisymmetric(a: ORSet.Rep, b: ORSet.Rep)
    requires SetLeq(a, b) && SetLeq(b, a)
    ensures a == b
  {
    if a != b {
      Clocks.LeqAntisymmetric(a.vv, b.vv);
      forall e, d ensures d in ORSet.DotsOf(a, e) <==> d in ORSet.DotsOf(b, e) {
        assert Observed(a, d) <==> Observed(b, d);
      }
      ORSet.SameRep(a, b);
    }
  }

  lemma MergedSetIsAbove(n: ORSet.Rep, o: ORSet.Rep)
    ensures SetLeq(o, ORSet.Merged(n, o))
  {
    var m := ORSet.Merged(n, o);
    Clocks.JoinIsAbove(n.vv, o.vv);
    ORSet.MergedNoEmpty(n, o);
    if o.vv == m.vv {
      forall e, d ensures d in ORSet.DotsOf(m, e) && Observed(o, d) ==> d in ORSet.DotsOf(o, e)
        ensures d in ORSet.DotsOf(o, e) && !Observed(o, d) ==> d in ORSet.DotsOf(m, e)
      {
        ORSet.MergedDot(n, o, e, d);
        ORSet.MergedSeen(n, o, d.actor);
      }
    }
  }

  /** The written copy had observed the dot and no longer holds it. */
  ghost predicate RemovedBy(n: ORSet.Rep, e: ORSet.Elem, d: ORSet.Dot) {
    d !in ORSet.DotsOf(n, e) && Observed(n, d)
  }

  /** Nothing to add and nothing to remove. */
  ghost predicate SetAbsorbed(n: ORSet.Rep, o: ORSet.Rep) {
    && NoEmpty(o) && Clocks.Leq(n.vv, o.vv)
    && (forall e, d :: d in ORSet.DotsOf(o, e) ==> !RemovedBy(n, e, d))
    && (forall e, d :: d in ORSet.DotsOf(n, e) ==> d in ORSet.DotsOf(o, e) || Observed(o, d))
  }

  /** A dot comes through the merge as it was stored. */
  ghost predicate DotStays(n: ORSet.Rep, o: ORSet.Rep, e: ORSet.Elem, d: ORSet.Dot) {
    d in ORSet.DotsOf(ORSet.Merged(n, o), e) <==> d in ORSet.DotsOf(o, e)
  }

  lemma DotStaysExactly(n: ORSet.Rep, o: ORSet.Rep, e: ORSet.Elem, d: ORSet.Dot)
    ensures DotStays(n, o, e, d) <==>
      if d in ORSet.DotsOf(o, e) then !RemovedBy(n, e, d) else d in ORSet.DotsOf(n, e) ==> Observed(o, d)
  {
    ORSet.MergedDot(n, o, e, d);
  }

  lemma SetAbsorbedExactly(n: ORSet.Rep, o: ORSet.Rep)
    ensures ORSet.Merged(n, o) == o <==> SetAbsorbed(n, o)
  {
    Clocks.JoinIsAbove(n.vv, o.vv);
    ORSet.MergedNoEmpty(n, o);
    if SetAbsorbed(n, o) {
      forall e, d ensures d in ORSet.DotsOf(ORSet.Merged(n, o), e) <==> d in ORSet.DotsOf(o, e) { DotStaysExactly(n, o, e, d); }
      ORSet.SameRep(ORSet.Merged(n, o), o);
    }
    if ORSet.Merged(n, o) == o { SameMeansAbsorbed(n, o); }
  }

  lemma SameMeansAbsorbed(n: ORSet.Rep, o: ORSet.Rep)
    requires ORSet.Merged(n, o) == o
    ensures SetAbsorbed(n, o)
  {
    Clocks.JoinIsAbove(n.vv, o.vv);
    ORSet.MergedNoEmpty(n, o);
    forall e, d ensures d in ORSet.DotsOf(o, e) ==> !RemovedBy(n, e, d) { DotStaysExactly(n, o, e, d); }
    forall e, d ensures d in ORSet.DotsOf(n, e) ==> d in ORSet.DotsOf(o, e) || Observed(o, d) { DotStaysExactly(n, o, e, d); }
  }

  // ---- growable sequences

  /** Every node is still there and the same, and no deletion is undone. */
  ghost predicate NodesLeq(a: Rga.Nodes, b: Rga.Nodes) {
    a.Keys <= b.Keys && Rga.Agree(a, b) && forall id :: id in a && a[id].tombstone ==> b[id].tombstone
  }

  lemma NodesLeqTransitive(a: Rga.Nodes, b: Rga.Nodes, c: Rga.Nodes)
    requires NodesLeq(a, b) && NodesLeq(b, c)
    ensures NodesLeq(a, c)
  {
    forall id | id in a ensures a[id].(tombstone := false) == c[id].(tombstone := false) {
      assert a[id].(tombstone := false) == b[id].(tombstone := false);
    }
  }

  lemma NodesLeqAntisymmetric(a: Rga.Nodes, b: Rga.Nodes)
    requires NodesLeq(a, b) && NodesLeq(b, a)
    ensures a == b
  {
    assert a.Keys == b.Keys;
    forall id | id in a ensures a[id] == b[id] { assert a[id].(tombstone := false) == b[id].(tombstone := false); }
  }

  lemma MergedNodesAbove(n: Rga.Nodes, o: Rga.Nodes)
    ensures NodesLeq(o, Rga.Merged(n, o)) <==> Rga.Agree(n, o)
    ensures Rga.Merged(n, o) == o <==> NodesLeq(n, o)
  {
    var m := Rga.Merged(n, o);
    forall id | id in n && id in o
      ensures o[id].(tombstone := false) == m[id].(tombstone := false) <==> n[id].(tombstone := false) == o[id].(tombstone := false)
      ensures m[id] == o[id] <==> n[id].(tombstone := false) == o[id].(tombstone := false) && (n[id].tombstone ==> o[id].tombstone)
    {
    }
    if NodesLeq(n, o) { assert m.Keys == o.Keys; }
    if m == o {
      forall id | id in n ensures id in o { assert id in m; }
    }
  }

  // ---- vector-clock registers

  /** The clock has moved on, or nothing has changed: a value is replaced only under another clock. */
  ghost predicate RegLeq(a: VCRegister.Reg, b: VCRegister.Reg) {
    a == b || (Clocks.Leq(a.clock, b.clock) && a.clock != b.clock)
  }

  /** The written clock says nothing the stored one does not, and its value wins all the same. */
  ghost predicate RegClash(n: VCRegister.Reg, o: VCRegister.Reg) {
    && Clocks.Leq(n.clock, o.clock) && !VCRegister.Before(n.clock, o.clock)
    && if n.clock == o.clock then n.value != o.value else Bytes.Less(o.value, n.value)
  }

  lemma NotAfter(c: Clocks.Clock, d: Clocks.Clock)
    requires Clocks.Leq(c, d)
    ensures !VCRegister.Before(d, c)
  {
    forall a ensures Clocks.Count(c, a) <= Clocks.Count(d, a) { }
  }

  lemma MergedRegAbove(n: VCRegister.Reg, o: VCRegister.Reg)
    ensures RegLeq(o, VCRegister.Merged(n, o)) <==> !RegClash(n, o)
    ensures VCRegister.Merged(n, o) == o <==> Clocks.Leq(n.clock, o.clock) && !RegClash(n, o)
  {
    Clocks.JoinIsAbove(n.clock, o.clock);
    if Clocks.Leq(n.clock, o.clock) {
      NotAfter(n.clock, o.clock);
      Bytes.LessIsTotal(n.value, o.value);
      if Bytes.Less(n.value, o.value) { Bytes.LessIsAsymmetric(n.value, o.value); }
    }
  }

  // ---- all variants

  /** Merging a stored value into the written one, as a commit does. */
  ghost function Merged(n: Crdt, o: Crdt): Crdt
    requires SameVariant(n, o)
  {
    match n
    case GCounter(c) => GCounter(Clocks.Join(c, o.counts))
    case GSet(e) => GSet(e + o.elems)
    case ObservedRemove(r) => ObservedRemove(ORSet.Merged(r, o.rep))
    case LastWriter(t) => LastWriter(Later(t, o.cell))
    case LastWriterMap(m) => LastWriterMap(LaterCells(m, o.cells))
    case Sequence(s) => Sequence(Rga.Merged(s, o.nodes))
    case VectorClock(c) => VectorClock(Clocks.Join(c, o.clock))
    case Causal(r) => Causal(VCRegister.Merged(r, o.reg))
  }

  /** What a stored value may become without being lost: counts grow, elements stay, newer cells win, nodes stay. */
  ghost predicate Leq(a: Crdt, b: Crdt) {
    SameVariant(a, b) &&
    match a
    case GCounter(c) => Clocks.Leq(c, b.counts)
    case GSet(e) => e <= b.elems
    case ObservedRemove(r) => SetLeq(r, b.rep)
    case LastWriter(t) => CellLeq(t, b.cell)
    case LastWriterMap(m) => CellsLeq(m, b.cells)
    case Sequence(s) => NodesLeq(s, b.nodes)
    case VectorClock(c) => Clocks.Leq(c, b.clock)
    case Causal(r) => RegLeq(r, b.reg)
  }

  lemma LeqReflexive(a: Crdt)
    ensures Leq(a, a)
  {
  }

  lemma LeqTransitive(a: Crdt, b: Crdt, c: Crdt)
    requires Leq(a, b) && Leq(b, c)
    ensures Leq(a, c)
  {
    match a
    case GCounter(x) => Clocks.LeqTransitive(x, b.counts, c.counts);
    case GSet(_) =>
    case ObservedRemove(r) => SetLeqTransitive(r, b.rep, c.rep);
    case LastWriter(t) => CellLeqTransitive(t, b.cell, c.cell);
    case LastWriterMap(m) => CellsLeqTransitive(m, b.cells, c.cells);
    case Sequence(s) => NodesLeqTransitive(s, b.nodes, c.nodes);
    case VectorClock(x) => Clocks.LeqTransitive(x, b.clock, c.clock);
    case Causal(r) => RegLeqTransitive(r, b.reg, c.reg);
  }

  lemma RegLeqTransitive(a: VCRegister.Reg, b: VCRegister.Reg, c: VCRegister.Reg)
    requires RegLeq(a, b) && RegLeq(b, c)
    ensures RegLeq(a, c)
  {
    if a != b && b != c {
      Clocks.LeqTransitive(a.clock, b.clock, c.clock);
      if a.clock == c.clock { Clocks.LeqAntisymmetric(a.clock, b.clock); }
    }
  }

  /** No move is ever undone by further moves. */
  lemma LeqAntisymmetric(a: Crdt, b: Crdt)
    requires Leq(a, b) && Leq(b, a)
    ensures a == b
  {
    match a
    case GCounter(x) => Clocks.LeqAntisymmetric(x, b.counts);
    case GSet(_) =>
    case ObservedRemove(r) => SetLeqAntisymmetric(r, b.rep);
    case LastWriter(t) => CellsAreOrdered(t, b.cell);
    case LastWriterMap(m) => CellsLeqAntisymmetric(m, b.cells);
    case Sequence(s) => NodesLeqAntisymmetric(s, b.nodes);
    case VectorClock(x) => Clocks.LeqAntisymmetric(x, b.clock);
    case Causal(r) => if r != b.reg { Clocks.LeqAntisymmetric(r.clock, b.reg.clock); }
  }

  /**
   The written copy takes the stored one's place: two nodes under one id, or two registers
   of which the written one knows of no further write. No other variant can.
   */
  ghost predicate Clashes(n: Crdt, o: Crdt) {
    || (n.Sequence? && o.Sequence? && !Rga.Agree(n.nodes, o.nodes))
    || (n.Causal? && o.Causal? && RegClash(n.reg, o.reg))
  }

  /** A merge only moves the stored value on, exactly when the two do not clash. */
  lemma MergeMovesOnExactly(n: Crdt, o: Crdt)
    requires SameVariant(n, o)
    ensures Leq(o, Merged(n, o)) <==> !Clashes(n, o)
  {
    match n
    case GCounter(c) => Clocks.JoinIsAbove(c, o.counts);
    case GSet(_) =>
    case ObservedRemove(r) => MergedSetIsAbove(r, o.rep);
    case LastWriter(t) => LaterIsAbove(t, o.cell);
    case LastWriterMap(m) => LaterCellsAreAbove(m, o.cells);
    case Sequence(s) => MergedNodesAbove(s, o.nodes);
    case VectorClock(c) => Clocks.JoinIsAbove(c, o.clock);
    case Causal(r) => MergedRegAbove(r, o.reg);
  }

  /** The written copy carries nothing that the stored one does not already hold. */
  ghost predicate Absorbed(n: Crdt, o: Crdt) {
    && SameVariant(n, o)
    && if n.ObservedRemove? then SetAbsorbed(n.rep, o.rep) else Leq(n, o) && !Clashes(n, o)
  }

  /** Exactly such copies leave the stored value as it is. */
  lemma AbsorbedExactly(n: Crdt, o: Crdt)
    requires SameVariant(n, o)
    ensures Merged(n, o) == o <==> Absorbed(n, o)
  {
    match n
    case GCounter(c) => Clocks.JoinIsAbove(c, o.counts);
    case GSet(_) =>
    case ObservedRemove(r) => SetAbsorbedExactly(r, o.rep);
    case LastWriter(t) => LaterIsAbove(t, o.cell);
    case LastWriterMap(m) => LaterCellsAreAbove(m, o.cells);
    case Sequence(s) => MergedNodesAbove(s, o.nodes);
    case VectorClock(c) => Clocks.JoinIsAbove(c, o.clock);
    case Causal(r) =>
      MergedRegAbove(r, o.reg);
      assert r.clock == o.reg.clock && !RegClash(r, o.reg) ==> r == o.reg;
  }

  /** The writer had observed the dot and holds it no more, for this element or any other. */
  ghost predicate Withdrawn(n: ORSet.Rep, d: ORSet.Dot) {
    Observed(n, d) && forall f :: d !in ORSet.DotsOf(n, f)
  }

  /** One dot stands for two elements: the written copy holds it, not for the element that the stored one has it for. */
  ghost predicate SharedDot(n: ORSet.Rep, o: ORSet.Rep, e: ORSet.Elem, f: ORSet.Elem, d: ORSet.Dot) {
    d in ORSet.DotsOf(o, e) && d in ORSet.DotsOf(n, f) && RemovedBy(n, e, d)
  }

  /** What was stored is kept: it has only moved on, and of a set no dot is gone that the writer had not withdrawn. */
  ghost predicate Keeps(n: Crdt, o: Crdt, later: Crdt) {
    && Leq(o, later)
    && (o.ObservedRemove? && n.ObservedRemove? ==>
          forall e, d :: d in ORSet.DotsOf(o.rep, e) && !Withdrawn(n.rep, d) ==> d in ORSet.DotsOf(later.rep, e))
  }

  /** The pairs of values whose merge loses what was stored. */
  ghost predicate Loses(n: Crdt, o: Crdt) {
    Clashes(n, o) || (n.ObservedRemove? && o.ObservedRemove? && exists e, f, d :: SharedDot(n.rep, o.rep, e, f, d))
  }

  /** A merge keeps what was stored, except for exactly those. */
  lemma MergeKeepsExactly(n: Crdt, o: Crdt)
    requires SameVariant(n, o)
    ensures Keeps(n, o, Merged(n, o)) <==> !Loses(n, o)
  {
    MergeMovesOnExactly(n, o);
    if n.ObservedRemove? {
      forall e, d | d in ORSet.DotsOf(o.rep, e)
        ensures d in ORSet.DotsOf(ORSet.Merged(n.rep, o.rep), e) <==> !RemovedBy(n.rep, e, d)
      {
        ORSet.MergedDot(n.rep, o.rep, e, d);
      }
      forall e, d | d in ORSet.DotsOf(o.rep, e)
        ensures RemovedBy(n.rep, e, d) && !Withdrawn(n.rep, d) <==> exists f :: SharedDot(n.rep, o.rep, e, f, d)
      {
        if RemovedBy(n.rep, e, d) && !Withdrawn(n.rep, d) {
          var f :| d in ORSet.DotsOf(n.rep, f);
          assert SharedDot(n.rep, o.rep, e, f, d);
        }
      }
    }
  }

  /** Two registers with one clock: each replaces the other, and a third write brings the first back. */
  lemma EqualClocksTakeTurns(x: VCRegister.Value, y: VCRegister.Value, c: Clocks.Clock)
    requires x != y
    ensures var a, b := Causal(VCRegister.Reg(x, c)), Causal(VCRegister.Reg(y, c));
      Clashes(b, a) && Merged(b, a) == b && Merged(a, Merged(b, a)) == a
  {
    Clocks.JoinIsAbove(c, c);
    assert !VCRegister.Before(c, c);
  }

  /** Two nodes under one id: the written one replaces the stored one. */
  lemma OneIdTwoNodes(id: Rga.Id, m: Rga.Node, n: Rga.Node)
    requires m.(tombstone := false) != n.(tombstone := false) && !m.tombstone
    ensures var o, w := Sequence(map[id := m]), Sequence(map[id := n]); Loses(w, o) && Merged(w, o) == w
  {
    var o, w := map[id := m], map[id := n];
    assert id in o && id in w && !Rga.Agree(w, o);
    assert Rga.Merged(w, o) == w;
  }

  /** One dot for two elements: the merge holds neither. */
  lemma OneDotTwoElements(e: ORSet.Elem, f: ORSet.Elem, d: ORSet.Dot)
    requires e != f
    ensures var vv := map[d.actor := d.counter];
      var o, w := ObservedRemove(ORSet.Rep(map[e := {d}], vv)), ObservedRemove(ORSet.Rep(map[f := {d}], vv));
      Loses(w, o) && Merged(w, o) == ObservedRemove(ORSet.Rep(map[], vv))
  {
    var vv := map[d.actor := d.counter];
    var o, w := ORSet.Rep(map[e := {d}], vv), ORSet.Rep(map[f := {d}], vv);
    assert SharedDot(w, o, e, f, d);
    assert ORSet.Surviving(w, o, e) == {} && ORSet.Surviving(w, o, f) == {};
    assert ORSet.Merged(w, o).dots == map[];
    Clocks.JoinIsAbove(vv, vv);
  }

  // ---- commuting

  lemma LaterCommutes(a: Timed, b: Timed)
    ensures Later(a, b) == Later(b, a)
  {
    CellsAreOrdered(a, b);
  }

  lemma LaterCellsCommute(m: map<string, Timed>, n: map<string, Timed>)
    ensures LaterCells(m, n) == LaterCells(n, m)
  {
    var l, r := LaterCells(m, n), LaterCells(n, m);
    assert l.Keys == r.Keys;
    forall k | k in l ensures l[k] == r[k] {
      if k in m && k in n { LaterCommutes(m[k], n[k]); }
    }
  }

  /** Two copies merge alike both ways, except for registers with one clock and two values, and nodes that differ under one id. */
  lemma MergeCommutesExactly(a: Crdt, b: Crdt)
    requires SameVariant(a, b)
    ensures Merged(a, b) == Merged(b, a) <==>
      && (a.Sequence? ==> Rga.Agree(a.nodes, b.nodes))
      && (a.Causal? ==> a.reg.clock != b.reg.clock || a.reg.value == b.reg.value)
  {
    match a
    case GCounter(c) => Clocks.JoinCommutes(c, b.counts);
    case GSet(_) =>
    case ObservedRemove(r) => ORSet.MergeCommutes(r, b.rep);
    case LastWriter(t) => LaterCommutes(t, b.cell);
    case LastWriterMap(m) => LaterCellsCommute(m, b.cells);
    case Sequence(s) => Rga.MergeCommutesExactly(s, b.nodes);
    case VectorClock(c) => Clocks.JoinCommutes(c, b.clock);
    case Causal(r) => VCRegister.MergeCommutesExactly(r, b.reg);
  }
}
