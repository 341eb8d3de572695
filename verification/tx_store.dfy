/**
 Rows, private transaction buffers and the commit-time merge (`runtime/l0.rs`), and the
 rule that decides which buffered writes enter the write-set (`WriteSet::from_l0`).
 */
module TxStore {
  import opened Basics
  import Clocks
  import opened CommitRegistry
  import Crdts
  import VCRegister

  /** A property value: a plain scalar or a CRDT of any variant. */
  datatype Val = Plain(n: int) | Crdt(c: Crdts.Crdt)

  type Props = map<string, Val>

  predicate IsCrdt(v: Val) { v.Crdt? }

  /** The two values have the same CRDT variant, so that one merges into the other. */
  predicate SameVariant(a: Val, b: Val) {
    a.Crdt? && b.Crdt? && Crdts.SameVariant(a.c, b.c)
  }

  /** Merges same-variant CRDTs, the stored one into the written one; overwrites everything else. */
  ghost function MergedValue(entry: Props, key: string, v: Val): Val {
    if key in entry && SameVariant(v, entry[key]) then Crdt(Crdts.Merged(v.c, entry[key].c)) else v
  }

  ghost function MergeProps(entry: Props, props: Props): Props {
    map key | key in entry.Keys + props.Keys ::
      if key in props then MergedValue(entry, key, props[key]) else entry[key]
  }

  datatype VertexRow = VertexRow(props: Props, labels: set<string>)
  datatype EdgeRow = EdgeRow(src: nat, dst: nat, edgeType: nat, props: Props)
  datatype Store = Store(vertices: map<nat, VertexRow>, edges: map<nat, EdgeRow>)

  /** A transaction's private write buffer. */
  datatype Buffer = Buffer(
    vertexProps: map<nat, Props>,
    vertexLabels: map<nat, set<string>>,
    vertexTombstones: set<nat>,
    labelOverwrites: set<nat>,
    edges: map<nat, EdgeRow>,
    edgeTombstones: set<nat>,
    vertexKeys: set<string>, edgeKeys: set<string>, mergeKeys: set<string>, extIds: set<string>)
  {
    /** Deleting drops a vertex's buffered properties; writing it again clears the tombstone. */
    predicate Valid() {
      vertexTombstones !! vertexProps.Keys && edgeTombstones !! edges.Keys
    }

    function LabelsOf(vid: nat): set<string> { if vid in vertexLabels then vertexLabels[vid] else {} }

    /** A write of CRDT properties only, without labels. */
    predicate CarveOut(vid: nat) {
      && vid in vertexProps
      && LabelsOf(vid) == {}
      && vertexProps[vid] != map[]
      && forall key :: key in vertexProps[vid] ==> IsCrdt(vertexProps[vid][key])
    }

    function WriteSetOf(): WriteSet {
      WriteSet(
        (set vid | vid in vertexProps && !CarveOut(vid)) + vertexTombstones + labelOverwrites,
        edges.Keys + edgeTombstones,
        vertexKeys, edgeKeys, mergeKeys, extIds)
    }

    /** The vertices whose writes conflict detection never sees. */
    function Exempt(): set<nat> {
      (set vid | vid in vertexProps && CarveOut(vid)) - vertexTombstones - labelOverwrites
    }
  }

  const EMPTY_BUFFER := Buffer(map[], map[], {}, {}, map[], {}, {}, {}, {}, {})
  const EMPTY_ROW := VertexRow(map[], {})

  function RowOf(st: Store, vid: nat): VertexRow { if vid in st.vertices then st.vertices[vid] else EMPTY_ROW }

  /** The row a live write leaves behind: merged properties, labels replaced or added. */
  ghost function NewRow(row: VertexRow, b: Buffer, vid: nat): VertexRow {
    VertexRow(
      if vid in b.vertexProps then MergeProps(row.props, b.vertexProps[vid]) else row.props,
      if vid in b.labelOverwrites then b.LabelsOf(vid) else row.labels + b.LabelsOf(vid))
  }

  /** The stored edges that go with the vertices a commit deletes; its buffer need not name them. */
  function Cascaded(st: Store, b: Buffer): set<nat> {
    set eid | eid in st.edges && (st.edges[eid].src in b.vertexTombstones || st.edges[eid].dst in b.vertexTombstones)
  }

  /** The edge a live write leaves behind: its properties merged into those of an edge still there. */
  ghost function NewEdge(st: Store, b: Buffer, eid: nat): EdgeRow
    requires eid in b.edges
  {
    if eid in st.edges && eid !in Cascaded(st, b)
    then b.edges[eid].(props := MergeProps(st.edges[eid].props, b.edges[eid].props))
    else b.edges[eid]
  }

  /** Merges a committed buffer into the store: deletions with their cascade first, then what is written. */
  ghost function Apply(st: Store, b: Buffer): Store {
    var written := b.vertexProps.Keys + (b.labelOverwrites * st.vertices.Keys);
    Store(
      map vid | vid in (st.vertices.Keys + written) - b.vertexTombstones ::
        if vid in written then NewRow(RowOf(st, vid), b, vid) else st.vertices[vid],
      map eid | eid in (st.edges.Keys - Cascaded(st, b)) + b.edges.Keys - b.edgeTombstones ::
        if eid in b.edges then NewEdge(st, b, eid) else st.edges[eid])
  }

  datatype Item = Vertex(vid: nat) | Edge(eid: nat)
  datatype Cell = Absent | V(row: VertexRow) | E(edge: EdgeRow)

  function Lookup(st: Store, x: Item): Cell {
    match x
    case Vertex(vid) => if vid in st.vertices then V(st.vertices[vid]) else Absent
    case Edge(eid) => if eid in st.edges then E(st.edges[eid]) else Absent
  }

  predicate Touches(ws: WriteSet, x: Item) {
    match x
    case Vertex(vid) => vid in ws.vertices
    case Edge(eid) => eid in ws.edges
  }

  /** The commit reaches the item although conflict detection is not told. */
  predicate Silently(st: Store, b: Buffer, x: Item) {
    match x
    case Vertex(vid) => vid in b.Exempt()
    case Edge(eid) => eid in Cascaded(st, b)
  }

  /** A commit changes only items of its write-set, its exempt vertices and the edges it cascades to. */
  lemma ApplyFrame(st: Store, b: Buffer, x: Item)
    requires !Touches(b.WriteSetOf(), x) && !Silently(st, b, x)
    ensures Lookup(Apply(st, b), x) == Lookup(st, x)
  {
    match x
    case Vertex(vid) =>
      assert vid !in b.vertexProps;
    case Edge(eid) =>
  }

  /** What conflict detection is told: every written item that is not a pure-CRDT write, and every key claimed. */
  lemma WriteSetIs(b: Buffer, vid: nat)
    ensures vid in b.WriteSetOf().vertices <==>
      || vid in b.vertexTombstones || vid in b.labelOverwrites
      || (vid in b.vertexProps && vid in b.vertexLabels && b.vertexLabels[vid] != {})
      || (vid in b.vertexProps && b.vertexProps[vid] == map[])
      || (vid in b.vertexProps && exists key :: key in b.vertexProps[vid] && b.vertexProps[vid][key].Plain?)
    ensures b.WriteSetOf().edges == b.edges.Keys + b.edgeTombstones
    ensures b.WriteSetOf().vertexKeys == b.vertexKeys && b.WriteSetOf().edgeKeys == b.edgeKeys
    ensures b.WriteSetOf().mergeKeys == b.mergeKeys && b.WriteSetOf().extIds == b.extIds
  {
    if vid in b.vertexProps && !b.CarveOut(vid) && b.LabelsOf(vid) == {} && b.vertexProps[vid] != map[] {
      var key :| key in b.vertexProps[vid] && !IsCrdt(b.vertexProps[vid][key]);
      assert b.vertexProps[vid][key].Plain?;
    }
  }

  /** A property after a write: plain values and values of another kind as written, CRDTs of one variant merged. */
  lemma WrittenPropsAre(entry: Props, props: Props)
    ensures var after := MergeProps(entry, props);
      && after.Keys == entry.Keys + props.Keys
      && (forall key :: key in entry && key !in props ==> after[key] == entry[key])
      && (forall key :: key in props && (key !in entry || props[key].Plain? || entry[key].Plain?) ==> after[key] == props[key])
      && (forall key :: key in props && key in entry && props[key].Crdt? && entry[key].Crdt? ==>
            after[key] == if Crdts.SameVariant(props[key].c, entry[key].c) then Crdt(Crdts.Merged(props[key].c, entry[key].c)) else props[key])
  {
  }

  /**
   What a commit leaves of a vertex. A deleted one is gone and a written one is there, with its
   properties merged into those it had. Replaced labels are the buffer's, others are added.
   Replacing the labels of a vertex that is not there does not bring it about.
   */
  lemma CommitLeavesVertex(st: Store, b: Buffer, vid: nat)
    requires b.Valid()
    ensures vid in Apply(st, b).vertices <==> vid !in b.vertexTombstones && (vid in st.vertices || vid in b.vertexProps)
    ensures vid in Apply(st, b).vertices ==>
      var before := if vid in st.vertices then st.vertices[vid] else VertexRow(map[], {});
      var labels := if vid in b.vertexLabels then b.vertexLabels[vid] else {};
      var after := Apply(st, b).vertices[vid];
      && after.props == (if vid in b.vertexProps then MergeProps(before.props, b.vertexProps[vid]) else before.props)
      && after.labels == (if vid in b.labelOverwrites then labels
                          else if vid in b.vertexProps then before.labels + labels
                          else before.labels)
  {
  }

  /**
   What a commit leaves of an edge. A deleted one is gone; a written one has the buffer's
   endpoints and type, its properties merged into those of an edge that did not go with a
   deleted vertex; any other edge stays exactly when both its ends do.
   */
  lemma CommitLeavesEdge(st: Store, b: Buffer, eid: nat)
    requires b.Valid()
    ensures eid in Apply(st, b).edges <==>
      || eid in b.edges
      || (eid in st.edges && eid !in b.edgeTombstones
            && st.edges[eid].src !in b.vertexTombstones && st.edges[eid].dst !in b.vertexTombstones)
    ensures eid in b.edges ==>
      var after, written := Apply(st, b).edges[eid], b.edges[eid];
      var kept := eid in st.edges && st.edges[eid].src !in b.vertexTombstones && st.edges[eid].dst !in b.vertexTombstones;
      && after.src == written.src && after.dst == written.dst && after.edgeType == written.edgeType
      && after.props == if kept then MergeProps(st.edges[eid].props, written.props) else written.props
    ensures eid in Apply(st, b).edges && eid !in b.edges ==> Apply(st, b).edges[eid] == st.edges[eid]
  {
  }

  /**
   Commit-time guard for exempt writes: some exempt property would replace a committed
   value of another CRDT variant.
   */
  ghost predicate VariantOverwrite(b: Buffer, st: Store) {
    exists vid, key :: ClashesInVariant(b, st, vid, key)
  }

  predicate ClashesInVariant(b: Buffer, st: Store, vid: nat, key: string) {
    && vid in b.vertexProps && vid !in b.vertexTombstones && b.CarveOut(vid)
    && vid in st.vertices
    && key in b.vertexProps[vid] && key in st.vertices[vid].props
    && IsCrdt(st.vertices[vid].props[key])
    && !SameVariant(b.vertexProps[vid][key], st.vertices[vid].props[key])
  }

  /** `later` still reflects what `earlier` recorded, when `written` is what came in between. */
  ghost predicate Keeps(written: Val, earlier: Val, later: Val) {
    if written.Crdt? && earlier.Crdt? && later.Crdt? then Crdts.Keeps(written.c, earlier.c, later.c) else later == earlier
  }

  /** Committing `b` loses nothing that the vertex's committed properties held. */
  ghost predicate MergesCleanly(b: Buffer, st: Store, vid: nat)
    requires b.Valid()
    requires vid in b.Exempt() && vid in st.vertices
  {
    var before, written, after := st.vertices[vid].props, b.vertexProps[vid], Apply(st, b).vertices[vid].props;
    forall key :: key in before ==>
      key in after && if key in written then Keeps(written[key], before[key], after[key]) else after[key] == before[key]
  }

  /**
   The guard is meant to keep every exempt write mergeable. Once it passes, an exempt write is
   lossless if and only if no property it writes holds a plain value, or a CRDT of the same
   variant that the written one takes the place of: a register whose clock the written one does
   not go beyond, a sequence with another node under one id, or a set with a dot minted twice.
   */
  lemma CarveOutLosesExactly(b: Buffer, st: Store, vid: nat)
    requires b.Valid()
    requires vid in b.Exempt() && vid in st.vertices
    requires !VariantOverwrite(b, st)
    ensures var before, written := st.vertices[vid].props, b.vertexProps[vid];
      MergesCleanly(b, st, vid) <==> forall key :: key in written && key in before ==>
        written[key].Crdt? && before[key].Crdt? && !Crdts.Loses(written[key].c, before[key].c)
  {
    var before, written := st.vertices[vid].props, b.vertexProps[vid];
    var after := Apply(st, b).vertices[vid].props;
    assert after == MergeProps(before, written);
    forall key | key in before && key in written
      ensures written[key].Crdt?
      ensures Keeps(written[key], before[key], after[key]) <==> before[key].Crdt? && !Crdts.Loses(written[key].c, before[key].c)
    {
      assert IsCrdt(written[key]);
      assert !ClashesInVariant(b, st, vid, key);
      if before[key].Crdt? { Crdts.MergeKeepsExactly(written[key].c, before[key].c); }
    }
  }

  ghost function ValueAt(vid: nat, key: string, v: Val): Store {
    Store(map[vid := VertexRow(map[key := v], {})], map[])
  }

  ghost function CrdtWrite(vid: nat, key: string, c: Crdts.Crdt): Buffer {
    EMPTY_BUFFER.(vertexProps := map[vid := map[key := Crdt(c)]])
  }

  lemma CrdtWriteIsExempt(vid: nat, key: string, c: Crdts.Crdt)
    ensures var b := CrdtWrite(vid, key, c); b.Valid() && b.Exempt() == {vid} && b.WriteSetOf() == EMPTY_BUFFER.WriteSetOf()
  {
    var b := CrdtWrite(vid, key, c);
    assert key in b.vertexProps[vid];
    assert b.CarveOut(vid);
  }

  lemma CrdtWriteLeaves(vid: nat, key: string, v: Val, c: Crdts.Crdt)
    ensures var st, b := ValueAt(vid, key, v), CrdtWrite(vid, key, c);
      Apply(st, b) == ValueAt(vid, key, MergedValue(map[key := v], key, Crdt(c)))
  {
    var st, b := ValueAt(vid, key, v), CrdtWrite(vid, key, c);
    assert Apply(st, b).edges == map[];
    assert MergeProps(map[key := v], map[key := Crdt(c)]) == map[key := MergedValue(map[key := v], key, Crdt(c))];
    assert RowOf(st, vid).labels + b.LabelsOf(vid) == {};
    assert Apply(st, b).vertices == ValueAt(vid, key, MergedValue(map[key := v], key, Crdt(c))).vertices;
  }

  /** An exempt write of one property: unclaimed, past the guard, and the committed value is gone. */
  ghost predicate SilentlyReplaces(vid: nat, key: string, v: Val, c: Crdts.Crdt) {
    var st, b := ValueAt(vid, key, v), CrdtWrite(vid, key, c);
    && b.Valid() && b.Exempt() == {vid} && b.WriteSetOf() == EMPTY_BUFFER.WriteSetOf() && !VariantOverwrite(b, st)
    && Apply(st, b) == ValueAt(vid, key, Crdt(c)) && !MergesCleanly(b, st, vid)
  }

  /** A counter written where a number is committed. */
  lemma CounterReplacesNumber(vid: nat, key: string, n: int, counts: Clocks.Clock)
    ensures SilentlyReplaces(vid, key, Plain(n), Crdts.GCounter(counts))
  {
    CrdtWriteIsExempt(vid, key, Crdts.GCounter(counts));
    CrdtWriteLeaves(vid, key, Plain(n), Crdts.GCounter(counts));
    var st, b := ValueAt(vid, key, Plain(n)), CrdtWrite(vid, key, Crdts.GCounter(counts));
    assert key in st.vertices[vid].props && key in b.vertexProps[vid];
  }

  /** A register written where one with the same clock and another value is committed. */
  lemma RegisterReplacesRegister(vid: nat, key: string, x: VCRegister.Value, y: VCRegister.Value, clock: Clocks.Clock)
    requires x != y
    ensures SilentlyReplaces(vid, key, Crdt(Crdts.Causal(VCRegister.Reg(x, clock))), Crdts.Causal(VCRegister.Reg(y, clock)))
  {
    var stored, written := Crdts.Causal(VCRegister.Reg(x, clock)), Crdts.Causal(VCRegister.Reg(y, clock));
    CrdtWriteIsExempt(vid, key, written);
    CrdtWriteLeaves(vid, key, Crdt(stored), written);
    Crdts.EqualClocksTakeTurns(x, y, clock);
    var st, b := ValueAt(vid, key, Crdt(stored)), CrdtWrite(vid, key, written);
    CarveOutLosesExactly(b, st, vid);
    assert key in st.vertices[vid].props && key in b.vertexProps[vid];
  }

  // ---- what unregistered writes do

  /** Where exempt writes move a value as long as none replaces another: a plain value below every CRDT. */
  ghost predicate ValLeq(a: Val, b: Val) {
    match a
    case Plain(_) => b == a || IsCrdt(b)
    case Crdt(c) => b.Crdt? && Crdts.Leq(c, b.c)
  }

  ghost predicate PropsLeq(p: Props, q: Props) {
    p.Keys <= q.Keys && forall key :: key in p ==> ValLeq(p[key], q[key])
  }

  /** The direction in which unregistered writes move an item: the values of a vertex move on, edges vanish. */
  ghost predicate Drifts(x: Item, c: Cell, d: Cell) {
    match x
    case Vertex(_) =>
      (match c
       case Absent => !d.E?
       case V(row) => d.V? && row.labels == d.row.labels && PropsLeq(row.props, d.row.props)
       case E(_) => false)
    case Edge(_) => d == Absent || d == c
  }

  lemma ValLeqTransitive(a: Val, b: Val, c: Val)
    requires ValLeq(a, b) && ValLeq(b, c)
    ensures ValLeq(a, c)
  {
    if a.Crdt? { Crdts.LeqTransitive(a.c, b.c, c.c); }
  }

  lemma ValLeqAntisymmetric(a: Val, b: Val)
    requires ValLeq(a, b) && ValLeq(b, a)
    ensures a == b
  {
    if a.Crdt? && b.Crdt? { Crdts.LeqAntisymmetric(a.c, b.c); }
  }

  lemma DriftsTransitively(x: Item, c: Cell, d: Cell, e: Cell)
    requires Drifts(x, c, d) && Drifts(x, d, e)
    ensures Drifts(x, c, e)
  {
    if x.Vertex? && c.V? {
      forall key | key in c.row.props ensures ValLeq(c.row.props[key], e.row.props[key]) {
        ValLeqTransitive(c.row.props[key], d.row.props[key], e.row.props[key]);
      }
    }
  }

  /** No drift is ever undone by further drift. */
  lemma DriftsOneWay(x: Item, c: Cell, d: Cell)
    requires Drifts(x, c, d) && Drifts(x, d, c)
    ensures c == d
  {
    if x.Vertex? && c.V? {
      forall key | key in c.row.props ensures c.row.props[key] == d.row.props[key] {
        ValLeqAntisymmetric(c.row.props[key], d.row.props[key]);
      }
      assert c.row.props == d.row.props;
    }
  }

  lemma ValLeqReflexive(v: Val)
    ensures ValLeq(v, v)
  {
    if v.Crdt? { Crdts.LeqReflexive(v.c); }
  }

  /** The exempt write takes the place of a committed CRDT of the same variant. */
  ghost predicate Collides(st: Store, b: Buffer, x: Item) {
    && x.Vertex? && x.vid in b.Exempt() && x.vid in st.vertices
    && exists key :: ClashesAt(st.vertices[x.vid].props, b.vertexProps[x.vid], key)
  }

  ghost predicate ClashesAt(stored: Props, written: Props, key: string) {
    key in written && key in stored && SameVariant(written[key], stored[key]) && Crdts.Clashes(written[key].c, stored[key].c)
  }

  lemma ValueMoves(st: Store, b: Buffer, vid: nat, key: string)
    requires vid in b.Exempt() && !VariantOverwrite(b, st) && vid in st.vertices && key in st.vertices[vid].props
    ensures var stored, written := st.vertices[vid].props, b.vertexProps[vid];
      ValLeq(stored[key], MergeProps(stored, written)[key]) <==> !ClashesAt(stored, written, key)
  {
    var stored, written := st.vertices[vid].props, b.vertexProps[vid];
    if key in written {
      assert IsCrdt(written[key]) && !ClashesInVariant(b, st, vid, key);
      if stored[key].Crdt? { Crdts.MergeMovesOnExactly(written[key].c, stored[key].c); }
    } else {
      ValLeqReflexive(stored[key]);
    }
  }

  /** An exempt write that passes the variant guard lets its vertex grow, exactly when it takes the place of nothing. */
  lemma ExemptGrowsExactly(st: Store, b: Buffer, vid: nat)
    requires vid in b.Exempt() && !VariantOverwrite(b, st)
    ensures Drifts(Vertex(vid), Lookup(st, Vertex(vid)), Lookup(Apply(st, b), Vertex(vid))) <==> !Collides(st, b, Vertex(vid))
  {
    if vid in st.vertices {
      var row, written := st.vertices[vid], b.vertexProps[vid];
      var merged := MergeProps(row.props, written);
      assert Apply(st, b).vertices[vid] == VertexRow(merged, row.labels);
      forall key | key in row.props ensures ValLeq(row.props[key], merged[key]) <==> !ClashesAt(row.props, written, key) {
        ValueMoves(st, b, vid, key);
      }
      if Collides(st, b, Vertex(vid)) {
        var key :| ClashesAt(row.props, written, key);
        assert !ValLeq(row.props[key], merged[key]);
      }
    }
  }

  /** The exempt write carries nothing that the stored vertex does not already hold. */
  ghost predicate NothingNew(st: Store, b: Buffer, vid: nat)
    requires vid in b.vertexProps
  {
    vid in st.vertices && forall key :: key in b.vertexProps[vid] ==> HeldAlready(st.vertices[vid].props, key, b.vertexProps[vid][key])
  }

  ghost predicate HeldAlready(stored: Props, key: string, v: Val) {
    key in stored && v.Crdt? && stored[key].Crdt? && Crdts.Absorbed(v.c, stored[key].c)
  }

  lemma HeldAlreadyExactly(stored: Props, key: string, v: Val)
    requires v.Crdt?
    ensures key in stored && MergedValue(stored, key, v) == stored[key] <==> HeldAlready(stored, key, v)
  {
    if key in stored && SameVariant(v, stored[key]) { Crdts.AbsorbedExactly(v.c, stored[key].c); }
  }

  /** An exempt write leaves its vertex as it found it exactly when it carries nothing new. */
  lemma ExemptIsNoopExactly(st: Store, b: Buffer, vid: nat)
    requires vid in b.Exempt()
    ensures Lookup(Apply(st, b), Vertex(vid)) == Lookup(st, Vertex(vid)) <==> NothingNew(st, b, vid)
  {
    if vid in st.vertices {
      var row, written := st.vertices[vid], b.vertexProps[vid];
      var merged := MergeProps(row.props, written);
      assert Apply(st, b).vertices[vid] == VertexRow(merged, row.labels);
      forall key | key in written
        ensures key in merged && (key in row.props && merged[key] == row.props[key] <==> HeldAlready(row.props, key, written[key]))
      {
        assert IsCrdt(written[key]);
        HeldAlreadyExactly(row.props, key, written[key]);
      }
      if NothingNew(st, b, vid) { assert merged == row.props; }
    }
  }

  /** The commit reaches the item behind conflict detection's back and changes it. */
  ghost predicate Disturbs(st: Store, b: Buffer, x: Item) {
    Silently(st, b, x) && (x.Vertex? ==> !NothingNew(st, b, x.vid))
  }

  /** Without a registered write, an item moves exactly when it is disturbed, and drifts exactly when nothing collides. */
  lemma UnregisteredDrift(st: Store, b: Buffer, x: Item)
    requires !Touches(b.WriteSetOf(), x) && !VariantOverwrite(b, st)
    ensures Drifts(x, Lookup(st, x), Lookup(Apply(st, b), x)) <==> !Collides(st, b, x)
    ensures Lookup(Apply(st, b), x) != Lookup(st, x) <==> Disturbs(st, b, x)
  {
    if !Silently(st, b, x) {
      ApplyFrame(st, b, x);
      DriftsReflexively(st, x);
    } else {
      match x
      case Vertex(vid) =>
        ExemptGrowsExactly(st, b, vid);
        ExemptIsNoopExactly(st, b, vid);
      case Edge(eid) =>
        assert eid !in b.edges;
    }
  }

  lemma DriftsReflexively(st: Store, x: Item)
    ensures Drifts(x, Lookup(st, x), Lookup(st, x))
  {
    match x
    case Vertex(vid) =>
      if vid in st.vertices {
        forall key | key in st.vertices[vid].props ensures ValLeq(st.vertices[vid].props[key], st.vertices[vid].props[key]) {
          ValLeqReflexive(st.vertices[vid].props[key]);
        }
      }
    case Edge(_) =>
  }

  /** An item's successive contents while nothing registered reaches it, and which steps disturb it. */
  ghost predicate Drifting(x: Item, cells: seq<Cell>, moved: seq<bool>) {
    && |cells| == |moved| + 1 && Drifts(x, cells[0], cells[0])
    && forall i :: 0 <= i < |moved| ==> Drifts(x, cells[i], cells[i + 1]) && (cells[i] != cells[i + 1] <==> moved[i])
  }

  lemma {:induction false} DriftsAlong(x: Item, cells: seq<Cell>, moved: seq<bool>, k: nat)
    requires Drifting(x, cells, moved) && k < |cells|
    ensures Drifts(x, cells[0], cells[k])
  {
    if k > 0 {
      DriftsAlong(x, cells, moved, k - 1);
      DriftsTransitively(x, cells[0], cells[k - 1], cells[k]);
    }
  }

  /** It ends where it began exactly when no step disturbed it. */
  lemma {:induction false} ReturnsExactly(x: Item, cells: seq<Cell>, moved: seq<bool>)
    requires Drifting(x, cells, moved)
    ensures cells[|moved|] == cells[0] <==> true !in moved
    decreases |moved|
  {
    if moved != [] {
      var n := |moved| - 1;
      assert cells[..n + 1][0] == cells[0];
      ReturnsExactly(x, cells[..n + 1], moved[..n]);
      DriftsAlong(x, cells, moved, n);
      assert moved == moved[..n] + [moved[n]];
      if cells[n + 1] == cells[0] { DriftsOneWay(x, cells[0], cells[n]); }
    }
  }
}
