/**
 The commit-time conflict check of the storage engine (`runtime/occ.rs`): write-sets,
 read-sets and the bounded log of recently committed write-sets.
 */
module CommitRegistry {
  import opened Basics

  datatype KeyKind = VertexConstraint | EdgeConstraint | MergeKey | ExtId

  /** What a transaction wrote: item ids, plus the logical keys it claimed. */
  datatype WriteSet = WriteSet(
    vertices: set<nat>, edges: set<nat>,
    vertexKeys: set<string>, edgeKeys: set<string>, mergeKeys: set<string>, extIds: set<string>)
  {
    predicate IsEmpty() {
      vertices == {} && edges == {} && vertexKeys == {} && edgeKeys == {} && mergeKeys == {} && extIds == {}
    }

    predicate Intersects(other: WriteSet) {
      vertices * other.vertices != {} || edges * other.edges != {}
    }

    function ConflictingKeyKind(other: WriteSet): Option<KeyKind> {
      if vertexKeys * other.vertexKeys != {} then Some(VertexConstraint)
      else if edgeKeys * other.edgeKeys != {} then Some(EdgeConstraint)
      else if mergeKeys * other.mergeKeys != {} then Some(MergeKey)
      else if extIds * other.extIds != {} then Some(ExtId)
      else None
    }
  }

  const NOTHING := WriteSet({}, {}, {}, {}, {}, {})

  datatype ReadSet = ReadSet(vertices: set<nat>, edges: set<nat>) {
    predicate Intersects(w: WriteSet) {
      vertices * w.vertices != {} || edges * w.edges != {}
    }
  }

  datatype Stamped = Stamped(seqNo: nat, writes: WriteSet)

  datatype Conflict =
    | Key(seqNo: nat, kind: KeyKind)
    | WriteWrite(seqNo: nat)
    | ReadWrite(seqNo: nat)
    | HistoryTruncated(readSeq: nat, oldest: nat)

  /** A committed write-set the committer must not ignore. */
  predicate Clash(ws: WriteSet, rs: Option<ReadSet>, committed: WriteSet) {
    || ws.Intersects(committed)
    || ws.ConflictingKeyKind(committed).Some?
    || (rs.Some? && rs.value.Intersects(committed))
  }

  /** Nothing in common, set by set. */
  predicate Apart(ws: WriteSet, rs: Option<ReadSet>, committed: WriteSet) {
    && ws.vertices !! committed.vertices && ws.edges !! committed.edges
    && ws.vertexKeys !! committed.vertexKeys && ws.edgeKeys !! committed.edgeKeys
    && ws.mergeKeys !! committed.mergeKeys && ws.extIds !! committed.extIds
    && (rs.Some? ==> rs.value.vertices !! committed.vertices && rs.value.edges !! committed.edges)
  }

  lemma NoneInCommon<T>(a: set<T>, b: set<T>)
    ensures a * b == {} <==> a !! b
    ensures a * b != {} <==> exists x :: x in a && x in b
  {
    if a * b == {} {
      forall x | x in a ensures x !in b { assert x !in a * b; }
    } else {
      var x :| x in a * b;
    }
  }

  lemma SetsInCommon(ws: WriteSet, committed: WriteSet)
    ensures ws.Intersects(committed) <==> !(ws.vertices !! committed.vertices && ws.edges !! committed.edges)
    ensures ws.ConflictingKeyKind(committed) == None <==>
      && ws.vertexKeys !! committed.vertexKeys && ws.edgeKeys !! committed.edgeKeys
      && ws.mergeKeys !! committed.mergeKeys && ws.extIds !! committed.extIds
  {
    NoneInCommon(ws.vertices, committed.vertices); NoneInCommon(ws.edges, committed.edges);
    NoneInCommon(ws.vertexKeys, committed.vertexKeys); NoneInCommon(ws.edgeKeys, committed.edgeKeys);
    NoneInCommon(ws.mergeKeys, committed.mergeKeys); NoneInCommon(ws.extIds, committed.extIds);
  }

  /** No clash means: no item, no claimed key of any kind and no read in common with what was committed. */
  lemma ClashIs(ws: WriteSet, rs: Option<ReadSet>, committed: WriteSet)
    ensures !Clash(ws, rs, committed) <==> Apart(ws, rs, committed)
  {
    SetsInCommon(ws, committed);
    if rs.Some? {
      NoneInCommon(rs.value.vertices, committed.vertices);
      NoneInCommon(rs.value.edges, committed.edges);
    }
  }

  /** The kind named is that of the first key set that overlaps. */
  lemma KeyKindIs(ws: WriteSet, committed: WriteSet)
    ensures ws.ConflictingKeyKind(committed) == Some(VertexConstraint) <==> !(ws.vertexKeys !! committed.vertexKeys)
    ensures ws.ConflictingKeyKind(committed) == Some(EdgeConstraint) <==>
      ws.vertexKeys !! committed.vertexKeys && !(ws.edgeKeys !! committed.edgeKeys)
    ensures ws.ConflictingKeyKind(committed) == Some(MergeKey) <==>
      ws.vertexKeys !! committed.vertexKeys && ws.edgeKeys !! committed.edgeKeys && !(ws.mergeKeys !! committed.mergeKeys)
    ensures ws.ConflictingKeyKind(committed) == Some(ExtId) <==>
      && ws.vertexKeys !! committed.vertexKeys && ws.edgeKeys !! committed.edgeKeys && ws.mergeKeys !! committed.mergeKeys
      && !(ws.extIds !! committed.extIds)
  {
    NoneInCommon(ws.vertexKeys, committed.vertexKeys); NoneInCommon(ws.edgeKeys, committed.edgeKeys);
    NoneInCommon(ws.mergeKeys, committed.mergeKeys); NoneInCommon(ws.extIds, committed.extIds);
  }

  /** Nothing to register means: nothing written and no key claimed. */
  lemma EmptyIs(ws: WriteSet)
    ensures ws.IsEmpty() <==> ws == WriteSet({}, {}, {}, {}, {}, {})
  {
  }

  /** The history still reaches back to the reader's snapshot. */
  predicate Covers(entries: seq<Stamped>, readSeq: nat) {
    entries == [] || entries[0].seqNo <= readSeq + 1
  }

  /** Nothing committed after `readSeq` clashes, and nothing after it was forgotten. */
  predicate Admissible(entries: seq<Stamped>, readSeq: nat, ws: WriteSet, rs: Option<ReadSet>) {
    && Covers(entries, readSeq)
    && forall i :: 0 <= i < |entries| && readSeq < entries[i].seqNo ==> !Clash(ws, rs, entries[i].writes)
  }

  /** The conflict reported names the oldest clashing commit and why it clashes. */
  predicate Reports(c: Conflict, entries: seq<Stamped>, readSeq: nat, ws: WriteSet, rs: Option<ReadSet>) {
    match c
    case HistoryTruncated(r, oldest) =>
      r == readSeq && entries != [] && oldest == entries[0].seqNo && readSeq + 1 < oldest
    case _ =>
      && Covers(entries, readSeq)
      && exists i ::
           && 0 <= i < |entries|
           && c.seqNo == entries[i].seqNo
           && readSeq < entries[i].seqNo
           && Names(c, ws, rs, entries[i].writes)
           && forall j :: 0 <= j < i && readSeq < entries[j].seqNo ==> Apart(ws, rs, entries[j].writes)
  }

  /** Item overlap is reported before key overlap, and both before an antidependency. */
  predicate Names(c: Conflict, ws: WriteSet, rs: Option<ReadSet>, committed: WriteSet) {
    match c
    case WriteWrite(_) => !(ws.vertices !! committed.vertices && ws.edges !! committed.edges)
    case Key(_, kind) =>
      && ws.vertices !! committed.vertices && ws.edges !! committed.edges
      && ws.ConflictingKeyKind(committed) == Some(kind)
    case ReadWrite(_) =>
      && Apart(ws, None, committed) && rs.Some?
      && !(rs.value.vertices !! committed.vertices && rs.value.edges !! committed.edges)
    case HistoryTruncated(_, _) => false
  }

  /** The registry after recording: the newest `capacity` entries survive. */
  function Retained(entries: seq<Stamped>, capacity: nat): seq<Stamped> {
    if |entries| <= capacity then entries else entries[|entries| - capacity..]
  }

  class Registry {
    var entries: seq<Stamped>
    const capacity: nat

    constructor (capacity: nat)
      requires capacity > 0
      ensures entries == [] && this.capacity == capacity
    {
      this.capacity := capacity;
      entries := [];
    }

    method Record(seqNo: nat, writes: WriteSet)
      modifies this
      ensures entries == Retained(old(entries) + [Stamped(seqNo, writes)], capacity)
    {
      entries := entries + [Stamped(seqNo, writes)];
      ghost var all := entries;
      while |entries| > capacity
        invariant |entries| <= |all| && entries == all[|all| - |entries|..]
        invariant |entries| < |all| ==> |entries| >= capacity
        decreases |entries|
      {
        entries := entries[1..];
      }
    }

    /** Allocates the next commit sequence and records the write-set under it. */
    method Commit(sequence: nat, writes: WriteSet) returns (next: nat)
      modifies this
      ensures next == sequence + 1
      ensures entries == Retained(old(entries) + [Stamped(next, writes)], capacity)
    {
      next := sequence + 1;
      Record(next, writes);
    }

    /** Fails every transaction that began before this call, and none that begins after it. */
    method Fence(sequence: nat) returns (next: nat)
      modifies this
      ensures next == sequence + 2 && entries == [Stamped(next, NOTHING)]
      ensures forall readSeq: nat :: Covers(entries, readSeq) <==> sequence < readSeq
      ensures forall readSeq: nat, ws, rs :: readSeq == next ==> Admissible(entries, readSeq, ws, rs)
    {
      next := sequence + 2;
      entries := [Stamped(next, NOTHING)];
    }

    method Check(readSeq: nat, ws: WriteSet, rs: Option<ReadSet>) returns (r: Option<Conflict>)
      ensures r.None? <==> Admissible(entries, readSeq, ws, rs)
      ensures r.Some? ==> Reports(r.value, entries, readSeq, ws, rs)
      ensures r.None? <==>
        && (entries != [] ==> entries[0].seqNo <= readSeq + 1)
        && forall i :: 0 <= i < |entries| && readSeq < entries[i].seqNo ==> Apart(ws, rs, entries[i].writes)
    {
      forall i | 0 <= i < |entries| ensures Clash(ws, rs, entries[i].writes) <==> !Apart(ws, rs, entries[i].writes) {
        ClashIs(ws, rs, entries[i].writes);
      }
      if entries != [] && entries[0].seqNo > readSeq + 1 {
        return Some(HistoryTruncated(readSeq, entries[0].seqNo));
      }
      for i := 0 to |entries|
        invariant forall j :: 0 <= j < i && readSeq < entries[j].seqNo ==> Apart(ws, rs, entries[j].writes)
      {
        var e := entries[i];
        if e.seqNo <= readSeq { continue; }
        SetsInCommon(ws, e.writes);
        ClashIs(ws, rs, e.writes);
        if ws.Intersects(e.writes) {
          return Some(WriteWrite(e.seqNo));
        }
        var kind := ws.ConflictingKeyKind(e.writes);
        if kind.Some? {
          return Some(Key(e.seqNo, kind.value));
        }
        if rs.Some? && rs.value.Intersects(e.writes) {
          return Some(ReadWrite(e.seqNo));
        }
      }
      return None;
    }
  }
}
