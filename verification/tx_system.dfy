/**
 Every interleaving of transactions against the storage engine: begin, read, validate,
 merge, record, roll back, and a snapshot restore with its fence. The log of merges is
 the serial order; the theorems say exactly which committed programs it is a serial execution of.
 */
module TxSystem {
  import opened Basics
  import opened CommitRegistry
  import opened TxStore

  /** What a program does next, given the values it has read so far. */
  datatype Action = Read(item: Item) | Finish(buffer: Buffer)

  type Program = seq<Cell> -> Action

  /**
   `readSeq` is the commit sequence stamped at begin. `floor` is the number of merges
   recorded by then and `at[i]` the number of merges visible to the i-th read.
   */
  datatype Tx = Tx(program: Program, readSeq: nat, floor: nat, seen: seq<Cell>, at: seq<nat>)

  datatype Entry = Commit(tx: Tx, buffer: Buffer) | Restore(store: Store)

  /** Who holds the flush lock, and how far the holder has come. */
  datatype Lock = Free | Validated(id: nat) | Merged(id: nat) | Restored

  datatype State = State(
    sequence: nat, registry: seq<Stamped>, capacity: nat,
    initial: Store, log: seq<Entry>, stamps: seq<nat>,
    lock: Lock, live: map<nat, Tx>)

  ghost function After(st: Store, e: Entry): Store {
    match e
    case Commit(_, b) => Apply(st, b)
    case Restore(restored) => restored
  }

  /** The store after the first `k` merges. */
  ghost function StoreAt(initial: Store, log: seq<Entry>, k: nat): Store
    requires k <= |log|
  {
    if k == 0 then initial else After(StoreAt(initial, log, k - 1), log[k - 1])
  }

  ghost predicate Reads(tx: Tx, i: nat) {
    i < |tx.seen| && tx.program(tx.seen[..i]).Read?
  }

  ghost function ItemRead(tx: Tx, i: nat): Item
    requires Reads(tx, i)
  {
    tx.program(tx.seen[..i]).item
  }

  ghost function ReadSetOf(tx: Tx): ReadSet {
    ReadSet(set i | 0 <= i < |tx.seen| && Reads(tx, i) && ItemRead(tx, i).Vertex? :: ItemRead(tx, i).vid,
            set i | 0 <= i < |tx.seen| && Reads(tx, i) && ItemRead(tx, i).Edge? :: ItemRead(tx, i).eid)
  }

  // ---- steps

  ghost predicate Init(s: State) {
    s.sequence == 0 && s.registry == [] && s.capacity > 0 && s.log == [] && s.stamps == [] && s.lock == Free && s.live == map[]
  }

  /** Also the re-pin of a transaction that has read nothing yet (`FOR UPDATE`). */
  ghost predicate Begin(s: State, s': State, id: nat, program: Program) {
    && (id in s.live ==> s.live[id].seen == [] && s.lock != Validated(id) && s.lock != Merged(id))
    && s' == s.(live := s.live[id := Tx(program, s.sequence, |s.stamps|, [], [])])
  }

  /** A read may see any merge position from the begin stamp up to now. */
  ghost predicate ReadStep(s: State, s': State, id: nat, pos: nat) {
    && id in s.live && s.lock != Validated(id) && s.lock != Merged(id)
    && var tx := s.live[id];
    && tx.program(tx.seen).Read?
    && tx.floor <= pos <= |s.log|
    && var cell := Lookup(StoreAt(s.initial, s.log, pos), tx.program(tx.seen).item);
    && s' == s.(live := s.live[id := tx.(seen := tx.seen + [cell], at := tx.at + [pos])])
  }

  ghost predicate Rollback(s: State, s': State, id: nat) {
    && id in s.live && s.lock != Validated(id) && s.lock != Merged(id)
    && s' == s.(live := s.live - {id})
  }

  ghost predicate Passes(s: State, tx: Tx, b: Buffer) {
    && (b.WriteSetOf().IsEmpty() || Admissible(s.registry, tx.readSeq, b.WriteSetOf(), Some(ReadSetOf(tx))))
    && !VariantOverwrite(b, StoreAt(s.initial, s.log, |s.log|))
  }

  ghost predicate Validate(s: State, s': State, id: nat) {
    && s.lock == Free && id in s.live
    && var tx := s.live[id];
    && tx.program(tx.seen).Finish? && tx.program(tx.seen).buffer.Valid()
    && Passes(s, tx, tx.program(tx.seen).buffer)
    && s' == s.(lock := Validated(id))
  }

  ghost predicate Merge(s: State, s': State, id: nat) {
    && s.lock == Validated(id) && id in s.live
    && var tx := s.live[id];
    && tx.program(tx.seen).Finish?
    && s' == s.(log := s.log + [Commit(tx, tx.program(tx.seen).buffer)], lock := Merged(id))
  }

  ghost predicate Record(s: State, s': State, id: nat) {
    && s.lock == Merged(id) && id in s.live && s.log != [] && s.log[|s.log| - 1].Commit?
    && var ws := s.log[|s.log| - 1].buffer.WriteSetOf();
    && s' == if ws.IsEmpty() then
               s.(stamps := s.stamps + [s.sequence], lock := Free, live := s.live - {id})
             else
               s.(sequence := s.sequence + 1,
                  registry := Retained(s.registry + [Stamped(s.sequence + 1, ws)], s.capacity),
                  stamps := s.stamps + [s.sequence + 1], lock := Free, live := s.live - {id})
  }

  ghost predicate RestoreStep(s: State, s': State, store: Store) {
    && s.lock == Free
    && s' == s.(log := s.log + [Restore(store)], lock := Restored)
  }

  ghost predicate FenceStep(s: State, s': State) {
    && s.lock == Restored
    && s' == s.(sequence := s.sequence + 2, registry := [Stamped(s.sequence + 2, NOTHING)],
                stamps := s.stamps + [s.sequence + 2], lock := Free)
  }

  ghost predicate Step(s: State, s': State) {
    || (exists id, program :: Begin(s, s', id, program))
    || (exists id, pos :: ReadStep(s, s', id, pos))
    || (exists id :: Rollback(s, s', id))
    || (exists id :: Validate(s, s', id))
    || (exists id :: Merge(s, s', id))
    || (exists id :: Record(s, s', id))
    || (exists store :: RestoreStep(s, s', store))
    || FenceStep(s, s')
  }

  /** A finite execution from an initial state. */
  ghost predicate Run(run: seq<State>) {
    && run != [] && Init(run[0])
    && forall i :: 0 <= i < |run| - 1 ==> Step(run[i], run[i + 1])
  }

  // ---- what holds of every reachable state

  /** A merge that conflict detection has to know about. */
  ghost predicate Recorded(e: Entry) {
    e.Restore? || !e.buffer.WriteSetOf().IsEmpty()
  }

  ghost predicate InHistory(registry: seq<Stamped>, stamp: nat, ws: WriteSet) {
    || (registry != [] && stamp < registry[0].seqNo)
    || Stamped(stamp, ws) in registry
  }

  ghost predicate Remembers(registry: seq<Stamped>, stamp: nat, e: Entry) {
    match e
    case Commit(_, b) => b.WriteSetOf().IsEmpty() || InHistory(registry, stamp, b.WriteSetOf())
    case Restore(_) => registry != [] && stamp <= registry[0].seqNo
  }

  ghost predicate HistoryOk(s: State) {
    && |s.stamps| <= |s.log| && s.capacity > 0 && Increasing(s.registry, s.sequence)
    && (forall k :: 0 <= k < |s.stamps| ==> s.stamps[k] <= s.sequence)
    && (forall k :: 0 <= k < |s.stamps| ==> Remembers(s.registry, s.stamps[k], s.log[k]))
  }

  ghost predicate LockOk(s: State) {
    match s.lock
    case Free => |s.stamps| == |s.log|
    case Validated(id) =>
      && |s.stamps| == |s.log| && id in s.live
      && var tx := s.live[id];
      && tx.program(tx.seen).Finish? && tx.program(tx.seen).buffer.Valid()
      && Passes(s, tx, tx.program(tx.seen).buffer)
    case Merged(id) => |s.stamps| + 1 == |s.log| && id in s.live && s.log[|s.log| - 1].Commit?
    case Restored => |s.stamps| + 1 == |s.log| && s.log[|s.log| - 1].Restore?
  }

  /** Every read of `tx` saw a real prefix of the log, no older than its begin stamp. */
  ghost predicate ReadsOk(initial: Store, log: seq<Entry>, tx: Tx) {
    && |tx.at| == |tx.seen|
    && forall i :: 0 <= i < |tx.seen| ==>
         && Reads(tx, i)
         && tx.floor <= tx.at[i] <= |log|
         && tx.seen[i] == Lookup(StoreAt(initial, log, tx.at[i]), ItemRead(tx, i))
  }

  /** Everything merged past the begin stamp carries a newer sequence number. */
  ghost predicate Fresh(s: State, tx: Tx) {
    && tx.readSeq <= s.sequence && tx.floor <= |s.stamps| <= |s.log|
    && forall k :: tx.floor <= k < |s.stamps| && Recorded(s.log[k]) ==>
         tx.readSeq + (if s.log[k].Restore? then 2 else 1) <= s.stamps[k]
  }

  /** Run alone on `st`, the transaction's program reads what it read and does what it did. */
  ghost predicate RunsAlone(tx: Tx, b: Buffer, st: Store) {
    && (forall i :: 0 <= i < |tx.seen| ==> Reads(tx, i) && Lookup(st, ItemRead(tx, i)) == tx.seen[i])
    && tx.program(tx.seen) == Finish(b)
  }

  /** Merge `k` is what its program made of true readings, and it passed the variant guard. */
  ghost predicate Genuine(initial: Store, log: seq<Entry>, k: nat)
    requires k < |log| && log[k].Commit?
  {
    && ReadsOk(initial, log[..k], log[k].tx)
    && log[k].tx.program(log[k].tx.seen) == Finish(log[k].buffer)
    && log[k].buffer.Valid() && !VariantOverwrite(log[k].buffer, StoreAt(initial, log, k))
  }

  /** No registered merge and no restore reached the item between the two positions. */
  ghost predicate Unregistered(log: seq<Entry>, lo: nat, hi: nat, x: Item)
    requires hi <= |log|
  {
    forall j :: lo <= j < hi ==> log[j].Commit? && !Touches(log[j].buffer.WriteSetOf(), x)
  }

  /** What validation assures a writer of: nothing registered has reached what it read. */
  ghost predicate ReadsHeld(log: seq<Entry>, k: nat)
    requires k < |log| && log[k].Commit?
  {
    var tx := log[k].tx;
    !log[k].buffer.WriteSetOf().IsEmpty() ==>
      forall i :: 0 <= i < |tx.seen| && i < |tx.at| && Reads(tx, i) ==> Unregistered(log, tx.at[i], k, ItemRead(tx, i))
  }

  /** Merge `k` overlaps no recorded merge it did not see begin after. */
  ghost predicate Exclusive(log: seq<Entry>, k: nat)
    requires k < |log| && log[k].Commit?
  {
    var ws := log[k].buffer.WriteSetOf();
    !ws.IsEmpty() ==> forall j :: log[k].tx.floor <= j < k ==>
      && log[j].Commit?
      && !ws.Intersects(log[j].buffer.WriteSetOf())
      && ws.ConflictingKeyKind(log[j].buffer.WriteSetOf()).None?
  }

  ghost predicate LogOk(s: State) {
    forall k :: 0 <= k < |s.log| && s.log[k].Commit? ==> MergeOk(s.initial, s.log, k)
  }

  ghost predicate MergeOk(initial: Store, log: seq<Entry>, k: nat)
    requires k < |log| && log[k].Commit?
  {
    Genuine(initial, log, k) && ReadsHeld(log, k) && Exclusive(log, k)
  }

  ghost predicate Inv(s: State) {
    && HistoryOk(s) && LockOk(s) && LogOk(s)
    && forall id :: id in s.live ==> ReadsOk(s.initial, s.log, s.live[id]) && Fresh(s, s.live[id])
  }

  // ---- preservation

  lemma {:induction false} StoreAtPrefix(initial: Store, log: seq<Entry>, more: seq<Entry>, k: nat)
    requires k <= |log|
    ensures StoreAt(initial, log + more, k) == StoreAt(initial, log, k)
  {
    if k > 0 { StoreAtPrefix(initial, log, more, k - 1); }
  }

  lemma ReadsOkExtends(initial: Store, log: seq<Entry>, more: seq<Entry>, tx: Tx)
    requires ReadsOk(initial, log, tx)
    ensures ReadsOk(initial, log + more, tx)
  {
    forall i | 0 <= i < |tx.seen|
      ensures tx.seen[i] == Lookup(StoreAt(initial, log + more, tx.at[i]), ItemRead(tx, i))
    {
      StoreAtPrefix(initial, log, more, tx.at[i]);
    }
  }

  lemma MergeOkExtends(initial: Store, log: seq<Entry>, e: Entry, k: nat)
    requires k < |log| && log[k].Commit? && MergeOk(initial, log, k)
    ensures MergeOk(initial, log + [e], k)
  {
    var more := log + [e];
    assert more[..k] == log[..k] && more[k] == log[k];
    assert forall j :: 0 <= j < k ==> more[j] == log[j];
    StoreAtPrefix(initial, log, [e], k);
    var tx := log[k].tx;
    if !log[k].buffer.WriteSetOf().IsEmpty() {
      forall i | 0 <= i < |tx.seen| && i < |tx.at| && Reads(tx, i) ensures Unregistered(more, tx.at[i], k, ItemRead(tx, i)) {
        assert Unregistered(log, tx.at[i], k, ItemRead(tx, i));
      }
    }
  }

  lemma LogOkExtends(s: State, e: Entry)
    requires LogOk(s) && (e.Commit? ==> MergeOk(s.initial, s.log + [e], |s.log|))
    ensures forall k :: 0 <= k < |s.log + [e]| && (s.log + [e])[k].Commit? ==> MergeOk(s.initial, s.log + [e], k)
  {
    forall k | 0 <= k < |s.log| && s.log[k].Commit? ensures MergeOk(s.initial, s.log + [e], k) {
      MergeOkExtends(s.initial, s.log, e, k);
    }
  }

  /** The validated committer clashes with nothing merged since its begin stamp. */
  lemma ValidatedSeesAll(s: State, tx: Tx, ws: WriteSet, k: nat)
    requires HistoryOk(s) && Fresh(s, tx)
    requires Admissible(s.registry, tx.readSeq, ws, Some(ReadSetOf(tx)))
    requires tx.floor <= k < |s.stamps|
    ensures s.log[k].Commit?
    ensures !Clash(ws, Some(ReadSetOf(tx)), s.log[k].buffer.WriteSetOf())
  {
    assert Remembers(s.registry, s.stamps[k], s.log[k]);
  }

  /** A validated committer was read nothing from under, and overlaps no concurrent writer. */
  lemma MergeIsHeld(s: State, tx: Tx, b: Buffer)
    requires HistoryOk(s) && |s.stamps| == |s.log|
    requires ReadsOk(s.initial, s.log, tx) && Fresh(s, tx)
    requires b.WriteSetOf().IsEmpty() || Admissible(s.registry, tx.readSeq, b.WriteSetOf(), Some(ReadSetOf(tx)))
    ensures var log := s.log + [Commit(tx, b)]; ReadsHeld(log, |s.log|) && Exclusive(log, |s.log|)
  {
    var n, ws := |s.log|, b.WriteSetOf();
    var log := s.log + [Commit(tx, b)];
    if !ws.IsEmpty() {
      forall j | tx.floor <= j < n
        ensures log[j].Commit? && !Clash(ws, Some(ReadSetOf(tx)), log[j].buffer.WriteSetOf())
      {
        ValidatedSeesAll(s, tx, ws, j);
      }
      forall i | 0 <= i < |tx.seen| && i < |tx.at| && Reads(tx, i) ensures Unregistered(log, tx.at[i], n, ItemRead(tx, i)) {
        forall j | tx.at[i] <= j < n ensures !Touches(log[j].buffer.WriteSetOf(), ItemRead(tx, i)) {
          UntouchedRead(tx, i, log[j].buffer.WriteSetOf());
        }
      }
    }
  }

  lemma MergeIsGenuine(s: State, tx: Tx, b: Buffer)
    requires ReadsOk(s.initial, s.log, tx) && tx.program(tx.seen) == Finish(b) && b.Valid() && Passes(s, tx, b)
    ensures Genuine(s.initial, s.log + [Commit(tx, b)], |s.log|)
  {
    var log := s.log + [Commit(tx, b)];
    assert log[..|s.log|] == s.log;
    StoreAtPrefix(s.initial, s.log, [Commit(tx, b)], |s.log|);
  }

  lemma UntouchedRead(tx: Tx, i: nat, w: WriteSet)
    requires Reads(tx, i) && !ReadSetOf(tx).Intersects(w)
    ensures !Touches(w, ItemRead(tx, i))
  {
    match ItemRead(tx, i)
    case Vertex(vid) => assert vid in w.vertices ==> vid in ReadSetOf(tx).vertices * w.vertices;
    case Edge(eid) => assert eid in w.edges ==> eid in ReadSetOf(tx).edges * w.edges;
  }

  lemma MergePreserves(s: State, s': State, id: nat)
    requires Inv(s) && Merge(s, s', id)
    ensures Inv(s')
  {
    var e := Commit(s.live[id], s.live[id].program(s.live[id].seen).buffer);
    MergeIsHeld(s, e.tx, e.buffer);
    MergeIsGenuine(s, e.tx, e.buffer);
    LogOkExtends(s, e);
    forall other | other in s.live ensures ReadsOk(s.initial, s'.log, s.live[other]) && Fresh(s', s.live[other]) {
      ReadsOkExtends(s.initial, s.log, [e], s.live[other]);
    }
  }

  ghost predicate Increasing(registry: seq<Stamped>, bound: nat) {
    && (forall i :: 0 <= i < |registry| ==> registry[i].seqNo <= bound)
    && (forall i, j :: 0 <= i < j < |registry| ==> registry[i].seqNo < registry[j].seqNo)
  }

  /** Each old entry is still there, or older than everything that is. */
  ghost predicate Supersedes(next: seq<Stamped>, registry: seq<Stamped>) {
    && next != [] && (registry != [] ==> registry[0].seqNo <= next[0].seqNo)
    && forall i :: 0 <= i < |registry| ==> registry[i] in next || registry[i].seqNo < next[0].seqNo
  }

  lemma RetainedSupersedes(registry: seq<Stamped>, capacity: nat, bound: nat, e: Stamped)
    requires Increasing(registry, bound) && capacity > 0 && e.seqNo == bound + 1
    ensures var next := Retained(registry + [e], capacity);
      Supersedes(next, registry) && Increasing(next, bound + 1) && e in next
  {
    var full := registry + [e];
    var next := Retained(full, capacity);
    IncreasingMore(registry, bound, e);
    IncreasingTail(full, bound + 1, |full| - |next|);
    assert next == full[|full| - |next|..];
    assert next[|next| - 1] == e;
    SuffixSupersedes(registry, e, |full| - |next|, bound);
  }

  lemma IncreasingMore(registry: seq<Stamped>, bound: nat, e: Stamped)
    requires Increasing(registry, bound) && e.seqNo == bound + 1
    ensures Increasing(registry + [e], bound + 1)
  {
  }

  lemma IncreasingTail(full: seq<Stamped>, bound: nat, drop: nat)
    requires Increasing(full, bound) && drop <= |full|
    ensures Increasing(full[drop..], bound)
  {
    var next := full[drop..];
    assert forall i :: 0 <= i < |next| ==> next[i] == full[drop + i];
  }

  lemma SuffixSupersedes(registry: seq<Stamped>, e: Stamped, drop: nat, bound: nat)
    requires Increasing(registry + [e], bound + 1) && drop <= |registry|
    ensures Supersedes((registry + [e])[drop..], registry)
  {
    var full := registry + [e];
    var next := full[drop..];
    assert next[0] == full[drop];
    forall i | 0 <= i < |registry| ensures registry[i] in next || registry[i].seqNo < next[0].seqNo {
      assert registry[i] == full[i];
      if drop <= i { assert next[i - drop] == full[i]; }
    }
    if registry != [] { assert registry[0] == full[0]; }
  }

  lemma RemembersLater(registry: seq<Stamped>, next: seq<Stamped>, stamp: nat, e: Entry)
    requires Supersedes(next, registry) && Remembers(registry, stamp, e)
    ensures Remembers(next, stamp, e)
  {
  }

  lemma AllRememberLater(registry: seq<Stamped>, next: seq<Stamped>, stamps: seq<nat>, log: seq<Entry>)
    requires Supersedes(next, registry) && |stamps| <= |log|
    requires forall k :: 0 <= k < |stamps| ==> Remembers(registry, stamps[k], log[k])
    ensures forall k :: 0 <= k < |stamps| ==> Remembers(next, stamps[k], log[k])
  {
    forall k | 0 <= k < |stamps| ensures Remembers(next, stamps[k], log[k]) {
      RemembersLater(registry, next, stamps[k], log[k]);
    }
  }

  lemma OneMoreRemembered(registry: seq<Stamped>, stamps: seq<nat>, log: seq<Entry>, stamp: nat)
    requires |stamps| + 1 == |log| && Remembers(registry, stamp, log[|stamps|])
    requires forall k :: 0 <= k < |stamps| ==> Remembers(registry, stamps[k], log[k])
    ensures forall k :: 0 <= k < |stamps + [stamp]| ==> Remembers(registry, (stamps + [stamp])[k], log[k])
  {
  }

  lemma RecordKeepsHistory(s: State, s': State, id: nat)
    requires HistoryOk(s) && LockOk(s) && Record(s, s', id)
    ensures HistoryOk(s')
  {
    var last := s.log[|s.log| - 1];
    var ws := last.buffer.WriteSetOf();
    if ws.IsEmpty() {
      assert Remembers(s.registry, s.sequence, last);
      OneMoreRemembered(s.registry, s.stamps, s.log, s.sequence);
    } else {
      RetainedSupersedes(s.registry, s.capacity, s.sequence, Stamped(s.sequence + 1, ws));
      AllRememberLater(s.registry, s'.registry, s.stamps, s.log);
      assert Remembers(s'.registry, s.sequence + 1, last);
      OneMoreRemembered(s'.registry, s.stamps, s.log, s.sequence + 1);
    }
  }

  lemma RecordPreserves(s: State, s': State, id: nat)
    requires Inv(s) && Record(s, s', id)
    ensures Inv(s')
  {
    RecordKeepsHistory(s, s', id);
    forall other | other in s'.live ensures Fresh(s', s'.live[other]) {
      FreshExtends(s, s', s.live[other]);
    }
  }

  /** A later stamp is newer than every begin that preceded it. */
  lemma FreshExtends(s: State, s': State, tx: Tx)
    requires Fresh(s, tx) && s.log == s'.log && |s.stamps| + 1 == |s.log|
    requires |s'.stamps| == |s.log| && s'.stamps[..|s.stamps|] == s.stamps && s.sequence <= s'.sequence
    requires var n := |s.stamps|;
      Recorded(s.log[n]) ==> s.sequence + (if s.log[n].Restore? then 2 else 1) <= s'.stamps[n]
    ensures Fresh(s', tx)
  {
    forall k | tx.floor <= k < |s'.stamps| && Recorded(s'.log[k])
      ensures tx.readSeq + (if s'.log[k].Restore? then 2 else 1) <= s'.stamps[k]
    {
      if k < |s.stamps| { assert s'.stamps[k] == s.stamps[k]; }
    }
  }

  lemma RestorePreserves(s: State, s': State, store: Store)
    requires Inv(s) && RestoreStep(s, s', store)
    ensures Inv(s')
  {
    LogOkExtends(s, Restore(store));
    forall id | id in s.live ensures ReadsOk(s.initial, s'.log, s.live[id]) {
      ReadsOkExtends(s.initial, s.log, [Restore(store)], s.live[id]);
    }
  }

  lemma ReadsOkMore(initial: Store, log: seq<Entry>, tx: Tx, pos: nat)
    requires ReadsOk(initial, log, tx) && tx.program(tx.seen).Read? && tx.floor <= pos <= |log|
    ensures var cell := Lookup(StoreAt(initial, log, pos), tx.program(tx.seen).item);
      ReadsOk(initial, log, tx.(seen := tx.seen + [cell], at := tx.at + [pos]))
  {
    var cell := Lookup(StoreAt(initial, log, pos), tx.program(tx.seen).item);
    var tx' := tx.(seen := tx.seen + [cell], at := tx.at + [pos]);
    forall i | 0 <= i < |tx'.seen|
      ensures Reads(tx', i) && tx'.floor <= tx'.at[i] <= |log|
           && tx'.seen[i] == Lookup(StoreAt(initial, log, tx'.at[i]), ItemRead(tx', i))
    {
      assert tx'.seen[..i] == tx.seen[..i];
      if i == |tx.seen| { assert tx.seen[..i] == tx.seen; } else { assert Reads(tx, i); }
    }
  }

  lemma ReadPreserves(s: State, s': State, id: nat, pos: nat)
    requires Inv(s) && ReadStep(s, s', id, pos)
    ensures Inv(s')
  {
    ReadsOkMore(s.initial, s.log, s.live[id], pos);
  }

  lemma FencePreserves(s: State, s': State)
    requires Inv(s) && FenceStep(s, s')
    ensures Inv(s')
  {
    forall id | id in s.live ensures Fresh(s', s.live[id]) {
      FreshExtends(s, s', s.live[id]);
    }
  }

  lemma BeginPreserves(s: State, s': State, id: nat, program: Program)
    requires Inv(s) && Begin(s, s', id, program)
    ensures Inv(s')
  {
    assert LockOk(s') by { assert LockOk(s); }
    forall other | other in s'.live ensures ReadsOk(s.initial, s.log, s'.live[other]) && Fresh(s', s'.live[other]) {
      if other != id { assert Fresh(s, s.live[other]); }
    }
  }

  lemma StepPreserves(s: State, s': State)
    requires Inv(s) && Step(s, s')
    ensures Inv(s')
  {
    if id, program :| Begin(s, s', id, program) {
      BeginPreserves(s, s', id, program);
    } else if id, pos :| ReadStep(s, s', id, pos) {
      ReadPreserves(s, s', id, pos);
    } else if id :| Rollback(s, s', id) {
      RollbackPreserves(s, s', id);
    } else if id :| Validate(s, s', id) {
      ValidatePreserves(s, s', id);
    } else if id :| Merge(s, s', id) {
      MergePreserves(s, s', id);
    } else if id :| Record(s, s', id) {
      RecordPreserves(s, s', id);
    } else if store :| RestoreStep(s, s', store) {
      RestorePreserves(s, s', store);
    } else {
      FencePreserves(s, s');
    }
  }

  lemma RollbackPreserves(s: State, s': State, id: nat)
    requires Inv(s) && Rollback(s, s', id)
    ensures Inv(s')
  {
    forall other | other in s'.live ensures Fresh(s', s'.live[other]) {
      assert Fresh(s, s.live[other]);
    }
  }

  lemma ValidatePreserves(s: State, s': State, id: nat)
    requires Inv(s) && Validate(s, s', id)
    ensures Inv(s')
  {
    forall other | other in s'.live ensures Fresh(s', s'.live[other]) {
      assert Fresh(s, s.live[other]);
    }
  }

  lemma {:induction false} RunKeepsInv(run: seq<State>)
    requires Run(run)
    ensures Inv(run[|run| - 1])
  {
    if |run| > 1 {
      var shorter := run[..|run| - 1];
      RunKeepsInv(shorter);
      StepPreserves(run[|run| - 2], run[|run| - 1]);
    }
  }

  // ---- the theorems

  /** Some commit between the two positions reached the item unregistered, and changed it. */
  ghost predicate Disturbed(initial: Store, log: seq<Entry>, lo: nat, hi: nat, x: Item)
    requires hi <= |log|
  {
    exists j :: lo <= j < hi && DisturbedAt(initial, log, j, x)
  }

  ghost predicate DisturbedAt(initial: Store, log: seq<Entry>, j: nat, x: Item)
    requires j < |log|
  {
    log[j].Commit? && Disturbs(StoreAt(initial, log, j), log[j].buffer, x)
  }

  /** Some exempt write between the two positions took the place of a committed CRDT of the item. */
  ghost predicate Collided(initial: Store, log: seq<Entry>, lo: nat, hi: nat, x: Item)
    requires hi <= |log|
  {
    exists j :: lo <= j < hi && CollidedAt(initial, log, j, x)
  }

  ghost predicate CollidedAt(initial: Store, log: seq<Entry>, j: nat, x: Item)
    requires j < |log|
  {
    log[j].Commit? && Collides(StoreAt(initial, log, j), log[j].buffer, x)
  }

  /** A stretch of merges that passed the variant guard and none of which registers the item. */
  ghost predicate Quiet(initial: Store, log: seq<Entry>, lo: nat, hi: nat, x: Item)
    requires hi <= |log|
  {
    forall j :: lo <= j < hi ==> QuietStep(initial, log, j, x)
  }

  ghost predicate QuietStep(initial: Store, log: seq<Entry>, j: nat, x: Item)
    requires j < |log|
  {
    log[j].Commit? && !Touches(log[j].buffer.WriteSetOf(), x) && !VariantOverwrite(log[j].buffer, StoreAt(initial, log, j))
  }

  ghost function Content(initial: Store, log: seq<Entry>, k: nat, x: Item): Cell
    requires k <= |log|
  {
    Lookup(StoreAt(initial, log, k), x)
  }

  lemma StepDrift(initial: Store, log: seq<Entry>, j: nat, x: Item)
    requires j < |log| && QuietStep(initial, log, j, x)
    ensures Drifts(x, Content(initial, log, j, x), Content(initial, log, j + 1, x)) <==> !CollidedAt(initial, log, j, x)
    ensures Content(initial, log, j, x) != Content(initial, log, j + 1, x) <==> DisturbedAt(initial, log, j, x)
  {
    UnregisteredDrift(StoreAt(initial, log, j), log[j].buffer, x);
  }

  ghost function Contents(initial: Store, log: seq<Entry>, lo: nat, hi: nat, x: Item): seq<Cell>
    requires lo <= hi <= |log|
  {
    seq(hi - lo + 1, i requires 0 <= i <= hi - lo => Content(initial, log, lo + i, x))
  }

  ghost function Moves(initial: Store, log: seq<Entry>, lo: nat, hi: nat, x: Item): seq<bool>
    requires lo <= hi <= |log|
  {
    seq(hi - lo, i requires 0 <= i < hi - lo => DisturbedAt(initial, log, lo + i, x))
  }

  lemma ContentsDrift(initial: Store, log: seq<Entry>, lo: nat, hi: nat, x: Item)
    requires lo <= hi <= |log| && Quiet(initial, log, lo, hi, x) && !Collided(initial, log, lo, hi, x)
    ensures Drifting(x, Contents(initial, log, lo, hi, x), Moves(initial, log, lo, hi, x))
  {
    var cells, moved := Contents(initial, log, lo, hi, x), Moves(initial, log, lo, hi, x);
    DriftsReflexively(StoreAt(initial, log, lo), x);
    assert cells[0] == Content(initial, log, lo + 0, x) == Lookup(StoreAt(initial, log, lo), x);
    forall i | 0 <= i < |moved| ensures Drifts(x, cells[i], cells[i + 1]) && (cells[i] != cells[i + 1] <==> moved[i]) {
      assert QuietStep(initial, log, lo + i, x) && !CollidedAt(initial, log, lo + i, x);
      StepDrift(initial, log, lo + i, x);
    }
  }

  lemma DisturbedMoves(initial: Store, log: seq<Entry>, lo: nat, hi: nat, x: Item)
    requires lo <= hi <= |log| && Disturbed(initial, log, lo, hi, x)
    ensures true in Moves(initial, log, lo, hi, x)
  {
    var j :| lo <= j < hi && DisturbedAt(initial, log, j, x);
    assert Moves(initial, log, lo, hi, x)[j - lo];
  }

  lemma MovedIsDisturbed(initial: Store, log: seq<Entry>, lo: nat, hi: nat, x: Item)
    requires lo <= hi <= |log|
    ensures true in Moves(initial, log, lo, hi, x) <==> Disturbed(initial, log, lo, hi, x)
  {
    var moved := Moves(initial, log, lo, hi, x);
    if Disturbed(initial, log, lo, hi, x) { DisturbedMoves(initial, log, lo, hi, x); }
    if true in moved {
      var i :| 0 <= i < |moved| && moved[i];
      assert DisturbedAt(initial, log, lo + i, x);
    }
  }

  /** Where nothing collides, the item is back where it was exactly when it was never disturbed. */
  lemma HeldExactly(initial: Store, log: seq<Entry>, lo: nat, hi: nat, x: Item)
    requires lo <= hi <= |log| && Quiet(initial, log, lo, hi, x) && !Collided(initial, log, lo, hi, x)
    ensures Content(initial, log, hi, x) == Content(initial, log, lo, x) <==> !Disturbed(initial, log, lo, hi, x)
  {
    var cells, moved := Contents(initial, log, lo, hi, x), Moves(initial, log, lo, hi, x);
    ContentsDrift(initial, log, lo, hi, x);
    ReturnsExactly(x, cells, moved);
    MovedIsDisturbed(initial, log, lo, hi, x);
    assert cells[0] == Content(initial, log, lo, x) && cells[|moved|] == Content(initial, log, hi, x);
  }

  /** Looking back from `hi`, the first disturbance met, if there is one, left this behind. */
  ghost predicate Returned(initial: Store, log: seq<Entry>, lo: nat, hi: nat, x: Item, c: Cell)
    requires hi <= |log|
    decreases hi
  {
    lo < hi ==> if DisturbedAt(initial, log, hi - 1, x) then Content(initial, log, hi, x) == c else Returned(initial, log, lo, hi - 1, x, c)
  }

  /** Whatever collides, the item is back where it was exactly when the last disturbance put it there. */
  lemma {:induction false} ReturnedExactly(initial: Store, log: seq<Entry>, lo: nat, hi: nat, x: Item)
    requires lo <= hi <= |log| && Quiet(initial, log, lo, hi, x)
    ensures var c := Content(initial, log, lo, x); Content(initial, log, hi, x) == c <==> Returned(initial, log, lo, hi, x, c)
  {
    if lo < hi {
      var end := hi - 1;
      assert QuietStep(initial, log, end, x);
      StepDrift(initial, log, end, x);
      ReturnedExactly(initial, log, lo, end, x);
    }
  }

  lemma {:induction false} SparedIsReturned(initial: Store, log: seq<Entry>, lo: nat, hi: nat, x: Item, c: Cell)
    requires lo <= hi <= |log| && !Disturbed(initial, log, lo, hi, x)
    ensures Returned(initial, log, lo, hi, x, c)
  {
    if lo < hi {
      assert !DisturbedAt(initial, log, hi - 1, x);
      SparedIsReturned(initial, log, lo, hi - 1, x, c);
    }
  }

  /** Nothing that merge `k` read was disturbed between its reading and the merge. */
  ghost predicate ReadsSpared(initial: Store, log: seq<Entry>, k: nat)
    requires k < |log| && log[k].Commit?
  {
    var tx := log[k].tx;
    forall i :: 0 <= i < |tx.seen| && i < |tx.at| && Reads(tx, i) ==> !Disturbed(initial, log, tx.at[i], k, ItemRead(tx, i))
  }

  /** Whatever disturbed a reading of merge `k`, the last to do so put back what had been read. */
  ghost predicate ReadsReturned(initial: Store, log: seq<Entry>, k: nat)
    requires k < |log| && log[k].Commit?
  {
    var tx := log[k].tx;
    forall i :: 0 <= i < |tx.seen| && i < |tx.at| && Reads(tx, i) ==>
      Returned(initial, log, tx.at[i], k, ItemRead(tx, i), tx.seen[i])
  }

  /** Nothing that merge `k` read saw a CRDT take another's place between its reading and the merge. */
  ghost predicate ReadsUncollided(initial: Store, log: seq<Entry>, k: nat)
    requires k < |log| && log[k].Commit?
  {
    var tx := log[k].tx;
    forall i :: 0 <= i < |tx.seen| && i < |tx.at| && Reads(tx, i) ==> !Collided(initial, log, tx.at[i], k, ItemRead(tx, i))
  }

  lemma ReadIsQuiet(s: State, k: nat, i: nat)
    requires LogOk(s) && k < |s.log| && s.log[k].Commit? && !s.log[k].buffer.WriteSetOf().IsEmpty() && i < |s.log[k].tx.seen|
    requires i < |s.log[k].tx.at| && Reads(s.log[k].tx, i)
    ensures Quiet(s.initial, s.log, s.log[k].tx.at[i], k, ItemRead(s.log[k].tx, i))
  {
    var tx := s.log[k].tx;
    assert MergeOk(s.initial, s.log, k);
    assert Unregistered(s.log, tx.at[i], k, ItemRead(tx, i));
    forall j | tx.at[i] <= j < k ensures QuietStep(s.initial, s.log, j, ItemRead(tx, i)) {
      assert s.log[j].Commit? && MergeOk(s.initial, s.log, j);
    }
  }

  /** A reading is still true where its transaction merges exactly when the item reads the same at both positions. */
  lemma ReadTrueAt(s: State, k: nat, i: nat)
    requires LogOk(s) && k < |s.log| && s.log[k].Commit? && i < |s.log[k].tx.seen|
    ensures var tx := s.log[k].tx;
      && i < |tx.at| && Reads(tx, i) && tx.at[i] <= k && tx.seen[i] == Lookup(StoreAt(s.initial, s.log, tx.at[i]), ItemRead(tx, i))
  {
    var tx := s.log[k].tx;
    assert MergeOk(s.initial, s.log, k) && ReadsOk(s.initial, s.log[..k], tx);
    assert s.log == s.log[..k] + s.log[k..];
    StoreAtPrefix(s.initial, s.log[..k], s.log[k..], tx.at[i]);
  }

  /** What became of one reading of a writer, three ways. */
  lemma ReadingHolds(s: State, k: nat, i: nat)
    requires LogOk(s) && k < |s.log| && s.log[k].Commit? && !s.log[k].buffer.WriteSetOf().IsEmpty() && i < |s.log[k].tx.seen|
    ensures var tx := s.log[k].tx; i < |tx.at| && Reads(tx, i) && tx.at[i] <= k
    ensures var tx := s.log[k].tx; var x := ItemRead(tx, i);
      var holds := Lookup(StoreAt(s.initial, s.log, k), x) == tx.seen[i];
      && (holds <==> Returned(s.initial, s.log, tx.at[i], k, x, tx.seen[i]))
      && (!Disturbed(s.initial, s.log, tx.at[i], k, x) ==> holds)
      && (!Collided(s.initial, s.log, tx.at[i], k, x) ==> (holds <==> !Disturbed(s.initial, s.log, tx.at[i], k, x)))
  {
    var tx := s.log[k].tx;
    ReadTrueAt(s, k, i);
    ReadIsQuiet(s, k, i);
    var x := ItemRead(tx, i);
    ReturnedExactly(s.initial, s.log, tx.at[i], k, x);
    if !Disturbed(s.initial, s.log, tx.at[i], k, x) { SparedIsReturned(s.initial, s.log, tx.at[i], k, x, tx.seen[i]); }
    if !Collided(s.initial, s.log, tx.at[i], k, x) { HeldExactly(s.initial, s.log, tx.at[i], k, x); }
  }

  /**
   Serializability of writers, exactly. Replay the committed writers one at a time in log
   order, each alone on the state its predecessors left. A writer then reads what it read and
   writes what it wrote if and only if, for each reading, the last commit that disturbed it
   without conflict detection seeing it, if there was one, left what had been read. Such a
   commit is a pure-CRDT write that carries something new, or a deletion that took an edge along.
   In particular a writer whose readings were spared is serial; and unless some exempt write
   took the place of a committed CRDT, only such writers are.
   */
  lemma Serializable(run: seq<State>, k: nat)
    requires Run(run)
    requires k < |run[|run| - 1].log|
    requires var e := run[|run| - 1].log[k]; e.Commit? && !e.buffer.WriteSetOf().IsEmpty()
    ensures var s := run[|run| - 1];
      var serial := RunsAlone(s.log[k].tx, s.log[k].buffer, StoreAt(s.initial, s.log, k));
      && (serial <==> ReadsReturned(s.initial, s.log, k))
      && (ReadsSpared(s.initial, s.log, k) ==> serial)
      && (ReadsUncollided(s.initial, s.log, k) ==> (serial <==> ReadsSpared(s.initial, s.log, k)))
  {
    RunKeepsInv(run);
    var s := run[|run| - 1];
    var tx := s.log[k].tx;
    assert MergeOk(s.initial, s.log, k);
    forall i | 0 <= i < |tx.seen|
      ensures i < |tx.at| && Reads(tx, i) && tx.at[i] <= k
      ensures var x := ItemRead(tx, i);
        var holds := Lookup(StoreAt(s.initial, s.log, k), x) == tx.seen[i];
        && (holds <==> Returned(s.initial, s.log, tx.at[i], k, x, tx.seen[i]))
        && (!Disturbed(s.initial, s.log, tx.at[i], k, x) ==> holds)
        && (!Collided(s.initial, s.log, tx.at[i], k, x) ==> (holds <==> !Disturbed(s.initial, s.log, tx.at[i], k, x)))
    {
      ReadingHolds(s, k, i);
    }
  }

  /** Merge `j` reaches the item, registered or not; a restore reaches everything. */
  ghost predicate Reaches(initial: Store, log: seq<Entry>, j: nat, x: Item)
    requires j < |log|
  {
    log[j].Restore? || Touches(log[j].buffer.WriteSetOf(), x) || Silently(StoreAt(initial, log, j), log[j].buffer, x)
  }

  /** Merge `j` is the last before `hi` to reach the item. */
  ghost predicate LastReach(initial: Store, log: seq<Entry>, j: nat, hi: nat, x: Item)
    requires j < hi <= |log|
  {
    Reaches(initial, log, j, x) && forall m :: j < m < hi ==> !Reaches(initial, log, m, x)
  }

  /** The last merge of the stretch that reaches the item, if there is one, leaves this behind. */
  ghost predicate LastLeaves(initial: Store, log: seq<Entry>, lo: nat, hi: nat, x: Item, c: Cell)
    requires hi <= |log|
  {
    forall j :: lo <= j < hi && LastReach(initial, log, j, hi, x) ==> Lookup(StoreAt(initial, log, j + 1), x) == c
  }

  lemma {:induction false} LastDecides(initial: Store, log: seq<Entry>, lo: nat, hi: nat, x: Item)
    requires lo <= hi <= |log|
    ensures var c := Lookup(StoreAt(initial, log, lo), x);
      Lookup(StoreAt(initial, log, hi), x) == c <==> LastLeaves(initial, log, lo, hi, x, c)
  {
    if lo < hi {
      var c := Lookup(StoreAt(initial, log, lo), x);
      if Reaches(initial, log, hi - 1, x) {
        assert LastReach(initial, log, hi - 1, hi, x);
        assert forall j :: lo <= j < hi - 1 ==> !LastReach(initial, log, j, hi, x);
      } else {
        LastDecides(initial, log, lo, hi - 1, x);
        ApplyFrame(StoreAt(initial, log, hi - 1), log[hi - 1].buffer, x);
        LastLeavesShorter(initial, log, lo, hi, x, c);
      }
    }
  }

  lemma LastLeavesShorter(initial: Store, log: seq<Entry>, lo: nat, hi: nat, x: Item, c: Cell)
    requires lo < hi <= |log| && !Reaches(initial, log, hi - 1, x)
    ensures LastLeaves(initial, log, lo, hi, x, c) <==> LastLeaves(initial, log, lo, hi - 1, x, c)
  {
    forall j | lo <= j < hi - 1 ensures LastReach(initial, log, j, hi, x) <==> LastReach(initial, log, j, hi - 1, x) {
    }
    if LastLeaves(initial, log, lo, hi, x, c) {
      var end := hi - 1;
      forall j | lo <= j < end && LastReach(initial, log, j, end, x) ensures Lookup(StoreAt(initial, log, j + 1), x) == c {
        assert LastReach(initial, log, j, hi, x);
      }
    }
    if LastLeaves(initial, log, lo, hi - 1, x, c) {
      forall j | lo <= j < hi && LastReach(initial, log, j, hi, x) ensures Lookup(StoreAt(initial, log, j + 1), x) == c {
        assert LastReach(initial, log, j, hi - 1, x);
      }
    }
  }

  /**
   Every commit, those with an empty write-set included, which nothing validates: it fits the
   serial order where it merged if and only if, for each item it read, the last merge since
   that reached the item (if any did) left what had been read.
   */
  lemma SerialWhereMerged(run: seq<State>, k: nat)
    requires Run(run) && k < |run[|run| - 1].log| && run[|run| - 1].log[k].Commit?
    ensures var s := run[|run| - 1]; var tx := s.log[k].tx;
      RunsAlone(tx, s.log[k].buffer, StoreAt(s.initial, s.log, k)) <==>
      forall i :: 0 <= i < |tx.seen| && i < |tx.at| && Reads(tx, i) ==>
        LastLeaves(s.initial, s.log, tx.at[i], k, ItemRead(tx, i), tx.seen[i])
  {
    RunKeepsInv(run);
    var s := run[|run| - 1];
    var tx := s.log[k].tx;
    assert MergeOk(s.initial, s.log, k);
    forall i | 0 <= i < |tx.seen|
      ensures i < |tx.at| && Reads(tx, i)
      ensures Lookup(StoreAt(s.initial, s.log, k), ItemRead(tx, i)) == tx.seen[i] <==>
        LastLeaves(s.initial, s.log, tx.at[i], k, ItemRead(tx, i), tx.seen[i])
    {
      ReadTrueAt(s, k, i);
      LastDecides(s.initial, s.log, tx.at[i], k, ItemRead(tx, i));
    }
  }

  ghost predicate OneSnapshot(tx: Tx, p: nat) { forall i :: 0 <= i < |tx.at| ==> tx.at[i] == p }

  /** A commit that read one snapshot throughout fits the serial order at that snapshot. */
  lemma SerialAtSnapshot(run: seq<State>, k: nat, p: nat)
    requires Run(run) && k < |run[|run| - 1].log| && run[|run| - 1].log[k].Commit? && p <= k
    requires OneSnapshot(run[|run| - 1].log[k].tx, p)
    ensures var s := run[|run| - 1]; RunsAlone(s.log[k].tx, s.log[k].buffer, StoreAt(s.initial, s.log, p))
  {
    RunKeepsInv(run);
    var s := run[|run| - 1];
    var tx := s.log[k].tx;
    assert MergeOk(s.initial, s.log, k);
    forall i | 0 <= i < |tx.seen| ensures Reads(tx, i) && Lookup(StoreAt(s.initial, s.log, p), ItemRead(tx, i)) == tx.seen[i] {
      ReadTrueAt(s, k, i);
    }
  }

  /** No lost update, no twice-claimed key, and no writer survives a restore it did not see. */
  lemma ConcurrentWritersAreDisjoint(run: seq<State>, j: nat, k: nat)
    requires Run(run)
    requires j < k < |run[|run| - 1].log|
    requires var e := run[|run| - 1].log[k]; e.Commit? && !e.buffer.WriteSetOf().IsEmpty() && e.tx.floor <= j
    ensures var log := run[|run| - 1].log;
      && log[j].Commit?
      && var mine, theirs := log[k].buffer.WriteSetOf(), log[j].buffer.WriteSetOf();
      && mine.vertices !! theirs.vertices && mine.edges !! theirs.edges
      && mine.vertexKeys !! theirs.vertexKeys && mine.edgeKeys !! theirs.edgeKeys
      && mine.mergeKeys !! theirs.mergeKeys && mine.extIds !! theirs.extIds
  {
    RunKeepsInv(run);
    var s := run[|run| - 1];
    assert MergeOk(s.initial, s.log, k);
    assert s.log[j].Commit?;
    ClashIs(s.log[k].buffer.WriteSetOf(), None, s.log[j].buffer.WriteSetOf());
  }
}
