/**
 Runs around a vector-clock register whose writers share a clock: an update that is lost, and a
 reading that two unseen commits disturb and put back.
 */
module TxRegisters {
  import opened Basics
  import Clocks
  import opened CommitRegistry
  import Crdts
  import VCRegister
  import opened TxStore
  import opened TxSystem
  import opened TxAnomalies

  type Value = VCRegister.Value

  ghost function RegRow(v: Value, clock: Clocks.Clock): VertexRow {
    VertexRow(map["r" := Crdt(Crdts.Causal(VCRegister.Reg(v, clock)))], {})
  }

  /** Vertex 0 holds the register, vertex 1 nothing or a mark. */
  ghost function Held(v: Value, clock: Clocks.Clock): Store {
    Store(map[0 := RegRow(v, clock), 1 := EMPTY_ROW], map[])
  }

  ghost function Put(v: Value, clock: Clocks.Clock): Buffer {
    CrdtWrite(0, "r", Crdts.Causal(VCRegister.Reg(v, clock)))
  }

  lemma PutIsExempt(v: Value, clock: Clocks.Clock)
    ensures Put(v, clock).Valid() && Put(v, clock).Exempt() == {0} && Put(v, clock).WriteSetOf().IsEmpty()
  {
    CrdtWriteIsExempt(0, "r", Crdts.Causal(VCRegister.Reg(v, clock)));
    assert EMPTY_BUFFER.edges.Keys == {};
  }

  lemma PutPasses(v: Value, clock: Clocks.Clock, u: Value, other: Clocks.Clock)
    ensures !VariantOverwrite(Put(v, clock), Held(u, other))
  {
  }

  lemma PutProps(v: Value, clock: Clocks.Clock, u: Value, other: Clocks.Clock)
    ensures var m := VCRegister.Merged(VCRegister.Reg(v, clock), VCRegister.Reg(u, other));
      MergeProps(RegRow(u, other).props, Put(v, clock).vertexProps[0]) == RegRow(m.value, m.clock).props
  {
  }

  /** What a put leaves: the merge of the stored register into the one put. */
  lemma PutLeaves(v: Value, clock: Clocks.Clock, u: Value, other: Clocks.Clock)
    ensures var m := VCRegister.Merged(VCRegister.Reg(v, clock), VCRegister.Reg(u, other));
      Apply(Held(u, other), Put(v, clock)) == Held(m.value, m.clock)
  {
    var st, b := Held(u, other), Put(v, clock);
    var m := VCRegister.Merged(VCRegister.Reg(v, clock), VCRegister.Reg(u, other));
    PutProps(v, clock, u, other);
    assert RowOf(st, 0).labels + b.LabelsOf(0) == {};
    assert NewRow(RowOf(st, 0), b, 0) == RegRow(m.value, m.clock);
    assert Apply(st, b).vertices == st.vertices[0 := RegRow(m.value, m.clock)];
    assert Apply(st, b).edges == map[];
  }

  lemma SameClockReplaces(v: Value, u: Value, clock: Clocks.Clock)
    ensures Apply(Held(u, clock), Put(v, clock)) == Held(v, clock)
  {
    Clocks.JoinIsAbove(clock, clock);
    PutLeaves(v, clock, u, clock);
  }

  // ---- a reading that comes back

  ghost function Putter(v: Value, clock: Clocks.Clock): Job { Job([], _ => Put(v, clock)) }

  ghost function Note(): Buffer { EMPTY_BUFFER.(vertexProps := map[1 := map["m" := Plain(1)]]) }

  /** Reads the register and marks vertex 1. */
  ghost function Noter(): Job { Job([Vertex(0)], _ => Note()) }

  lemma NoteFacts(v: Value, clock: Clocks.Clock)
    ensures Note().Valid() && Note().WriteSetOf().vertices == {1} && !Note().WriteSetOf().IsEmpty()
    ensures !VariantOverwrite(Note(), Held(v, clock))
  {
    assert "m" in Note().vertexProps[1] && !IsCrdt(Note().vertexProps[1]["m"]);
    assert !Note().CarveOut(1);
    assert 1 in Note().WriteSetOf().vertices;
  }

  ghost function NoterTx(x: Value, clock: Clocks.Clock): Tx {
    Tx(ProgramOf(Noter()), 0, 0, [V(RegRow(x, clock))], [0])
  }

  ghost function PutterTx(v: Value, clock: Clocks.Clock, at: nat): Tx { Tx(ProgramOf(Putter(v, clock)), 0, at, [], []) }

  /** After `n` of the two puts, the noter still open. */
  ghost function Waiting(x: Value, y: Value, clock: Clocks.Clock, n: nat): State
    requires n <= 2
  {
    State(0, [], 1, Held(x, clock),
          [Commit(PutterTx(y, clock, 0), Put(y, clock)), Commit(PutterTx(x, clock, 1), Put(x, clock))][..n],
          [0, 0][..n], Free, map[2 := NoterTx(x, clock)])
  }

  lemma WaitingStores(x: Value, y: Value, clock: Clocks.Clock, log: seq<Entry>)
    requires 2 <= |log| && log[0].Commit? && log[0].buffer == Put(y, clock) && log[1].Commit? && log[1].buffer == Put(x, clock)
    ensures StoreAt(Held(x, clock), log, 0) == Held(x, clock)
    ensures StoreAt(Held(x, clock), log, 1) == Held(y, clock)
    ensures StoreAt(Held(x, clock), log, 2) == Held(x, clock)
  {
    SameClockReplaces(y, x, clock);
    SameClockReplaces(x, y, clock);
    assert StoreAt(Held(x, clock), log, 1) == After(StoreAt(Held(x, clock), log, 0), log[0]);
  }

  lemma StartsWaiting(x: Value, y: Value, clock: Clocks.Clock) returns (run: seq<State>)
    ensures Run(run) && run[|run| - 1] == Waiting(x, y, clock, 0)
  {
    var s0 := State(0, [], 1, Held(x, clock), [], [], Free, map[]);
    assert Lookups(Held(x, clock), [Vertex(0)])[..1] == [V(RegRow(x, clock))];
    run := OpenSteps([s0], 2, Noter(), 1);
    assert seq(1, _ => 0) == [0];
    assert run[|run| - 1].live[2] == NoterTx(x, clock);
  }

  /** One put opens and commits. */
  lemma PutCommits(run: seq<State>, v: Value, clock: Clocks.Clock) returns (longer: seq<State>)
    requires Run(run) && run[|run| - 1].lock == Free && 0 !in run[|run| - 1].live
    requires var s := run[|run| - 1];
      |s.stamps| == |s.log| && !VariantOverwrite(Put(v, clock), StoreAt(s.initial, s.log, |s.log|))
    ensures Run(longer)
    ensures var s := run[|run| - 1];
      longer[|longer| - 1] == s.(
        log := s.log + [Commit(Tx(ProgramOf(Putter(v, clock)), s.sequence, |s.stamps|, [], []), Put(v, clock))],
        stamps := s.stamps + [s.sequence])
  {
    var s := run[|run| - 1];
    PutIsExempt(v, clock);
    var begun := OpenSteps(run, 0, Putter(v, clock), 0);
    var t := begun[|begun| - 1];
    assert Lookups(StoreAt(s.initial, s.log, |s.log|), [])[..0] == [] && seq(0, _ => |s.log|) == [];
    assert t.live[0] == Tx(ProgramOf(Putter(v, clock)), s.sequence, |s.stamps|, [], []);
    assert MayCommit(t, 0);
    longer := CommitSteps(begun, 0);
    assert t.live - {0} == s.live;
  }

  lemma BothPutsCommit(x: Value, y: Value, clock: Clocks.Clock) returns (run: seq<State>)
    ensures Run(run) && run[|run| - 1] == Waiting(x, y, clock, 2)
  {
    run := StartsWaiting(x, y, clock);
    PutPasses(y, clock, x, clock);
    run := PutCommits(run, y, clock);
    assert run[|run| - 1] == Waiting(x, y, clock, 1);
    SameClockReplaces(y, x, clock);
    var log := run[|run| - 1].log;
    assert StoreAt(Held(x, clock), log, 1) == After(StoreAt(Held(x, clock), log, 0), log[0]) == Held(y, clock);
    PutPasses(x, clock, y, clock);
    run := PutCommits(run, x, clock);
    assert run[|run| - 1] == Waiting(x, y, clock, 2);
  }

  /**
   A writer reads the register; two exempt commits with its clock put another value there and
   then the first one back. The writer is serial although its reading was disturbed twice.
   */
  lemma DisturbedReadingComesBack(x: Value, y: Value, clock: Clocks.Clock)
    requires x != y
    ensures exists run: seq<State> ::
      && Run(run)
      && var s := run[|run| - 1];
      && s.initial == Held(x, clock) && |s.log| == 3 && s.log[2].Commit? && !s.log[2].buffer.WriteSetOf().IsEmpty()
      && RunsAlone(s.log[2].tx, s.log[2].buffer, StoreAt(s.initial, s.log, 2))
      && !ReadsSpared(s.initial, s.log, 2) && !ReadsUncollided(s.initial, s.log, 2)
  {
    var run := BothPutsCommit(x, y, clock);
    var t := run[|run| - 1];
    WaitingStores(x, y, clock, t.log);
    NoteFacts(x, clock);
    assert MayCommit(t, 2);
    run := CommitSteps(run, 2);
    var s := run[|run| - 1];
    NoterIsSerial(s, x, y, clock);
  }

  /** The first put disturbs the register and collides with it. */
  lemma FirstPutDisturbs(x: Value, y: Value, clock: Clocks.Clock)
    requires x != y
    ensures Disturbs(Held(x, clock), Put(y, clock), Vertex(0)) && Collides(Held(x, clock), Put(y, clock), Vertex(0))
  {
    PutIsExempt(y, clock);
    SameClockReplaces(y, x, clock);
    ExemptIsNoopExactly(Held(x, clock), Put(y, clock), 0);
    assert RegRow(x, clock).props["r"] != RegRow(y, clock).props["r"];
    Crdts.EqualClocksTakeTurns(x, y, clock);
    assert ClashesAt(RegRow(x, clock).props, Put(y, clock).vertexProps[0], "r");
  }

  lemma NoterIsSerial(s: State, x: Value, y: Value, clock: Clocks.Clock)
    requires x != y && s.initial == Held(x, clock) && s.log == Waiting(x, y, clock, 2).log + [Commit(NoterTx(x, clock), Note())]
    ensures RunsAlone(s.log[2].tx, s.log[2].buffer, StoreAt(s.initial, s.log, 2))
    ensures !ReadsSpared(s.initial, s.log, 2) && !ReadsUncollided(s.initial, s.log, 2)
  {
    WaitingStores(x, y, clock, s.log);
    var tx := s.log[2].tx;
    assert tx.seen[..0] == [] && Reads(tx, 0) && ItemRead(tx, 0) == Vertex(0);
    FirstPutDisturbs(x, y, clock);
    assert DisturbedAt(s.initial, s.log, 0, Vertex(0));
    assert CollidedAt(s.initial, s.log, 0, Vertex(0));
  }

  // ---- an update that is lost

  /** Sets the register to `v` as the actor, one step after the clock it reads. */
  ghost function Sets(v: Value, actor: Clocks.Actor, cs: seq<Cell>): Buffer {
    if |cs| == 1 && cs[0].V? && "r" in cs[0].row.props && cs[0].row.props["r"].Crdt? && cs[0].row.props["r"].c.Causal?
    then
      var r := VCRegister.Written(cs[0].row.props["r"].c.reg, actor, v);
      Put(r.value, r.clock)
    else EMPTY_BUFFER
  }

  ghost function Setter(v: Value, actor: Clocks.Actor): Job { Job([Vertex(0)], cs => Sets(v, actor, cs)) }

  ghost function Ticked(clock: Clocks.Clock, actor: Clocks.Actor): Clocks.Clock { clock[actor := Clocks.Count(clock, actor) + 1] }

  lemma SetterWrites(w: Value, clock: Clocks.Clock, v: Value, actor: Clocks.Actor)
    ensures Sets(v, actor, [Lookup(Held(w, clock), Vertex(0))]) == Put(v, Ticked(clock, actor))
  {
  }

  lemma TickedIsAfter(clock: Clocks.Clock, actor: Clocks.Actor)
    ensures VCRegister.Before(clock, Ticked(clock, actor)) && Clocks.Join(Ticked(clock, actor), clock) == Ticked(clock, actor)
  {
    assert Clocks.Count(clock, actor) < Clocks.Count(Ticked(clock, actor), actor);
    Clocks.JoinCommutes(Ticked(clock, actor), clock);
    Clocks.JoinIsAbove(clock, Ticked(clock, actor));
  }

  /** Alone, a setter leaves its value one step on. */
  lemma SetterOn(w: Value, clock: Clocks.Clock, v: Value, actor: Clocks.Actor)
    ensures Outcome(Held(w, clock), Setter(v, actor)) == Held(v, Ticked(clock, actor))
  {
    assert Lookups(Held(w, clock), [Vertex(0)]) == [Lookup(Held(w, clock), Vertex(0))];
    SetterWrites(w, clock, v, actor);
    TickedIsAfter(clock, actor);
    VCRegister.CmpFlips(clock, Ticked(clock, actor));
    PutLeaves(v, Ticked(clock, actor), w, clock);
  }

  lemma TwiceTicked(clock: Clocks.Clock, actor: Clocks.Actor)
    ensures Ticked(Ticked(clock, actor), actor) != Ticked(clock, actor)
  {
    assert Clocks.Count(Ticked(Ticked(clock, actor), actor), actor) != Clocks.Count(Ticked(clock, actor), actor);
  }

  lemma DifferentClocks(v: Value, c: Clocks.Clock, u: Value, d: Clocks.Clock)
    requires c != d
    ensures Held(v, c) != Held(u, d)
  {
    assert Held(v, c).vertices[0].props["r"].c.reg.clock == c && Held(u, d).vertices[0].props["r"].c.reg.clock == d;
  }

  /** One after the other the two take two steps. */
  lemma OrderTicksTwice(w: Value, clock: Clocks.Clock, x: Value, y: Value, actor: Clocks.Actor, v: Value)
    ensures !Serial(Held(w, clock), [Setter(x, actor), Setter(y, actor)], Held(v, Ticked(clock, actor)))
  {
    var js := [Setter(x, actor), Setter(y, actor)];
    TwoOutcomes(Held(w, clock), Setter(x, actor), Setter(y, actor));
    SetterOn(w, clock, x, actor);
    SetterOn(x, Ticked(clock, actor), y, actor);
    TwiceTicked(clock, actor);
    DifferentClocks(y, Ticked(Ticked(clock, actor), actor), v, Ticked(clock, actor));
    if Serial(Held(w, clock), js, Held(v, Ticked(clock, actor))) { SerialIsOutcomes(Held(w, clock), js, Held(v, Ticked(clock, actor))); }
  }

  /** In neither order does the clock show only one step. */
  lemma NoOrderTicksOnce(w: Value, clock: Clocks.Clock, x: Value, y: Value, actor: Clocks.Actor)
    ensures Unserializable(Held(w, clock), [Setter(x, actor), Setter(y, actor)], Held(y, Ticked(clock, actor)))
  {
    var a, b := Setter(x, actor), Setter(y, actor);
    OrderTicksTwice(w, clock, x, y, actor, y);
    OrderTicksTwice(w, clock, y, x, actor, y);
    forall f | Permutes(f, 2) ensures Arranged([a, b], f) == [a, b] || Arranged([a, b], f) == [b, a] {
      TwoOrders(f);
    }
  }

  ghost function SetterTx(w: Value, clock: Clocks.Clock, v: Value, actor: Clocks.Actor): Tx {
    Tx(ProgramOf(Setter(v, actor)), 0, 0, [V(RegRow(w, clock))], [0])
  }

  lemma BothSettersOpen(w: Value, clock: Clocks.Clock, x: Value, y: Value, actor: Clocks.Actor) returns (run: seq<State>)
    ensures Run(run)
    ensures run[|run| - 1] == State(0, [], 1, Held(w, clock), [], [], Free,
                                    map[0 := SetterTx(w, clock, x, actor), 1 := SetterTx(w, clock, y, actor)])
  {
    var s0 := State(0, [], 1, Held(w, clock), [], [], Free, map[]);
    assert Lookups(Held(w, clock), [Vertex(0)])[..1] == [V(RegRow(w, clock))] && seq(1, _ => 0) == [0];
    run := OpenSteps([s0], 0, Setter(x, actor), 1);
    assert run[|run| - 1].live[0] == SetterTx(w, clock, x, actor);
    run := OpenSteps(run, 1, Setter(y, actor), 1);
    assert run[|run| - 1].live[1] == SetterTx(w, clock, y, actor);
  }

  lemma OneSet(w: Value, clock: Clocks.Clock, x: Value, y: Value, actor: Clocks.Actor) returns (run: seq<State>)
    ensures Run(run)
    ensures run[|run| - 1] == State(0, [], 1, Held(w, clock), [Commit(SetterTx(w, clock, x, actor), Put(x, Ticked(clock, actor)))],
                                    [0], Free, map[1 := SetterTx(w, clock, y, actor)])
  {
    run := BothSettersOpen(w, clock, x, y, actor);
    SetterWrites(w, clock, x, actor);
    PutIsExempt(x, Ticked(clock, actor));
    PutPasses(x, Ticked(clock, actor), w, clock);
    assert MayCommit(run[|run| - 1], 0);
    run := CommitSteps(run, 0);
  }

  lemma BothSet(w: Value, clock: Clocks.Clock, x: Value, y: Value, actor: Clocks.Actor) returns (run: seq<State>)
    ensures Run(run)
    ensures var s := run[|run| - 1];
      && s.initial == Held(w, clock) && s.live == map[] && s.lock == Free
      && s.log == [Commit(SetterTx(w, clock, x, actor), Put(x, Ticked(clock, actor))), Commit(SetterTx(w, clock, y, actor), Put(y, Ticked(clock, actor)))]
      && StoreAt(s.initial, s.log, 2) == Held(y, Ticked(clock, actor))
  {
    run := OneSet(w, clock, x, y, actor);
    var next := Ticked(clock, actor);
    SetterWrites(w, clock, y, actor);
    PutIsExempt(y, next);
    FirstSet(w, clock, x, actor, run[|run| - 1].log);
    PutPasses(y, next, x, next);
    assert MayCommit(run[|run| - 1], 1);
    run := CommitSteps(run, 1);
    var log := run[|run| - 1].log;
    SameClockReplaces(y, x, next);
    FirstSet(w, clock, x, actor, log);
    assert StoreAt(Held(w, clock), log, 2) == After(StoreAt(Held(w, clock), log, 1), log[1]);
  }

  /**
   Two transactions set the register from one snapshot as the same actor. Neither is validated,
   both commit, and the second replaces the first: no serial order ends in that state.
   */
  lemma RegisterUpdateIsLost(w: Value, clock: Clocks.Clock, x: Value, y: Value, actor: Clocks.Actor)
    ensures exists run: seq<State> ::
      && Run(run)
      && var s := run[|run| - 1];
      && s.initial == Held(w, clock) && s.live == map[] && s.lock == Free && |s.log| == 2
      && s.log[0].Commit? && s.log[0].tx.program == ProgramOf(Setter(x, actor))
      && s.log[1].Commit? && s.log[1].tx.program == ProgramOf(Setter(y, actor))
      && StoreAt(s.initial, s.log, 2) == Held(y, Ticked(clock, actor))
      && Unserializable(s.initial, [Setter(x, actor), Setter(y, actor)], StoreAt(s.initial, s.log, 2))
  {
    var run := BothSet(w, clock, x, y, actor);
    NoOrderTicksOnce(w, clock, x, y, actor);
  }

  lemma FirstSet(w: Value, clock: Clocks.Clock, x: Value, actor: Clocks.Actor, log: seq<Entry>)
    requires |log| >= 1 && log[0].Commit? && log[0].buffer == Put(x, Ticked(clock, actor))
    ensures StoreAt(Held(w, clock), log, 1) == Held(x, Ticked(clock, actor))
  {
    TickedIsAfter(clock, actor);
    VCRegister.CmpFlips(clock, Ticked(clock, actor));
    PutLeaves(x, Ticked(clock, actor), w, clock);
    assert StoreAt(Held(w, clock), log, 1) == After(StoreAt(Held(w, clock), log, 0), log[0]);
  }
}
