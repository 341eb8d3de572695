/**
 The vector-clock register (`uni-crdt/src/vc_register.rs`, `vector_clock.rs`). Its merge is
 documented as commutative, associative and idempotent. Proved here: idempotence; the exact
 condition for commutativity; the exact condition, on clocks alone, for associativity; and a
 run of two replicas that hear of the same writes and that no later delivery brings together.
 */
module VCRegister {
  import Bytes
  import opened Clocks

  /** A value is its serialized form; concurrent writes are ordered by it. */
  type Value = seq<nat>

  datatype Reg = Reg(value: Value, clock: Clock)

  /** Causal order: no component larger, some component smaller. */
  ghost predicate Before(c: Clock, d: Clock) {
    (forall a :: Count(c, a) <= Count(d, a)) && exists a :: Count(c, a) < Count(d, a)
  }

  /** The two-pass scan that decides causal order. */
  method HappenedBefore(c: Clock, d: Clock) returns (r: bool)
    ensures r <==> Before(c, d)
  {
    var strictlyLess := false;
    var pending := c.Keys;
    while pending != {}
      invariant pending <= c.Keys
      invariant forall a :: a in c && a !in pending ==> c[a] <= Count(d, a)
      invariant strictlyLess <==> exists a :: a in c && a !in pending && c[a] < Count(d, a)
      decreases pending
    {
      var actor :| actor in pending;
      if c[actor] > Count(d, actor) {
        assert Count(c, actor) > Count(d, actor);
        return false;
      }
      if c[actor] < Count(d, actor) { strictlyLess := true; }
      pending := pending - {actor};
    }
    assert forall a :: Count(c, a) <= Count(d, a);
    if !strictlyLess {
      strictlyLess := exists a :: a in d && a !in c && d[a] > 0;
      if strictlyLess {
        var w :| w in d && w !in c && d[w] > 0;
        assert Count(c, w) < Count(d, w);
      }
    } else {
      var w :| w in c && c[w] < Count(d, w);
      assert Count(c, w) < Count(d, w);
    }
    r := strictlyLess;
  }

  datatype Order = Less | Greater | Equal | Concurrent

  ghost function CausalCmp(c: Clock, d: Clock): Order {
    if c == d then Equal else if Before(c, d) then Less else if Before(d, c) then Greater else Concurrent
  }

  function Larger(v: Value, w: Value): Value { if Bytes.Less(v, w) then w else v }

  ghost function Merged(r: Reg, s: Reg): Reg {
    Reg(match CausalCmp(r.clock, s.clock)
        case Less => s.value
        case Greater => r.value
        case Equal => r.value
        case Concurrent => Larger(r.value, s.value),
        Join(r.clock, s.clock))
  }

  function Written(r: Reg, a: Actor, v: Value): Reg { Reg(v, r.clock[a := Count(r.clock, a) + 1]) }

  /** The value of the causally later register; of equal ones the receiver's, of concurrent ones the larger serialized form. */
  lemma MergedIs(r: Reg, s: Reg)
    ensures Merged(r, s).clock == Join(r.clock, s.clock)
    ensures r.clock == s.clock ==> Merged(r, s).value == r.value
    ensures Before(r.clock, s.clock) ==> Merged(r, s).value == s.value
    ensures Before(s.clock, r.clock) ==> Merged(r, s).value == r.value
    ensures r.clock != s.clock && !Before(r.clock, s.clock) && !Before(s.clock, r.clock) ==>
      Merged(r, s).value == if Bytes.Less(r.value, s.value) then s.value else r.value
  {
    CmpFlips(r.clock, s.clock);
  }

  /** A write takes the value and one more step of its actor's count, and no other's. */
  lemma WrittenIs(r: Reg, a: Actor, v: Value, x: Actor)
    ensures Written(r, a, v).value == v
    ensures Count(Written(r, a, v).clock, x) == Count(r.clock, x) + if x == a then 1 else 0
    ensures Before(r.clock, Written(r, a, v).clock)
  {
    var c := Written(r, a, v).clock;
    assert Count(r.clock, a) < Count(c, a);
    forall y ensures Count(r.clock, y) <= Count(c, y) { }
  }

  // ---- laws

  lemma CmpFlips(c: Clock, d: Clock)
    ensures match CausalCmp(c, d)
      case Less => CausalCmp(d, c) == Greater
      case Greater => CausalCmp(d, c) == Less
      case Equal => CausalCmp(d, c) == Equal
      case Concurrent => CausalCmp(d, c) == Concurrent
  {
  }

  lemma MergeIdempotent(r: Reg)
    ensures Merged(r, r) == r
  {
    assert Join(r.clock, r.clock) == r.clock;
  }

  /** Merging commutes if and only if equal clocks never carry different values. */
  lemma MergeCommutesExactly(r: Reg, s: Reg)
    ensures Merged(r, s) == Merged(s, r) <==> (r.clock == s.clock ==> r.value == s.value)
  {
    CmpFlips(r.clock, s.clock);
    JoinCommutes(r.clock, s.clock);
    if Bytes.Less(r.value, s.value) { Bytes.LessIsAsymmetric(r.value, s.value); }
    Bytes.LessIsTotal(r.value, s.value);
  }

  // ---- associativity

  /** The writes still in the running after one merge, named by their clocks. */
  ghost function Running(c: Clock, cs: set<Clock>, d: Clock, ds: set<Clock>): set<Clock> {
    match CausalCmp(c, d)
    case Less => ds
    case Greater => cs
    case Equal => cs
    case Concurrent => cs + ds
  }

  ghost function RunningLeft(a: Clock, b: Clock, c: Clock): set<Clock> {
    Running(Join(a, b), Running(a, {a}, b, {b}), c, {c})
  }

  ghost function RunningRight(a: Clock, b: Clock, c: Clock): set<Clock> {
    Running(a, {a}, Join(b, c), Running(b, {b}, c, {c}))
  }

  /** `v` is the largest value among the writes still in the running. */
  ghost predicate Best(v: Value, val: Clock -> Value, cs: set<Clock>) {
    (exists c :: c in cs && val(c) == v) && forall c :: c in cs ==> !Bytes.Less(v, val(c))
  }

  lemma LargerIsBest(v: Value, w: Value, val: Clock -> Value, cs: set<Clock>, ds: set<Clock>)
    requires Best(v, val, cs) && Best(w, val, ds)
    ensures Best(Larger(v, w), val, cs + ds)
  {
    forall c | c in cs + ds ensures !Bytes.Less(Larger(v, w), val(c)) {
      if Bytes.Less(v, w) {
        if c in cs && Bytes.Less(w, val(c)) { Bytes.LessIsTransitive(v, w, val(c)); }
      } else if c in ds && Bytes.Less(v, val(c)) {
        Bytes.LessIsTotal(v, w);
        if Bytes.Less(w, v) { Bytes.LessIsTransitive(w, v, val(c)); }
      }
    }
  }

  lemma BestIsUnique(v: Value, w: Value, val: Clock -> Value, cs: set<Clock>)
    requires Best(v, val, cs) && Best(w, val, cs)
    ensures v == w
  {
    Bytes.LessIsTotal(v, w);
  }

  lemma MergeKeepsBest(r: Reg, cs: set<Clock>, s: Reg, ds: set<Clock>, val: Clock -> Value)
    requires Best(r.value, val, cs) && Best(s.value, val, ds)
    ensures Best(Merged(r, s).value, val, Running(r.clock, cs, s.clock, ds))
  {
    if CausalCmp(r.clock, s.clock) == Concurrent {
      LargerIsBest(r.value, s.value, val, cs, ds);
    }
  }

  lemma SingleIsBest(c: Clock, val: Clock -> Value)
    ensures Best(val(c), val, {c})
  {
    if Bytes.Less(val(c), val(c)) { Bytes.LessIsAsymmetric(val(c), val(c)); }
  }

  ghost predicate AssociatesAt(a: Clock, b: Clock, c: Clock, val: Clock -> Value) {
    var r, s, t := Reg(val(a), a), Reg(val(b), b), Reg(val(c), c);
    Merged(Merged(r, s), t) == Merged(r, Merged(s, t))
  }

  lemma GroupingsAreBest(a: Clock, b: Clock, c: Clock, val: Clock -> Value)
    ensures var r, s, t := Reg(val(a), a), Reg(val(b), b), Reg(val(c), c);
      && Best(Merged(Merged(r, s), t).value, val, RunningLeft(a, b, c))
      && Best(Merged(r, Merged(s, t)).value, val, RunningRight(a, b, c))
  {
    var r, s, t := Reg(val(a), a), Reg(val(b), b), Reg(val(c), c);
    SingleIsBest(a, val); SingleIsBest(b, val); SingleIsBest(c, val);
    MergeKeepsBest(r, {a}, s, {b}, val);
    MergeKeepsBest(Merged(r, s), Running(a, {a}, b, {b}), t, {c}, val);
    MergeKeepsBest(s, {b}, t, {c}, val);
    MergeKeepsBest(r, {a}, Merged(s, t), Running(b, {b}, c, {c}), val);
  }

  lemma AssociatesIfSameRunning(a: Clock, b: Clock, c: Clock, val: Clock -> Value)
    requires RunningLeft(a, b, c) == RunningRight(a, b, c)
    ensures AssociatesAt(a, b, c, val)
  {
    var r, s, t := Reg(val(a), a), Reg(val(b), b), Reg(val(c), c);
    JoinAssociates(a, b, c);
    GroupingsAreBest(a, b, c, val);
    BestIsUnique(Merged(Merged(r, s), t).value, Merged(r, Merged(s, t)).value, val, RunningLeft(a, b, c));
  }

  lemma DiffersIfOtherRunning(a: Clock, b: Clock, c: Clock, x: Clock)
    requires x in RunningLeft(a, b, c) <==> x !in RunningRight(a, b, c)
    ensures !AssociatesAt(a, b, c, Favouring(x))
  {
    GroupingsAreBest(a, b, c, Favouring(x));
    Separates(x, RunningLeft(a, b, c), RunningRight(a, b, c));
  }

  /**
   Merging three registers associates for every choice of values, if and only if both
   groupings leave the same writes in the running. The condition reads the clocks only.
   */
  lemma AssociatesExactly(a: Clock, b: Clock, c: Clock)
    ensures (forall val: Clock -> Value :: AssociatesAt(a, b, c, val)) <==> RunningLeft(a, b, c) == RunningRight(a, b, c)
  {
    if RunningLeft(a, b, c) == RunningRight(a, b, c) {
      forall val: Clock -> Value ensures AssociatesAt(a, b, c, val) {
        AssociatesIfSameRunning(a, b, c, val);
      }
    } else {
      var x :| x in RunningLeft(a, b, c) <==> x !in RunningRight(a, b, c);
      DiffersIfOtherRunning(a, b, c, x);
    }
  }

  ghost function Favouring(x: Clock): Clock -> Value { y => if y == x then [1] else [0] }

  /** A write in the running on one side only can be made to win on that side only. */
  lemma Separates(x: Clock, ls: set<Clock>, rs: set<Clock>)
    requires x in ls <==> x !in rs
    ensures forall v, w :: Best(v, Favouring(x), ls) && Best(w, Favouring(x), rs) ==> v != w
  {
    var val := Favouring(x);
    forall v, w | Best(v, val, ls) && Best(w, val, rs) ensures v != w {
      var outside := if x in ls then w else v;
      assert outside == [0] && val(x) == [1] && Bytes.Less([0], [1]);
    }
  }

  // ---- divergence

  datatype State = State(replicas: map<Actor, Reg>, sent: set<Reg>)

  ghost predicate Init(s: State) {
    s.sent == {} && forall a :: a in s.replicas ==> s.replicas[a].clock == map[a := 1]
  }

  ghost predicate WriteStep(s: State, s': State, a: Actor, v: Value) {
    a in s.replicas && s' == s.(replicas := s.replicas[a := Written(s.replicas[a], a, v)])
  }

  ghost predicate SendStep(s: State, s': State, a: Actor) {
    a in s.replicas && s' == s.(sent := s.sent + {s.replicas[a]})
  }

  ghost predicate MergeStep(s: State, s': State, a: Actor, r: Reg) {
    a in s.replicas && r in s.sent && s' == s.(replicas := s.replicas[a := Merged(s.replicas[a], r)])
  }

  ghost predicate Step(s: State, s': State) {
    || (exists a, v :: WriteStep(s, s', a, v))
    || (exists a :: SendStep(s, s', a))
    || (exists a, r :: MergeStep(s, s', a, r))
  }

  ghost predicate Run(run: seq<State>) {
    && run != [] && Init(run[0])
    && forall i :: 0 <= i < |run| - 1 ==> Step(run[i], run[i + 1])
  }

  /** Some run begins in one state and ends in the other. */
  ghost predicate Reaches(from: State, to: State) {
    exists run :: Run(run) && run[0] == from && run[|run| - 1] == to
  }

  ghost function Clock2(m: nat, n: nat): Clock { map["A" := m, "B" := n] }

  lemma Crossed(c: Clock, d: Clock, x: Actor, y: Actor)
    requires Count(c, x) > Count(d, x) && Count(c, y) < Count(d, y)
    ensures CausalCmp(c, d) == Concurrent
  {
  }

  ghost function Duo(ra: Reg, rb: Reg, sent: set<Reg>): State { State(map["A" := ra, "B" := rb], sent) }

  /** B merges A's first copy: concurrent, and z is the larger value. */
  lemma TakesFirst(z: Value, m: Value)
    requires Bytes.Less(m, z)
    ensures Merged(Reg(m, map["B" := 1]), Reg(z, map["A" := 1])) == Reg(z, Clock2(1, 1))
  {
    Crossed(map["B" := 1], map["A" := 1], "B", "A");
    assert Join(map["B" := 1], map["A" := 1]) == Clock2(1, 1);
  }

  /** B then merges A's second copy: still concurrent, and z still wins over a. */
  lemma IgnoresSecond(z: Value, a: Value)
    requires Bytes.Less(a, z)
    ensures Merged(Reg(z, Clock2(1, 1)), Reg(a, map["A" := 2])) == Reg(z, Clock2(2, 1))
  {
    Crossed(Clock2(1, 1), map["A" := 2], "B", "A");
    Bytes.LessIsAsymmetric(a, z);
    assert Join(Clock2(1, 1), map["A" := 2]) == Clock2(2, 1);
  }

  /** A, holding its second write, merges B's copy and takes m. */
  lemma TakesOther(m: Value, a: Value)
    requires Bytes.Less(a, m)
    ensures Merged(Reg(a, map["A" := 2]), Reg(m, map["B" := 1])) == Reg(m, Clock2(2, 1))
  {
    Crossed(map["A" := 2], map["B" := 1], "A", "B");
    assert Join(map["A" := 2], map["B" := 1]) == Clock2(2, 1);
  }

  /** Both copies sent, A writes again and sends that too. */
  lemma OpeningMoves(first: Reg, mine: Reg, second: Reg)
    requires first.clock == map["A" := 1] && mine.clock == map["B" := 1] && second == Written(first, "A", second.value)
    ensures Run([Duo(first, mine, {}), Duo(first, mine, {first}), Duo(first, mine, {first, mine}),
                 Duo(second, mine, {first, mine}), Duo(second, mine, {first, mine, second})])
  {
    var s0, s1, s2 := Duo(first, mine, {}), Duo(first, mine, {first}), Duo(first, mine, {first, mine});
    var s3, s4 := Duo(second, mine, {first, mine}), Duo(second, mine, {first, mine, second});
    assert SendStep(s0, s1, "A");
    assert SendStep(s1, s2, "B");
    assert WriteStep(s2, s3, "A", second.value);
    assert SendStep(s3, s4, "A");
  }

  lemma OneMore(run: seq<State>, next: State)
    requires Run(run) && Step(run[|run| - 1], next)
    ensures Run(run + [next])
  {
  }

  lemma BMerges(run: seq<State>, ra: Reg, rb: Reg, sent: set<Reg>, r: Reg) returns (longer: seq<State>)
    requires Run(run) && run[|run| - 1] == Duo(ra, rb, sent) && r in sent
    ensures Run(longer) && longer[0] == run[0] && longer[|longer| - 1] == Duo(ra, Merged(rb, r), sent)
  {
    var next := Duo(ra, Merged(rb, r), sent);
    assert MergeStep(run[|run| - 1], next, "B", r);
    OneMore(run, next);
    longer := run + [next];
  }

  lemma AMerges(run: seq<State>, ra: Reg, rb: Reg, sent: set<Reg>, r: Reg) returns (longer: seq<State>)
    requires Run(run) && run[|run| - 1] == Duo(ra, rb, sent) && r in sent
    ensures Run(longer) && longer[0] == run[0] && longer[|longer| - 1] == Duo(Merged(ra, r), rb, sent)
  {
    var next := Duo(Merged(ra, r), rb, sent);
    assert next.replicas == map["A" := ra, "B" := rb]["A" := Merged(ra, r)];
    assert MergeStep(run[|run| - 1], next, "A", r);
    OneMore(run, next);
    longer := run + [next];
  }

  lemma WholeRun(first: Reg, mine: Reg, second: Reg, low: Reg, high: Reg, other: Reg) returns (run: seq<State>)
    requires first.clock == map["A" := 1] && mine.clock == map["B" := 1] && second == Written(first, "A", second.value)
    requires low == Merged(mine, first) && high == Merged(low, second) && other == Merged(second, mine)
    ensures Run(run) && run[0] == Duo(first, mine, {})
    ensures run[|run| - 1] == Duo(other, high, {first, mine, second})
  {
    OpeningMoves(first, mine, second);
    run := [Duo(first, mine, {}), Duo(first, mine, {first}), Duo(first, mine, {first, mine}),
            Duo(second, mine, {first, mine}), Duo(second, mine, {first, mine, second})];
    var sent := {first, mine, second};
    run := BMerges(run, second, mine, sent, first);
    run := BMerges(run, second, low, sent, second);
    run := AMerges(run, second, high, sent, mine);
  }

  // ---- what no delivery can change

  /** The clock already accounts for every write the other one does. */
  ghost predicate Covers(c: Clock, d: Clock) {
    c == d || (d.Keys <= c.Keys && Before(d, c))
  }

  /** Every replica has the same clock, and it covers every copy in flight. */
  ghost predicate Settled(s: State, all: Clock) {
    && (forall a :: a in s.replicas ==> s.replicas[a].clock == all)
    && forall r :: r in s.sent ==> Covers(all, r.clock)
  }

  lemma CoveredChangesNothing(r: Reg, s: Reg)
    requires Covers(r.clock, s.clock)
    ensures Merged(r, s) == r
  {
    if r.clock != s.clock {
      var a :| Count(s.clock, a) < Count(r.clock, a);
      assert !Before(r.clock, s.clock);
    }
    assert Join(r.clock, s.clock).Keys == r.clock.Keys;
    forall a | a in r.clock ensures Join(r.clock, s.clock)[a] == r.clock[a] {
      assert Count(s.clock, a) <= Count(r.clock, a);
    }
  }

  /** Copies are sent and merged; nobody writes. */
  ghost predicate Delivers(s: State, s': State) {
    (exists a :: SendStep(s, s', a)) || exists a, r :: MergeStep(s, s', a, r)
  }

  ghost predicate Deliveries(run: seq<State>) {
    run != [] && forall i :: 0 <= i < |run| - 1 ==> Delivers(run[i], run[i + 1])
  }

  lemma DeliveryKeepsSettled(s: State, s': State, all: Clock)
    requires Settled(s, all) && Delivers(s, s')
    ensures Settled(s', all) && s'.replicas == s.replicas
  {
    if a :| SendStep(s, s', a) {
    } else {
      var a, r :| MergeStep(s, s', a, r);
      CoveredChangesNothing(s.replicas[a], r);
      assert s'.replicas == s.replicas;
    }
  }

  /** From a settled state no delivery of any copies, in any order and number, changes any replica. */
  lemma {:induction false} SettledForEver(run: seq<State>, all: Clock, i: nat)
    requires Deliveries(run) && Settled(run[0], all) && i < |run|
    ensures Settled(run[i], all) && run[i].replicas == run[0].replicas
  {
    if i > 0 {
      SettledForEver(run, all, i - 1);
      DeliveryKeepsSettled(run[i - 1], run[i], all);
    }
  }

  ghost predicate ForEver(s: State) {
    forall run: seq<State>, i :: Deliveries(run) && run[0] == s && 0 <= i < |run| ==> run[i].replicas == s.replicas
  }

  lemma SettledIsForEver(s: State, all: Clock)
    requires Settled(s, all)
    ensures ForEver(s)
  {
    forall run: seq<State>, i | Deliveries(run) && run[0] == s && 0 <= i < |run| ensures run[i].replicas == s.replicas {
      SettledForEver(run, all, i);
    }
  }

  lemma TwoOneCovers()
    ensures Covers(Clock2(2, 1), map["A" := 1]) && Covers(Clock2(2, 1), map["B" := 1]) && Covers(Clock2(2, 1), map["A" := 2])
  {
    assert Count(map["A" := 1], "B") < Count(Clock2(2, 1), "B");
    assert Count(map["B" := 1], "A") < Count(Clock2(2, 1), "A");
    assert Count(map["A" := 2], "B") < Count(Clock2(2, 1), "B");
  }

  /** What the three merges of the run give. */
  lemma MergesOfTheRun(z: Value, m: Value, a: Value)
    requires Bytes.Less(a, m) && Bytes.Less(m, z)
    ensures var first, mine, second := Reg(z, map["A" := 1]), Reg(m, map["B" := 1]), Reg(a, map["A" := 2]);
      && second == Written(first, "A", a)
      && Merged(mine, first) == Reg(z, Clock2(1, 1))
      && Merged(Reg(z, Clock2(1, 1)), second) == Reg(z, Clock2(2, 1))
      && Merged(second, mine) == Reg(m, Clock2(2, 1))
  {
    Bytes.LessIsTransitive(a, m, z);
    TakesFirst(z, m); IgnoresSecond(z, a); TakesOther(m, a);
  }

  /** A holds m, B holds z, the clocks are equal, and all three writes have been sent. */
  ghost function Diverged(z: Value, m: Value, a: Value): State {
    Duo(Reg(m, Clock2(2, 1)), Reg(z, Clock2(2, 1)), {Reg(z, map["A" := 1]), Reg(m, map["B" := 1]), Reg(a, map["A" := 2])})
  }

  lemma DivergedIsSettled(z: Value, m: Value, a: Value)
    ensures Settled(Diverged(z, m, a), Clock2(2, 1))
  {
    TwoOneCovers();
  }

  lemma ReachesDiverged(z: Value, m: Value, a: Value)
    requires Bytes.Less(a, m) && Bytes.Less(m, z)
    ensures Reaches(Duo(Reg(z, map["A" := 1]), Reg(m, map["B" := 1]), {}), Diverged(z, m, a))
  {
    MergesOfTheRun(z, m, a);
    var run := WholeRun(Reg(z, map["A" := 1]), Reg(m, map["B" := 1]), Reg(a, map["A" := 2]),
                        Reg(z, Clock2(1, 1)), Reg(z, Clock2(2, 1)), Reg(m, Clock2(2, 1)));
  }

  /**
   Replica A writes z and then a; replica B writes m. Each write is sent. B merges both of
   A's copies, A merges B's copy. Both clocks now cover all three writes, yet A holds m and B
   holds z, which its own author had overwritten; and no further delivery changes either.
   */
  lemma ReplicasDivergeForEver(z: Value, m: Value, a: Value)
    requires Bytes.Less(a, m) && Bytes.Less(m, z)
    ensures m != z && Reaches(Duo(Reg(z, map["A" := 1]), Reg(m, map["B" := 1]), {}), Diverged(z, m, a))
    ensures Settled(Diverged(z, m, a), Clock2(2, 1)) && ForEver(Diverged(z, m, a))
  {
    Bytes.LessIsAsymmetric(m, z);
    ReachesDiverged(z, m, a);
    DivergedIsSettled(z, m, a);
    SettledIsForEver(Diverged(z, m, a), Clock2(2, 1));
  }
}
