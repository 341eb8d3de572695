/**
 The observed-remove set (`uni-crdt/src/orset.rs`), tombstone-free: causal dots plus a
 version vector. Proved: the merge is a join on well-formed states, and over every run of
 any number of replicas exchanging any old copies of their states in any order, each
 replica's contents are exactly the add-wins reading of the operations it has heard of.
 */
module ORSet {
  import opened Clocks

  type Elem = string

  datatype Dot = Dot(actor: Actor, counter: nat)

  /** The serialized part of a replica: live dots per element, and the version vector. */
  datatype Rep = Rep(dots: map<Elem, set<Dot>>, vv: Clock)

  const EMPTY := Rep(map[], map[])

  function At(dots: map<Elem, set<Dot>>, e: Elem): set<Dot> { if e in dots then dots[e] else {} }

  function DotsOf(a: Rep, e: Elem): set<Dot> { At(a.dots, e) }

  function Seen(a: Rep, actor: Actor): nat { Count(a.vv, actor) }

  predicate Contains(a: Rep, e: Elem) { DotsOf(a, e) != {} }

  /** Shared dots, and the dots of one side that the other side has never observed. */
  function Surviving(a: Rep, b: Rep, e: Elem): set<Dot> {
    Reconciled(DotsOf(a, e), DotsOf(b, e), a.vv, b.vv)
  }

  function Reconciled(sd: set<Dot>, od: set<Dot>, selfVv: Clock, otherVv: Clock): set<Dot> {
    sd * od
    + (set d | d in sd - od && d.counter > Count(otherVv, d.actor))
    + (set d | d in od - sd && d.counter > Count(selfVv, d.actor))
  }

  function Merged(a: Rep, b: Rep): Rep {
    Rep(map e | e in a.dots.Keys + b.dots.Keys && Surviving(a, b, e) != {} :: Surviving(a, b, e),
        Join(a.vv, b.vv))
  }

  function Added(a: Rep, actor: Actor, e: Elem): Rep {
    var n := Seen(a, actor) + 1;
    Rep(a.dots[e := {Dot(actor, n)}], a.vv[actor := n])
  }

  function Removed(a: Rep, e: Elem): Rep { a.(dots := a.dots - {e}) }

  /** No empty entries, and every live dot is covered by the replica's own version vector. */
  ghost predicate WellFormed(a: Rep) {
    forall e :: e in a.dots ==> a.dots[e] != {} && forall d :: d in a.dots[e] ==> d.counter <= Seen(a, d.actor)
  }

  /** The elements done hold what survives, without empty entries; the pending ones are as they were. */
  ghost predicate PartlyMerged(dots: map<Elem, set<Dot>>, pending: set<Elem>, a: Rep, b: Rep) {
    && (forall e :: e in pending ==> At(dots, e) == DotsOf(a, e))
    && (forall e :: e !in pending ==> At(dots, e) == Surviving(a, b, e))
    && (forall e :: e in dots && e !in pending ==> dots[e] != {})
  }

  lemma MergedMore(dots: map<Elem, set<Dot>>, pending: set<Elem>, a: Rep, b: Rep, key: Elem)
    requires PartlyMerged(dots, pending, a, b) && key in pending
    ensures At(dots, key) == DotsOf(a, key)
    ensures var surviving := Surviving(a, b, key);
      PartlyMerged(if surviving == {} then dots - {key} else dots[key := surviving], pending - {key}, a, b)
  {
  }

  lemma AllMerged(dots: map<Elem, set<Dot>>, a: Rep, b: Rep)
    requires PartlyMerged(dots, {}, a, b)
    ensures dots == Merged(a, b).dots
  {
    forall e ensures At(dots, e) == At(Merged(a, b).dots, e) { MergedAt(a, b, e); }
    MergedNoEmpty(a, b);
    SameDots(dots, Merged(a, b).dots);
  }

  lemma MergedAt(a: Rep, b: Rep, e: Elem)
    ensures At(Merged(a, b).dots, e) == Surviving(a, b, e)
  {
  }

  class Replica {
    var dots: map<Elem, set<Dot>>
    var vv: Clock
    const actor: Actor

    function Value(): Rep reads this { Rep(dots, vv) }

    constructor (actor: Actor)
      ensures Value() == EMPTY && this.actor == actor
    {
      this.actor := actor;
      dots, vv := map[], map[];
    }

    /** An independent copy under a new actor id. */
    constructor Fork(source: Replica, actor: Actor)
      ensures Value() == source.Value() && this.actor == actor
    {
      this.actor := actor;
      dots, vv := source.dots, source.vv;
    }

    /** A snapshot copy keeps the actor id. */
    constructor Clone(source: Replica)
      ensures Value() == source.Value() && actor == source.actor
    {
      actor := source.actor;
      dots, vv := source.dots, source.vv;
    }

    method Add(e: Elem) returns (dot: Dot)
      modifies this
      ensures Value() == Added(old(Value()), actor, e)
      ensures dot == Dot(actor, Seen(old(Value()), actor) + 1)
    {
      var counter := (if actor in vv then vv[actor] else 0) + 1;
      vv := vv[actor := counter];
      dot := Dot(actor, counter);
      dots := dots[e := {dot}];
    }

    method Remove(e: Elem)
      modifies this
      ensures Value() == Removed(old(Value()), e)
    {
      dots := dots - {e};
    }

    method Merge(other: Replica)
      requires other != this
      modifies this
      ensures Value() == Merged(old(Value()), other.Value())
    {
      ghost var before := dots;
      var pending := dots.Keys + other.dots.Keys;
      while pending != {}
        invariant vv == old(vv) && other.dots == old(other.dots) && other.vv == old(other.vv)
        invariant PartlyMerged(dots, pending, Rep(before, vv), other.Value())
        decreases pending
      {
        var key :| key in pending;
        var surviving := Reconciled(At(dots, key), At(other.dots, key), vv, other.vv);
        MergedMore(dots, pending, Rep(before, vv), other.Value(), key);
        if surviving == {} {
          dots := dots - {key};
        } else {
          dots := dots[key := surviving];
        }
        pending := pending - {key};
      }
      AllMerged(dots, Rep(before, vv), other.Value());
      vv := Join(vv, other.vv);
    }
  }

  /** Without empty entries, equal lookups make equal maps. */
  lemma SameDots(m: map<Elem, set<Dot>>, n: map<Elem, set<Dot>>)
    requires forall e :: e in m ==> m[e] != {}
    requires forall e :: e in n ==> n[e] != {}
    requires forall e :: At(m, e) == At(n, e)
    ensures m == n
  {
    forall e ensures e in m <==> e in n { assert At(m, e) == At(n, e); }
    forall e | e in m ensures m[e] == n[e] { assert At(m, e) == At(n, e); }
  }

  // ---- join laws

  /** Whether a dot with this counter is kept, given who holds it and who has observed how far. */
  predicate Kept(inA: bool, inB: bool, counter: nat, seenA: nat, seenB: nat) {
    if inA then inB || counter > seenB else inB && counter > seenA
  }

  lemma MergedDot(a: Rep, b: Rep, e: Elem, d: Dot)
    ensures d in DotsOf(Merged(a, b), e) <==>
      Kept(d in DotsOf(a, e), d in DotsOf(b, e), d.counter, Seen(a, d.actor), Seen(b, d.actor))
  {
    assert d in DotsOf(Merged(a, b), e) <==> d in Surviving(a, b, e);
  }

  lemma MergedSeen(a: Rep, b: Rep, actor: Actor)
    ensures Seen(Merged(a, b), actor) == Max(Seen(a, actor), Seen(b, actor))
  {
  }

  lemma MergeCommutes(a: Rep, b: Rep)
    ensures Merged(a, b) == Merged(b, a)
  {
    MergedNoEmpty(a, b);
    MergedNoEmpty(b, a);
    JoinCommutes(a.vv, b.vv);
    forall e, d ensures d in DotsOf(Merged(a, b), e) <==> d in DotsOf(Merged(b, a), e) {
      MergedDot(a, b, e, d);
      MergedDot(b, a, e, d);
    }
    SameRep(Merged(a, b), Merged(b, a));
  }

  lemma MergeIdempotent(a: Rep)
    requires WellFormed(a)
    ensures Merged(a, a) == a
  {
    forall e ensures Surviving(a, a, e) == DotsOf(a, e) { }
    assert Merged(a, a).dots == a.dots;
  }

  lemma MergeKeepsWellFormed(a: Rep, b: Rep)
    requires WellFormed(a) && WellFormed(b)
    ensures WellFormed(Merged(a, b))
  {
    var m := Merged(a, b);
    forall e, d | e in m.dots && d in m.dots[e] ensures d.counter <= Seen(m, d.actor) {
      MergedDot(a, b, e, d);
      MergedSeen(a, b, d.actor);
      Covered(a, e, d); Covered(b, e, d);
    }
  }

  lemma Covered(a: Rep, e: Elem, d: Dot)
    requires WellFormed(a)
    ensures d in DotsOf(a, e) ==> d.counter <= Seen(a, d.actor)
  {
  }

  lemma AssociativeAt(a: Rep, b: Rep, c: Rep, e: Elem, d: Dot)
    requires WellFormed(a) && WellFormed(b) && WellFormed(c)
    ensures d in DotsOf(Merged(Merged(a, b), c), e) <==> d in DotsOf(Merged(a, Merged(b, c)), e)
  {
    MergedDot(a, b, e, d); MergedDot(b, c, e, d);
    MergedDot(Merged(a, b), c, e, d); MergedDot(a, Merged(b, c), e, d);
    MergedSeen(a, b, d.actor); MergedSeen(b, c, d.actor);
    Covered(a, e, d); Covered(b, e, d); Covered(c, e, d);
  }

  lemma MergeAssociates(a: Rep, b: Rep, c: Rep)
    requires WellFormed(a) && WellFormed(b) && WellFormed(c)
    ensures Merged(Merged(a, b), c) == Merged(a, Merged(b, c))
  {
    MergedNoEmpty(Merged(a, b), c);
    MergedNoEmpty(a, Merged(b, c));
    JoinAssociates(a.vv, b.vv, c.vv);
    forall e, d ensures d in DotsOf(Merged(Merged(a, b), c), e) <==> d in DotsOf(Merged(a, Merged(b, c)), e) {
      AssociativeAt(a, b, c, e, d);
    }
    SameRep(Merged(Merged(a, b), c), Merged(a, Merged(b, c)));
  }

  lemma MergedNoEmpty(a: Rep, b: Rep)
    ensures forall e :: e in Merged(a, b).dots ==> Merged(a, b).dots[e] != {}
  {
  }

  lemma SameRep(l: Rep, r: Rep)
    requires forall e :: e in l.dots ==> l.dots[e] != {}
    requires forall e :: e in r.dots ==> r.dots[e] != {}
    requires forall e, d :: d in DotsOf(l, e) <==> d in DotsOf(r, e)
    requires l.vv == r.vv
    ensures l == r
  {
    forall e ensures At(l.dots, e) == At(r.dots, e) {
      forall d ensures d in At(l.dots, e) <==> d in At(r.dots, e) {
        assert d in DotsOf(l, e) <==> d in DotsOf(r, e);
      }
    }
    SameDots(l.dots, r.dots);
  }

  // ---- copies that go separate ways

  /** Clones mint one dot for two elements, and each side takes the other's for removed. */
  lemma SharedActorLosesBoth(a: Rep, x: Actor, e: Elem, f: Elem)
    requires WellFormed(a) && e != f
    ensures var m := Merged(Added(a, x, e), Added(a, x, f)); !Contains(m, e) && !Contains(m, f)
  {
    var l, r := Added(a, x, e), Added(a, x, f);
    forall d ensures d !in DotsOf(Merged(l, r), e) && d !in DotsOf(Merged(l, r), f) {
      MergedDot(l, r, e, d);
      MergedDot(l, r, f, d);
      Covered(a, e, d);
      Covered(a, f, d);
    }
  }

  /**
   Two copies of one replica each add an element and are merged. Both elements survive if and
   only if the copies have different actor ids or add the same element.
   */
  lemma CopiesKeepBothExactly(a: Rep, x: Actor, y: Actor, e: Elem, f: Elem)
    requires WellFormed(a)
    ensures var m := Merged(Added(a, x, e), Added(a, y, f));
      Contains(m, e) && Contains(m, f) <==> x != y || e == f
  {
    var l, r := Added(a, x, e), Added(a, y, f);
    MergedDot(l, r, e, Dot(x, Seen(a, x) + 1));
    MergedDot(l, r, f, Dot(y, Seen(a, y) + 1));
    if x == y && e != f { SharedActorLosesBoth(a, x, e, f); }
  }

  /** A replica and its clone each add an element; merged, the replica holds neither. */
  method CloneLosesBoth(mine: Replica, e: Elem, f: Elem)
    requires WellFormed(mine.Value()) && e != f
    modifies mine
    ensures !Contains(mine.Value(), e) && !Contains(mine.Value(), f)
  {
    ghost var before := mine.Value();
    var clone := new Replica.Clone(mine);
    var _ := mine.Add(e);
    var _ := clone.Add(f);
    mine.Merge(clone);
    SharedActorLosesBoth(before, mine.actor, e, f);
  }

  /** A replica and its fork each add an element; merged, the replica holds both. */
  method ForkKeepsBoth(mine: Replica, other: Actor, e: Elem, f: Elem)
    requires WellFormed(mine.Value()) && other != mine.actor
    modifies mine
    ensures Contains(mine.Value(), e) && Contains(mine.Value(), f)
  {
    ghost var before := mine.Value();
    var fork := new Replica.Fork(mine, other);
    var _ := mine.Add(e);
    var _ := fork.Add(f);
    mine.Merge(fork);
    CopiesKeepBothExactly(before, mine.actor, other, e, f);
  }

  // ---- runs of many replicas

  datatype Op = Add(elem: Elem) | Remove(elem: Elem)

  /** An operation, with the earlier operations its replica had heard of. */
  datatype Event = Event(op: Op, dot: Dot, past: set<nat>)

  /** A copy of a replica: its value, and the operations it has heard of. */
  datatype Copy = Copy(rep: Rep, heard: set<nat>)

  datatype State = State(events: seq<Event>, replicas: map<Actor, Copy>, sent: set<Copy>)

  ghost predicate Init(s: State) {
    s.events == [] && s.sent == {} && forall a :: a in s.replicas ==> s.replicas[a] == Copy(EMPTY, {})
  }

  ghost function Applied(ev: Event, c: Copy, n: nat): Copy {
    Copy(if ev.op.Add? then Added(c.rep, ev.dot.actor, ev.op.elem) else Removed(c.rep, ev.op.elem), c.heard + {n})
  }

  ghost function Issued(s: State, a: Actor, ev: Event): State
    requires a in s.replicas
  {
    State(s.events + [ev], s.replicas[a := Applied(ev, s.replicas[a], |s.events|)], s.sent)
  }

  ghost function NewAdd(c: Copy, a: Actor, e: Elem): Event { Event(Add(e), Dot(a, Seen(c.rep, a) + 1), c.heard) }

  ghost function NewRemove(c: Copy, a: Actor, e: Elem): Event { Event(Remove(e), Dot(a, 0), c.heard) }

  ghost predicate AddStep(s: State, s': State, a: Actor, e: Elem) {
    a in s.replicas && s' == Issued(s, a, NewAdd(s.replicas[a], a, e))
  }

  ghost predicate RemoveStep(s: State, s': State, a: Actor, e: Elem) {
    a in s.replicas && s' == Issued(s, a, NewRemove(s.replicas[a], a, e))
  }

  /** A replica forked or decoded from a copy gets an actor id nobody has used. */
  ghost predicate ForkStep(s: State, s': State, a: Actor, c: Copy) {
    && a !in s.replicas && (c in s.sent || c in s.replicas.Values)
    && s' == s.(replicas := s.replicas[a := c])
  }

  ghost predicate SendStep(s: State, s': State, a: Actor) {
    && a in s.replicas && s' == s.(sent := s.sent + {s.replicas[a]})
  }

  /** Copies may arrive late, repeatedly and in any order. */
  ghost predicate MergeStep(s: State, s': State, a: Actor, c: Copy) {
    && a in s.replicas && c in s.sent
    && var mine := s.replicas[a];
    && s' == s.(replicas := s.replicas[a := Copy(Merged(mine.rep, c.rep), mine.heard + c.heard)])
  }

  ghost predicate Step(s: State, s': State) {
    || (exists a, e :: AddStep(s, s', a, e))
    || (exists a, e :: RemoveStep(s, s', a, e))
    || (exists a, c :: ForkStep(s, s', a, c))
    || (exists a :: SendStep(s, s', a))
    || (exists a, c :: MergeStep(s, s', a, c))
  }

  ghost predicate Run(run: seq<State>) {
    && run != [] && Init(run[0])
    && forall i :: 0 <= i < |run| - 1 ==> Step(run[i], run[i + 1])
  }

  // ---- the add-wins reading of a set of operations

  /** `j` is a later operation on the same element, issued in knowledge of `i`. */
  ghost predicate Overrides(events: seq<Event>, j: nat, i: nat) {
    i < |events| && j < |events| && events[j].op.elem == events[i].op.elem && i in events[j].past
  }

  /** `i` adds `e` and nothing heard of overrides it. */
  ghost predicate LiveAdd(events: seq<Event>, heard: set<nat>, i: nat, e: Elem) {
    && i in heard && i < |events| && events[i].op == Add(e)
    && forall j :: j in heard ==> !Overrides(events, j, i)
  }

  ghost predicate Present(events: seq<Event>, heard: set<nat>, e: Elem) {
    exists i: nat :: LiveAdd(events, heard, i, e)
  }

  ghost predicate HeardOk(events: seq<Event>, heard: set<nat>) {
    forall i :: i in heard ==> i < |events| && events[i].past <= heard
  }

  ghost predicate DotsOk(events: seq<Event>, c: Copy) {
    && (forall e, d :: d in DotsOf(c.rep, e) <==> exists i: nat :: LiveAdd(events, c.heard, i, e) && events[i].dot == d)
    && (forall e :: e in c.rep.dots ==> c.rep.dots[e] != {})
  }

  /** The version vector tells exactly which additions have been heard of. */
  ghost predicate ClockOk(events: seq<Event>, c: Copy) {
    && (forall i :: 0 <= i < |events| && events[i].op.Add? ==>
          (i in c.heard <==> events[i].dot.counter <= Seen(c.rep, events[i].dot.actor)))
    && (forall a :: a in c.rep.vv ==>
          exists i :: i in c.heard && i < |events| && events[i].op.Add? && events[i].dot == Dot(a, c.rep.vv[a]))
  }

  ghost predicate CopyOk(events: seq<Event>, c: Copy) {
    HeardOk(events, c.heard) && DotsOk(events, c) && ClockOk(events, c)
  }

  ghost predicate EventsOk(events: seq<Event>) {
    && (forall i :: 0 <= i < |events| ==> forall j :: j in events[i].past ==> j < i && events[j].past <= events[i].past)
    && (forall i :: 0 <= i < |events| && events[i].op.Add? ==> events[i].dot.counter > 0)
    && (forall i, j :: 0 <= i < j < |events| && events[i].op.Add? && events[j].op.Add? ==> events[i].dot != events[j].dot)
  }

  /** A replica has heard of everything issued under its own actor id. */
  ghost predicate OwnersOk(s: State) {
    forall i :: 0 <= i < |s.events| ==>
      s.events[i].dot.actor in s.replicas && i in s.replicas[s.events[i].dot.actor].heard
  }

  ghost predicate Inv(s: State) {
    && EventsOk(s.events) && OwnersOk(s)
    && (forall a :: a in s.replicas ==> CopyOk(s.events, s.replicas[a]))
    && (forall c :: c in s.sent ==> CopyOk(s.events, c))
  }

  // ---- preservation

  /** A copy's reading does not change when unheard operations are issued elsewhere. */
  lemma CopyOkExtends(events: seq<Event>, ev: Event, c: Copy)
    requires CopyOk(events, c)
    requires ev.op.Add? ==> ev.dot.counter > Seen(c.rep, ev.dot.actor)
    ensures CopyOk(events + [ev], c)
  {
    var more := events + [ev];
    forall i, e ensures LiveAdd(more, c.heard, i, e) <==> LiveAdd(events, c.heard, i, e) {
      LiveAddExtends(events, ev, c.heard, i, e);
    }
    forall e, d ensures d in DotsOf(c.rep, e) <==> exists i: nat :: LiveAdd(more, c.heard, i, e) && more[i].dot == d {
      if d in DotsOf(c.rep, e) {
        var i: nat :| LiveAdd(events, c.heard, i, e) && events[i].dot == d;
        assert LiveAdd(more, c.heard, i, e) && more[i].dot == d;
      }
      if i: nat :| LiveAdd(more, c.heard, i, e) && more[i].dot == d {
        assert LiveAdd(events, c.heard, i, e) && events[i].dot == d;
      }
    }
    forall a | a in c.rep.vv
      ensures exists i :: i in c.heard && i < |more| && more[i].op.Add? && more[i].dot == Dot(a, c.rep.vv[a])
    {
      var i :| i in c.heard && i < |events| && events[i].op.Add? && events[i].dot == Dot(a, c.rep.vv[a]);
      assert more[i] == events[i];
    }
  }

  lemma LiveAddExtends(events: seq<Event>, ev: Event, heard: set<nat>, i: nat, e: Elem)
    requires HeardOk(events, heard)
    ensures LiveAdd(events + [ev], heard, i, e) <==> LiveAdd(events, heard, i, e)
  {
    var more := events + [ev];
    if i in heard {
      forall j | j in heard ensures Overrides(more, j, i) <==> Overrides(events, j, i) {
        assert more[j] == events[j] && more[i] == events[i];
      }
    }
  }

  /** What a copy has observed of an actor never exceeds what that actor's replica has issued. */
  lemma NoCopyIsAhead(s: State, c: Copy, a: Actor)
    requires Inv(s) && CopyOk(s.events, c) && a in s.replicas
    ensures Seen(c.rep, a) <= Seen(s.replicas[a].rep, a)
  {
    if a in c.rep.vv {
      var i :| i in c.heard && i < |s.events| && s.events[i].op.Add? && s.events[i].dot == Dot(a, c.rep.vv[a]);
      assert i in s.replicas[a].heard;
    }
  }

  /** A fresh operation by a replica that has just issued it, applied to its own copy. */
  ghost predicate Issues(events: seq<Event>, ev: Event, c: Copy, a: Actor) {
    && CopyOk(events, c) && ev.past == c.heard && ev.dot.actor == a
    && (ev.op.Add? ==> ev.dot.counter == Seen(c.rep, a) + 1)
  }

  /** The new operation overrides everything its replica knew about the element, and nothing else. */
  lemma LiveAfterIssue(events: seq<Event>, ev: Event, c: Copy, a: Actor, i: nat, e: Elem)
    requires EventsOk(events) && Issues(events, ev, c, a)
    ensures var more, n := events + [ev], |events|;
      LiveAdd(more, c.heard + {n}, i, e) <==>
        if i == n then ev.op == Add(e) else e != ev.op.elem && LiveAdd(events, c.heard, i, e)
  {
    var more, n := events + [ev], |events|;
    if i == n {
      forall j | j in c.heard + {n} ensures !Overrides(more, j, n) {
        if j < n { assert more[j] == events[j]; }
      }
    } else if i in c.heard {
      LiveAddExtends(events, ev, c.heard, i, e);
      assert Overrides(more, n, i) <==> events[i].op.elem == ev.op.elem;
      if LiveAdd(more, c.heard + {n}, i, e) { assert !Overrides(more, n, i); }
    }
  }

  /** For the element the event is about, only the event itself can be live. */
  lemma IssueAtElement(events: seq<Event>, ev: Event, c: Copy, a: Actor, d: Dot)
    requires EventsOk(events) && Issues(events, ev, c, a)
    ensures var more, c', e := events + [ev], Applied(ev, c, |events|), ev.op.elem;
      d in DotsOf(c'.rep, e) <==> exists i: nat :: LiveAdd(more, c'.heard, i, e) && more[i].dot == d
  {
    var more, n, c', e := events + [ev], |events|, Applied(ev, c, |events|), ev.op.elem;
    LiveAfterIssue(events, ev, c, a, n, e);
    forall i: nat | LiveAdd(more, c'.heard, i, e) ensures i == n { LiveAfterIssue(events, ev, c, a, i, e); }
  }

  /** For every other element nothing changes. */
  lemma IssueElsewhere(events: seq<Event>, ev: Event, c: Copy, a: Actor, e: Elem, d: Dot)
    requires EventsOk(events) && Issues(events, ev, c, a) && e != ev.op.elem
    ensures var more, c' := events + [ev], Applied(ev, c, |events|);
      d in DotsOf(c'.rep, e) <==> exists i: nat :: LiveAdd(more, c'.heard, i, e) && more[i].dot == d
  {
    var more, c' := events + [ev], Applied(ev, c, |events|);
    if d in DotsOf(c.rep, e) {
      var i: nat :| LiveAdd(events, c.heard, i, e) && events[i].dot == d;
      LiveAfterIssue(events, ev, c, a, i, e);
      assert LiveAdd(more, c'.heard, i, e) && more[i].dot == d;
    }
    if i: nat :| LiveAdd(more, c'.heard, i, e) && more[i].dot == d {
      LiveAfterIssue(events, ev, c, a, i, e);
      assert LiveAdd(events, c.heard, i, e) && events[i].dot == d;
    }
  }

  lemma IssueKeepsDots(events: seq<Event>, ev: Event, c: Copy, a: Actor)
    requires EventsOk(events) && Issues(events, ev, c, a)
    ensures DotsOk(events + [ev], Applied(ev, c, |events|))
  {
    var more, c' := events + [ev], Applied(ev, c, |events|);
    forall e, d ensures d in DotsOf(c'.rep, e) <==> exists i: nat :: LiveAdd(more, c'.heard, i, e) && more[i].dot == d {
      if e == ev.op.elem { IssueAtElement(events, ev, c, a, d); } else { IssueElsewhere(events, ev, c, a, e, d); }
    }
  }

  lemma IssueKeepsClock(events: seq<Event>, ev: Event, c: Copy, a: Actor)
    requires EventsOk(events) && Issues(events, ev, c, a)
    requires forall i :: 0 <= i < |events| && events[i].dot.actor == a ==> i in c.heard
    ensures ClockOk(events + [ev], Applied(ev, c, |events|))
  {
    var more, n, c' := events + [ev], |events|, Applied(ev, c, |events|);
    forall i | 0 <= i < |more| && more[i].op.Add?
      ensures i in c'.heard <==> more[i].dot.counter <= Seen(c'.rep, more[i].dot.actor)
    {
      if i < n { assert more[i] == events[i]; }
    }
    forall x | x in c'.rep.vv
      ensures exists i :: i in c'.heard && i < |more| && more[i].op.Add? && more[i].dot == Dot(x, c'.rep.vv[x])
    {
      if ev.op.Add? && x == a {
        assert more[n].dot == Dot(x, c'.rep.vv[x]);
      } else {
        var i :| i in c.heard && i < |events| && events[i].op.Add? && events[i].dot == Dot(x, c.rep.vv[x]);
        assert more[i] == events[i];
      }
    }
  }

  lemma IssueKeepsCopies(s: State, ev: Event, a: Actor)
    requires Inv(s) && a in s.replicas && Issues(s.events, ev, s.replicas[a], a)
    ensures CopyOk(s.events + [ev], Applied(ev, s.replicas[a], |s.events|))
    ensures forall b :: b in s.replicas && b != a ==> CopyOk(s.events + [ev], s.replicas[b])
    ensures forall m :: m in s.sent ==> CopyOk(s.events + [ev], m)
  {
    IssueKeepsDots(s.events, ev, s.replicas[a], a);
    IssueKeepsClock(s.events, ev, s.replicas[a], a);
    forall b | b in s.replicas && b != a ensures CopyOk(s.events + [ev], s.replicas[b]) {
      NoCopyIsAhead(s, s.replicas[b], a);
      CopyOkExtends(s.events, ev, s.replicas[b]);
    }
    forall m | m in s.sent ensures CopyOk(s.events + [ev], m) {
      NoCopyIsAhead(s, m, a);
      CopyOkExtends(s.events, ev, m);
    }
  }

  lemma IssuePreserves(s: State, a: Actor, ev: Event)
    requires Inv(s) && a in s.replicas && Issues(s.events, ev, s.replicas[a], a)
    ensures Inv(Issued(s, a, ev))
  {
    var s' := Issued(s, a, ev);
    IssueKeepsCopies(s, ev, a);
    IssueKeepsEvents(s, ev, a);
    forall i | 0 <= i < |s'.events|
      ensures s'.events[i].dot.actor in s'.replicas && i in s'.replicas[s'.events[i].dot.actor].heard
    {
      if i < |s.events| { assert s'.events[i] == s.events[i]; }
    }
  }

  lemma IssueKeepsEvents(s: State, ev: Event, a: Actor)
    requires Inv(s) && a in s.replicas && Issues(s.events, ev, s.replicas[a], a)
    ensures EventsOk(s.events + [ev])
  {
    var more, c := s.events + [ev], s.replicas[a];
    forall i | 0 <= i < |s.events| && s.events[i].op.Add? && ev.op.Add? ensures s.events[i].dot != ev.dot {
      if s.events[i].dot.actor == a { assert i in c.heard; }
    }
  }

  /** Merging two copies yields the reading of the union of what they had heard of. */
  lemma LiveAfterMerge(events: seq<Event>, c: Copy, m: Copy, i: nat, e: Elem)
    requires CopyOk(events, c) && CopyOk(events, m)
    requires i in c.heard && i < |events| && events[i].op == Add(e)
    ensures LiveAdd(events, c.heard + m.heard, i, e) <==>
      LiveAdd(events, c.heard, i, e) && (i in m.heard ==> LiveAdd(events, m.heard, i, e))
  {
    if LiveAdd(events, c.heard, i, e) && (i in m.heard ==> LiveAdd(events, m.heard, i, e)) {
      assert forall j :: j in m.heard && Overrides(events, j, i) ==> i in m.heard;
    }
  }

  lemma {:induction false} MergeKeepsCopy(events: seq<Event>, c: Copy, m: Copy)
    requires EventsOk(events) && CopyOk(events, c) && CopyOk(events, m)
    ensures CopyOk(events, Copy(Merged(c.rep, m.rep), c.heard + m.heard))
  {
    var u := Copy(Merged(c.rep, m.rep), c.heard + m.heard);
    forall e, d ensures d in DotsOf(u.rep, e) <==> exists i: nat :: LiveAdd(events, u.heard, i, e) && events[i].dot == d {
      MergeKeepsDot(events, c, m, e, d);
    }
    forall i | 0 <= i < |events| && events[i].op.Add?
      ensures i in u.heard <==> events[i].dot.counter <= Seen(u.rep, events[i].dot.actor)
    {
      MergedSeen(c.rep, m.rep, events[i].dot.actor);
    }
    forall a | a in u.rep.vv
      ensures exists i :: i in u.heard && i < |events| && events[i].op.Add? && events[i].dot == Dot(a, u.rep.vv[a])
    {
      var from := if a in c.rep.vv && c.rep.vv[a] == u.rep.vv[a] then c else m;
      var i :| i in from.heard && i < |events| && events[i].op.Add? && events[i].dot == Dot(a, from.rep.vv[a]);
      assert i in u.heard;
    }
  }

  /** The addition that minted a dot, if the copy holds the dot. */
  ghost predicate Mints(events: seq<Event>, i: nat, e: Elem, d: Dot) {
    i < |events| && events[i].op == Add(e) && events[i].dot == d
  }

  lemma HoldsDot(events: seq<Event>, c: Copy, i: nat, e: Elem, d: Dot)
    requires EventsOk(events) && CopyOk(events, c) && Mints(events, i, e, d)
    ensures d in DotsOf(c.rep, e) <==> LiveAdd(events, c.heard, i, e)
    ensures i in c.heard <==> d.counter <= Seen(c.rep, d.actor)
  {
    if d in DotsOf(c.rep, e) {
      var k: nat :| LiveAdd(events, c.heard, k, e) && events[k].dot == d;
      assert k == i;
    }
  }

  lemma MergeKeepsDot(events: seq<Event>, c: Copy, m: Copy, e: Elem, d: Dot)
    requires EventsOk(events) && CopyOk(events, c) && CopyOk(events, m)
    ensures var u := Copy(Merged(c.rep, m.rep), c.heard + m.heard);
      d in DotsOf(u.rep, e) <==> exists i: nat :: LiveAdd(events, u.heard, i, e) && events[i].dot == d
  {
    var u := Copy(Merged(c.rep, m.rep), c.heard + m.heard);
    MergedDot(c.rep, m.rep, e, d);
    if i: nat :| Mints(events, i, e, d) {
      HoldsDot(events, c, i, e, d);
      HoldsDot(events, m, i, e, d);
      assert d in DotsOf(u.rep, e) <==> LiveAdd(events, u.heard, i, e) by {
        if i in c.heard { LiveAfterMerge(events, c, m, i, e); }
        if i in m.heard { LiveAfterMerge(events, m, c, i, e); assert c.heard + m.heard == m.heard + c.heard; }
      }
      forall k: nat | LiveAdd(events, u.heard, k, e) && events[k].dot == d ensures k == i { }
    } else {
      forall k: nat | LiveAdd(events, u.heard, k, e) ensures events[k].dot != d { assert !Mints(events, k, e, d); }
      if d in DotsOf(c.rep, e) || d in DotsOf(m.rep, e) {
        var from := if d in DotsOf(c.rep, e) then c else m;
        var k: nat :| LiveAdd(events, from.heard, k, e) && events[k].dot == d;
        assert Mints(events, k, e, d);
      }
    }
  }

  lemma MergePreserves(s: State, s': State, a: Actor, c: Copy)
    requires Inv(s) && MergeStep(s, s', a, c)
    ensures Inv(s')
  {
    MergeKeepsCopy(s.events, s.replicas[a], c);
  }

  lemma StepPreserves(s: State, s': State)
    requires Inv(s) && Step(s, s')
    ensures Inv(s')
  {
    if a, e :| AddStep(s, s', a, e) {
      IssuePreserves(s, a, NewAdd(s.replicas[a], a, e));
    } else if a, e :| RemoveStep(s, s', a, e) {
      IssuePreserves(s, a, NewRemove(s.replicas[a], a, e));
    } else if a, c :| MergeStep(s, s', a, c) {
      MergePreserves(s, s', a, c);
    } else if a, c :| ForkStep(s, s', a, c) {
    } else {
      var a :| SendStep(s, s', a);
    }
  }

  lemma InitInv(s: State)
    requires Init(s)
    ensures Inv(s)
  {
  }

  lemma {:induction false} RunKeepsInv(run: seq<State>)
    requires Run(run)
    ensures Inv(run[|run| - 1])
  {
    if |run| == 1 {
      InitInv(run[0]);
    } else {
      RunKeepsInv(run[..|run| - 1]);
      StepPreserves(run[|run| - 2], run[|run| - 1]);
    }
  }

  // ---- the theorems

  /** An element is in a replica's set exactly when some addition it heard of is not overridden. */
  lemma ContentsAreAddWins(run: seq<State>, a: Actor, e: Elem)
    requires Run(run) && a in run[|run| - 1].replicas
    ensures var s := run[|run| - 1];
      Contains(s.replicas[a].rep, e) <==> Present(s.events, s.replicas[a].heard, e)
  {
    RunKeepsInv(run);
    var s := run[|run| - 1];
    var c := s.replicas[a];
    assert CopyOk(s.events, c);
    if Contains(c.rep, e) {
      var d :| d in DotsOf(c.rep, e);
      var i: nat :| LiveAdd(s.events, c.heard, i, e) && s.events[i].dot == d;
    }
    if i: nat :| LiveAdd(s.events, c.heard, i, e) {
      assert s.events[i].dot in DotsOf(c.rep, e);
    }
  }

  /** Strong convergence: replicas that have heard of the same operations hold equal values. */
  lemma Converged(run: seq<State>, a: Actor, b: Actor)
    requires Run(run) && a in run[|run| - 1].replicas && b in run[|run| - 1].replicas
    requires run[|run| - 1].replicas[a].heard == run[|run| - 1].replicas[b].heard
    ensures run[|run| - 1].replicas[a].rep == run[|run| - 1].replicas[b].rep
  {
    RunKeepsInv(run);
    var s := run[|run| - 1];
    var c, m := s.replicas[a], s.replicas[b];
    assert CopyOk(s.events, c) && CopyOk(s.events, m);
    SameClock(s.events, c, m);
    SameClock(s.events, m, c);
    assert c.rep.vv == m.rep.vv;
    SameRep(c.rep, m.rep);
  }

  lemma SameClock(events: seq<Event>, c: Copy, m: Copy)
    requires CopyOk(events, c) && CopyOk(events, m) && c.heard == m.heard
    requires EventsOk(events)
    ensures forall x :: x in c.rep.vv ==> x in m.rep.vv && c.rep.vv[x] <= m.rep.vv[x]
  {
    forall x | x in c.rep.vv ensures x in m.rep.vv && c.rep.vv[x] <= m.rep.vv[x] {
      var i :| i in c.heard && i < |events| && events[i].op.Add? && events[i].dot == Dot(x, c.rep.vv[x]);
      assert events[i].dot.counter <= Seen(m.rep, x);
    }
  }

  /** Every copy that circulates is well-formed, so the join laws above apply to all of them. */
  lemma CirculatingCopiesAreWellFormed(run: seq<State>, a: Actor)
    requires Run(run) && a in run[|run| - 1].replicas
    ensures WellFormed(run[|run| - 1].replicas[a].rep)
  {
    RunKeepsInv(run);
    var s := run[|run| - 1];
    var c := s.replicas[a];
    forall e, d | e in c.rep.dots && d in c.rep.dots[e] ensures d.counter <= Seen(c.rep, d.actor) {
      assert d in DotsOf(c.rep, e);
      var i: nat :| LiveAdd(s.events, c.heard, i, e) && s.events[i].dot == d;
    }
  }

  lemma OneMore(run: seq<State>, next: State)
    requires Run(run) && Step(run[|run| - 1], next)
    ensures Run(run + [next])
  {
  }

  lemma Sends(run: seq<State>, a: Actor) returns (longer: seq<State>)
    requires Run(run) && a in run[|run| - 1].replicas
    ensures Run(longer) && run < longer
    ensures var s, s' := run[|run| - 1], longer[|longer| - 1];
      s' == State(s.events, s.replicas, s.sent + {s.replicas[a]})
  {
    var s := run[|run| - 1];
    var next := State(s.events, s.replicas, s.sent + {s.replicas[a]});
    assert SendStep(s, next, a);
    OneMore(run, next);
    longer := run + [next];
  }

  lemma Receives(run: seq<State>, a: Actor, c: Copy) returns (longer: seq<State>)
    requires Run(run) && a in run[|run| - 1].replicas && c in run[|run| - 1].sent
    ensures Run(longer) && run < longer
    ensures var s, s' := run[|run| - 1], longer[|longer| - 1];
      && s'.events == s.events && s'.sent == s.sent && s'.replicas.Keys == s.replicas.Keys
      && s'.replicas[a].heard == s.replicas[a].heard + c.heard
      && forall x :: x in s.replicas && x != a ==> s'.replicas[x] == s.replicas[x]
  {
    var s := run[|run| - 1];
    var mine := s.replicas[a];
    var next := s.(replicas := s.replicas[a := Copy(Merged(mine.rep, c.rep), mine.heard + c.heard)]);
    assert MergeStep(s, next, a, c);
    OneMore(run, next);
    longer := run + [next];
  }

  /** After any run, two replicas that send each other what they hold end up equal, having heard of the same. */
  lemma ExchangeConverges(run: seq<State>, a: Actor, b: Actor) returns (longer: seq<State>)
    requires Run(run) && a in run[|run| - 1].replicas && b in run[|run| - 1].replicas
    ensures Run(longer) && run < longer
    ensures var s, s' := run[|run| - 1], longer[|longer| - 1];
      && a in s'.replicas && b in s'.replicas && s'.events == s.events
      && s'.replicas[a].heard == s.replicas[a].heard + s.replicas[b].heard
      && s'.replicas[a] == s'.replicas[b]
  {
    var s := run[|run| - 1];
    longer := Sends(run, a);
    longer := Sends(longer, b);
    longer := Receives(longer, a, s.replicas[b]);
    longer := Receives(longer, b, s.replicas[a]);
    Converged(longer, a, b);
  }

  /** After any run, what a replica holds, or ever sent, can be taken up under an actor id nobody has. */
  lemma ForkJoins(run: seq<State>, a: Actor, c: Copy) returns (longer: seq<State>)
    requires Run(run) && a !in run[|run| - 1].replicas
    requires c in run[|run| - 1].sent || c in run[|run| - 1].replicas.Values
    ensures Run(longer) && run < longer
    ensures var s, s' := run[|run| - 1], longer[|longer| - 1];
      s' == State(s.events, s.replicas[a := c], s.sent)
  {
    var s := run[|run| - 1];
    var next := State(s.events, s.replicas[a := c], s.sent);
    assert ForkStep(s, next, a, c);
    OneMore(run, next);
    longer := run + [next];
  }
}
