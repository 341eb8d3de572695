/**
 The instruction-count gate: are the samples usable, what reference do they give, and does a
 later run stay within bounds of it. Percentages are exact reals.
 */
module InstructionGate {
  import opened Basics
  import opened Median

  type Target = string

  /** One runner's samples. Every list that was loaded holds at least one sample. */
  type Series = map<Target, seq<nat>>

  ghost predicate Loaded(s: Series) { forall t :: t in s ==> s[t] != [] }

  ghost predicate AllLoaded(runners: seq<Series>) { forall i :: 0 <= i < |runners| ==> Loaded(runners[i]) }

  /** Every target any runner has. */
  function Targets(runners: seq<Series>): set<Target> {
    if runners == [] then {} else Targets(runners[..|runners| - 1]) + runners[|runners| - 1].Keys
  }

  lemma Difference(a: set<Target>, b: set<Target>)
    ensures a - b == {} <==> a <= b
  {
    if a - b == {} {
      forall t | t in a ensures t in b { assert t !in a - b; }
    }
  }

  datatype Problem = Missing(runner: nat, targets: set<Target>) | ZeroSample(runner: nat, target: Target)

  /** The samples can support a verdict: nobody lacks a target, nobody measured nothing. */
  ghost predicate Usable(runners: seq<Series>) {
    forall i :: 0 <= i < |runners| ==> UsableRunner(runners[i], Targets(runners))
  }

  ghost predicate UsableRunner(s: Series, all: set<Target>) {
    all <= s.Keys && forall t :: t in s ==> 0 !in s[t]
  }

  /** The zero-sample problems of one runner. */
  method ZeroSamples(s: Series, i: nat) returns (problems: seq<Problem>)
    ensures problems == [] <==> forall t :: t in s ==> 0 !in s[t]
  {
    problems := [];
    var rest := s.Keys;
    while rest != {}
      invariant rest <= s.Keys
      invariant problems == [] <==> forall t :: t in s && t !in rest ==> 0 !in s[t]
      decreases |rest|
    {
      var t :| t in rest;
      rest := rest - {t};
      if 0 in s[t] {
        problems := problems + [ZeroSample(i, t)];
        assert t in s && t !in rest;
      }
    }
  }

  method CheckUsable(runners: seq<Series>) returns (problems: seq<Problem>)
    ensures problems == [] <==> Usable(runners)
  {
    problems := [];
    var all := Targets(runners);
    for i := 0 to |runners|
      invariant problems == [] <==> forall j :: 0 <= j < i ==> UsableRunner(runners[j], all)
    {
      var missing := all - runners[i].Keys;
      Difference(all, runners[i].Keys);
      if missing != {} { problems := problems + [Missing(i, missing)]; }
      var zero := ZeroSamples(runners[i], i);
      problems := problems + zero;
    }
  }

  // ---- the baseline

  /** A target's list, empty when there is none. */
  function Get(s: Series, t: Target): seq<nat> { if t in s then s[t] else [] }

  /** All samples of a target, runner after runner. */
  function Samples(runners: seq<Series>, t: Target): seq<nat> {
    if runners == [] then [] else Samples(runners[..|runners| - 1], t) + Get(runners[|runners| - 1], t)
  }

  /** What is pooled, with one runner's lists of the targets in `done` appended. */
  function Joined(pooled: Series, s: Series, done: set<Target>): Series {
    map t | t in pooled.Keys + done :: Get(pooled, t) + if t in done then Get(s, t) else []
  }

  lemma JoinedMore(pooled: Series, s: Series, done: set<Target>, t: Target)
    requires t in s && t !in done
    ensures Joined(pooled, s, done + {t}) == Joined(pooled, s, done)[t := Get(Joined(pooled, s, done), t) + s[t]]
  {
    var before, after := Joined(pooled, s, done), Joined(pooled, s, done + {t});
    assert after[t] == Get(before, t) + s[t];
    assert forall x :: x in before && x != t ==> after[x] == before[x];
  }

  lemma JoinedNone(pooled: Series, s: Series)
    ensures Joined(pooled, s, {}) == pooled
  {
    var j := Joined(pooled, s, {});
    assert j.Keys == pooled.Keys;
    forall t | t in pooled ensures j[t] == pooled[t] { assert pooled[t] + [] == pooled[t]; }
  }

  /** One runner's lists, appended to what is pooled so far. */
  method PoolRunner(pooled: Series, s: Series) returns (next: Series)
    ensures next == Joined(pooled, s, s.Keys)
  {
    next := pooled;
    var rest := s.Keys;
    ghost var done: set<Target> := {};
    JoinedNone(pooled, s);
    while rest != {}
      invariant rest !! done && rest + done == s.Keys
      invariant next == Joined(pooled, s, done)
      decreases |rest|
    {
      var t :| t in rest;
      JoinedMore(pooled, s, done, t);
      next := next[t := Get(next, t) + s[t]];
      rest, done := rest - {t}, done + {t};
    }
    assert done == s.Keys;
  }

  method Pool(runners: seq<Series>) returns (pooled: Series)
    ensures pooled.Keys == Targets(runners)
    ensures forall t :: Get(pooled, t) == Samples(runners, t)
  {
    pooled := map[];
    for i := 0 to |runners|
      invariant pooled.Keys == Targets(runners[..i])
      invariant forall t :: Get(pooled, t) == Samples(runners[..i], t)
    {
      assert runners[..i + 1][..i] == runners[..i];
      pooled := PoolRunner(pooled, runners[i]);
    }
    assert runners[..|runners|] == runners;
  }

  lemma {:induction false} NoSamples(runners: seq<Series>, t: Target)
    ensures AllLoaded(runners) && t in Targets(runners) ==> Samples(runners, t) != []
  {
    if runners != [] { NoSamples(runners[..|runners| - 1], t); }
  }

  datatype Reference = Reference(instructions: nat, samples: nat, gated: bool)

  type Baseline = map<Target, Reference>

  /** The recorded reference of every target is the median of its pooled samples. */
  ghost predicate Records(b: Baseline, runners: seq<Series>, gate: set<Target>) {
    && b.Keys == Targets(runners)
    && forall t :: t in b ==>
      && Samples(runners, t) != []
      && b[t] == Reference(MedianOf(Samples(runners, t)), |Samples(runners, t)|, t in gate)
  }

  /** The runners that have anything: directories without samples are dropped first. */
  function Nonempty(loaded: seq<Series>): seq<Series> {
    if loaded == [] then []
    else Nonempty(loaded[..|loaded| - 1]) + if loaded[|loaded| - 1] == map[] then [] else [loaded[|loaded| - 1]]
  }

  method DropEmpty(loaded: seq<Series>) returns (runners: seq<Series>)
    ensures runners == Nonempty(loaded)
  {
    runners := [];
    for i := 0 to |loaded|
      invariant runners == Nonempty(loaded[..i])
    {
      assert loaded[..i + 1][..i] == loaded[..i];
      if |loaded[i]| > 0 { runners := runners + [loaded[i]]; }
    }
    assert loaded[..|loaded|] == loaded;
  }

  lemma {:induction false} NonemptyLoaded(loaded: seq<Series>)
    requires AllLoaded(loaded)
    ensures AllLoaded(Nonempty(loaded))
  {
    if loaded != [] { NonemptyLoaded(loaded[..|loaded| - 1]); }
  }

  // ---- reasons for not gating

  /** Where the first equals sign of a `TARGET=REASON` pair is, or its length. */
  function EqualsAt(pair: string): (i: nat)
    ensures i <= |pair| && '=' !in pair[..i] && (i < |pair| ==> pair[i] == '=')
  {
    if pair == "" || pair[0] == '=' then 0
    else
      assert pair[1..][..EqualsAt(pair[1..])] == pair[..EqualsAt(pair[1..]) + 1][1..];
      EqualsAt(pair[1..]) + 1
  }

  /** An equals sign with something after it. */
  predicate GoodPair(pair: string) { EqualsAt(pair) + 1 < |pair| }

  function Named(pair: string): Target { pair[..EqualsAt(pair)] }

  function Given(pair: string): string
    requires GoodPair(pair)
  {
    pair[EqualsAt(pair) + 1..]
  }

  /** A pair is split at its first equals sign; it needs one, and something after it. */
  lemma PairIs(target: Target, reason: string, plain: string)
    requires '=' !in target && '=' !in plain
    ensures GoodPair(target + "=" + reason) <==> reason != ""
    ensures Named(target + "=" + reason) == target
    ensures reason != "" ==> Given(target + "=" + reason) == reason
    ensures !GoodPair(plain)
  {
    var pair := target + "=" + reason;
    var i := EqualsAt(pair);
    assert pair[|target|] == '=' && pair[..|target|] == target;
    assert forall j :: 0 <= j < |target| ==> pair[j] == target[j];
    assert forall j :: 0 <= j < i ==> pair[j] == pair[..i][j];
    assert plain[..|plain|] == plain;
  }

  /** The reason given for a target; of several the last counts. */
  function ReasonGiven(pairs: seq<string>, t: Target): Option<string>
    requires forall i :: 0 <= i < |pairs| ==> GoodPair(pairs[i])
  {
    if pairs == [] then None
    else if Named(pairs[|pairs| - 1]) == t then Some(Given(pairs[|pairs| - 1]))
    else ReasonGiven(pairs[..|pairs| - 1], t)
  }

  predicate AllGood(pairs: seq<string>) { forall i :: 0 <= i < |pairs| ==> GoodPair(pairs[i]) }

  ghost predicate ReasonsRead(given: map<Target, string>, pairs: seq<string>) {
    AllGood(pairs) && forall t :: ReasonGiven(pairs, t) == if t in given then Some(given[t]) else None
  }

  method ReadReasons(pairs: seq<string>) returns (given: Option<map<Target, string>>)
    ensures given == None <==> !AllGood(pairs)
    ensures given != None ==> ReasonsRead(given.value, pairs)
  {
    var m: map<Target, string> := map[];
    for i := 0 to |pairs|
      invariant ReasonsRead(m, pairs[..i])
    {
      if !GoodPair(pairs[i]) { return None; }
      assert pairs[..i + 1][..i] == pairs[..i];
      m := m[Named(pairs[i]) := Given(pairs[i])];
    }
    assert pairs[..|pairs|] == pairs;
    given := Some(m);
  }

  /** Every named target was measured and is not gated. */
  ghost predicate ReasonsFit(pairs: seq<string>, measured: set<Target>, gate: set<Target>) {
    AllGood(pairs) && forall i :: 0 <= i < |pairs| ==> Named(pairs[i]) in measured && Named(pairs[i]) !in gate
  }

  lemma {:induction false} NamedHasReason(pairs: seq<string>, t: Target)
    requires AllGood(pairs)
    ensures ReasonGiven(pairs, t) != None <==> exists i :: 0 <= i < |pairs| && Named(pairs[i]) == t
  {
    if pairs != [] {
      var front := pairs[..|pairs| - 1];
      NamedHasReason(front, t);
      assert forall i :: 0 <= i < |front| ==> front[i] == pairs[i];
      assert Named(pairs[|pairs| - 1]) == t ==> exists i :: 0 <= i < |pairs| && Named(pairs[i]) == t;
    }
  }

  lemma ReasonsFitExactly(given: map<Target, string>, pairs: seq<string>, measured: set<Target>, gate: set<Target>)
    requires ReasonsRead(given, pairs)
    ensures ReasonsFit(pairs, measured, gate) <==> given.Keys <= measured && given.Keys !! gate
  {
    forall t ensures t in given <==> exists i :: 0 <= i < |pairs| && Named(pairs[i]) == t {
      NamedHasReason(pairs, t);
      assert ReasonGiven(pairs, t) == if t in given then Some(given[t]) else None;
    }
    forall i | 0 <= i < |pairs| ensures Named(pairs[i]) in given { }
  }

  const CALIBRATION := "calibration baseline; too small to gate"

  predicate Excluded(t: Target) { "baselines::" <= t }

  lemma ExcludedIs(t: Target, rest: string)
    ensures Excluded("baselines::" + rest)
    ensures Excluded(t) ==> t == "baselines::" + t[11..]
  {
  }

  /** The reason recorded against a target, if any: for calibration always, else for what is not gated. */
  function ReasonFor(pairs: seq<string>, default: string, gate: set<Target>, t: Target): Option<string>
    requires AllGood(pairs)
  {
    if Excluded(t) then Some(CALIBRATION)
    else if t in gate then None
    else if ReasonGiven(pairs, t) == None then Some(default)
    else ReasonGiven(pairs, t)
  }

  /** What a baseline is asked for on the command line. */
  datatype Request = Request(gate: set<Target>, reasons: seq<string>, default: string, allowUnusable: bool)

  /** The inputs that are refused. */
  ghost predicate Refused(runners: seq<Series>, q: Request) {
    || runners == []
    || (!Usable(runners) && !q.allowUnusable)
    || !(q.gate <= Targets(runners))
    || !ReasonsFit(q.reasons, Targets(runners), q.gate)
  }

  /** The checks on the requested targets. */
  method CheckTargets(measured: set<Target>, q: Request) returns (given: Option<map<Target, string>>)
    ensures given == None <==> !(q.gate <= measured) || !ReasonsFit(q.reasons, measured, q.gate)
    ensures given != None ==> ReasonsRead(given.value, q.reasons)
  {
    var unknown := q.gate - measured;
    Difference(q.gate, measured);
    if unknown != {} { return None; }
    given := ReadReasons(q.reasons);
    if given == None { return; }
    ReasonsFitExactly(given.value, q.reasons, measured, q.gate);
    var stray := given.value.Keys - measured;
    Difference(given.value.Keys, measured);
    if stray != {} { return None; }
    var contradictory := given.value.Keys * q.gate;
    if contradictory != {} { return None; }
  }

  method References(pooled: Series, ghost runners: seq<Series>, gate: set<Target>) returns (b: Baseline)
    requires AllLoaded(runners) && pooled.Keys == Targets(runners) && forall t :: Get(pooled, t) == Samples(runners, t)
    ensures Records(b, runners, gate)
  {
    forall t | t in pooled ensures pooled[t] == Samples(runners, t) != [] {
      assert pooled[t] == Get(pooled, t);
      NoSamples(runners, t);
    }
    b := map t | t in pooled :: Reference(MedianOf(pooled[t]), |pooled[t]|, t in gate);
  }

  method Reasons(measured: set<Target>, given: map<Target, string>, q: Request) returns (why: map<Target, string>)
    requires ReasonsRead(given, q.reasons)
    ensures forall t :: t in measured ==> ReasonFor(q.reasons, q.default, q.gate, t) == if t in why then Some(why[t]) else None
  {
    why := map t | t in measured && (Excluded(t) || t !in q.gate) ::
      if Excluded(t) then CALIBRATION else if t in given then given[t] else q.default;
    assert forall t :: ReasonGiven(q.reasons, t) == if t in given then Some(given[t]) else None;
  }

  /**
   Refuses exactly: no samples in any directory, unusable samples unless told otherwise, an
   unknown target to gate, and a reason that is malformed, for an unknown or for a gated target.
   */
  method MakeBaseline(loaded: seq<Series>, q: Request) returns (b: Option<Baseline>, why: map<Target, string>)
    requires AllLoaded(loaded)
    ensures b == None <==> Refused(Nonempty(loaded), q)
    ensures b != None ==> Records(b.value, Nonempty(loaded), q.gate)
    ensures b != None ==> AllGood(q.reasons) && forall t :: t in b.value ==>
      ReasonFor(q.reasons, q.default, q.gate, t) == if t in why then Some(why[t]) else None
  {
    b, why := None, map[];
    var runners := DropEmpty(loaded);
    NonemptyLoaded(loaded);
    if runners == [] { return; }
    var problems := CheckUsable(runners);
    if problems != [] && !q.allowUnusable { return; }
    var pooled := Pool(runners);
    var given := CheckTargets(pooled.Keys, q);
    if given == None { return; }
    var references := References(pooled, runners, q.gate);
    b := Some(references);
    why := Reasons(pooled.Keys, given.value, q);
  }

  lemma {:induction false} UsableSamplesPositive(runners: seq<Series>, all: set<Target>, t: Target)
    requires forall i :: 0 <= i < |runners| ==> UsableRunner(runners[i], all)
    ensures 0 !in Samples(runners, t)
  {
    if runners != [] {
      var front, last := runners[..|runners| - 1], runners[|runners| - 1];
      UsableSamplesPositive(front, all, t);
      assert UsableRunner(last, all);
    }
  }

  /** A baseline made from usable samples never gates on nothing. */
  lemma ReferencesArePositive(b: Baseline, runners: seq<Series>, gate: set<Target>, t: Target)
    requires Records(b, runners, gate) && Usable(runners) && t in b
    ensures b[t].instructions > 0
  {
    UsableSamplesPositive(runners, Targets(runners), t);
    PositiveMedian(Samples(runners, t));
  }

  /** More than half of a target's pooled samples in an interval hold its reference there. */
  lemma OutliersCannotMoveReference(b: Baseline, runners: seq<Series>, gate: set<Target>, t: Target, lo: nat, hi: nat)
    requires Records(b, runners, gate) && t in b
    requires 2 * Inside(Samples(runners, t), lo, hi) > b[t].samples
    ensures lo <= b[t].instructions <= hi
  {
    MajorityDecides(Samples(runners, t), lo, hi);
  }

  /** The order of the runners, and of their samples, is immaterial. */
  lemma ReferenceIgnoresOrder(b: Baseline, runners: seq<Series>, c: Baseline, others: seq<Series>, gate: set<Target>, t: Target)
    requires Records(b, runners, gate) && Records(c, others, gate) && t in b && t in c
    requires multiset(Samples(runners, t)) == multiset(Samples(others, t))
    ensures b[t] == c[t]
  {
    MedianIgnoresOrder(Samples(runners, t), Samples(others, t));
  }

  // ---- the gate

  datatype Bounds = Bounds(fail: real, warn: real, improve: real, foreign: bool)

  predicate Sensible(p: Bounds) { p.warn <= p.fail < p.improve }

  function Gated(b: Baseline): set<Target> { set t | t in b && b[t].gated }

  function Delta(base: nat, now: nat): real {
    if base == 0 then 0.0 else (now as real - base as real) / base as real * 100.0
  }

  function DeltaOf(b: Baseline, current: Series, t: Target): real
    requires t in b && t in current && current[t] != []
  {
    Delta(b[t].instructions, MedianOf(current[t]))
  }

  /** An improvement beyond belief; the branch is only reached when the warning bound is not passed. */
  predicate Collapsed(p: Bounds, d: real) { d <= p.warn && d < -p.improve }

  predicate Passes(p: Bounds, d: real) { d <= p.fail && (p.foreign || !Collapsed(p, d)) }

  ghost predicate TargetPasses(b: Baseline, current: Series, p: Bounds, t: Target)
    requires t in b && t in current && current[t] != []
  {
    0 !in current[t] && Passes(p, DeltaOf(b, current, t))
  }

  /** The gate's verdict, independent of its loop. */
  ghost predicate Accepts(b: Baseline, current: Series, p: Bounds)
    requires Loaded(current)
  {
    && Sensible(p) && Gated(b) != {} && Gated(b) <= current.Keys
    && forall t :: t in Gated(b) ==> TargetPasses(b, current, p, t)
  }

  /** The drift of every gated target. */
  function Drifts(b: Baseline, current: Series): map<Target, real>
    requires Gated(b) <= current.Keys && forall t :: t in current ==> current[t] != []
  {
    map t | t in Gated(b) :: DeltaOf(b, current, t)
  }

  /** `worst` and `best` are the extremes of the drifts seen, and of zero. */
  ghost predicate Extremes(ds: map<Target, real>, worst: real, best: real) {
    && best <= 0.0 <= worst
    && (forall t :: t in ds ==> best <= ds[t] <= worst)
    && (worst == 0.0 || exists t :: t in ds && ds[t] == worst)
    && (best == 0.0 || exists t :: t in ds && ds[t] == best)
  }

  datatype Tally = Tally(worst: real, best: real, failed: nat, collapsed: nat)

  /** What the loop has gathered from the drifts seen. */
  ghost predicate Gathered(ds: map<Target, real>, p: Bounds, s: Tally) {
    && Extremes(ds, s.worst, s.best)
    && (s.failed == 0 <==> forall t :: t in ds ==> ds[t] <= p.fail)
    && (s.collapsed == 0 <==> forall t :: t in ds ==> !(ds[t] <= p.fail && Collapsed(p, ds[t])))
  }

  /** The loop body. */
  function Visit(p: Bounds, s: Tally, d: real): Tally {
    var t := s.(worst := if d > s.worst then d else s.worst, best := if d < s.best then d else s.best);
    if d > p.fail then t.(failed := t.failed + 1)
    else if d > p.warn then t
    else if d < -p.improve then t.(collapsed := t.collapsed + 1)
    else t
  }

  lemma ExtremesMore(ds: map<Target, real>, worst: real, best: real, t: Target, d: real)
    requires Extremes(ds, worst, best) && t !in ds
    ensures Extremes(ds[t := d], if d > worst then d else worst, if d < best then d else best)
  {
    var next := ds[t := d];
    assert next[t] == d;
    if worst != 0.0 {
      var x :| x in ds && ds[x] == worst;
      assert next[x] == worst;
    }
    if best != 0.0 {
      var x :| x in ds && ds[x] == best;
      assert next[x] == best;
    }
  }

  lemma GatheredMore(ds: map<Target, real>, p: Bounds, s: Tally, t: Target, d: real)
    requires Gathered(ds, p, s) && t !in ds
    ensures Gathered(ds[t := d], p, Visit(p, s, d))
  {
    ExtremesMore(ds, s.worst, s.best, t, d);
    var next := ds[t := d];
    assert next[t] == d && forall x :: x in ds ==> next[x] == ds[x];
  }

  /** Some visited target has a zero sample. */
  ghost predicate ZeroAmong(current: Series, targets: set<Target>) {
    exists t :: t in targets && 0 in Get(current, t)
  }

  /** The targets visited so far: their drifts, gathered, and none with a zero sample. */
  ghost predicate Visited(b: Baseline, current: Series, p: Bounds, ds: map<Target, real>, s: Tally)
    requires Loaded(current) && Gated(b) <= current.Keys
  {
    && ds.Keys <= Gated(b) && Gathered(ds, p, s)
    && forall t :: t in ds ==> ds[t] == DeltaOf(b, current, t) && 0 !in Get(current, t)
  }

  lemma VisitedMore(b: Baseline, current: Series, p: Bounds, ds: map<Target, real>, s: Tally, t: Target)
    requires Loaded(current) && Gated(b) <= current.Keys && Visited(b, current, p, ds, s)
    requires t in Gated(b) && t !in ds && 0 !in current[t]
    ensures Visited(b, current, p, ds[t := DeltaOf(b, current, t)], Visit(p, s, DeltaOf(b, current, t)))
  {
    GatheredMore(ds, p, s, t, DeltaOf(b, current, t));
  }

  lemma AllVisited(b: Baseline, current: Series, p: Bounds, ds: map<Target, real>, s: Tally)
    requires Loaded(current) && Gated(b) <= current.Keys && Visited(b, current, p, ds, s) && ds.Keys == Gated(b)
    ensures ds == Drifts(b, current) && Gathered(ds, p, s) && !ZeroAmong(current, Gated(b))
  {
  }

  /** The loop over the gated targets; stops at the first zero sample. */
  method Compare(b: Baseline, current: Series, p: Bounds) returns (broken: bool, s: Tally)
    requires Loaded(current) && Gated(b) <= current.Keys
    ensures broken <==> ZeroAmong(current, Gated(b))
    ensures !broken ==> Gathered(Drifts(b, current), p, s)
  {
    s := Tally(0.0, 0.0, 0, 0);
    var rest := Gated(b);
    ghost var ds: map<Target, real> := map[];
    while rest != {}
      invariant rest <= Gated(b) && ds.Keys == Gated(b) - rest
      invariant Visited(b, current, p, ds, s)
      decreases |rest|
    {
      var t :| t in rest;
      if 0 in current[t] {
        assert 0 in Get(current, t);
        return true, s;
      }
      VisitedMore(b, current, p, ds, s, t);
      var d := DeltaOf(b, current, t);
      ds := ds[t := d];
      s := Visit(p, s, d);
      rest := rest - {t};
    }
    AllVisited(b, current, p, ds, s);
    broken := false;
  }

  /**
   Exit code 0 exactly when some target is gated, every gated target is present without a zero
   sample, none drifted above the failing bound and, unless disarmed, none collapsed. The
   extremes it reports are those of the gated targets and zero.
   */
  method Gate(b: Baseline, current: Series, p: Bounds) returns (code: nat, worst: real, best: real)
    requires Loaded(current)
    ensures code == 0 <==> Accepts(b, current, p)
    ensures code == 2 <==> !Sensible(p)
    ensures code <= 2
    ensures code == 0 ==> Extremes(Drifts(b, current), worst, best)
  {
    worst, best := 0.0, 0.0;
    if p.warn > p.fail { return 2, worst, best; }
    if p.improve <= p.fail { return 2, worst, best; }
    if current == map[] { return 1, worst, best; }
    var gated := Gated(b);
    if gated == {} { return 1, worst, best; }
    Difference(gated, current.Keys);
    if gated - current.Keys != {} { return 1, worst, best; }
    var broken, s := Compare(b, current, p);
    if broken {
      ghost var t :| t in gated && 0 in Get(current, t);
      assert !TargetPasses(b, current, p, t);
      return 1, worst, best;
    }
    worst, best := s.worst, s.best;
    VerdictFromTally(b, current, p, s);
    if s.failed > 0 { return 1, worst, best; }
    if s.collapsed > 0 && !p.foreign { return 1, worst, best; }
    return 0, worst, best;
  }

  lemma VerdictFromTally(b: Baseline, current: Series, p: Bounds, s: Tally)
    requires Loaded(current) && Sensible(p) && Gated(b) != {} && Gated(b) <= current.Keys && !ZeroAmong(current, Gated(b))
    requires Gathered(Drifts(b, current), p, s)
    ensures Accepts(b, current, p) <==> s.failed == 0 && (s.collapsed == 0 || p.foreign)
  {
    var ds := Drifts(b, current);
    forall t | t in Gated(b) ensures TargetPasses(b, current, p, t) <==> Passes(p, ds[t]) {
      assert 0 !in Get(current, t);
    }
    assert Accepts(b, current, p) <==> forall t :: t in ds ==> Passes(p, ds[t]);
  }

  /** Drift is in percent of a positive reference: above zero for more instructions, below for fewer. */
  lemma DeltaIs(base: nat, now: nat)
    requires base > 0
    ensures Delta(base, now) * base as real == (now as real - base as real) * 100.0
  {
  }

  /** A bound on the drift is a bound on the count. */
  lemma DriftBound(base: nat, now: nat, percent: real)
    requires base > 0
    ensures Delta(base, now) <= percent <==> 100.0 * now as real <= base as real * (100.0 + percent)
    ensures Delta(base, now) < percent <==> 100.0 * now as real < base as real * (100.0 + percent)
  {
    var b, d := base as real, Delta(base, now);
    DeltaIs(base, now);
    assert base as real * (100.0 + percent) - 100.0 * now as real == b * (percent - d);
    if d < percent { assert b * (percent - d) > 0.0; }
    if d > percent { assert b * (d - percent) > 0.0; }
  }

  /** Whether one target passes, in counts: not too many instructions, nor, unless disarmed, implausibly few. */
  ghost predicate InBounds(p: Bounds, base: nat, now: nat) {
    && 100.0 * now as real <= base as real * (100.0 + p.fail)
    && (p.foreign || 100.0 * now as real > base as real * (100.0 + p.warn) || 100.0 * now as real >= base as real * (100.0 - p.improve))
  }

  lemma PassesInCounts(p: Bounds, base: nat, now: nat)
    requires base > 0
    ensures Passes(p, Delta(base, now)) <==> InBounds(p, base, now)
  {
    DriftBound(base, now, p.fail);
    DriftBound(base, now, p.warn);
    DriftBound(base, now, -p.improve);
    assert 100.0 + -p.improve == 100.0 - p.improve;
  }

  /**
   The verdict in counts: among sensible bounds, some target gated, each present without a zero
   sample, and each with a positive reference within bounds of it.
   */
  lemma AcceptsInCounts(b: Baseline, current: Series, p: Bounds)
    requires Loaded(current) && forall t :: t in b && b[t].gated ==> b[t].instructions > 0
    ensures Accepts(b, current, p) <==>
      && p.warn <= p.fail < p.improve && (exists t :: t in b && b[t].gated)
      && forall t :: t in b && b[t].gated ==>
           t in current && 0 !in current[t] && InBounds(p, b[t].instructions, MedianOf(current[t]))
  {
    forall t ensures t in Gated(b) <==> t in b && b[t].gated { }
    forall t | t in b && b[t].gated && t in current
      ensures TargetPasses(b, current, p, t) <==> 0 !in current[t] && InBounds(p, b[t].instructions, MedianOf(current[t]))
    {
      PassesInCounts(p, b[t].instructions, MedianOf(current[t]));
    }
    if Gated(b) != {} {
      var t :| t in Gated(b);
      assert t in b && b[t].gated;
    }
  }

  /** With bounds that are not negative the collapse test is the plain lower bound. */
  lemma PlainBounds(p: Bounds, d: real)
    requires Sensible(p) && p.warn >= 0.0
    ensures Passes(p, d) <==> d <= p.fail && (p.foreign || d >= -p.improve)
  {
  }

  /**
   Measuring again exactly what the baseline was made from passes, with no drift anywhere.
   */
  lemma SameSamplesPass(b: Baseline, runners: seq<Series>, gate: set<Target>, current: Series, p: Bounds)
    requires AllLoaded(runners) && Records(b, runners, gate) && Usable(runners)
    requires current.Keys == Targets(runners) && forall t :: t in current ==> multiset(current[t]) == multiset(Samples(runners, t))
    requires Sensible(p) && p.warn >= 0.0 && gate * Targets(runners) != {}
    ensures Loaded(current) && Accepts(b, current, p)
    ensures forall t :: t in Gated(b) ==> DeltaOf(b, current, t) == 0.0
  {
    forall t | t in current ensures current[t] != [] && t in b && MedianOf(current[t]) == b[t].instructions && 0 !in current[t] {
      SameAsPooled(b, runners, gate, current[t], t);
    }
    var g :| g in gate * Targets(runners);
    assert g in Gated(b);
    forall t | t in Gated(b) ensures TargetPasses(b, current, p, t) && DeltaOf(b, current, t) == 0.0 {
      ReferencesArePositive(b, runners, gate, t);
      NoDrift(b[t].instructions);
    }
  }

  lemma NoDrift(base: nat)
    ensures Delta(base, base) == 0.0
  {
  }

  lemma SameAsPooled(b: Baseline, runners: seq<Series>, gate: set<Target>, values: seq<nat>, t: Target)
    requires AllLoaded(runners) && Records(b, runners, gate) && Usable(runners) && t in Targets(runners)
    requires multiset(values) == multiset(Samples(runners, t))
    ensures values != [] && t in b && MedianOf(values) == b[t].instructions && 0 !in values
  {
    var pooled := Samples(runners, t);
    assert t in b.Keys;
    assert |multiset(values)| == |values| && |multiset(pooled)| == |pooled|;
    UsableSamplesPositive(runners, Targets(runners), t);
    assert 0 in values <==> 0 in multiset(values);
    assert 0 in pooled <==> 0 in multiset(pooled);
    MedianIgnoresOrder(pooled, values);
  }
}
