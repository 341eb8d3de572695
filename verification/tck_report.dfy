/**
 Compatibility-kit results: aggregation of per-scenario files against the manifest of what
 should have run, then counting, then comparison with an earlier run.
 */
module TckReport {
  import opened Basics

  /** A scenario's result. The status is whatever text the runner wrote. */
  datatype Record = Record(feature: string, scenario: string, line: int, status: string)

  datatype Planned = Planned(feature: string, scenario: string, line: int)

  // ---- aggregation

  function Crash(p: Planned): Record { Record(p.feature, p.scenario, p.line, "crashed") }

  /** Where results were written for. */
  function Places(results: seq<Record>): set<(string, int)> {
    set i | 0 <= i < |results| :: (results[i].feature, results[i].line)
  }

  predicate Reported(results: seq<Record>, p: Planned) { (p.feature, p.line) in Places(results) }

  /** One crash record for each planned scenario without a result. */
  function Crashes(results: seq<Record>, planned: seq<Planned>): seq<Record> {
    if planned == [] then []
    else
      var last := planned[|planned| - 1];
      Crashes(results, planned[..|planned| - 1]) + if Reported(results, last) then [] else [Crash(last)]
  }

  /** The records of one feature file, in order. */
  function Only(rs: seq<Record>, feature: string): seq<Record> {
    if rs == [] then []
    else Only(rs[..|rs| - 1], feature) + if rs[|rs| - 1].feature == feature then [rs[|rs| - 1]] else []
  }

  type Groups = map<string, seq<Record>>

  function Get(g: Groups, f: string): seq<Record> { if f in g then g[f] else [] }

  function Add(g: Groups, r: Record): Groups { g[r.feature := Get(g, r.feature) + [r]] }

  /** The dictionary groups exactly these records by feature. */
  ghost predicate Grouped(g: Groups, rs: seq<Record>) {
    && (forall f :: Get(g, f) == Only(rs, f))
    && (forall f :: f in g ==> g[f] != [])
  }

  lemma GroupedMore(g: Groups, rs: seq<Record>, r: Record)
    requires Grouped(g, rs)
    ensures Grouped(Add(g, r), rs + [r])
  {
    assert (rs + [r])[..|rs|] == rs;
    forall f ensures Get(Add(g, r), f) == Only(rs + [r], f) {
      assert Get(g, f) == Only(rs, f);
    }
  }

  lemma PlacesMore(rs: seq<Record>, r: Record)
    ensures Places(rs + [r]) == Places(rs) + {(r.feature, r.line)}
  {
    var more := rs + [r];
    forall x | x in Places(rs) ensures x in Places(more) {
      var i :| 0 <= i < |rs| && x == (rs[i].feature, rs[i].line);
      assert more[i] == rs[i];
    }
    assert more[|rs|] == r;
  }

  method GroupResults(results: seq<Record>) returns (groups: Groups, seen: set<(string, int)>)
    ensures Grouped(groups, results) && seen == Places(results)
  {
    groups, seen := map[], {};
    for i := 0 to |results|
      invariant Grouped(groups, results[..i]) && seen == Places(results[..i])
    {
      GroupedMore(groups, results[..i], results[i]);
      PlacesMore(results[..i], results[i]);
      assert results[..i + 1] == results[..i] + [results[i]];
      groups := Add(groups, results[i]);
      seen := seen + {(results[i].feature, results[i].line)};
    }
    assert results[..|results|] == results;
  }

  lemma CrashesMore(results: seq<Record>, ps: seq<Planned>, p: Planned)
    ensures Crashes(results, ps + [p]) == Crashes(results, ps) + if Reported(results, p) then [] else [Crash(p)]
  {
    assert (ps + [p])[..|ps|] == ps;
  }

  /** Every result is kept, and every planned scenario without one becomes a crash. */
  method Aggregate(results: seq<Record>, planned: Option<seq<Planned>>) returns (groups: Groups, crashed: nat)
    ensures planned == None ==> Grouped(groups, results) && crashed == 0
    ensures planned != None ==> Grouped(groups, results + Crashes(results, planned.value)) && crashed == |Crashes(results, planned.value)|
  {
    var seen;
    groups, seen := GroupResults(results);
    crashed := 0;
    if planned == None { return; }
    var ps := planned.value;
    ghost var all := results;
    for k := 0 to |ps|
      invariant all == results + Crashes(results, ps[..k]) && Grouped(groups, all)
      invariant crashed == |Crashes(results, ps[..k])|
    {
      assert ps[..k + 1] == ps[..k] + [ps[k]];
      CrashesMore(results, ps[..k], ps[k]);
      if (ps[k].feature, ps[k].line) !in seen {
        var r := Record(ps[k].feature, ps[k].scenario, ps[k].line, "crashed");
        GroupedMore(groups, all, r);
        groups, all := Add(groups, r), all + [r];
        crashed := crashed + 1;
      }
    }
    assert ps[..|ps|] == ps;
  }

  // ---- the written report

  /** A stable sort by line. */
  function InsertByLine(r: Record, rs: seq<Record>): seq<Record> {
    if rs == [] then [r]
    else if rs[|rs| - 1].line <= r.line then rs + [r]
    else InsertByLine(r, rs[..|rs| - 1]) + [rs[|rs| - 1]]
  }

  function ByLine(rs: seq<Record>): seq<Record> {
    if rs == [] then [] else InsertByLine(rs[|rs| - 1], ByLine(rs[..|rs| - 1]))
  }

  /** The records whose feature is in the set. */
  function OnlyIn(rs: seq<Record>, features: set<string>): seq<Record> {
    if rs == [] then []
    else OnlyIn(rs[..|rs| - 1], features) + if rs[|rs| - 1].feature in features then [rs[|rs| - 1]] else []
  }

  lemma {:induction false} InsertKeeps(r: Record, rs: seq<Record>)
    ensures multiset(InsertByLine(r, rs)) == multiset(rs) + multiset{r}
  {
    if rs != [] {
      assert rs == rs[..|rs| - 1] + [rs[|rs| - 1]];
      if rs[|rs| - 1].line > r.line { InsertKeeps(r, rs[..|rs| - 1]); }
    }
  }

  lemma {:induction false} ByLineKeeps(rs: seq<Record>)
    ensures multiset(ByLine(rs)) == multiset(rs)
  {
    if rs != [] {
      assert rs == rs[..|rs| - 1] + [rs[|rs| - 1]];
      ByLineKeeps(rs[..|rs| - 1]);
      InsertKeeps(rs[|rs| - 1], ByLine(rs[..|rs| - 1]));
    }
  }

  lemma {:induction false} OneMoreFeature(rs: seq<Record>, features: set<string>, f: string)
    requires f !in features
    ensures multiset(OnlyIn(rs, features + {f})) == multiset(OnlyIn(rs, features)) + multiset(Only(rs, f))
  {
    if rs != [] { OneMoreFeature(rs[..|rs| - 1], features, f); }
  }

  lemma {:induction false} OnlyInAll(rs: seq<Record>, features: set<string>)
    requires forall i :: 0 <= i < |rs| ==> rs[i].feature in features
    ensures OnlyIn(rs, features) == rs
  {
    if rs != [] {
      OnlyInAll(rs[..|rs| - 1], features);
      assert rs == rs[..|rs| - 1] + [rs[|rs| - 1]];
    }
  }

  lemma {:induction false} OnlyInNone(rs: seq<Record>)
    ensures OnlyIn(rs, {}) == []
  {
    if rs != [] { OnlyInNone(rs[..|rs| - 1]); }
  }

  lemma {:induction false} OnlyHolds(rs: seq<Record>, i: nat)
    requires i < |rs|
    ensures rs[i] in Only(rs, rs[i].feature)
  {
    if i < |rs| - 1 {
      OnlyHolds(rs[..|rs| - 1], i);
      assert rs[..|rs| - 1][i] == rs[i];
    }
  }

  /** The scenario elements of the report, feature after feature, by line within each. */
  method WriteReport(groups: Groups, ghost rs: seq<Record>) returns (elements: seq<Record>)
    requires Grouped(groups, rs)
    ensures multiset(elements) == multiset(rs)
  {
    elements := [];
    var rest := groups.Keys;
    ghost var done: set<string> := {};
    OnlyInNone(rs);
    while rest != {}
      invariant rest !! done && rest + done == groups.Keys
      invariant multiset(elements) == multiset(OnlyIn(rs, done))
      decreases |rest|
    {
      var f :| f in rest;
      OneMoreFeature(rs, done, f);
      ByLineKeeps(groups[f]);
      assert groups[f] == Get(groups, f) == Only(rs, f);
      elements := elements + ByLine(groups[f]);
      rest, done := rest - {f}, done + {f};
    }
    AllGrouped(groups, rs);
    OnlyInAll(rs, done);
  }

  lemma AllGrouped(groups: Groups, rs: seq<Record>)
    requires Grouped(groups, rs)
    ensures forall i :: 0 <= i < |rs| ==> rs[i].feature in groups
  {
    forall i | 0 <= i < |rs| ensures rs[i].feature in groups {
      OnlyHolds(rs, i);
      assert Get(groups, rs[i].feature) != [];
    }
  }

  // ---- analysis

  datatype Status = Passed | Failed | Skipped | Crashed

  /** How a step's status text is read; a text that is none of the three bad ones passes. */
  function Classify(status: string): Status {
    if status == "crashed" then Crashed
    else if status == "failed" then Failed
    else if status == "skipped" then Skipped
    else Passed
  }

  function Count(rs: seq<Record>, s: Status): nat {
    if rs == [] then 0 else Count(rs[..|rs| - 1], s) + if Classify(rs[|rs| - 1].status) == s then 1 else 0
  }

  datatype Stats = Stats(total: nat, passed: nat, failed: nat, skipped: nat, crashed: nat)

  /** The four counters are the four counts and add up to the total. */
  method Analyze(elements: seq<Record>) returns (s: Stats)
    ensures s == Stats(|elements|, Count(elements, Passed), Count(elements, Failed), Count(elements, Skipped), Count(elements, Crashed))
    ensures s.passed + s.failed + s.skipped + s.crashed == s.total
  {
    s := Stats(0, 0, 0, 0, 0);
    for i := 0 to |elements|
      invariant s == Stats(i, Count(elements[..i], Passed), Count(elements[..i], Failed), Count(elements[..i], Skipped), Count(elements[..i], Crashed))
      invariant s.passed + s.failed + s.skipped + s.crashed == s.total
    {
      assert elements[..i + 1][..i] == elements[..i];
      s := s.(total := s.total + 1);
      if elements[i].status == "crashed" {
        s := s.(crashed := s.crashed + 1);
      } else if elements[i].status == "failed" {
        s := s.(failed := s.failed + 1);
      } else if elements[i].status == "skipped" {
        s := s.(skipped := s.skipped + 1);
      } else {
        s := s.(passed := s.passed + 1);
      }
    }
    assert elements[..|elements|] == elements;
  }

  lemma {:induction false} CountAppend(a: seq<Record>, b: seq<Record>, s: Status)
    ensures Count(a + b, s) == Count(a, s) + Count(b, s)
  {
    if b == [] {
      assert a + b == a;
    } else {
      assert (a + b)[..|a + b| - 1] == a + b[..|b| - 1];
      CountAppend(a, b[..|b| - 1], s);
    }
  }

  lemma CountOne(r: Record, s: Status)
    ensures Count([r], s) == if Classify(r.status) == s then 1 else 0
  {
    assert [r][..0] == [];
  }

  lemma TakeOut(b: seq<Record>, i: nat, s: Status)
    requires i < |b|
    ensures multiset(b[..i] + b[i + 1..]) == multiset(b) - multiset{b[i]}
    ensures Count(b, s) == Count(b[..i] + b[i + 1..], s) + if Classify(b[i].status) == s then 1 else 0
  {
    var head, tail := b[..i], b[i + 1..];
    assert b == head + [b[i]] + tail;
    assert multiset(b) == multiset(head) + multiset{b[i]} + multiset(tail);
    CountAppend(head, tail, s);
    CountAppend(head, [b[i]], s);
    CountAppend(head + [b[i]], tail, s);
    CountOne(b[i], s);
  }

  lemma {:induction false} CountIgnoresOrder(a: seq<Record>, b: seq<Record>, s: Status)
    requires multiset(a) == multiset(b)
    ensures Count(a, s) == Count(b, s) && |a| == |b|
  {
    assert |multiset(a)| == |a| && |multiset(b)| == |b|;
    if a != [] {
      var n := |a| - 1;
      assert a[n] in multiset(a);
      var i :| 0 <= i < |b| && b[i] == a[n];
      TakeOut(a, n, s);
      TakeOut(b, i, s);
      assert a[..n] + a[n + 1..] == a[..n];
      CountIgnoresOrder(a[..n], b[..i] + b[i + 1..], s);
    }
  }

  lemma {:induction false} CrashesAreCrashed(results: seq<Record>, planned: seq<Planned>, s: Status)
    ensures Count(Crashes(results, planned), s) == if s == Crashed then |Crashes(results, planned)| else 0
  {
    if planned != [] {
      var front, last := planned[..|planned| - 1], planned[|planned| - 1];
      CrashesAreCrashed(results, front, s);
      CountAppend(Crashes(results, front), if Reported(results, last) then [] else [Crash(last)], s);
      CountOne(Crash(last), s);
    }
  }

  /**
   From the runner's files to the printed numbers: each status counts what the runner wrote,
   and crashes are those the runner wrote plus the planned scenarios it never reported.
   */
  lemma CountsComeThrough(results: seq<Record>, planned: seq<Planned>, elements: seq<Record>, s: Status)
    requires multiset(elements) == multiset(results + Crashes(results, planned))
    ensures Count(elements, s) == Count(results, s) + if s == Crashed then |Crashes(results, planned)| else 0
    ensures |elements| == |results| + |Crashes(results, planned)|
  {
    CountIgnoresOrder(elements, results + Crashes(results, planned), s);
    CountAppend(results, Crashes(results, planned), s);
    CrashesAreCrashed(results, planned, s);
  }

  // ---- comparison with an earlier run

  /** The last component of a path. */
  function FileName(path: string): string {
    if path == "" || path[|path| - 1] == '/' then "" else FileName(path[..|path| - 1]) + [path[|path| - 1]]
  }

  /** The place of the last dot, or -1. */
  function LastDot(name: string): int {
    if name == "" then -1 else if name[|name| - 1] == '.' then |name| - 1 else LastDot(name[..|name| - 1])
  }

  /** The last component without its suffix; a leading or a trailing dot starts no suffix. */
  function Stem(path: string): string {
    var name := FileName(path);
    if 0 < LastDot(name) < |name| - 1 then name[..LastDot(name)] else name
  }

  /** Feature name, scenario name, line: the feature name is the file's stem, not its path. */
  datatype Key = Key(feature: string, scenario: string, line: int)

  type Index = map<Key, Status>

  function KeyOf(r: Record): Key { Key(Stem(r.feature), r.scenario, r.line) }

  /** Later records replace earlier ones with the same key. */
  function IndexOf(rs: seq<Record>): Index {
    if rs == [] then map[]
    else IndexOf(rs[..|rs| - 1])[KeyOf(rs[|rs| - 1]) := Classify(rs[|rs| - 1].status)]
  }

  /** The index, scenario after scenario. */
  method BuildIndex(elements: seq<Record>) returns (index: Index)
    ensures index == IndexOf(elements)
  {
    index := map[];
    for i := 0 to |elements|
      invariant index == IndexOf(elements[..i])
    {
      var el := elements[i];
      var status := if el.status == "crashed" then Crashed else if el.status == "failed" then Failed
                    else if el.status == "skipped" then Skipped else Passed;
      assert elements[..i + 1][..i] == elements[..i];
      index := index[Key(Stem(el.feature), el.scenario, el.line) := status];
    }
    assert elements[..|elements|] == elements;
  }

  predicate DistinctKeys(rs: seq<Record>) {
    forall i, j :: 0 <= i < j < |rs| ==> KeyOf(rs[i]) != KeyOf(rs[j])
  }

  function With(m: Index, s: Status): set<Key> { set k | k in m && m[k] == s }

  predicate Bad(s: Status) { s == Failed || s == Crashed }

  predicate Regressed(prev: Index, cur: Index, k: Key) { k in cur && k in prev && prev[k] == Passed && Bad(cur[k]) }

  predicate Fixed(prev: Index, cur: Index, k: Key) { k in cur && k in prev && Bad(prev[k]) && cur[k] == Passed }

  function Regressions(prev: Index, cur: Index, keys: set<Key>): set<Key> { set k | k in keys && Regressed(prev, cur, k) }

  function Fixes(prev: Index, cur: Index, keys: set<Key>): set<Key> { set k | k in keys && Fixed(prev, cur, k) }

  /** A list of a set's members, each once. */
  ghost predicate Lists(l: seq<Key>, s: set<Key>) {
    if l == [] then s == {} else l[|l| - 1] in s && Lists(l[..|l| - 1], s - {l[|l| - 1]})
  }

  lemma {:induction false} ListsMeans(l: seq<Key>, s: set<Key>)
    requires Lists(l, s)
    ensures |l| == |s| && forall k :: k in l <==> k in s
  {
    if l != [] {
      var front, last := l[..|l| - 1], l[|l| - 1];
      ListsMeans(front, s - {last});
      assert l == front + [last];
    }
  }

  lemma ListsMore(l: seq<Key>, s: set<Key>, k: Key)
    requires Lists(l, s) && k !in s
    ensures Lists(l + [k], s + {k})
  {
    assert (l + [k])[..|l|] == l && s + {k} - {k} == s;
  }

  lemma OneMoreKey(prev: Index, cur: Index, keys: set<Key>, k: Key)
    ensures Regressions(prev, cur, keys + {k}) == Regressions(prev, cur, keys) + if Regressed(prev, cur, k) then {k} else {}
    ensures Fixes(prev, cur, keys + {k}) == Fixes(prev, cur, keys) + if Fixed(prev, cur, k) then {k} else {}
  {
  }

  /** The loop body. */
  method SortOut(prev: Index, cur: Index, key: Key, regressions: seq<Key>, fixes: seq<Key>, ghost done: set<Key>)
    returns (moreRegressions: seq<Key>, moreFixes: seq<Key>)
    requires key in cur && key !in done
    requires Lists(regressions, Regressions(prev, cur, done)) && Lists(fixes, Fixes(prev, cur, done))
    ensures Lists(moreRegressions, Regressions(prev, cur, done + {key}))
    ensures Lists(moreFixes, Fixes(prev, cur, done + {key}))
  {
    moreRegressions, moreFixes := regressions, fixes;
    OneMoreKey(prev, cur, done, key);
    ghost var r, f := Regressions(prev, cur, done), Fixes(prev, cur, done);
    assert r + {} == r && f + {} == f;
    if key in prev && prev[key] == Passed && Bad(cur[key]) {
      ListsMore(regressions, r, key);
      moreRegressions := regressions + [key];
    } else if key in prev && Bad(prev[key]) && cur[key] == Passed {
      ListsMore(fixes, f, key);
      moreFixes := fixes + [key];
    }
  }

  /** The loop over the current scenarios sorts out regressions and fixes. */
  method Compare(prev: Index, cur: Index) returns (regressions: seq<Key>, fixes: seq<Key>)
    ensures Lists(regressions, Regressions(prev, cur, cur.Keys))
    ensures Lists(fixes, Fixes(prev, cur, cur.Keys))
  {
    regressions, fixes := [], [];
    var rest := cur.Keys;
    ghost var done: set<Key> := {};
    assert Regressions(prev, cur, done) == {} && Fixes(prev, cur, done) == {};
    while rest != {}
      invariant rest !! done && rest + done == cur.Keys
      invariant Lists(regressions, Regressions(prev, cur, done)) && Lists(fixes, Fixes(prev, cur, done))
      decreases |rest|
    {
      var key :| key in rest;
      regressions, fixes := SortOut(prev, cur, key, regressions, fixes, done);
      rest, done := rest - {key}, done + {key};
    }
    assert done == cur.Keys;
  }

  /** Passing now and unknown before, the other way round, and the moves from and to skipped. */
  function Added(prev: Index, cur: Index): set<Key> { set k | k in cur && k !in prev && cur[k] == Passed }

  function Woken(prev: Index, cur: Index): set<Key> { set k | k in cur && k in prev && prev[k] == Skipped && cur[k] == Passed }

  lemma Sizes(a: set<Key>, b: set<Key>, c: set<Key>)
    requires a !! b && a !! c && b !! c
    ensures |a + b + c| == |a| + |b| + |c|
  {
  }

  lemma GainOf(prev: Index, cur: Index, k: Key)
    ensures k in With(cur, Passed) && k !in With(prev, Passed)
      <==> k in Fixes(prev, cur, cur.Keys) || k in Added(prev, cur) || k in Woken(prev, cur)
  {
  }

  lemma LossOf(prev: Index, cur: Index, k: Key)
    ensures k in With(prev, Passed) && k !in With(cur, Passed)
      <==> k in Regressions(prev, cur, cur.Keys) || k in Added(cur, prev) || k in Woken(cur, prev)
  {
  }

  lemma GainSet(prev: Index, cur: Index)
    ensures With(cur, Passed) - With(prev, Passed) == Fixes(prev, cur, cur.Keys) + Added(prev, cur) + Woken(prev, cur)
  {
    forall k
      ensures k in With(cur, Passed) - With(prev, Passed) <==> k in Fixes(prev, cur, cur.Keys) + Added(prev, cur) + Woken(prev, cur)
    {
      GainOf(prev, cur, k);
    }
  }

  lemma LossSet(prev: Index, cur: Index)
    ensures With(prev, Passed) - With(cur, Passed) == Regressions(prev, cur, cur.Keys) + Added(cur, prev) + Woken(cur, prev)
  {
    forall k
      ensures k in With(prev, Passed) - With(cur, Passed) <==> k in Regressions(prev, cur, cur.Keys) + Added(cur, prev) + Woken(cur, prev)
    {
      LossOf(prev, cur, k);
    }
  }

  lemma GainsSplit(prev: Index, cur: Index)
    ensures |With(cur, Passed) - With(prev, Passed)| == |Fixes(prev, cur, cur.Keys)| + |Added(prev, cur)| + |Woken(prev, cur)|
  {
    var fixes, added, woken := Fixes(prev, cur, cur.Keys), Added(prev, cur), Woken(prev, cur);
    GainSet(prev, cur);
    Sizes(fixes, added, woken);
  }

  lemma LossesSplit(prev: Index, cur: Index)
    ensures |With(prev, Passed) - With(cur, Passed)| == |Regressions(prev, cur, cur.Keys)| + |Added(cur, prev)| + |Woken(cur, prev)|
  {
    var regressions, removed, shelved := Regressions(prev, cur, cur.Keys), Added(cur, prev), Woken(cur, prev);
    LossSet(prev, cur);
    Sizes(regressions, removed, shelved);
  }

  lemma DifferenceOfSizes(a: set<Key>, b: set<Key>)
    ensures |a| - |b| == |a - b| - |b - a|
  {
    assert a == (a - b) + (a * b) && b == (b - a) + (a * b);
  }

  /**
   The change in passing scenarios is fully explained by what became of each key. Skipped
   scenarios are neither regressions nor fixes, and so appear on their own.
   */
  lemma PassedDeltaExplained(prev: Index, cur: Index)
    ensures |With(cur, Passed)| - |With(prev, Passed)|
      == |Fixes(prev, cur, cur.Keys)| - |Regressions(prev, cur, cur.Keys)|
       + |Added(prev, cur)| - |Added(cur, prev)| + |Woken(prev, cur)| - |Woken(cur, prev)|
  {
    DifferenceOfSizes(With(cur, Passed), With(prev, Passed));
    GainsSplit(prev, cur);
    LossesSplit(prev, cur);
  }

  // ---- keys against scenarios

  lemma {:induction false} IndexComesFrom(rs: seq<Record>, k: Key)
    ensures k in IndexOf(rs) ==> exists i :: 0 <= i < |rs| && KeyOf(rs[i]) == k && Classify(rs[i].status) == IndexOf(rs)[k]
  {
    if rs != [] {
      var front, last := rs[..|rs| - 1], rs[|rs| - 1];
      IndexComesFrom(front, k);
      assert forall i :: 0 <= i < |front| ==> front[i] == rs[i];
      assert KeyOf(last) == k ==> KeyOf(rs[|rs| - 1]) == k;
    }
  }

  lemma {:induction false} IndexHolds(rs: seq<Record>, i: nat)
    requires i < |rs|
    ensures KeyOf(rs[i]) in IndexOf(rs)
    ensures (forall j :: i < j < |rs| ==> KeyOf(rs[j]) != KeyOf(rs[i])) ==> IndexOf(rs)[KeyOf(rs[i])] == Classify(rs[i].status)
  {
    var front := rs[..|rs| - 1];
    if i < |front| {
      IndexHolds(front, i);
      assert front[i] == rs[i] && forall j :: 0 <= j < |front| ==> front[j] == rs[j];
    }
  }

  lemma DistinctMore(rs: seq<Record>)
    requires rs != []
    ensures DistinctKeys(rs) <==> DistinctKeys(rs[..|rs| - 1]) && KeyOf(rs[|rs| - 1]) !in IndexOf(rs[..|rs| - 1])
  {
    var front, k := rs[..|rs| - 1], KeyOf(rs[|rs| - 1]);
    assert forall j :: 0 <= j < |front| ==> front[j] == rs[j];
    IndexComesFrom(front, k);
    forall i | 0 <= i < |front| && KeyOf(front[i]) == k ensures k in IndexOf(front) { IndexHolds(front, i); }
  }

  /**
   The comparison works on keys, the printed totals on scenarios. They count the same exactly
   when no two scenarios share a key; two features with the same stem can make them differ.
   */
  lemma {:induction false} IndexLosesOnlyDuplicates(rs: seq<Record>)
    ensures |IndexOf(rs)| <= |rs|
    ensures |IndexOf(rs)| == |rs| <==> DistinctKeys(rs)
  {
    if rs != [] {
      var front, k := rs[..|rs| - 1], KeyOf(rs[|rs| - 1]);
      IndexLosesOnlyDuplicates(front);
      DistinctMore(rs);
      var m := IndexOf(front);
      assert m[k := Classify(rs[|rs| - 1].status)].Keys == m.Keys + {k};
    }
  }

  /** No scenario with this status is hidden by a later one under the same key. */
  predicate Unhidden(rs: seq<Record>, s: Status) {
    forall i, j :: 0 <= i < j < |rs| && Classify(rs[i].status) == s ==> KeyOf(rs[i]) != KeyOf(rs[j])
  }

  predicate HidesOne(front: seq<Record>, k: Key, s: Status) {
    exists i :: 0 <= i < |front| && KeyOf(front[i]) == k && Classify(front[i].status) == s
  }

  lemma UnhiddenMore(rs: seq<Record>, s: Status)
    requires rs != []
    ensures Unhidden(rs, s) <==> Unhidden(rs[..|rs| - 1], s) && !HidesOne(rs[..|rs| - 1], KeyOf(rs[|rs| - 1]), s)
  {
    var front := rs[..|rs| - 1];
    assert forall j :: 0 <= j < |front| ==> front[j] == rs[j];
    assert rs == front + [rs[|rs| - 1]];
  }

  lemma HidesWhatIsIndexed(front: seq<Record>, k: Key, s: Status)
    ensures k in IndexOf(front) && IndexOf(front)[k] == s ==> HidesOne(front, k, s)
    ensures HidesOne(front, k, s) && Unhidden(front, s) ==> k in IndexOf(front) && IndexOf(front)[k] == s
  {
    IndexComesFrom(front, k);
    if HidesOne(front, k, s) {
      var i :| 0 <= i < |front| && KeyOf(front[i]) == k && Classify(front[i].status) == s;
      IndexHolds(front, i);
    }
  }

  lemma WithMore(m: Index, k: Key, v: Status, s: Status)
    ensures |With(m[k := v], s)| == |With(m, s)| + (if v == s then 1 else 0) - if k in m && m[k] == s then 1 else 0
  {
    var rest := With(m, s) - {k};
    assert With(m[k := v], s) == if v == s then rest + {k} else rest;
    assert k in With(m, s) ==> With(m, s) == rest + {k};
    assert k !in With(m, s) ==> With(m, s) == rest;
  }

  /** A status counts no more in the index than in the list, and the same exactly when none of it is hidden. */
  lemma {:induction false} IndexCountsExactly(rs: seq<Record>, s: Status)
    ensures |With(IndexOf(rs), s)| <= Count(rs, s)
    ensures |With(IndexOf(rs), s)| == Count(rs, s) <==> Unhidden(rs, s)
  {
    if rs == [] {
      assert With(IndexOf(rs), s) == {};
    } else {
      var front, last := rs[..|rs| - 1], rs[|rs| - 1];
      IndexCountsExactly(front, s);
      UnhiddenMore(rs, s);
      HidesWhatIsIndexed(front, KeyOf(last), s);
      WithMore(IndexOf(front), KeyOf(last), Classify(last.status), s);
    }
  }

  /** What became of each key, counted: fixes, regressions, additions, removals, moves from and to skipped. */
  function Explained(prev: Index, cur: Index): int {
    |Fixes(prev, cur, cur.Keys)| - |Regressions(prev, cur, cur.Keys)|
    + |Added(prev, cur)| - |Added(cur, prev)| + |Woken(prev, cur)| - |Woken(cur, prev)|
  }

  /**
   The printed change in passing scenarios takes the scenarios of this run and the keys of the
   earlier one. The printed lists explain it exactly when no passing scenario of this run is
   hidden by a later one with its key; otherwise it is larger than they say.
   */
  method PrintedDelta(elements: seq<Record>, prev: Index) returns (delta: int)
    ensures delta == Count(elements, Passed) - |With(prev, Passed)|
    ensures delta >= Explained(prev, IndexOf(elements))
    ensures delta == Explained(prev, IndexOf(elements)) <==> Unhidden(elements, Passed)
  {
    var stats := Analyze(elements);
    var passing := With(prev, Passed);
    delta := stats.passed - |passing|;
    IndexCountsExactly(elements, Passed);
    PassedDeltaExplained(prev, IndexOf(elements));
  }

  lemma {:induction false} FileNameOf(dir: string, name: string)
    requires '/' !in name
    ensures FileName(dir + "/" + name) == name
  {
    var path := dir + "/" + name;
    if name == "" {
      assert path[|path| - 1] == '/';
    } else {
      var front := name[..|name| - 1];
      FileNameOf(dir, front);
      assert path[..|path| - 1] == dir + "/" + front && name == front + [path[|path| - 1]];
    }
  }

  lemma {:induction false} LastDotOf(base: string, suffix: string)
    requires '.' !in suffix
    ensures LastDot(base + "." + suffix) == |base|
  {
    var name := base + "." + suffix;
    if suffix == "" {
      assert name[|name| - 1] == '.';
    } else {
      LastDotOf(base, suffix[..|suffix| - 1]);
      assert name[..|name| - 1] == base + "." + suffix[..|suffix| - 1];
    }
  }

  /** The stem forgets the directory. */
  lemma StemOf(dir: string, base: string, suffix: string)
    requires base != "" && suffix != "" && '/' !in base + "." + suffix && '.' !in suffix
    ensures Stem(dir + "/" + (base + "." + suffix)) == base
  {
    FileNameOf(dir, base + "." + suffix);
    LastDotOf(base, suffix);
  }

  lemma {:induction false} NoDot(name: string)
    requires '.' !in name
    ensures LastDot(name) < 0
  {
    if name != "" { NoDot(name[..|name| - 1]); }
  }

  /** A name without a dot, or with its last one at an end, is its own stem. */
  lemma StemKeeps(dir: string, base: string)
    requires '/' !in base
    ensures '.' !in base ==> Stem(dir + "/" + base) == base && Stem(dir + "/" + ("." + base)) == "." + base
    ensures Stem(dir + "/" + (base + "." + "")) == base + "." + ""
  {
    FileNameOf(dir, base); FileNameOf(dir, "." + base); FileNameOf(dir, base + "." + "");
    LastDotOf(base, "");
    if '.' !in base {
      NoDot(base);
      LastDotOf("", base);
      assert "" + "." + base == "." + base;
    }
  }

  lemma TwoFeaturesOneStem()
    ensures Stem("a/x.feature") == Stem("b/x.feature") == "x"
  {
    StemOf("a", "x", "feature");
    StemOf("b", "x", "feature");
    assert "a" + "/" + ("x" + "." + "feature") == "a/x.feature" && "b" + "/" + ("x" + "." + "feature") == "b/x.feature";
  }

  /** A passing scenario, and after it a failing one of the same name and line in a file with the same stem. */
  function Pair(p: string, q: string): seq<Record> { [Record(p, "s", 1, "passed"), Record(q, "s", 1, "failed")] }

  /** The one that passes is counted and is not in the index, as with `a/x.feature` and `b/x.feature`. */
  lemma OneStemHides(p: string, q: string)
    requires Stem(p) == Stem(q)
    ensures !DistinctKeys(Pair(p, q)) && !Unhidden(Pair(p, q), Passed)
    ensures Count(Pair(p, q), Passed) == 1 && With(IndexOf(Pair(p, q)), Passed) == {}
  {
    var rs := Pair(p, q);
    assert KeyOf(rs[0]) == KeyOf(rs[1]);
    assert rs[..1] == [rs[0]] && rs[..1][..0] == [];
    CountOne(rs[0], Passed);
    assert IndexOf(rs[..1]) == map[KeyOf(rs[0]) := Passed];
  }
}
