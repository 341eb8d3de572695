/**
 Run-length tables over the Unicode code points: `ranges` and `valueRanges` of
 `GenUcdTables.java`, and `ranges`, the scan override and the class table of `gen_ucd_extra.py`.
 */
module RangeTables {
  import opened Basics

  const MAX: nat := 0x10FFFF

  datatype Range = Range(lo: nat, hi: nat)

  predicate Covers(rs: seq<Range>, cp: nat) {
    exists i :: 0 <= i < |rs| && rs[i].lo <= cp <= rs[i].hi
  }

  /** Sorted, non-empty, disjoint and not adjacent. */
  predicate Canonical(rs: seq<Range>) {
    && (forall i :: 0 <= i < |rs| ==> rs[i].lo <= rs[i].hi)
    && (forall i, j :: 0 <= i < j < |rs| ==> rs[i].hi + 1 < rs[j].lo)
  }

  /** The canonical list of exactly the code points where the predicate holds. */
  ghost predicate Describes(rs: seq<Range>, p: nat -> bool) {
    Canonical(rs) && forall cp: nat :: Covers(rs, cp) <==> cp <= MAX && p(cp)
  }

  /** Before code point `cp`, with a range open since `open`, or none when that is negative. */
  ghost predicate Scanned(out: seq<Range>, p: nat -> bool, open: int, cp: int) {
    var done := if open < 0 then cp else open;
    && -1 <= open < cp && Canonical(out)
    && (forall i :: 0 <= i < |out| ==> out[i].hi + 1 < (if open < 0 then cp + 1 else open) && out[i].hi <= MAX)
    && (open >= 0 ==> forall c: nat :: open <= c < cp ==> c <= MAX && p(c))
    && (forall c: nat :: c < done ==> (Covers(out, c) <==> c <= MAX && p(c)))
  }

  lemma ScanOpens(out: seq<Range>, p: nat -> bool, cp: nat)
    requires Scanned(out, p, -1, cp) && cp <= MAX && p(cp)
    requires forall i :: 0 <= i < |out| ==> out[i].hi + 1 < cp
    ensures Scanned(out, p, cp, cp + 1)
  {
  }

  lemma ScanCloses(out: seq<Range>, p: nat -> bool, open: nat, cp: nat)
    requires Scanned(out, p, open, cp) && !(cp <= MAX && p(cp))
    ensures Scanned(out + [Range(open, cp - 1)], p, -1, cp + 1)
  {
    var r := Range(open, cp - 1);
    CoversMore(out, r);
    assert p(cp - 1) && cp - 1 <= MAX;
    assert !Covers(out, cp);
    forall c: nat | c < cp + 1 ensures Covers(out + [r], c) <==> c <= MAX && p(c) {
      if open <= c < cp { assert p(c); }
    }
    var more := out + [r];
    forall i, j | 0 <= i < j < |more| ensures more[i].hi + 1 < more[j].lo { assert more[i] == out[i]; }
  }

  lemma ScanStays(out: seq<Range>, p: nat -> bool, open: int, cp: nat)
    requires Scanned(out, p, open, cp) && (open >= 0 <==> cp <= MAX && p(cp))
    ensures Scanned(out, p, open, cp + 1)
  {
    if open < 0 { assert !Covers(out, cp); }
  }

  /** With no range open, the last one closed lies strictly below. */
  lemma ScanGap(out: seq<Range>, p: nat -> bool, cp: nat)
    requires Scanned(out, p, -1, cp) && (cp > 0 ==> !Covers(out, cp - 1))
    ensures forall i :: 0 <= i < |out| ==> out[i].hi + 1 < cp
  {
    forall i | 0 <= i < |out| ensures out[i].hi + 1 < cp {
      if cp > 0 { assert !(out[i].lo <= cp - 1 <= out[i].hi); }
    }
  }

  lemma ScanEnds(out: seq<Range>, p: nat -> bool, open: int)
    requires Scanned(out, p, open, MAX + 2)
    ensures open < 0 && Describes(out, p)
  {
    assert p(MAX + 1) || !p(MAX + 1);
  }

  method Ranges(p: nat -> bool) returns (out: seq<Range>)
    ensures Describes(out, p)
  {
    out := [];
    var start: int := -1;
    for cp := 0 to MAX + 2
      invariant Scanned(out, p, start, cp) && (start < 0 && cp > 0 ==> !Covers(out, cp - 1))
    {
      var inside := cp <= MAX && p(cp);
      if inside && start < 0 {
        ScanGap(out, p, cp);
        ScanOpens(out, p, cp);
        start := cp;
      } else if !inside && start >= 0 {
        ScanCloses(out, p, start, cp);
        out := out + [Range(start, cp - 1)];
        start := -1;
      } else {
        ScanStays(out, p, start, cp);
      }
    }
    ScanEnds(out, p, start);
  }

  lemma CoversMore(rs: seq<Range>, r: Range)
    ensures forall c: nat :: Covers(rs + [r], c) <==> Covers(rs, c) || r.lo <= c <= r.hi
  {
    forall c: nat ensures Covers(rs + [r], c) <==> Covers(rs, c) || r.lo <= c <= r.hi {
      var more := rs + [r];
      if Covers(rs, c) {
        var i :| 0 <= i < |rs| && rs[i].lo <= c <= rs[i].hi;
        assert more[i] == rs[i];
      }
      if r.lo <= c <= r.hi { assert more[|rs|] == r; }
      if Covers(more, c) {
        var i :| 0 <= i < |more| && more[i].lo <= c <= more[i].hi;
        if i < |rs| { assert more[i] == rs[i]; }
      }
    }
  }

  /** The Python version keeps `None` instead of `-1`. */
  method PythonRanges(p: nat -> bool) returns (out: seq<Range>)
    ensures Describes(out, p)
  {
    out := [];
    var start: Option<nat> := None;
    for c := 0 to MAX + 2
      invariant Scanned(out, p, if start.Some? then start.value else -1, c) && (start.None? && c > 0 ==> !Covers(out, c - 1))
    {
      var inside := c <= MAX && p(c);
      if inside && start.None? {
        ScanGap(out, p, c);
        ScanOpens(out, p, c);
        start := Some(c);
      } else if !inside && start.Some? {
        ScanCloses(out, p, start.value, c);
        out := out + [Range(start.value, c - 1)];
        start := None;
      } else {
        ScanStays(out, p, if start.Some? then start.value else -1, c);
      }
    }
    ScanEnds(out, p, if start.Some? then start.value else -1);
  }

  lemma CoversTail(rs: seq<Range>, c: nat)
    requires Canonical(rs) && rs != []
    ensures Covers(rs[1..], c) <==> Covers(rs, c) && rs[0].hi < c
  {
    if Covers(rs[1..], c) {
      var i :| 0 <= i < |rs[1..]| && rs[1..][i].lo <= c <= rs[1..][i].hi;
      assert rs[i + 1] == rs[1..][i];
    }
    if Covers(rs, c) && rs[0].hi < c {
      var i :| 0 <= i < |rs| && rs[i].lo <= c <= rs[i].hi;
      assert rs[1..][i - 1] == rs[i];
    }
  }

  /** Nothing before the first range is covered, and the code point after it is not. */
  lemma FirstRange(rs: seq<Range>, c: nat)
    requires Canonical(rs) && rs != []
    ensures c < rs[0].lo || c == rs[0].hi + 1 ==> !Covers(rs, c)
    ensures rs[0].lo <= c <= rs[0].hi ==> Covers(rs, c)
  {
  }

  lemma FirstsAgree(a: seq<Range>, b: seq<Range>)
    requires Canonical(a) && Canonical(b) && a != [] && b != []
    requires forall c: nat :: Covers(a, c) <==> Covers(b, c)
    ensures a[0] == b[0]
  {
    FirstRange(a, a[0].lo); FirstRange(a, b[0].lo); FirstRange(b, a[0].lo); FirstRange(b, b[0].lo);
    assert a[0].lo == b[0].lo;
    FirstRange(a, a[0].hi); FirstRange(a, b[0].hi); FirstRange(b, a[0].hi); FirstRange(b, b[0].hi);
    FirstRange(a, a[0].hi + 1); FirstRange(b, a[0].hi + 1); FirstRange(a, b[0].hi + 1); FirstRange(b, b[0].hi + 1);
  }

  /** Canonical lists are unique, so equal outputs mean equal predicates and conversely. */
  lemma {:induction false} CanonicalIsUnique(a: seq<Range>, b: seq<Range>)
    requires Canonical(a) && Canonical(b)
    requires forall c: nat :: Covers(a, c) <==> Covers(b, c)
    ensures a == b
  {
    if a == [] || b == [] {
      if a != [] { FirstRange(a, a[0].lo); }
      if b != [] { FirstRange(b, b[0].lo); }
    } else {
      FirstsAgree(a, b);
      forall c: nat ensures Covers(a[1..], c) <==> Covers(b[1..], c) {
        CoversTail(a, c); CoversTail(b, c);
      }
      CanonicalIsUnique(a[1..], b[1..]);
      assert a == [a[0]] + a[1..] && b == [b[0]] + b[1..];
    }
  }

  /** Two tables are equal exactly when their predicates agree on every code point. */
  lemma RangesAreFaithful(a: seq<Range>, p: nat -> bool, b: seq<Range>, q: nat -> bool)
    requires Describes(a, p) && Describes(b, q)
    ensures a == b <==> forall cp: nat :: cp <= MAX ==> p(cp) == q(cp)
  {
    if forall cp: nat :: cp <= MAX ==> p(cp) == q(cp) {
      CanonicalIsUnique(a, b);
    }
    if a == b {
      forall cp: nat | cp <= MAX ensures p(cp) == q(cp) { assert Covers(a, cp) <==> Covers(b, cp); }
    }
  }

  // ---- value ranges

  const MIN_VALUE: int := -0x8000_0000

  /** Seventeen planes of code points, and the smallest 32-bit integer. */
  lemma LimitsAre()
    ensures MAX + 1 == 17 * 65536 && MIN_VALUE == -2147483648
  {
  }

  datatype Run<T> = Run(lo: nat, hi: nat, value: T)

  /** The value of the run that holds a position. */
  ghost predicate Holds<T>(rs: seq<Run<T>>, at: nat, v: T) {
    exists i :: 0 <= i < |rs| && rs[i].lo <= at <= rs[i].hi && rs[i].value == v
  }

  /** Runs follow one another without a gap from 0 up to `end`, and neighbours differ. */
  ghost predicate Tiles<T>(rs: seq<Run<T>>, end: nat) {
    && (forall i :: 0 <= i < |rs| ==> rs[i].lo <= rs[i].hi)
    && (forall i :: 0 < i < |rs| ==> rs[i].lo == rs[i - 1].hi + 1 && rs[i].value != rs[i - 1].value)
    && (if rs == [] then end == 0 else rs[0].lo == 0 && rs[|rs| - 1].hi + 1 == end)
  }

  /** From here to the end the function returns the sentinel. */
  ghost predicate SentinelTail(f: nat -> int, cp: nat) {
    forall c: nat :: cp <= c <= MAX ==> f(c) == MIN_VALUE
  }

  /** The runs tile `[0, end)` and give back the function there. */
  ghost predicate Reproduces(rs: seq<Run<int>>, f: nat -> int, end: nat) {
    Tiles(rs, end) && forall cp: nat, v: int :: Holds(rs, cp, v) <==> cp < end && v == f(cp)
  }

  /** One run after another, each as the loop closes it. */
  ghost predicate Closed(rs: seq<Run<int>>, f: nat -> int, end: nat) {
    if rs == [] then end == 0
    else
      var n := |rs| - 1;
      && rs[n].lo <= rs[n].hi && rs[n].hi + 1 == end
      && (forall c: nat :: rs[n].lo <= c <= rs[n].hi ==> f(c) == rs[n].value)
      && (n > 0 ==> rs[n - 1].value != rs[n].value)
      && Closed(rs[..n], f, rs[n].lo)
  }

  lemma {:induction false} ClosedReproduces(rs: seq<Run<int>>, f: nat -> int, end: nat)
    requires Closed(rs, f, end)
    ensures Reproduces(rs, f, end)
  {
    if rs != [] {
      ClosedReproduces(rs[..|rs| - 1], f, rs[|rs| - 1].lo);
      ReproducesMore(rs, f, end);
    }
  }

  lemma ReproducesMore(rs: seq<Run<int>>, f: nat -> int, end: nat)
    requires rs != [] && Closed(rs, f, end) && Reproduces(rs[..|rs| - 1], f, rs[|rs| - 1].lo)
    ensures Reproduces(rs, f, end)
  {
    var front, r := rs[..|rs| - 1], rs[|rs| - 1];
    assert rs == front + [r];
    RunReturns(front, r, f);
    TilesMore(front, r);
  }

  lemma RunReturns(front: seq<Run<int>>, r: Run<int>, f: nat -> int)
    requires forall cp: nat, v: int :: Holds(front, cp, v) <==> cp < r.lo && v == f(cp)
    requires r.lo <= r.hi && forall c: nat :: r.lo <= c <= r.hi ==> f(c) == r.value
    ensures forall cp: nat, v: int :: Holds(front + [r], cp, v) <==> cp < r.hi + 1 && v == f(cp)
  {
    HoldsMore(front, r);
  }

  lemma TilesMore(rs: seq<Run<int>>, r: Run<int>)
    requires Tiles(rs, r.lo) && r.lo <= r.hi
    requires rs != [] ==> rs[|rs| - 1].value != r.value
    ensures Tiles(rs + [r], r.hi + 1)
  {
    var more := rs + [r];
    forall i | 0 < i < |more| ensures more[i].lo == more[i - 1].hi + 1 && more[i].value != more[i - 1].value {
      if i < |rs| { assert more[i] == rs[i] && more[i - 1] == rs[i - 1]; }
    }
  }

  lemma ClosedMore(rs: seq<Run<int>>, f: nat -> int, start: nat, hi: nat, cur: int)
    requires Closed(rs, f, start) && start <= hi
    requires forall c: nat :: start <= c <= hi ==> f(c) == cur
    requires rs != [] ==> rs[|rs| - 1].value != cur
    ensures Closed(rs + [Run(start, hi, cur)], f, hi + 1)
  {
    var more := rs + [Run(start, hi, cur)];
    assert more[..|more| - 1] == rs;
  }

  /** Where the last run ends. */
  function End(rs: seq<Run<int>>): nat { if rs == [] then 0 else rs[|rs| - 1].hi + 1 }

  /**
   The runs reproduce the function on an initial stretch. Everything is covered unless the
   function ends in the sentinel value: then exactly that final run is missing.
   */
  method ValueRanges(f: nat -> int) returns (out: seq<Run<int>>)
    ensures End(out) <= MAX + 1 && Reproduces(out, f, End(out))
    ensures forall cp: nat :: cp <= MAX ==> (cp < End(out) <==> !SentinelTail(f, cp))
    ensures End(out) == MAX + 1 <==> f(MAX) != MIN_VALUE
  {
    out := [];
    var start: nat, cur := 0, f(0);
    for cp := 1 to MAX + 2
      invariant start < cp && Closed(out, f, start)
      invariant forall c: nat :: start <= c < cp && c <= MAX ==> f(c) == cur
      invariant start <= MAX + 1 && (start == MAX + 1 ==> cp == MAX + 2)
      invariant 0 < start ==> f(start - 1) != cur
      invariant out != [] ==> out[|out| - 1].value != cur
      invariant cp == MAX + 2 ==> cur == MIN_VALUE
    {
      var v := if cp <= MAX then f(cp) else MIN_VALUE;
      if v != cur {
        ClosedMore(out, f, start, cp - 1, cur);
        out := out + [Run(start, cp - 1, cur)];
        start, cur := cp, v;
      }
    }
    TailStart(f, start);
    ClosedReproduces(out, f, start);
  }

  lemma TailStart(f: nat -> int, start: nat)
    requires start <= MAX + 1 && SentinelTail(f, start)
    requires 0 < start ==> f(start - 1) != MIN_VALUE
    ensures forall cp: nat :: cp <= MAX ==> (cp < start <==> !SentinelTail(f, cp))
    ensures start == MAX + 1 <==> f(MAX) != MIN_VALUE
  {
    forall cp: nat | cp <= MAX ensures cp < start <==> !SentinelTail(f, cp) {
      if cp < start { assert f(start - 1) != MIN_VALUE; }
    }
  }

  /** A function that is the sentinel everywhere gets the empty table. */
  method SentinelRanges() returns (out: seq<Run<int>>)
    ensures out == [] && !exists v :: Holds(out, 0, v)
  {
    var f: nat -> int := _ => MIN_VALUE;
    out := ValueRanges(f);
    assert SentinelTail(f, 0);
  }

  lemma HoldsMore<T>(rs: seq<Run<T>>, r: Run<T>)
    ensures forall c: nat, v: T :: Holds(rs + [r], c, v) <==> Holds(rs, c, v) || (r.lo <= c <= r.hi && v == r.value)
  {
    var more := rs + [r];
    forall c: nat, v: T ensures Holds(more, c, v) <==> Holds(rs, c, v) || (r.lo <= c <= r.hi && v == r.value) {
      if Holds(rs, c, v) {
        var i :| 0 <= i < |rs| && rs[i].lo <= c <= rs[i].hi && rs[i].value == v;
        assert more[i] == rs[i];
      }
      if r.lo <= c <= r.hi { assert more[|rs|] == r; }
      if Holds(more, c, v) {
        var i :| 0 <= i < |more| && more[i].lo <= c <= more[i].hi && more[i].value == v;
        if i < |rs| { assert more[i] == rs[i]; }
      }
    }
  }

  // ---- grapheme-cluster-break classes

  datatype Class = Other | CR | LF | Control | Extend | ZWJ | RegionalIndicator | Prepend | SpacingMark | L | V | T | LV | LVT

  /** What the scan of the regex engine can tell apart. */
  datatype Seen = SeenOther | SeenControl | SeenRegionalIndicator | SeenPrepend | SeenExtend | SeenL | SeenV | SeenT

  function Merged(c: Class): Seen {
    match c
    case CR => SeenControl case LF => SeenControl case Control => SeenControl
    case L => SeenL case LV => SeenL case LVT => SeenL
    case Extend => SeenExtend case ZWJ => SeenExtend case SpacingMark => SeenExtend
    case Other => SeenOther case RegionalIndicator => SeenRegionalIndicator case Prepend => SeenPrepend
    case V => SeenV case T => SeenT
  }

  function Representative(s: Seen): (c: Class)
    ensures Merged(c) == s
  {
    match s
    case SeenExtend => SpacingMark
    case SeenL => L
    case SeenOther => Other
    case SeenControl => Control
    case SeenRegionalIndicator => RegionalIndicator
    case SeenPrepend => Prepend
    case SeenV => V
    case SeenT => T
  }

  datatype Observation = Observation(cp: nat, seen: Seen)

  /** The last observation of a code point, if there is one. */
  ghost predicate LastSeen(scan: seq<Observation>, cp: nat, s: Seen) {
    exists i :: 0 <= i < |scan| && scan[i] == Observation(cp, s) && forall j :: i < j < |scan| ==> scan[j].cp != cp
  }

  ghost predicate AlwaysAgrees(scan: seq<Observation>, cp: nat, s: Seen) {
    forall i :: 0 <= i < |scan| && scan[i].cp == cp ==> scan[i].seen == s
  }

  /** Takes the observed class wherever the table's class does not merge to it. */
  method Override(table: seq<Class>, scan: seq<Observation>) returns (out: seq<Class>, overrides: nat)
    requires forall i :: 0 <= i < |scan| ==> scan[i].cp < |table|
    ensures |out| == |table|
    ensures forall cp, s :: 0 <= cp < |table| && LastSeen(scan, cp, s) ==> Merged(out[cp]) == s
    ensures forall cp :: 0 <= cp < |table| && AlwaysAgrees(scan, cp, Merged(table[cp])) ==> out[cp] == table[cp]
  {
    out, overrides := table, 0;
    for k := 0 to |scan|
      invariant |out| == |table|
      invariant forall cp, s :: 0 <= cp < |table| && LastSeen(scan[..k], cp, s) ==> Merged(out[cp]) == s
      invariant forall cp :: 0 <= cp < |table| && AlwaysAgrees(scan[..k], cp, Merged(table[cp])) ==> out[cp] == table[cp]
    {
      var o := scan[k];
      ghost var before := out;
      if Merged(out[o.cp]) != o.seen {
        overrides := overrides + 1;
        out := out[o.cp := Representative(o.seen)];
      }
      ghost var seen := scan[..k + 1];
      forall cp, s | 0 <= cp < |table| && LastSeen(seen, cp, s) ensures Merged(out[cp]) == s {
        LastSeenStep(scan, k, cp, s);
      }
      forall cp | 0 <= cp < |table| && AlwaysAgrees(scan[..k + 1], cp, Merged(table[cp])) ensures out[cp] == table[cp] {
        AgreesStep(scan, k, cp, Merged(table[cp]));
      }
    }
    assert scan[..|scan|] == scan;
  }

  lemma LastSeenStep(scan: seq<Observation>, k: nat, cp: nat, s: Seen)
    requires k < |scan| && LastSeen(scan[..k + 1], cp, s)
    ensures if scan[k].cp == cp then scan[k].seen == s else LastSeen(scan[..k], cp, s)
  {
    var more := scan[..k + 1];
    var i :| 0 <= i < k + 1 && more[i] == Observation(cp, s) && forall j :: i < j < k + 1 ==> more[j].cp != cp;
    assert more[k] == scan[k];
    if scan[k].cp != cp {
      assert scan[..k][i] == more[i];
      assert forall j :: i < j < k ==> scan[..k][j] == more[j];
    }
  }

  lemma AgreesStep(scan: seq<Observation>, k: nat, cp: nat, s: Seen)
    requires k < |scan| && AlwaysAgrees(scan[..k + 1], cp, s)
    ensures AlwaysAgrees(scan[..k], cp, s) && (scan[k].cp == cp ==> scan[k].seen == s)
  {
    assert scan[..k + 1][k] == scan[k];
    assert forall i :: 0 <= i < k ==> scan[..k][i] == scan[..k + 1][i];
  }

  /** Runs in order below `end`, `Other` left out, touching neighbours different. */
  ghost predicate Emitted(rs: seq<Run<Class>>, table: seq<Class>, end: nat)
    requires end <= |table|
  {
    && (forall i :: 0 <= i < |rs| ==> rs[i].lo <= rs[i].hi < end && rs[i].value != Other)
    && (forall i, j :: 0 <= i < j < |rs| ==> rs[i].hi < rs[j].lo)
    && (forall i :: 0 < i < |rs| && rs[i].lo == rs[i - 1].hi + 1 ==> rs[i].value != rs[i - 1].value)
    && (forall c: nat, v: Class :: Holds(rs, c, v) <==> c < end && table[c] == v && v != Other)
  }

  /** One run after another, each as the loop writes it; what lies between is `Other`. */
  ghost predicate Written(rs: seq<Run<Class>>, table: seq<Class>, end: nat)
    requires end <= |table|
  {
    if rs == [] then forall c: nat :: c < end ==> table[c] == Other
    else
      var n := |rs| - 1;
      && rs[n].lo <= rs[n].hi < end && rs[n].value != Other
      && (forall c: nat :: rs[n].lo <= c <= rs[n].hi ==> table[c] == rs[n].value)
      && (forall c: nat :: rs[n].hi < c < end ==> table[c] == Other)
      && (n > 0 && rs[n - 1].hi + 1 == rs[n].lo ==> rs[n - 1].value != rs[n].value)
      && Written(rs[..n], table, rs[n].lo)
  }

  lemma {:induction false} WrittenIsEmitted(rs: seq<Run<Class>>, table: seq<Class>, end: nat)
    requires end <= |table| && Written(rs, table, end)
    ensures Emitted(rs, table, end)
  {
    if rs != [] {
      var front, r := rs[..|rs| - 1], rs[|rs| - 1];
      assert rs == front + [r];
      WrittenIsEmitted(front, table, r.lo);
      EmittedMore(front, r, table, end);
    }
  }

  lemma EmittedMore(front: seq<Run<Class>>, r: Run<Class>, table: seq<Class>, end: nat)
    requires r.lo <= r.hi < end <= |table| && r.value != Other && Emitted(front, table, r.lo)
    requires front != [] && front[|front| - 1].hi + 1 == r.lo ==> front[|front| - 1].value != r.value
    requires forall c: nat :: r.lo <= c <= r.hi ==> table[c] == r.value
    requires forall c: nat :: r.hi < c < end ==> table[c] == Other
    ensures Emitted(front + [r], table, end)
  {
    RunsInOrder(front, r, table, end);
    RunHolds(front, r, table, end);
  }

  lemma RunHolds(front: seq<Run<Class>>, r: Run<Class>, table: seq<Class>, end: nat)
    requires r.lo <= r.hi < end <= |table| && r.value != Other
    requires forall c: nat, v: Class :: Holds(front, c, v) <==> c < r.lo && table[c] == v && v != Other
    requires forall c: nat :: r.lo <= c <= r.hi ==> table[c] == r.value
    requires forall c: nat :: r.hi < c < end ==> table[c] == Other
    ensures forall c: nat, v: Class :: Holds(front + [r], c, v) <==> c < end && table[c] == v && v != Other
  {
    HoldsMore(front, r);
  }

  lemma RunsInOrder(front: seq<Run<Class>>, r: Run<Class>, table: seq<Class>, end: nat)
    requires r.lo <= r.hi < end <= |table| && r.value != Other && Emitted(front, table, r.lo)
    requires front != [] && front[|front| - 1].hi + 1 == r.lo ==> front[|front| - 1].value != r.value
    ensures var rs := front + [r];
      && (forall i :: 0 <= i < |rs| ==> rs[i].lo <= rs[i].hi < end && rs[i].value != Other)
      && (forall i, j :: 0 <= i < j < |rs| ==> rs[i].hi < rs[j].lo)
      && (forall i :: 0 < i < |rs| && rs[i].lo == rs[i - 1].hi + 1 ==> rs[i].value != rs[i - 1].value)
  {
    var rs := front + [r];
    forall i, j | 0 <= i < j < |rs| ensures rs[i].hi < rs[j].lo { assert rs[i] == front[i]; }
    forall i | 0 < i < |rs| && rs[i].lo == rs[i - 1].hi + 1 ensures rs[i].value != rs[i - 1].value {
      assert rs[i - 1] == front[i - 1];
      if i < |front| { assert rs[i] == front[i]; }
    }
  }

  lemma WrittenRun(rs: seq<Run<Class>>, table: seq<Class>, start: nat, end: nat)
    requires start < end <= |table| && Written(rs, table, start) && table[start] != Other
    requires forall c: nat :: start <= c < end ==> table[c] == table[start]
    requires start > 0 ==> table[start - 1] != table[start]
    ensures Written(rs + [Run(start, end - 1, table[start])], table, end)
  {
    var more := rs + [Run(start, end - 1, table[start])];
    var n := |rs|;
    assert more[..n] == rs && more[n] == Run(start, end - 1, table[start]);
    if n > 0 {
      assert more[n - 1] == rs[n - 1];
      assert rs[n - 1].hi + 1 == start ==> table[start - 1] == rs[n - 1].value;
    }
  }

  lemma WrittenGap(rs: seq<Run<Class>>, table: seq<Class>, start: nat, end: nat)
    requires start < end <= |table| && Written(rs, table, start) && table[start] == Other
    requires forall c: nat :: start <= c < end ==> table[c] == table[start]
    ensures Written(rs, table, end)
  {
  }

  /** The emitted runs, in order, hold exactly the code points whose class is not `Other`. */
  method EmitClasses(table: seq<Class>) returns (out: seq<Run<Class>>)
    requires table != []
    ensures Emitted(out, table, |table|)
  {
    out := [];
    var start: nat := 0;
    for c := 1 to |table| + 1
      invariant start < c && start <= |table| && (c == |table| + 1 ==> start == |table|)
      invariant start == |table| ==> c == |table| + 1
      invariant Written(out, table, start)
      invariant 0 < start < |table| ==> table[start - 1] != table[start]
      invariant forall d: nat :: start <= d < c && d < |table| ==> table[d] == table[start]
    {
      if c == |table| || table[c] != table[start] {
        if table[start] != Other {
          WrittenRun(out, table, start, c);
          out := out + [Run(start, c - 1, table[start])];
        } else {
          WrittenGap(out, table, start, c);
        }
        start := c;
      }
    }
    WrittenIsEmitted(out, table, |table|);
  }

  /** The class found in an emitted table; absent code points are `Other`. */
  ghost function ClassAt(rs: seq<Run<Class>>, cp: nat): Class {
    if exists v: Class :: Holds(rs, cp, v) then (var v: Class :| Holds(rs, cp, v); v) else Other
  }

  lemma ClassAtIsTable(rs: seq<Run<Class>>, table: seq<Class>, cp: nat)
    requires Emitted(rs, table, |table|) && cp < |table|
    ensures ClassAt(rs, cp) == table[cp]
  {
    if table[cp] != Other { assert Holds(rs, cp, table[cp]); }
  }

  /**
   End to end: looking a code point up in the emitted table merges to the class the scan
   last observed there; where every observation already agreed with the original class, the
   original, finer class comes back.
   */
  method BuildClasses(ucd: seq<Class>, scan: seq<Observation>) returns (out: seq<Run<Class>>)
    requires ucd != [] && forall i :: 0 <= i < |scan| ==> scan[i].cp < |ucd|
    ensures forall cp: nat, s :: cp < |ucd| && LastSeen(scan, cp, s) ==> Merged(ClassAt(out, cp)) == s
    ensures forall cp: nat :: cp < |ucd| && AlwaysAgrees(scan, cp, Merged(ucd[cp])) ==> ClassAt(out, cp) == ucd[cp]
  {
    var table, _ := Override(ucd, scan);
    out := EmitClasses(table);
    forall cp: nat | cp < |ucd| ensures ClassAt(out, cp) == table[cp] {
      ClassAtIsTable(out, table, cp);
    }
  }
}
