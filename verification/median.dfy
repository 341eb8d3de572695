/** The median the baseline and the gate share, by sorting. */
module Median {

  predicate Ascending(s: seq<nat>) { |s| < 2 || (s[0] <= s[1] && Ascending(s[1..])) }

  lemma {:induction false} AscendingPairs(s: seq<nat>, i: nat, j: nat)
    requires Ascending(s) && i <= j < |s|
    ensures s[i] <= s[j]
  {
    if i > 0 {
      AscendingPairs(s[1..], i - 1, j - 1);
    } else if j > 0 {
      AscendingPairs(s[1..], 0, j - 1);
    }
  }

  function Insert(x: nat, s: seq<nat>): seq<nat> {
    if s == [] || x <= s[0] then [x] + s else [s[0]] + Insert(x, s[1..])
  }

  function Sort(s: seq<nat>): seq<nat> {
    if s == [] then [] else Insert(s[0], Sort(s[1..]))
  }

  /** The middle sample; of an even number of samples, the two middle ones' mean rounded down. */
  function MedianOf(s: seq<nat>): nat
    requires s != []
  {
    SortKeeps(s);
    var t := Sort(s);
    if |s| % 2 == 1 then t[|s| / 2] else (t[|s| / 2 - 1] + t[|s| / 2]) / 2
  }

  /** In any listing of the samples in order: the middle one, or the two middle ones' mean rounded down. */
  lemma MedianIs(s: seq<nat>, t: seq<nat>)
    requires s != [] && multiset(t) == multiset(s) && forall i, j :: 0 <= i < j < |t| ==> t[i] <= t[j]
    ensures |t| == |s|
    ensures |s| % 2 == 1 ==> MedianOf(s) == t[|s| / 2]
    ensures |s| % 2 == 0 ==> MedianOf(s) == (t[|s| / 2 - 1] + t[|s| / 2]) / 2
  {
    assert |multiset(t)| == |t| && |multiset(s)| == |s|;
    SortKeeps(s);
    OrderIsAscending(t);
    AscendingIsUnique(Sort(s), t);
  }

  lemma {:induction false} OrderIsAscending(t: seq<nat>)
    requires forall i, j :: 0 <= i < j < |t| ==> t[i] <= t[j]
    ensures Ascending(t)
  {
    if |t| >= 2 { OrderIsAscending(t[1..]); }
  }

  lemma {:induction false} InsertKeeps(x: nat, s: seq<nat>)
    requires Ascending(s)
    ensures Ascending(Insert(x, s)) && |Insert(x, s)| == |s| + 1
    ensures Insert(x, s)[0] == if s == [] || x <= s[0] then x else s[0]
  {
    if s == [] || x <= s[0] {
      assert ([x] + s)[1..] == s;
    } else {
      var tail := Insert(x, s[1..]);
      InsertKeeps(x, s[1..]);
      assert ([s[0]] + tail)[1..] == tail;
    }
  }

  lemma {:induction false} InsertContents(x: nat, s: seq<nat>)
    ensures multiset(Insert(x, s)) == multiset(s) + multiset{x}
  {
    if s != [] && x > s[0] {
      InsertContents(x, s[1..]);
      assert s == [s[0]] + s[1..];
    }
  }

  lemma {:induction false} SortKeeps(s: seq<nat>)
    ensures Ascending(Sort(s)) && multiset(Sort(s)) == multiset(s) && |Sort(s)| == |s|
  {
    if s != [] {
      SortKeeps(s[1..]);
      InsertKeeps(s[0], Sort(s[1..]));
      InsertContents(s[0], Sort(s[1..]));
      assert s == [s[0]] + s[1..];
    }
  }

  lemma LeastIsFirst(s: seq<nat>, x: nat)
    requires Ascending(s) && s != [] && x in multiset(s)
    ensures s[0] <= x
  {
    assert x in s;
    var i :| 0 <= i < |s| && s[i] == x;
    AscendingPairs(s, 0, i);
  }

  lemma TailContents(s: seq<nat>)
    requires s != []
    ensures multiset(s[1..]) == multiset(s) - multiset{s[0]}
  {
    assert s == [s[0]] + s[1..];
  }

  lemma SameFirst(s: seq<nat>, t: seq<nat>)
    requires Ascending(s) && Ascending(t) && s != [] && t != [] && multiset(s) == multiset(t)
    ensures s[0] == t[0]
  {
    assert s[0] in multiset(s) && t[0] in multiset(t);
    LeastIsFirst(s, t[0]); LeastIsFirst(t, s[0]);
  }

  lemma {:induction false} AscendingIsUnique(s: seq<nat>, t: seq<nat>)
    requires Ascending(s) && Ascending(t) && multiset(s) == multiset(t)
    ensures s == t
  {
    assert |multiset(s)| == |s| && |multiset(t)| == |t|;
    if s != [] {
      SameFirst(s, t);
      TailContents(s); TailContents(t);
      AscendingIsUnique(s[1..], t[1..]);
      assert s == [s[0]] + s[1..] && t == [t[0]] + t[1..];
    }
  }

  /** The order of the samples does not matter. */
  lemma MedianIgnoresOrder(a: seq<nat>, b: seq<nat>)
    requires a != [] && multiset(a) == multiset(b)
    ensures |a| == |b| && MedianOf(a) == MedianOf(b)
  {
    assert |multiset(a)| == |a| && |multiset(b)| == |b|;
    SortKeeps(a); SortKeeps(b);
    AscendingIsUnique(Sort(a), Sort(b));
  }

  // ---- robustness

  predicate Within(x: nat, lo: nat, hi: nat) { lo <= x <= hi }

  /** How many samples lie in the interval. */
  function Inside(s: seq<nat>, lo: nat, hi: nat): nat {
    if s == [] then 0 else (if Within(s[0], lo, hi) then 1 else 0) + Inside(s[1..], lo, hi)
  }

  lemma {:induction false} InsideInsert(x: nat, s: seq<nat>, lo: nat, hi: nat)
    ensures Inside(Insert(x, s), lo, hi) == Inside(s, lo, hi) + if Within(x, lo, hi) then 1 else 0
  {
    if s == [] || x <= s[0] {
      assert ([x] + s)[1..] == s;
    } else {
      InsideInsert(x, s[1..], lo, hi);
      assert ([s[0]] + Insert(x, s[1..]))[1..] == Insert(x, s[1..]);
    }
  }

  lemma {:induction false} InsideSort(s: seq<nat>, lo: nat, hi: nat)
    ensures Inside(Sort(s), lo, hi) == Inside(s, lo, hi)
  {
    if s != [] {
      InsideSort(s[1..], lo, hi);
      InsideInsert(s[0], Sort(s[1..]), lo, hi);
    }
  }

  lemma {:induction false} InsideAtMost(s: seq<nat>, lo: nat, hi: nat)
    ensures Inside(s, lo, hi) <= |s|
  {
    if s != [] { InsideAtMost(s[1..], lo, hi); }
  }

  lemma {:induction false} InsideSplit(s: seq<nat>, k: nat, lo: nat, hi: nat)
    requires k <= |s|
    ensures Inside(s, lo, hi) == Inside(s[..k], lo, hi) + Inside(s[k..], lo, hi)
  {
    if k == 0 {
      assert s[0..] == s && s[..0] == [];
    } else {
      InsideSplit(s[1..], k - 1, lo, hi);
      assert s[..k][1..] == s[1..][..k - 1] && s[1..][k - 1..] == s[k..] && s[..k][0] == s[0];
    }
  }

  lemma {:induction false} AllOutside(s: seq<nat>, lo: nat, hi: nat)
    requires forall i :: 0 <= i < |s| ==> !Within(s[i], lo, hi)
    ensures Inside(s, lo, hi) == 0
  {
    if s != [] { AllOutside(s[1..], lo, hi); }
  }

  /** With most samples in the interval, no position from `|s| - count` to `count - 1` falls outside. */
  lemma MiddleIsInside(s: seq<nat>, k: nat, lo: nat, hi: nat)
    requires Ascending(s) && k < |s| && |s| - Inside(s, lo, hi) <= k < Inside(s, lo, hi)
    ensures Within(s[k], lo, hi)
  {
    InsideSplit(s, k + 1, lo, hi);
    InsideSplit(s, k, lo, hi);
    InsideAtMost(s[k + 1..], lo, hi);
    InsideAtMost(s[..k], lo, hi);
    if s[k] < lo {
      var low := s[..k + 1];
      forall i | 0 <= i < |low| ensures !Within(low[i], lo, hi) { AscendingPairs(s, i, k); }
      AllOutside(low, lo, hi);
    }
    if s[k] > hi {
      var high := s[k..];
      forall i | 0 <= i < |high| ensures !Within(high[i], lo, hi) { AscendingPairs(s, k, k + i); }
      AllOutside(high, lo, hi);
    }
  }

  /** If more than half of the samples lie in an interval so does the median, whatever the rest are. */
  lemma MajorityDecides(s: seq<nat>, lo: nat, hi: nat)
    requires s != [] && 2 * Inside(s, lo, hi) > |s|
    ensures lo <= MedianOf(s) <= hi
  {
    SortKeeps(s);
    InsideSort(s, lo, hi);
    var t := Sort(s);
    MiddleIsInside(t, |s| / 2, lo, hi);
    if |s| % 2 == 0 { MiddleIsInside(t, |s| / 2 - 1, lo, hi); }
  }

  lemma {:induction false} AllInside(s: seq<nat>, lo: nat, hi: nat)
    requires forall i :: 0 <= i < |s| ==> Within(s[i], lo, hi)
    ensures Inside(s, lo, hi) == |s|
  {
    if s != [] { AllInside(s[1..], lo, hi); }
  }

  lemma {:induction false} UpperBound(s: seq<nat>) returns (hi: nat)
    ensures forall i :: 0 <= i < |s| ==> s[i] <= hi
  {
    if s == [] {
      hi := 0;
    } else {
      hi := UpperBound(s[1..]);
      if hi < s[0] { hi := s[0]; }
      assert forall i :: 1 <= i < |s| ==> s[i] == s[1..][i - 1];
    }
  }

  lemma PositiveMedian(s: seq<nat>)
    requires s != [] && 0 !in s
    ensures MedianOf(s) > 0
  {
    var hi := UpperBound(s);
    AllInside(s, 1, hi);
    MajorityDecides(s, 1, hi);
  }
}
