/** Version vectors: an absent actor counts as zero, and joining takes the larger count of each actor. */
module Clocks {

  type Actor = string
  type Clock = map<Actor, nat>

  function Max(m: nat, n: nat): nat { if m < n then n else m }

  function Count(c: Clock, a: Actor): nat { if a in c then c[a] else 0 }

  function Join(c: Clock, d: Clock): Clock {
    map a | a in c.Keys + d.Keys :: Max(Count(c, a), Count(d, a))
  }

  /** Actor by actor: there if in either clock, with the larger of the counts. */
  lemma JoinIs(c: Clock, d: Clock, a: Actor)
    ensures a in Join(c, d) <==> a in c || a in d
    ensures a in c && a !in d ==> Join(c, d)[a] == c[a]
    ensures a in d && a !in c ==> Join(c, d)[a] == d[a]
    ensures a in c && a in d ==> Join(c, d)[a] == if c[a] >= d[a] then c[a] else d[a]
  {
  }

  lemma JoinedCount(c: Clock, d: Clock, a: Actor)
    ensures Count(Join(c, d), a) == Max(Count(c, a), Count(d, a))
  {
  }

  lemma JoinCommutes(c: Clock, d: Clock)
    ensures Join(c, d) == Join(d, c)
  {
    assert Join(c, d).Keys == Join(d, c).Keys;
  }

  lemma JoinAssociates(b: Clock, c: Clock, d: Clock)
    ensures Join(Join(b, c), d) == Join(b, Join(c, d))
  {
    var l, r := Join(Join(b, c), d), Join(b, Join(c, d));
    assert l.Keys == r.Keys;
    forall a | a in l ensures l[a] == r[a] {
      JoinedCount(b, c, a);
      JoinedCount(c, d, a);
      JoinedCount(Join(b, c), d, a);
      JoinedCount(b, Join(c, d), a);
    }
  }

  /** Entry for entry: every actor of the one is in the other with at least its count. */
  predicate Leq(c: Clock, d: Clock) {
    c.Keys <= d.Keys && forall a :: a in c ==> c[a] <= d[a]
  }

  lemma LeqTransitive(b: Clock, c: Clock, d: Clock)
    requires Leq(b, c) && Leq(c, d)
    ensures Leq(b, d)
  {
  }

  lemma LeqAntisymmetric(c: Clock, d: Clock)
    requires Leq(c, d) && Leq(d, c)
    ensures c == d
  {
    assert c.Keys == d.Keys;
  }

  /** The join is above both, and is one of them exactly when that one is above the other. */
  lemma JoinIsAbove(c: Clock, d: Clock)
    ensures Leq(c, Join(c, d)) && Leq(d, Join(c, d))
    ensures Join(c, d) == d <==> Leq(c, d)
  {
    if Leq(c, d) { assert Join(c, d).Keys == d.Keys; }
    if Join(c, d) == d {
      forall a | a in c ensures a in d && c[a] <= d[a] { assert a in Join(c, d); }
    }
  }
}
