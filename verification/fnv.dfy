/**
 The 64-bit FNV-1a fingerprint of a range table. A fingerprint of any size must collide
 somewhere; what is proved here is the distance it guarantees: two tables of equal length
 that differ in a single range end, by whatever amount, never share a fingerprint.
 */
module Fnv {
  import opened RangeTables

  const M: nat := 0x1_0000_0000_0000_0000
  const OFFSET: nat := 0xcbf2_9ce4_8422_2325
  const PRIME: nat := 0x100_0000_01b3

  type Byte = x: nat | x < 256
  type Hash64 = x: nat | x < 0x1_0000_0000_0000_0000
  type Word32 = x: nat | x < 0x1_0000_0000

  /** Exclusive or of the low `bits` bits. */
  function Xor(a: nat, b: nat, bits: nat): nat {
    if bits == 0 then 0 else (a + b) % 2 + 2 * Xor(a / 2, b / 2, bits - 1)
  }

  /** The state after `h ^= b`, which touches the low byte only. */
  function Mix(h: Hash64, b: Byte): (r: Hash64) {
    LowXorBound(h % 256, b);
    LowByteFits(h, Xor(h % 256, b, 8));
    h / 256 * 256 + Xor(h % 256, b, 8)
  }

  lemma LowByteFits(h: Hash64, x: nat)
    requires x < 256
    ensures h / 256 * 256 + x < 0x1_0000_0000_0000_0000
  {
    assert h / 256 < 0x100_0000_0000_0000;
  }

  function Step(h: Hash64, b: Byte): Hash64 {
    Mix(h, b) * PRIME % M
  }

  function Hash(h: Hash64, bs: seq<Byte>): Hash64
    decreases |bs|
  {
    if bs == [] then h else Hash(Step(h, bs[0]), bs[1..])
  }

  function Bytes(v: Word32): seq<Byte> {
    [v % 256, v / 0x100 % 256, v / 0x1_0000 % 256, v / 0x100_0000 % 256]
  }

  /** The table's ends, in order. */
  function Ends(rs: seq<Range>): seq<nat> {
    if rs == [] then [] else Ends(rs[..|rs| - 1]) + [rs[|rs| - 1].lo, rs[|rs| - 1].hi]
  }

  ghost predicate Words(ws: seq<nat>) { forall i :: 0 <= i < |ws| ==> ws[i] < 0x1_0000_0000 }

  function Stream(ws: seq<nat>): seq<Byte>
    requires Words(ws)
  {
    if ws == [] then [] else Stream(ws[..|ws| - 1]) + Bytes(ws[|ws| - 1])
  }

  // ---- the generator's loop

  lemma {:induction false} HashAppend(h: Hash64, s: seq<Byte>, t: seq<Byte>)
    ensures Hash(h, s + t) == Hash(Hash(h, s), t)
    decreases |s|
  {
    if s == [] {
      assert s + t == t;
    } else {
      assert (s + t)[0] == s[0] && (s + t)[1..] == s[1..] + t;
      HashAppend(Step(h, s[0]), s[1..], t);
    }
  }

  lemma HashOne(h: Hash64, b: Byte)
    ensures Hash(h, [b]) == Step(h, b)
  {
    assert [b][1..] == [];
    assert Hash(Step(h, b), [b][1..]) == Step(h, b);
  }

  function Shift(b: nat): nat
    requires b < 4
  {
    if b == 0 then 1 else if b == 1 then 0x100 else if b == 2 then 0x1_0000 else 0x100_0000
  }

  /** One end, four bytes, least significant first. */
  method MixEnd(h0: Hash64, v: Word32) returns (h: Hash64)
    ensures h == Hash(h0, Bytes(v))
  {
    h := h0;
    for b := 0 to 4
      invariant h == Hash(h0, Bytes(v)[..b])
    {
      var byte: Byte := v / Shift(b) % 256;
      assert Bytes(v)[b] == byte && Bytes(v)[..b + 1] == Bytes(v)[..b] + [byte];
      HashAppend(h0, Bytes(v)[..b], [byte]);
      HashOne(h, byte);
      h := Step(h, byte);
    }
    assert Bytes(v)[..4] == Bytes(v);
  }

  lemma StreamTwo(ws: seq<nat>, v: Word32, w: Word32)
    requires Words(ws)
    ensures Words(ws + [v, w]) && Stream(ws + [v, w]) == Stream(ws) + Bytes(v) + Bytes(w)
  {
    var one, two := ws + [v], ws + [v, w];
    assert two[..|two| - 1] == one && one[..|one| - 1] == ws;
  }

  /** The generator's three nested loops hash the little-endian byte stream of the ends. */
  method Fingerprint(rs: seq<Range>) returns (h: Hash64)
    requires forall i :: 0 <= i < |rs| ==> rs[i].lo < 0x1_0000_0000 && rs[i].hi < 0x1_0000_0000
    ensures Words(Ends(rs)) && h == Hash(OFFSET, Stream(Ends(rs)))
  {
    h := OFFSET;
    for k := 0 to |rs|
      invariant Words(Ends(rs[..k])) && h == Hash(OFFSET, Stream(Ends(rs[..k])))
    {
      assert rs[..k + 1][..k] == rs[..k];
      ghost var done := Ends(rs[..k]);
      StreamTwo(done, rs[k].lo, rs[k].hi);
      HashAppend(OFFSET, Stream(done), Bytes(rs[k].lo));
      HashAppend(OFFSET, Stream(done) + Bytes(rs[k].lo), Bytes(rs[k].hi));
      h := MixEnd(h, rs[k].lo);
      h := MixEnd(h, rs[k].hi);
    }
    assert rs[..|rs|] == rs;
  }

  // ---- every step is a bijection of the state

  function Power(n: nat): nat { if n == 0 then 1 else 2 * Power(n - 1) }

  lemma XorBound(a: nat, b: nat, bits: nat)
    ensures Xor(a, b, bits) < Power(bits)
  {
  }

  lemma LowXorBound(a: nat, b: nat)
    ensures Power(8) == 256 && Xor(a, b, 8) < 256
  {
    assert Power(4) == 16;
    XorBound(a, b, 8);
  }

  lemma ParityCancels(a: nat, b: nat, c: nat)
    ensures (a + b) % 2 == (a + c) % 2 ==> b % 2 == c % 2
  {
  }

  lemma Halves(b: nat, c: nat)
    requires b / 2 == c / 2 && b % 2 == c % 2
    ensures b == c
  {
  }

  lemma {:induction false} XorCancels(a: nat, b: nat, c: nat, bits: nat)
    requires a < Power(bits) && b < Power(bits) && c < Power(bits)
    ensures Xor(a, b, bits) == Xor(a, c, bits) ==> b == c
    ensures Xor(b, a, bits) == Xor(c, a, bits) ==> b == c
  {
    if bits > 0 {
      XorCancels(a / 2, b / 2, c / 2, bits - 1);
      ParityCancels(a, b, c);
      if b / 2 == c / 2 && b % 2 == c % 2 { Halves(b, c); }
    }
  }

  lemma LowByteSplits(a: nat, r: nat, c: nat, s: nat)
    requires a * 256 + r == c * 256 + s && r < 256 && s < 256
    ensures a == c && r == s
  {
  }

  lemma LowXor(a: nat, b: nat, c: nat)
    requires a < 256 && b < 256 && c < 256
    ensures Xor(a, b, 8) < 256 && Xor(a, c, 8) < 256
    ensures Xor(a, b, 8) == Xor(a, c, 8) ==> b == c
    ensures Xor(b, a, 8) == Xor(c, a, 8) ==> b == c
  {
    LowXorBound(a, b); LowXorBound(a, c);
    XorCancels(a, b, c, 8);
  }

  lemma XorCommutes(a: nat, b: nat, bits: nat)
    ensures Xor(a, b, bits) == Xor(b, a, bits)
  {
  }

  lemma MixInjective(x: Hash64, y: Hash64, b: Byte)
    requires Mix(x, b) == Mix(y, b)
    ensures x == y
  {
    var xl, yl := x % 256, y % 256;
    LowXor(b, xl, yl);
    XorCommutes(b, xl, 8); XorCommutes(b, yl, 8);
    LowByteSplits(x / 256, Xor(xl, b, 8), y / 256, Xor(yl, b, 8));
  }

  /** The inverse of the prime modulo 2^64. */
  const INVERSE: nat := 0xce96_5057_aff6_957b

  /** Multiplying by the prime loses nothing modulo 2^64. */
  lemma PrimeCancels(d: int)
    requires (d * PRIME) % M == 0
    ensures d % M == 0
  {
    var q := d * PRIME / M;
    assert PRIME * INVERSE == 1 + 887285111055 * M;
    assert d * PRIME == q * M;
    assert d == M * (q * INVERSE - d * 887285111055) by {
      assert d * PRIME * INVERSE == q * M * INVERSE;
      assert d * (PRIME * INVERSE) == d + d * 887285111055 * M;
    }
    Multiple(q * INVERSE - d * 887285111055);
  }

  lemma Multiple(k: int)
    ensures (M * k) % M == 0
  {
  }

  lemma SameResidue(a: int, b: int)
    ensures a % M == b % M <==> (a - b) % M == 0
  {
  }

  lemma TimesPrimeInjective(u: Hash64, w: Hash64)
    requires u * PRIME % M == w * PRIME % M
    ensures u == w
  {
    SameResidue(u * PRIME, w * PRIME);
    assert u * PRIME - w * PRIME == (u - w) * PRIME;
    PrimeCancels(u - w);
    SameResidue(u, w);
  }

  lemma StepInjective(x: Hash64, y: Hash64, b: Byte)
    requires Step(x, b) == Step(y, b)
    ensures x == y
  {
    TimesPrimeInjective(Mix(x, b), Mix(y, b));
    MixInjective(x, y, b);
  }

  /** A common suffix never hides a difference. */
  lemma {:induction false} HashInjective(x: Hash64, y: Hash64, bs: seq<Byte>)
    requires Hash(x, bs) == Hash(y, bs)
    ensures x == y
    decreases |bs|
  {
    if bs != [] {
      HashInjective(Step(x, bs[0]), Step(y, bs[0]), bs[1..]);
      StepInjective(x, y, bs[0]);
    }
  }

  // ---- four bytes cannot cancel one another

  /** The exclusive-or moves each state by less than a byte. */
  lemma MixDrift(x: Hash64, y: Hash64, b: Byte, c: Byte) returns (e: int)
    ensures Mix(x, b) - Mix(y, c) == x - y + e && -510 <= e <= 510
    ensures x == y && e == 0 ==> b == c
  {
    LowXor(x % 256, b, c); LowXor(y % 256, c, b);
    e := (Mix(x, b) - Mix(y, c)) - (x - y);
  }

  /** One step multiplies the drifted difference by the prime. */
  lemma StepDelta(x: Hash64, y: Hash64, b: Byte, c: Byte) returns (e: int, k: int)
    ensures Step(x, b) - Step(y, c) == (x - y + e) * PRIME + k * M
    ensures -510 <= e <= 510 && (x == y && e == 0 ==> b == c)
  {
    e := MixDrift(x, y, b, c);
    var u, w := Mix(x, b), Mix(y, c);
    k := Remainders(u * PRIME, w * PRIME);
    assert (u - w) * PRIME == u * PRIME - w * PRIME;
  }

  lemma Remainders(a: nat, b: nat) returns (k: int)
    ensures a % M - b % M == a - b + k * M
  {
    k := b / M - a / M;
  }

  /**
   No short combination of 1, p, p^2 and p^3 vanishes modulo 2^64: with p = 2^40 + 435 the
   part below 2^40 forces 435^3 d + 435^2 e + 435 g + s to vanish on its own, the part above
   it forces the rest.
   */
  lemma NoShortRelation(d: int, e: int, g: int, s: int, k: int)
    requires -510 <= d <= 510 && -510 <= e <= 510 && -510 <= g <= 510 && -510 <= s <= 510
    requires d * (PRIME * PRIME * PRIME) + e * (PRIME * PRIME) + g * PRIME + s == k * M
    ensures d == 0 && e == 0 && g == 0 && s == 0
  {
    var high := 567675 * d + 870 * e + g;
    var low := 82312875 * d + 189225 * e + 435 * g + s;
    assert PRIME * PRIME * PRIME == 82312875 + 567675 * 0x100_0000_0000 + (1305 * 0x1_0000 + 0x100_0000_0000_0000) * M;
    assert PRIME * PRIME == 189225 + 870 * 0x100_0000_0000 + 0x1_0000 * M;
    var rest := k - (1305 * 0x1_0000 + 0x100_0000_0000_0000) * d - 0x1_0000 * e;
    assert high * 0x100_0000_0000 + low == rest * M;
    LowVanishes(high, low, rest);
    assert low == 0 && high == rest * 0x100_0000;
    assert s == -435 * (189225 * d + 435 * e + g);
    assert s == 0 || s == 435 || s == -435;
    assert -1 <= 189225 * d + 435 * e + g <= 1;
    assert -1 <= d <= 1;
    assert rest == 0;
    assert 378450 * d + 435 * e == -(189225 * d + 435 * e + g);
  }

  lemma LowVanishes(high: int, low: int, rest: int)
    requires high * 0x100_0000_0000 + low == rest * M
    requires -0x100_0000_0000 < low < 0x100_0000_0000
    ensures low == 0 && high == rest * 0x100_0000
  {
    assert low == (rest * 0x100_0000 - high) * 0x100_0000_0000;
  }

  /** From one state, two different four-byte words lead to two different states. */
  lemma FourBytesInjective(h: Hash64, b0: Byte, b1: Byte, b2: Byte, b3: Byte, c0: Byte, c1: Byte, c2: Byte, c3: Byte,
                           x1: Hash64, x2: Hash64, x3: Hash64, y1: Hash64, y2: Hash64, y3: Hash64)
    requires x1 == Step(h, b0) && x2 == Step(x1, b1) && x3 == Step(x2, b2)
    requires y1 == Step(h, c0) && y2 == Step(y1, c1) && y3 == Step(y2, c2)
    requires Step(x3, b3) == Step(y3, c3)
    ensures b0 == c0 && b1 == c1 && b2 == c2 && b3 == c3
  {
    var d, k1 := StepDelta(h, h, b0, c0);
    var e, k2 := StepDelta(x1, y1, b1, c1);
    var g, k3 := StepDelta(x2, y2, b2, c2);
    var s, k4 := StepDelta(x3, y3, b3, c3);
    AllVanish(x1 - y1, x2 - y2, x3 - y3, d, e, g, s, k1, k2, k3, k4);
  }

  lemma AllVanish(d1: int, d2: int, d3: int, d: int, e: int, g: int, s: int, k1: int, k2: int, k3: int, k4: int)
    requires -510 <= d <= 510 && -510 <= e <= 510 && -510 <= g <= 510 && -510 <= s <= 510
    requires d1 == d * PRIME + k1 * M && d2 == (d1 + e) * PRIME + k2 * M && d3 == (d2 + g) * PRIME + k3 * M
    requires 0 == (d3 + s) * PRIME + k4 * M
    ensures d == 0 && e == 0 && g == 0 && s == 0
  {
    var k := Relation(d1, d2, d3, d, e, g, s, k1, k2, k3, k4);
    NoShortRelation(d, e, g, s, k);
  }

  lemma Relation(d1: int, d2: int, d3: int, d: int, e: int, g: int, s: int, k1: int, k2: int, k3: int, k4: int) returns (k: int)
    requires d1 == d * PRIME + k1 * M && d2 == (d1 + e) * PRIME + k2 * M && d3 == (d2 + g) * PRIME + k3 * M
    requires 0 == (d3 + s) * PRIME + k4 * M
    ensures d * (PRIME * PRIME * PRIME) + e * (PRIME * PRIME) + g * PRIME + s == k * M
  {
    Multiple(-k4);
    assert (d3 + s) * PRIME == M * -k4;
    PrimeCancels(d3 + s);
    var q := (d3 + s) / M;
    assert d3 + s == q * M;
    assert d2 == d * (PRIME * PRIME) + e * PRIME + (k1 * PRIME + k2) * M;
    assert d3 == d * (PRIME * PRIME * PRIME) + e * (PRIME * PRIME) + g * PRIME + ((k1 * PRIME + k2) * PRIME + k3) * M;
    k := q - ((k1 * PRIME + k2) * PRIME + k3);
  }

  lemma HashFour(h: Hash64, v: Word32)
    ensures Hash(h, Bytes(v)) == Step(Step(Step(Step(h, Bytes(v)[0]), Bytes(v)[1]), Bytes(v)[2]), Bytes(v)[3])
  {
    var bs := Bytes(v);
    assert bs == [bs[0]] + [bs[1]] + [bs[2]] + [bs[3]];
    HashAppend(h, [bs[0]] + [bs[1]] + [bs[2]], [bs[3]]);
    HashAppend(h, [bs[0]] + [bs[1]], [bs[2]]);
    HashAppend(h, [bs[0]], [bs[1]]);
    HashOne(h, bs[0]);
    HashOne(Step(h, bs[0]), bs[1]);
    HashOne(Step(Step(h, bs[0]), bs[1]), bs[2]);
    HashOne(Step(Step(Step(h, bs[0]), bs[1]), bs[2]), bs[3]);
  }

  lemma Reassemble(v: Word32)
    ensures v == Bytes(v)[0] as int + 0x100 * (Bytes(v)[1] as int) + 0x1_0000 * (Bytes(v)[2] as int) + 0x100_0000 * (Bytes(v)[3] as int)
  {
    var h1, h2, h3 := v / 0x100, v / 0x1_0000, v / 0x100_0000;
    assert h2 == h1 / 0x100 && h3 == h2 / 0x100;
  }

  lemma WordInjective(h: Hash64, v: Word32, w: Word32)
    requires Hash(h, Bytes(v)) == Hash(h, Bytes(w))
    ensures v == w
  {
    HashFour(h, v); HashFour(h, w);
    var bs, cs := Bytes(v), Bytes(w);
    var x1, y1 := Step(h, bs[0]), Step(h, cs[0]);
    var x2, y2 := Step(x1, bs[1]), Step(y1, cs[1]);
    FourBytesInjective(h, bs[0], bs[1], bs[2], bs[3], cs[0], cs[1], cs[2], cs[3], x1, x2, Step(x2, bs[2]), y1, y2, Step(y2, cs[2]));
    Reassemble(v); Reassemble(w);
  }

  lemma {:induction false} StreamAppend(s: seq<nat>, t: seq<nat>)
    requires Words(s) && Words(t)
    ensures Words(s + t) && Stream(s + t) == Stream(s) + Stream(t)
  {
    if t == [] {
      assert s + t == s;
    } else {
      assert (s + t)[..|s + t| - 1] == s + t[..|t| - 1];
      StreamAppend(s, t[..|t| - 1]);
    }
  }

  /** Change one end of a table, and only that one: the fingerprint changes. */
  lemma OneWordChanged(before: seq<nat>, v: Word32, w: Word32, after: seq<nat>)
    requires Words(before) && Words(after) && v != w
    ensures Words(before + [v] + after) && Words(before + [w] + after)
    ensures Hash(OFFSET, Stream(before + [v] + after)) != Hash(OFFSET, Stream(before + [w] + after))
  {
    HashAround(before, v, after);
    HashAround(before, w, after);
    var h := Hash(OFFSET, Stream(before));
    if Hash(OFFSET, Stream(before + [v] + after)) == Hash(OFFSET, Stream(before + [w] + after)) {
      HashInjective(Hash(h, Bytes(v)), Hash(h, Bytes(w)), Stream(after));
      WordInjective(h, v, w);
    }
  }

  lemma HashAround(before: seq<nat>, v: Word32, after: seq<nat>)
    requires Words(before) && Words(after)
    ensures Words(before + [v] + after)
    ensures Hash(OFFSET, Stream(before + [v] + after)) == Hash(Hash(Hash(OFFSET, Stream(before)), Bytes(v)), Stream(after))
  {
    assert [v][..0] == [] && Stream([v]) == [] + Bytes(v);
    StreamAppend(before, [v]);
    StreamAppend(before + [v], after);
    HashAppend(OFFSET, Stream(before), Bytes(v));
    HashAppend(OFFSET, Stream(before) + Bytes(v), Stream(after));
  }

  lemma {:induction false} EndsAppend(a: seq<Range>, b: seq<Range>)
    ensures Ends(a + b) == Ends(a) + Ends(b)
  {
    if b == [] {
      assert a + b == a;
    } else {
      assert (a + b)[..|a + b| - 1] == a + b[..|b| - 1];
      EndsAppend(a, b[..|b| - 1]);
    }
  }

  lemma EndsAround(front: seq<Range>, r: Range, tail: seq<Range>)
    ensures Ends(front + [r] + tail) == Ends(front) + [r.lo, r.hi] + Ends(tail)
  {
    assert [r][..0] == [] && Ends([r]) == [r.lo, r.hi];
    EndsAppend(front, [r]);
    EndsAppend(front + [r], tail);
  }

  /** Two tables that differ in exactly one end of one range have different fingerprints. */
  lemma OneEndChanged(front: seq<Range>, r: Range, q: Range, tail: seq<Range>)
    requires Words(Ends(front)) && Words([r.lo, r.hi, q.lo, q.hi]) && Words(Ends(tail))
    requires (r.lo == q.lo) != (r.hi == q.hi)
    ensures Words(Ends(front + [r] + tail)) && Words(Ends(front + [q] + tail))
    ensures Hash(OFFSET, Stream(Ends(front + [r] + tail))) != Hash(OFFSET, Stream(Ends(front + [q] + tail)))
  {
    EndsAround(front, r, tail); EndsAround(front, q, tail);
    var f, t := Ends(front), Ends(tail);
    assert r.lo == [r.lo, r.hi, q.lo, q.hi][0] && r.hi == [r.lo, r.hi, q.lo, q.hi][1];
    assert q.lo == [r.lo, r.hi, q.lo, q.hi][2] && q.hi == [r.lo, r.hi, q.lo, q.hi][3];
    if r.lo == q.lo {
      SecondOfPairChanged(f, r.lo, r.hi, q.hi, t);
    } else {
      FirstOfPairChanged(f, r.lo, q.lo, r.hi, t);
    }
  }

  lemma SecondOfPairChanged(f: seq<nat>, lo: Word32, hi: Word32, other: Word32, t: seq<nat>)
    requires Words(f) && Words(t) && hi != other
    ensures Words(f + [lo, hi] + t) && Words(f + [lo, other] + t)
    ensures Hash(OFFSET, Stream(f + [lo, hi] + t)) != Hash(OFFSET, Stream(f + [lo, other] + t))
  {
    assert f + [lo, hi] + t == (f + [lo]) + [hi] + t;
    assert f + [lo, other] + t == (f + [lo]) + [other] + t;
    OneWordChanged(f + [lo], hi, other, t);
  }

  lemma FirstOfPairChanged(f: seq<nat>, lo: Word32, other: Word32, hi: Word32, t: seq<nat>)
    requires Words(f) && Words(t) && lo != other
    ensures Words(f + [lo, hi] + t) && Words(f + [other, hi] + t)
    ensures Hash(OFFSET, Stream(f + [lo, hi] + t)) != Hash(OFFSET, Stream(f + [other, hi] + t))
  {
    assert f + [lo, hi] + t == f + [lo] + ([hi] + t);
    assert f + [other, hi] + t == f + [other] + ([hi] + t);
    OneWordChanged(f, lo, other, [hi] + t);
  }

  /** The published test vectors of 64-bit FNV-1a for no byte and for the letter a. */
  lemma KnownVectors()
    ensures OFFSET == 0xcbf2_9ce4_8422_2325 && Hash(OFFSET, []) == 0xcbf2_9ce4_8422_2325
    ensures Hash(OFFSET, [0x61]) == 0xaf63_dc4c_8601_ec8c
  {
    FirstStep();
    assert [0x61][1..] == [];
  }

  lemma FirstStep()
    ensures Step(0xcbf2_9ce4_8422_2325, 0x61) == 0xaf63_dc4c_8601_ec8c
  {
    FirstMix();
  }

  lemma FirstMix()
    ensures Mix(0xcbf2_9ce4_8422_2325, 0x61) == 0xcbf2_9ce4_8422_2344
  {
    var h: Hash64 := 0xcbf2_9ce4_8422_2325;
    assert h % 256 == 0x25;
    XorOf25And61();
  }

  lemma XorOf25And61()
    ensures Xor(0x25, 0x61, 8) == 0x44
  {
    assert Xor(0, 0, 1) == 0;
    assert Xor(0, 1, 2) == 1;
    assert Xor(1, 3, 3) == 2;
    assert Xor(2, 6, 4) == 4;
    assert Xor(4, 12, 5) == 8;
    assert Xor(9, 24, 6) == 17;
    assert Xor(18, 48, 7) == 34;
  }
}
