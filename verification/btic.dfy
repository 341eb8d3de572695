/**
 Temporal intervals packed into 24 bytes: the canonical form decodes to what was encoded and
 nothing else, and comparing bytes compares intervals. The operations on intervals combine
 each bound together with the granularity and certainty recorded for it.
 */
module Btic {
  import opened Basics
  import opened Bytes

  const NEG_INF: int := -0x8000_0000_0000_0000
  const POS_INF: int := 0x7fff_ffff_ffff_ffff
  const HALF: int := 0x8000_0000_0000_0000
  const FULL: int := 0x1_0000_0000_0000_0000

  /** A half-open interval with its packed metadata word. */
  datatype Interval = Interval(lo: int, hi: int, meta: int)

  /** The widths of the fields: two `i64` and a `u64`. */
  predicate Machine(b: Interval) {
    NEG_INF <= b.lo <= POS_INF && NEG_INF <= b.hi <= POS_INF && 0 <= b.meta < FULL
  }

  // ---- the metadata word

  function LoGran(m: int): int { m / 0x1000_0000_0000_0000 % 16 }
  function HiGran(m: int): int { m / 0x100_0000_0000_0000 % 16 }
  function LoCert(m: int): int { m / 0x40_0000_0000_0000 % 4 }
  function HiCert(m: int): int { m / 0x10_0000_0000_0000 % 4 }
  function Version(m: int): int { m / 0x1_0000_0000_0000 % 16 }
  function Flags(m: int): int { m / 0x1_0000_0000 % 0x1_0000 }
  function Reserved(m: int): int { m % 0x1_0000_0000 }

  function BuildMeta(loGran: int, hiGran: int, loCert: int, hiCert: int): int {
    loGran * 0x1000_0000_0000_0000 + hiGran * 0x100_0000_0000_0000 + loCert * 0x40_0000_0000_0000 + hiCert * 0x10_0000_0000_0000
  }

  predicate Codes(loGran: int, hiGran: int, loCert: int, hiCert: int) {
    0 <= loGran <= 10 && 0 <= hiGran <= 10 && 0 <= loCert < 4 && 0 <= hiCert < 4
  }

  lemma Quotient(q: int, r: int, d: int)
    requires d > 0 && 0 <= r < d
    ensures (q * d + r) / d == q && (q * d + r) % d == r
  {
    var x := q * d + r;
    var k := q - x / d;
    assert k * d == x % d - r;
    assert k > 0 ==> k * d >= d;
    assert k < 0 ==> k * d <= -d;
  }

  lemma MetaParts(lg: int, hg: int, lc: int, hc: int)
    requires Codes(lg, hg, lc, hc)
    ensures var m := BuildMeta(lg, hg, lc, hc);
      && 0 <= m < FULL && LoGran(m) == lg && HiGran(m) == hg && LoCert(m) == lc && HiCert(m) == hc
      && Version(m) == 0 && Flags(m) == 0 && Reserved(m) == 0
  {
    var all := lg * 0x100 + hg * 0x10 + lc * 4 + hc;
    Quotient(lg, hg * 0x100_0000_0000_0000 + lc * 0x40_0000_0000_0000 + hc * 0x10_0000_0000_0000, 0x1000_0000_0000_0000);
    Quotient(lg * 16 + hg, lc * 0x40_0000_0000_0000 + hc * 0x10_0000_0000_0000, 0x100_0000_0000_0000);
    Quotient(lg * 64 + hg * 4 + lc, hc * 0x10_0000_0000_0000, 0x40_0000_0000_0000);
    Quotient(all, 0, 0x10_0000_0000_0000);
    Quotient(all * 16, 0, 0x1_0000_0000_0000);
    Quotient(all * 0x10_0000, 0, 0x1_0000_0000);
    Quotient(lg, hg, 16);
    Quotient(lg * 16 + hg, lc, 4);
    Quotient(lg * 64 + hg * 4 + lc, hc, 4);
    Quotient(all, 0, 16);
    Quotient(all * 16, 0, 0x1_0000);
  }

  lemma MetaFromParts(m: int)
    requires 0 <= m < FULL && Version(m) == 0 && Flags(m) == 0 && Reserved(m) == 0
    ensures m == BuildMeta(LoGran(m), HiGran(m), LoCert(m), HiCert(m))
  {
    var a := m / 0x1_0000_0000;
    assert m == a * 0x1_0000_0000;
    var b := a / 0x1_0000;
    assert a == b * 0x1_0000;
    Quotient(b, 0, 0x1_0000_0000_0000);
    var c := b / 16;
    assert b == c * 16;
    UpperParts(m, c);
  }

  lemma UpperParts(m: int, c: int)
    requires m == c * 0x10_0000_0000_0000 && 0 <= c < 0x1000
    ensures m == BuildMeta(LoGran(m), HiGran(m), LoCert(m), HiCert(m))
  {
    var d, hc := c / 4, c % 4;
    var e, lc := d / 4, d % 4;
    var f, hg := e / 16, e % 16;
    Quotient(c, 0, 0x10_0000_0000_0000);
    Quotient(d, hc * 0x10_0000_0000_0000, 0x40_0000_0000_0000);
    Quotient(e, lc * 0x40_0000_0000_0000 + hc * 0x10_0000_0000_0000, 0x100_0000_0000_0000);
    Quotient(f, hg * 0x100_0000_0000_0000 + lc * 0x40_0000_0000_0000 + hc * 0x10_0000_0000_0000, 0x1000_0000_0000_0000);
  }

  datatype Error = BoundOrdering | GranularityRange(code: int) | ReservedBits | SentinelMetadata | InvalidLength

  function Validate(b: Interval): Option<Error> {
    if b.lo >= b.hi then Some(BoundOrdering)
    else if LoGran(b.meta) > 10 then Some(GranularityRange(LoGran(b.meta)))
    else if HiGran(b.meta) > 10 then Some(GranularityRange(HiGran(b.meta)))
    else if Version(b.meta) != 0 || Flags(b.meta) != 0 || Reserved(b.meta) != 0 then Some(ReservedBits)
    else if b.lo == NEG_INF && (LoGran(b.meta) != 0 || LoCert(b.meta) != 0) then Some(SentinelMetadata)
    else if b.hi == POS_INF && (HiGran(b.meta) != 0 || HiCert(b.meta) != 0) then Some(SentinelMetadata)
    else None
  }

  predicate Valid(b: Interval) { Machine(b) && Validate(b) == None }

  /** Version, flags and the reserved field are the low 52 bits. */
  lemma LowBitsAre(m: int)
    requires 0 <= m < FULL
    ensures Version(m) == 0 && Flags(m) == 0 && Reserved(m) == 0 <==> m % 0x10_0000_0000_0000 == 0
  {
    var a, r := m / 0x1_0000_0000, m % 0x1_0000_0000;
    var b, f := a / 0x1_0000, a % 0x1_0000;
    var c, v := b / 16, b % 16;
    assert m == c * 0x10_0000_0000_0000 + (v * 0x1_0000_0000_0000 + f * 0x1_0000_0000 + r);
    Quotient(c, v * 0x1_0000_0000_0000 + f * 0x1_0000_0000 + r, 0x10_0000_0000_0000);
    Quotient(b, f * 0x1_0000_0000 + r, 0x1_0000_0000_0000);
  }

  /**
   Which error is raised when: bounds out of order; else the first granularity code above ten;
   else any of the low 52 bits; else metadata on an infinite bound. The codes are the top bits.
   */
  lemma ErrorsAre(b: Interval)
    requires Machine(b)
    ensures var lg, hg, lc, hc := b.meta / 0x1000_0000_0000_0000, b.meta / 0x100_0000_0000_0000 % 16,
                                  b.meta / 0x40_0000_0000_0000 % 4, b.meta / 0x10_0000_0000_0000 % 4;
      Validate(b) ==
        if b.lo >= b.hi then Some(BoundOrdering)
        else if lg > 10 then Some(GranularityRange(lg))
        else if hg > 10 then Some(GranularityRange(hg))
        else if b.meta % 0x10_0000_0000_0000 != 0 then Some(ReservedBits)
        else if (b.lo == -0x8000_0000_0000_0000 && lg + lc > 0) || (b.hi == 0x7fff_ffff_ffff_ffff && hg + hc > 0) then Some(SentinelMetadata)
        else None
  {
    LowBitsAre(b.meta);
    assert 0 <= b.meta / 0x1000_0000_0000_0000 < 16;
  }

  function New(lo: int, hi: int, meta: int): Result<Interval, Error> {
    var b := Interval(lo, hi, meta);
    match Validate(b) case None => Ok(b) case Some(e) => Err(e)
  }

  // ---- big-endian words

  function Power(k: nat): nat { if k == 0 then 1 else 256 * Power(k - 1) }

  function BigEndian(n: nat, k: nat): seq<nat> {
    if k == 0 then [] else BigEndian(n / 256, k - 1) + [n % 256]
  }

  function Word(bs: seq<nat>): nat {
    if bs == [] then 0 else Word(bs[..|bs| - 1]) * 256 + bs[|bs| - 1]
  }

  predicate AreBytes(bs: seq<nat>) { forall i :: 0 <= i < |bs| ==> bs[i] < 256 }

  lemma {:induction false} BigEndianShape(n: nat, k: nat)
    ensures |BigEndian(n, k)| == k && AreBytes(BigEndian(n, k))
  {
    if k > 0 { BigEndianShape(n / 256, k - 1); }
  }

  lemma {:induction false} WordOfBigEndian(n: nat, k: nat)
    requires n < Power(k)
    ensures Word(BigEndian(n, k)) == n
  {
    if k > 0 {
      WordOfBigEndian(n / 256, k - 1);
      var bs := BigEndian(n, k);
      assert bs[..|bs| - 1] == BigEndian(n / 256, k - 1);
    }
  }

  lemma {:induction false} BigEndianOfWord(bs: seq<nat>)
    requires AreBytes(bs)
    ensures BigEndian(Word(bs), |bs|) == bs && Word(bs) < Power(|bs|)
  {
    if bs != [] {
      BigEndianOfWord(bs[..|bs| - 1]);
      assert Word(bs) / 256 == Word(bs[..|bs| - 1]) && Word(bs) % 256 == bs[|bs| - 1];
    }
  }

  lemma {:induction false} LessConcat(a: seq<nat>, b: seq<nat>, x: seq<nat>, y: seq<nat>)
    requires |a| == |b|
    ensures Less(a + x, b + y) <==> Less(a, b) || (a == b && Less(x, y))
  {
    if a == [] {
      assert a + x == x && b + y == y;
    } else {
      LessConcat(a[1..], b[1..], x, y);
      assert (a + x)[0] == a[0] && (a + x)[1..] == a[1..] + x;
      assert (b + y)[0] == b[0] && (b + y)[1..] == b[1..] + y;
      assert a == b <==> a[0] == b[0] && a[1..] == b[1..] by {
        assert a == [a[0]] + a[1..] && b == [b[0]] + b[1..];
      }
    }
  }

  /** Words of one width sort as their bytes do. */
  lemma {:induction false} BigEndianOrder(n: nat, m: nat, k: nat)
    requires n < Power(k) && m < Power(k)
    ensures Less(BigEndian(n, k), BigEndian(m, k)) <==> n < m
    ensures BigEndian(n, k) == BigEndian(m, k) <==> n == m
  {
    WordOfBigEndian(n, k); WordOfBigEndian(m, k);
    if k > 0 {
      BigEndianOrder(n / 256, m / 256, k - 1);
      BigEndianShape(n / 256, k - 1); BigEndianShape(m / 256, k - 1);
      LessConcat(BigEndian(n / 256, k - 1), BigEndian(m / 256, k - 1), [n % 256], [m % 256]);
      LessOne(n % 256, m % 256);
    }
  }

  lemma {:induction false} AllZeros(k: nat)
    ensures BigEndian(0, k) == seq(k, _ => 0)
  {
    if k > 0 { AllZeros(k - 1); }
  }

  lemma {:induction false} AllOnes(k: nat)
    ensures Power(k) > 0 && BigEndian(Power(k) - 1, k) == seq(k, _ => 255)
  {
    if k > 0 {
      AllOnes(k - 1);
      assert Power(k) - 1 == (Power(k - 1) - 1) * 256 + 255;
      Quotient(Power(k - 1) - 1, 255, 256);
    }
  }

  lemma LessOne(x: nat, y: nat)
    ensures Less([x], [y]) <==> x < y
  {
    assert [x][1..] == [] && [y][1..] == [];
  }

  // ---- the packed form

  function AsU64(x: int): nat
    requires NEG_INF <= x <= POS_INF
  {
    if x < 0 then x + FULL else x
  }

  function AsI64(u: nat): int
    requires u < FULL
  {
    if u < HALF then u else u - FULL
  }

  /** Exclusive or with the sign bit. */
  function FlipSign(u: nat): nat
    requires u < FULL
  {
    if u < HALF then u + HALF else u - HALF
  }

  function Encode(b: Interval): seq<nat>
    requires Machine(b)
  {
    BigEndian(FlipSign(AsU64(b.lo)), 8) + BigEndian(FlipSign(AsU64(b.hi)), 8) + BigEndian(b.meta, 8)
  }

  lemma Extremes()
    ensures BigEndian(0, 8) == [0, 0, 0, 0, 0, 0, 0, 0]
    ensures BigEndian(0xffff_ffff_ffff_ffff, 8) == [255, 255, 255, 255, 255, 255, 255, 255]
  {
    EightBytes();
    AllZeros(8);
    AllOnes(8);
  }

  /** All of time is valid and packs into zeros, ones and zeros. */
  lemma AllTime()
    ensures var b := Interval(-0x8000_0000_0000_0000, 0x7fff_ffff_ffff_ffff, 0);
      && Valid(b)
      && Encode(b) == [0, 0, 0, 0, 0, 0, 0, 0] + [255, 255, 255, 255, 255, 255, 255, 255] + [0, 0, 0, 0, 0, 0, 0, 0]
  {
    Extremes();
    assert FlipSign(AsU64(-0x8000_0000_0000_0000)) == 0;
    assert FlipSign(AsU64(0x7fff_ffff_ffff_ffff)) == 0xffff_ffff_ffff_ffff;
  }

  function DecodeSlice(bs: seq<nat>): Result<Interval, Error>
    requires AreBytes(bs)
  {
    if |bs| != 24 then Err(InvalidLength)
    else
      WordFits(bs[0..8]); WordFits(bs[8..16]); WordFits(bs[16..24]);
      New(AsI64(FlipSign(Word(bs[0..8]))), AsI64(FlipSign(Word(bs[8..16]))), Word(bs[16..24]))
  }

  lemma EightBytes()
    ensures Power(8) == FULL
  {
    assert Power(4) == 0x1_0000_0000;
  }

  lemma WordFits(bs: seq<nat>)
    requires AreBytes(bs) && |bs| == 8
    ensures Word(bs) < FULL
  {
    EightBytes();
    BigEndianOfWord(bs);
  }

  lemma EncodeShape(b: Interval)
    requires Machine(b)
    ensures |Encode(b)| == 24 && AreBytes(Encode(b))
    ensures Encode(b)[0..8] == BigEndian(FlipSign(AsU64(b.lo)), 8)
    ensures Encode(b)[8..16] == BigEndian(FlipSign(AsU64(b.hi)), 8)
    ensures Encode(b)[16..24] == BigEndian(b.meta, 8)
  {
    BigEndianShape(FlipSign(AsU64(b.lo)), 8);
    BigEndianShape(FlipSign(AsU64(b.hi)), 8);
    BigEndianShape(b.meta, 8);
  }

  /** Decoding an encoded value gives it back, or the very error that building it would give. */
  lemma DecodeOfEncode(b: Interval)
    requires Machine(b)
    ensures AreBytes(Encode(b)) && DecodeSlice(Encode(b)) == New(b.lo, b.hi, b.meta)
  {
    EncodeShape(b);
    EightBytes();
    WordOfBigEndian(FlipSign(AsU64(b.lo)), 8);
    WordOfBigEndian(FlipSign(AsU64(b.hi)), 8);
    WordOfBigEndian(b.meta, 8);
  }

  /** What decodes was the canonical form of its value: no two byte strings stand for one interval. */
  lemma EncodeOfDecode(bs: seq<nat>)
    requires AreBytes(bs) && DecodeSlice(bs).Ok?
    ensures Valid(DecodeSlice(bs).value) && Encode(DecodeSlice(bs).value) == bs
  {
    SignedWord(bs[0..8]); SignedWord(bs[8..16]);
    PlainWord(bs[16..24]);
    ThreeParts(bs);
  }

  lemma ThreeParts(bs: seq<nat>)
    requires |bs| == 24
    ensures bs == bs[0..8] + bs[8..16] + bs[16..24]
  {
  }

  lemma PlainWord(bs: seq<nat>)
    requires AreBytes(bs) && |bs| == 8
    ensures Word(bs) < FULL && BigEndian(Word(bs), 8) == bs
  {
    WordFits(bs);
    BigEndianOfWord(bs);
  }

  lemma SignedWord(bs: seq<nat>)
    requires AreBytes(bs) && |bs| == 8
    ensures Word(bs) < FULL && NEG_INF <= AsI64(FlipSign(Word(bs))) <= POS_INF
    ensures BigEndian(FlipSign(AsU64(AsI64(FlipSign(Word(bs))))), 8) == bs
  {
    WordFits(bs);
    BigEndianOfWord(bs);
  }

  /** Lower bound, then upper bound, then metadata. */
  predicate Before(a: Interval, b: Interval) {
    a.lo < b.lo || (a.lo == b.lo && (a.hi < b.hi || (a.hi == b.hi && a.meta < b.meta)))
  }

  lemma SignedWordOrder(x: int, y: int)
    requires NEG_INF <= x <= POS_INF && NEG_INF <= y <= POS_INF
    ensures Less(BigEndian(FlipSign(AsU64(x)), 8), BigEndian(FlipSign(AsU64(y)), 8)) <==> x < y
    ensures BigEndian(FlipSign(AsU64(x)), 8) == BigEndian(FlipSign(AsU64(y)), 8) <==> x == y
  {
    EightBytes();
    BigEndianOrder(FlipSign(AsU64(x)), FlipSign(AsU64(y)), 8);
  }

  /** Comparing packed bytes is comparing intervals. */
  lemma BytesCompareAsIntervals(a: Interval, b: Interval)
    requires Machine(a) && Machine(b)
    ensures Less(Encode(a), Encode(b)) <==> Before(a, b)
    ensures Encode(a) == Encode(b) <==> a == b
  {
    SignedWordOrder(a.lo, b.lo);
    SignedWordOrder(a.hi, b.hi);
    EightBytes();
    BigEndianOrder(a.meta, b.meta, 8);
    EncodeShape(a); EncodeShape(b);
    ThreeWords(BigEndian(FlipSign(AsU64(a.lo)), 8), BigEndian(FlipSign(AsU64(a.hi)), 8), BigEndian(a.meta, 8),
               BigEndian(FlipSign(AsU64(b.lo)), 8), BigEndian(FlipSign(AsU64(b.hi)), 8), BigEndian(b.meta, 8));
  }

  lemma ThreeWords(a1: seq<nat>, a2: seq<nat>, a3: seq<nat>, b1: seq<nat>, b2: seq<nat>, b3: seq<nat>)
    requires |a1| == |b1| && |a2| == |b2| && |a3| == |b3|
    ensures Less(a1 + a2 + a3, b1 + b2 + b3) <==> Less(a1, b1) || (a1 == b1 && (Less(a2, b2) || (a2 == b2 && Less(a3, b3))))
  {
    LessConcat(a1, b1, a2, b2);
    LessConcat(a1 + a2, b1 + b2, a3, b3);
    if a1 + a2 == b1 + b2 {
      assert a1 == (a1 + a2)[..|a1|] == (b1 + b2)[..|a1|] == b1;
      assert a2 == (a1 + a2)[|a1|..] == (b1 + b2)[|a1|..] == b2;
      LessIsIrreflexive(b1);
      LessIsIrreflexive(b2);
    }
  }

  lemma {:induction false} LessIsIrreflexive(a: seq<nat>)
    ensures !Less(a, a)
  {
    if Less(a, a) { LessIsAsymmetric(a, a); }
  }

  // ---- operations on intervals

  /** A bound with what is recorded about it. */
  datatype Bound = Bound(value: int, gran: int, cert: int)

  function LoOf(b: Interval): Bound { Bound(b.lo, LoGran(b.meta), LoCert(b.meta)) }

  function HiOf(b: Interval): Bound { Bound(b.hi, HiGran(b.meta), HiCert(b.meta)) }

  /** The greater (or the lesser) bound; of two equal ones the finer granularity and the lesser certainty. */
  function Pick(a: Bound, b: Bound, greater: bool): Bound {
    if a.value == b.value then Bound(a.value, if a.gran < b.gran then a.gran else b.gran, if a.cert > b.cert then a.cert else b.cert)
    else if (a.value > b.value) == greater then a
    else b
  }

  /** The metadata of an infinite bound is cleared. */
  function Cleared(b: Bound, infinity: int): Bound {
    if b.value == infinity then Bound(infinity, 0, 0) else b
  }

  function Make(lo: Bound, hi: Bound): Result<Interval, Error> {
    var l, h := Cleared(lo, NEG_INF), Cleared(hi, POS_INF);
    New(l.value, h.value, BuildMeta(l.gran, h.gran, l.cert, h.cert))
  }

  function Intersection(a: Interval, b: Interval): Option<Interval> {
    var lo, hi := Pick(LoOf(a), LoOf(b), true), Pick(HiOf(a), HiOf(b), false);
    if lo.value >= hi.value then None
    else match Make(lo, hi) case Ok(r) => Some(r) case Err(_) => None
  }

  /** `None` stands for the panic that the caller promises cannot happen. */
  function Span(a: Interval, b: Interval): Option<Interval> {
    match Make(Pick(LoOf(a), LoOf(b), false), Pick(HiOf(a), HiOf(b), true)) case Ok(r) => Some(r) case Err(_) => None
  }

  function Gap(a: Interval, b: Interval): Option<Interval> {
    var lo, hi := Pick(HiOf(a), HiOf(b), false), Pick(LoOf(a), LoOf(b), true);
    if lo.value >= hi.value then None
    else match Make(lo, hi) case Ok(r) => Some(r) case Err(_) => None
  }

  predicate GoodBound(b: Bound, infinity: int) {
    NEG_INF <= b.value <= POS_INF && 0 <= b.gran <= 10 && 0 <= b.cert < 4 && (b.value == infinity ==> b.gran == 0 && b.cert == 0)
  }

  lemma BoundsAreGood(b: Interval)
    requires Valid(b)
    ensures GoodBound(LoOf(b), NEG_INF) && GoodBound(HiOf(b), POS_INF)
  {
    var lg, hg, lc, hc := LoGran(b.meta), HiGran(b.meta), LoCert(b.meta), HiCert(b.meta);
    assert 0 <= lg <= 10 && 0 <= hg <= 10 && 0 <= lc < 4 && 0 <= hc < 4;
  }

  lemma ClearedIsSame(b: Bound, infinity: int)
    requires GoodBound(b, infinity)
    ensures Cleared(b, infinity) == b
  {
  }

  /** A valid interval is its two bounds and nothing more. */
  lemma ValidIsTwoBounds(b: Interval)
    requires Valid(b)
    ensures GoodBound(LoOf(b), NEG_INF) && GoodBound(HiOf(b), POS_INF) && Make(LoOf(b), HiOf(b)) == Ok(b)
  {
    BoundsAreGood(b);
    ClearedIsSame(LoOf(b), NEG_INF);
    ClearedIsSame(HiOf(b), POS_INF);
    MetaFromParts(b.meta);
    assert Make(LoOf(b), HiOf(b)) == New(b.lo, b.hi, b.meta);
  }

  lemma ValidFromParts(b: Interval, lo: Bound, hi: Bound)
    requires GoodBound(lo, NEG_INF) && GoodBound(hi, POS_INF) && lo.value < hi.value && b.lo == lo.value && b.hi == hi.value
    requires 0 <= b.meta < FULL && Version(b.meta) == 0 && Flags(b.meta) == 0 && Reserved(b.meta) == 0
    requires LoGran(b.meta) == lo.gran && LoCert(b.meta) == lo.cert && HiGran(b.meta) == hi.gran && HiCert(b.meta) == hi.cert
    ensures Valid(b) && LoOf(b) == lo && HiOf(b) == hi
  {
  }

  /** Two good bounds in order make a valid interval with exactly those bounds. */
  lemma MakeKeepsBounds(lo: Bound, hi: Bound)
    requires GoodBound(lo, NEG_INF) && GoodBound(hi, POS_INF) && lo.value < hi.value
    ensures Make(lo, hi).Ok? && Valid(Make(lo, hi).value)
    ensures LoOf(Make(lo, hi).value) == lo && HiOf(Make(lo, hi).value) == hi
  {
    var b := Interval(lo.value, hi.value, BuildMeta(lo.gran, hi.gran, lo.cert, hi.cert));
    MetaParts(lo.gran, hi.gran, lo.cert, hi.cert);
    ValidFromParts(b, lo, hi);
    ClearedIsSame(lo, NEG_INF);
    ClearedIsSame(hi, POS_INF);
    assert Make(lo, hi) == New(b.lo, b.hi, b.meta);
  }

  lemma PickIsGood(a: Bound, b: Bound, greater: bool, infinity: int)
    requires GoodBound(a, infinity) && GoodBound(b, infinity)
    ensures GoodBound(Pick(a, b, greater), infinity)
  {
  }

  /** The span always exists, and its bounds are the outer ones of the two. */
  lemma SpanBounds(a: Interval, b: Interval)
    requires Valid(a) && Valid(b)
    ensures Span(a, b).Some? && Valid(Span(a, b).value)
    ensures LoOf(Span(a, b).value) == Pick(LoOf(a), LoOf(b), false) && HiOf(Span(a, b).value) == Pick(HiOf(a), HiOf(b), true)
  {
    ValidIsTwoBounds(a); ValidIsTwoBounds(b);
    PickIsGood(LoOf(a), LoOf(b), false, NEG_INF);
    PickIsGood(HiOf(a), HiOf(b), true, POS_INF);
    MakeKeepsBounds(Pick(LoOf(a), LoOf(b), false), Pick(HiOf(a), HiOf(b), true));
  }

  /** The intersection exists exactly when the intervals overlap; its bounds are the inner ones. */
  lemma IntersectionBounds(a: Interval, b: Interval)
    requires Valid(a) && Valid(b)
    ensures Intersection(a, b).Some? <==> a.lo < b.hi && b.lo < a.hi
    ensures Intersection(a, b).Some? ==>
      && Valid(Intersection(a, b).value)
      && LoOf(Intersection(a, b).value) == Pick(LoOf(a), LoOf(b), true)
      && HiOf(Intersection(a, b).value) == Pick(HiOf(a), HiOf(b), false)
  {
    ValidIsTwoBounds(a); ValidIsTwoBounds(b);
    var lo, hi := Pick(LoOf(a), LoOf(b), true), Pick(HiOf(a), HiOf(b), false);
    PickIsGood(LoOf(a), LoOf(b), true, NEG_INF);
    PickIsGood(HiOf(a), HiOf(b), false, POS_INF);
    if lo.value < hi.value { MakeKeepsBounds(lo, hi); }
  }

  /** The gap exists exactly when the intervals neither overlap nor touch. */
  lemma GapBounds(a: Interval, b: Interval)
    requires Valid(a) && Valid(b)
    ensures Gap(a, b).Some? <==> a.hi < b.lo || b.hi < a.lo
    ensures Gap(a, b).Some? ==>
      && Valid(Gap(a, b).value)
      && LoOf(Gap(a, b).value) == Pick(HiOf(a), HiOf(b), false)
      && HiOf(Gap(a, b).value) == Pick(LoOf(a), LoOf(b), true)
  {
    ValidIsTwoBounds(a); ValidIsTwoBounds(b);
    var lo, hi := Pick(HiOf(a), HiOf(b), false), Pick(LoOf(a), LoOf(b), true);
    if lo.value < hi.value {
      PickIsGood(HiOf(a), HiOf(b), false, POS_INF);
      PickIsGood(LoOf(a), LoOf(b), true, NEG_INF);
      assert lo.value != POS_INF && lo.value != NEG_INF && hi.value != POS_INF;
      MakeKeepsBounds(lo, hi);
    }
  }

  lemma SameBounds(a: Interval, b: Interval)
    requires Valid(a) && Valid(b) && LoOf(a) == LoOf(b) && HiOf(a) == HiOf(b)
    ensures a == b
  {
    ValidIsTwoBounds(a); ValidIsTwoBounds(b);
  }

  predicate Holds(b: Interval, t: int) { b.lo <= t < b.hi }

  /** Two intervals, their gap and their intersection account for the span, tick by tick. */
  lemma SpanIsUnionAndGap(a: Interval, b: Interval, t: int)
    requires Valid(a) && Valid(b)
    ensures Span(a, b).Some?
    ensures Holds(Span(a, b).value, t) <==> Holds(a, t) || Holds(b, t) || (Gap(a, b).Some? && Holds(Gap(a, b).value, t))
    ensures Gap(a, b).Some? && Holds(Gap(a, b).value, t) ==> !Holds(a, t) && !Holds(b, t)
    ensures Intersection(a, b).Some? && Holds(Intersection(a, b).value, t) <==> Holds(a, t) && Holds(b, t)
  {
    SpanBounds(a, b); GapBounds(a, b); IntersectionBounds(a, b);
    var span := Span(a, b).value;
    assert span.lo == LoOf(span).value && span.hi == HiOf(span).value;
    if Gap(a, b).Some? {
      var gap := Gap(a, b).value;
      assert gap.lo == LoOf(gap).value && gap.hi == HiOf(gap).value;
    }
    if Intersection(a, b).Some? {
      var both := Intersection(a, b).value;
      assert both.lo == LoOf(both).value && both.hi == HiOf(both).value;
    }
  }

  /** Combining bounds is commutative, associative and idempotent, metadata included. */
  lemma PickLaws(a: Bound, b: Bound, c: Bound, greater: bool)
    ensures Pick(a, b, greater) == Pick(b, a, greater)
    ensures Pick(Pick(a, b, greater), c, greater) == Pick(a, Pick(b, c, greater), greater)
    ensures Pick(a, a, greater) == a
  {
  }

  lemma SpanLaws(a: Interval, b: Interval, c: Interval)
    requires Valid(a) && Valid(b) && Valid(c)
    ensures Span(a, b) == Span(b, a) && Span(a, a) == Some(a)
    ensures Span(a, b).Some? && Span(b, c).Some? && Span(Span(a, b).value, c) == Span(a, Span(b, c).value)
  {
    PickLaws(LoOf(a), LoOf(b), LoOf(c), false);
    PickLaws(HiOf(a), HiOf(b), HiOf(c), true);
    SpanBounds(a, b); SpanBounds(b, c); SpanBounds(a, a);
    SameBounds(Span(a, a).value, a);
    SpanBounds(Span(a, b).value, c); SpanBounds(a, Span(b, c).value);
    SameBounds(Span(Span(a, b).value, c).value, Span(a, Span(b, c).value).value);
  }

  function Meet(a: Option<Interval>, b: Option<Interval>): Option<Interval> {
    if a == None || b == None then None else Intersection(a.value, b.value)
  }

  lemma IntersectionLaws(a: Interval, b: Interval, c: Interval)
    requires Valid(a) && Valid(b) && Valid(c)
    ensures Intersection(a, b) == Intersection(b, a) && Intersection(a, a) == Some(a)
    ensures Meet(Intersection(a, b), Some(c)) == Meet(Some(a), Intersection(b, c))
  {
    PickLaws(LoOf(a), LoOf(b), LoOf(c), true);
    PickLaws(HiOf(a), HiOf(b), HiOf(c), false);
    IntersectionBounds(a, b); IntersectionBounds(b, c); IntersectionBounds(a, a);
    SameBounds(Intersection(a, a).value, a);
    MeetAssociates(a, b, c);
  }

  lemma MeetAssociates(a: Interval, b: Interval, c: Interval)
    requires Valid(a) && Valid(b) && Valid(c)
    ensures Meet(Intersection(a, b), Some(c)) == Meet(Some(a), Intersection(b, c))
  {
    IntersectionBounds(a, b); IntersectionBounds(b, c);
    PickLaws(LoOf(a), LoOf(b), LoOf(c), true);
    PickLaws(HiOf(a), HiOf(b), HiOf(c), false);
    var left, right := Intersection(a, b), Intersection(b, c);
    if left.Some? { IntersectionBounds(left.value, c); MeetValue(a, b); }
    if right.Some? { IntersectionBounds(a, right.value); MeetValue(b, c); }
    if Meet(left, Some(c)).Some? && Meet(Some(a), right).Some? {
      SameBounds(Meet(left, Some(c)).value, Meet(Some(a), right).value);
    }
  }

  lemma MeetValue(a: Interval, b: Interval)
    requires Valid(a) && Valid(b) && Intersection(a, b).Some?
    ensures var r := Intersection(a, b).value;
      r.lo == (if a.lo > b.lo then a.lo else b.lo) && r.hi == (if a.hi < b.hi then a.hi else b.hi)
  {
    IntersectionBounds(a, b);
    var r := Intersection(a, b).value;
    assert r.lo == LoOf(r).value && r.hi == HiOf(r).value;
  }

  /**
   Absorption is not a law: an equal bound keeps the merged metadata. It holds exactly when,
   on each side where the bounds coincide, the other interval is no finer and no less certain.
   */
  lemma AbsorptionExactly(a: Interval, b: Interval)
    requires Valid(a) && Valid(b)
    ensures Span(a, b).Some?
    ensures Intersection(a, Span(a, b).value) == Some(a) <==>
      && (a.lo == b.lo ==> LoGran(a.meta) <= LoGran(b.meta) && LoCert(a.meta) >= LoCert(b.meta))
      && (a.hi == b.hi ==> HiGran(a.meta) <= HiGran(b.meta) && HiCert(a.meta) >= HiCert(b.meta))
  {
    SpanBounds(a, b);
    var span := Span(a, b).value;
    assert span.lo == LoOf(span).value && span.hi == HiOf(span).value;
    IntersectionBounds(a, span);
    var r := Intersection(a, span).value;
    if LoOf(r) == LoOf(a) && HiOf(r) == HiOf(a) { SameBounds(r, a); }
  }
}
