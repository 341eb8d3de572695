/**
 The escaped, tab-separated lines of the regex oracle: `esc` and the line printing of
 `gen_cases.py`, and `unescape`, `escape` and the line reading of `JavaRegexOracle.java`.
 Text is a sequence of code points in Python and of UTF-16 units in Java.
 */
module EscapeCodec {
  import opened Basics

  type Text = seq<nat>

  const TAB: nat := 9
  const LF: nat := 10
  const CR: nat := 13
  const HASH: nat := 0x23
  const BACKSLASH: nat := 0x5C
  const OPEN: nat := 0x7B
  const CLOSE: nat := 0x7D

  // ---- UTF-16 (sections 2.1 and 2.2 of RFC 2781)

  predicate High(u: nat) { 0xD800 <= u <= 0xDBFF }
  predicate Low(u: nat) { 0xDC00 <= u <= 0xDFFF }
  predicate CodePoint(c: nat) { c <= 0x10FFFF }
  predicate Scalar(c: nat) { CodePoint(c) && !High(c) && !Low(c) }
  predicate Unit(u: nat) { u < 0x10000 }

  /** What appending one code point adds; a lone surrogate stays one unit. */
  function Units(c: nat): Text {
    if c < 0x10000 then [c] else [0xD800 + (c - 0x10000) / 0x400, 0xDC00 + (c - 0x10000) % 0x400]
  }

  function Utf16(s: Text): Text { if s == [] then [] else Units(s[0]) + Utf16(s[1..]) }

  /** Surrogate pairs combine, every other unit stands for itself. */
  function CodePoints(s: Text): Text
    requires forall i :: 0 <= i < |s| ==> Unit(s[i])
  {
    if s == [] then []
    else if |s| >= 2 && High(s[0]) && Low(s[1]) then
      [0x10000 + (s[0] - 0xD800) * 0x400 + (s[1] - 0xDC00)] + CodePoints(s[2..])
    else [s[0]] + CodePoints(s[1..])
  }

  lemma {:induction false} UnitsOfCodePoints(s: Text)
    requires forall i :: 0 <= i < |s| ==> Unit(s[i])
    ensures forall i :: 0 <= i < |CodePoints(s)| ==> CodePoint(CodePoints(s)[i])
    ensures Utf16(CodePoints(s)) == s
  {
    if s != [] {
      var k := if |s| >= 2 && High(s[0]) && Low(s[1]) then 2 else 1;
      UnitsOfCodePoints(s[k..]);
      var cps := CodePoints(s);
      assert cps[1..] == CodePoints(s[k..]);
      assert s == s[..k] + s[k..];
      assert Units(cps[0]) == s[..k];
    }
  }

  lemma UnitsAreUnits(c: nat)
    requires CodePoint(c)
    ensures forall i :: 0 <= i < |Units(c)| ==> Unit(Units(c)[i])
  {
  }

  /** Unicode text survives the trip through UTF-16. */
  lemma {:induction false} CodePointsOfUnits(s: Text)
    requires forall i :: 0 <= i < |s| ==> Scalar(s[i])
    ensures forall i :: 0 <= i < |Utf16(s)| ==> Unit(Utf16(s)[i])
    ensures CodePoints(Utf16(s)) == s
    ensures s != [] ==> Utf16(s) != [] && !Low(Utf16(s)[0])
  {
    if s != [] {
      CodePointsOfUnits(s[1..]);
      UnitsAreUnits(s[0]);
      var head, rest := Units(s[0]), Utf16(s[1..]);
      assert (head + rest)[|head|..] == rest;
      assert s == [s[0]] + s[1..];
    }
  }

  // ---- hexadecimal

  function HexDigit(d: nat, upper: bool): nat
    requires d < 16
  {
    if d < 10 then 0x30 + d else (if upper then 0x41 else 0x61) + d - 10
  }

  function Hex(n: nat, upper: bool): Text {
    if n < 16 then [HexDigit(n, upper)] else Hex(n / 16, upper) + [HexDigit(n % 16, upper)]
  }

  function DigitValue(c: nat): Option<nat> {
    if 0x30 <= c <= 0x39 then Some(c - 0x30)
    else if 0x41 <= c <= 0x46 then Some(c - 0x41 + 10)
    else if 0x61 <= c <= 0x66 then Some(c - 0x61 + 10)
    else None
  }

  function HexValue(s: Text): Option<nat> {
    if s == [] then Some(0)
    else match (HexValue(s[..|s| - 1]), DigitValue(s[|s| - 1]))
      case (Some(v), Some(d)) => Some(16 * v + d)
      case _ => None
  }

  /** Signs are accepted; no digits at all is an error, and so is a value below zero. */
  function ParseHex(s: Text): Option<nat> {
    if s == [] then None
    else if s[0] == 0x2B then (if |s| == 1 then None else HexValue(s[1..]))
    else if s[0] == 0x2D then (if |s| > 1 && HexValue(s[1..]) == Some(0) then Some(0) else None)
    else HexValue(s)
  }

  lemma {:induction false} HexIsPlain(n: nat, upper: bool)
    ensures Hex(n, upper) != []
    ensures forall i :: 0 <= i < |Hex(n, upper)| ==>
      0x30 <= Hex(n, upper)[i] <= 0x39 || 0x41 <= Hex(n, upper)[i] <= 0x46 || 0x61 <= Hex(n, upper)[i] <= 0x66
    ensures HexValue(Hex(n, upper)) == Some(n)
  {
    if n < 16 {
      assert Hex(n, upper)[..0] == [];
    } else {
      HexIsPlain(n / 16, upper);
      var h := Hex(n, upper);
      assert h[..|h| - 1] == Hex(n / 16, upper);
    }
  }

  lemma ParseInvertsHex(n: nat, upper: bool)
    ensures ParseHex(Hex(n, upper)) == Some(n)
  {
    HexIsPlain(n, upper);
  }

  /** A plus sign changes nothing, a minus sign leaves only zero, and a sign alone is no number. */
  lemma SignedHex(n: nat, upper: bool)
    ensures ParseHex([0x2B] + Hex(n, upper)) == Some(n)
    ensures ParseHex([0x2D] + Hex(n, upper)) == if n == 0 then Some(0) else None
    ensures ParseHex([]) == None && ParseHex([0x2B]) == None && ParseHex([0x2D]) == None
  {
    HexIsPlain(n, upper);
    assert ([0x2B] + Hex(n, upper))[1..] == Hex(n, upper) && ([0x2D] + Hex(n, upper))[1..] == Hex(n, upper);
  }

  /** Anything but a digit of either case makes the number unreadable. */
  lemma {:induction false} BadDigit(s: Text, i: nat)
    requires i < |s| && !(0x30 <= s[i] <= 0x39) && !(0x41 <= s[i] <= 0x46) && !(0x61 <= s[i] <= 0x66)
    ensures HexValue(s) == None
  {
    if i < |s| - 1 {
      assert s[..|s| - 1][i] == s[i];
      BadDigit(s[..|s| - 1], i);
    }
  }

  // ---- escaping

  predicate Plain(c: nat) { 0x20 <= c <= 0x7E && c != BACKSLASH }

  function HexEscape(c: nat, upper: bool): Text { [BACKSLASH, 0x78, OPEN] + Hex(c, upper) + [CLOSE] }

  /** One escaped code point. Python writes lower-case digits, Java upper-case. */
  function Escaped(c: nat, upper: bool): Text {
    if c == BACKSLASH then [BACKSLASH, BACKSLASH]
    else if c == TAB then [BACKSLASH, 0x74]
    else if c == LF then [BACKSLASH, 0x6E]
    else if c == CR then [BACKSLASH, 0x72]
    else if Plain(c) then [c]
    else HexEscape(c, upper)
  }

  /** The named characters, and what stands for each. */
  lemma EscapesAre(upper: bool)
    ensures TAB == '\t' as int && LF == '\n' as int && CR == '\r' as int && HASH == '#' as int
    ensures BACKSLASH == '\\' as int && OPEN == '{' as int && CLOSE == '}' as int
    ensures Escaped('\\' as int, upper) == ['\\' as int, '\\' as int]
    ensures Escaped('\t' as int, upper) == ['\\' as int, 't' as int]
    ensures Escaped('\n' as int, upper) == ['\\' as int, 'n' as int]
    ensures Escaped('\r' as int, upper) == ['\\' as int, 'r' as int]
    ensures Escaped(0x1F, upper) == ['\\' as int, 'x' as int, '{' as int, '1' as int, (if upper then 'F' else 'f') as int, '}' as int]
    ensures Escaped(0x7F, upper) == ['\\' as int, 'x' as int, '{' as int, '7' as int, (if upper then 'F' else 'f') as int, '}' as int]
    ensures forall c: nat :: 0x20 <= c <= 0x7E && c != '\\' as int ==> Escaped(c, upper) == [c]
  {
    assert Hex(1, upper) == [0x31] && Hex(7, upper) == [0x37];
    assert Hex(0x1F, upper) == Hex(1, upper) + [HexDigit(15, upper)];
    assert Hex(0x7F, upper) == Hex(7, upper) + [HexDigit(15, upper)];
  }

  function EscapedAll(s: Text, upper: bool): Text {
    if s == [] then [] else Escaped(s[0], upper) + EscapedAll(s[1..], upper)
  }

  lemma {:induction false} EscapedAllSnoc(s: Text, c: nat, upper: bool)
    ensures EscapedAll(s + [c], upper) == EscapedAll(s, upper) + Escaped(c, upper)
  {
    if s == [] {
      assert (s + [c])[1..] == [];
    } else {
      assert (s + [c])[1..] == s[1..] + [c];
      EscapedAllSnoc(s[1..], c, upper);
    }
  }

  /** `esc`: code points in, printable ASCII out. */
  method Esc(s: Text) returns (out: Text)
    ensures out == EscapedAll(s, false)
  {
    out := [];
    for i := 0 to |s|
      invariant out == EscapedAll(s[..i], false)
    {
      var c := s[i];
      EscapedAllSnoc(s[..i], c, false);
      assert s[..i + 1] == s[..i] + [c];
      if c == BACKSLASH {
        out := out + [BACKSLASH, BACKSLASH];
      } else if c == TAB {
        out := out + [BACKSLASH, 0x74];
      } else if c == LF {
        out := out + [BACKSLASH, 0x6E];
      } else if c == CR {
        out := out + [BACKSLASH, 0x72];
      } else if c < 32 || c > 126 {
        out := out + ([BACKSLASH, 0x78, OPEN] + Hex(c, false) + [CLOSE]);
      } else {
        out := out + [c];
      }
    }
    assert s[..|s|] == s;
  }

  /** Java's `escape`, over the code points of a UTF-16 string. */
  method Escape(s: Text) returns (out: Text)
    requires forall i :: 0 <= i < |s| ==> Unit(s[i])
    ensures out == EscapedAll(CodePoints(s), true)
  {
    out := [];
    var cps := CodePoints(s);
    for i := 0 to |cps|
      invariant out == EscapedAll(cps[..i], true)
    {
      EscapedAllSnoc(cps[..i], cps[i], true);
      assert cps[..i + 1] == cps[..i] + [cps[i]];
      out := out + Escaped(cps[i], true);
    }
    assert cps[..|cps|] == cps;
  }

  datatype BadEscape = OutOfBounds | UnknownEscape | BadNumber | NotACodePoint

  function Find(s: Text, c: nat, from: nat): (i: int)
    ensures i == -1 || from <= i < |s|
    decreases |s| - from
  {
    if from >= |s| then -1 else if s[from] == c then from else Find(s, c, from + 1)
  }

  function Prepended(head: Text, r: Result<Text, BadEscape>): Result<Text, BadEscape> {
    match r case Ok(t) => Ok(head + t) case Err(e) => Err(e)
  }

  /** One escape at the front: what it stands for, and how much it takes. */
  function UnescapeOne(s: Text): Result<(Text, nat), BadEscape>
    requires s != []
    ensures UnescapeOne(s).Ok? ==> 0 < UnescapeOne(s).value.1 <= |s|
  {
    if s[0] != BACKSLASH then Ok(([s[0]], 1))
    else if |s| < 2 then Err(OutOfBounds)
    else if s[1] == BACKSLASH then Ok(([BACKSLASH], 2))
    else if s[1] == 0x74 then Ok(([TAB], 2))
    else if s[1] == 0x6E then Ok(([LF], 2))
    else if s[1] == 0x72 then Ok(([CR], 2))
    else if s[1] == 0x78 then
      var close := Find(s, CLOSE, 1);
      if close < 3 then Err(OutOfBounds)
      else match ParseHex(s[3..close])
        case None => Err(BadNumber)
        case Some(v) => if CodePoint(v) then Ok((Units(v), close + 1)) else Err(NotACodePoint)
    else Err(UnknownEscape)
  }

  function Unescaped(s: Text): Result<Text, BadEscape> {
    if s == [] then Ok([])
    else match UnescapeOne(s)
      case Err(e) => Err(e)
      case Ok((t, n)) => Prepended(t, Unescaped(s[n..]))
  }

  /** Java's `unescape`: a moving index and a growing buffer. */
  method Unescape(s: Text) returns (r: Result<Text, BadEscape>)
    ensures r == Unescaped(s)
  {
    var out: Text, i: nat := [], 0;
    assert s[0..] == s;
    PrependedStep([], [], Unescaped(s));
    while i < |s|
      invariant i <= |s| && Unescaped(s) == Prepended(out, Unescaped(s[i..]))
      decreases |s| - i
    {
      var one := UnescapeOne(s[i..]);
      if one.Err? { return Err(one.error); }
      var (t, n) := one.value;
      assert s[i..][n..] == s[i + n..];
      PrependedStep(out, t, Unescaped(s[i + n..]));
      out, i := out + t, i + n;
    }
    assert out + [] == out;
    r := Ok(out);
  }

  lemma PrependedStep(a: Text, b: Text, r: Result<Text, BadEscape>)
    ensures Prepended(a, Prepended(b, r)) == Prepended(a + b, r)
    ensures Prepended([], r) == r
  {
    if r.Ok? { assert a + (b + r.value) == a + b + r.value && [] + r.value == r.value; }
  }

  // ---- unescaping inverts escaping

  lemma {:induction false} FindFirst(s: Text, c: nat, from: nat, at: nat)
    requires from <= at < |s| && s[at] == c && forall i :: from <= i < at ==> s[i] != c
    ensures Find(s, c, from) == at
    decreases at - from
  {
    if from < at { FindFirst(s, c, from + 1, at); }
  }

  lemma HexEscapeInverts(c: nat, upper: bool, rest: Text)
    requires CodePoint(c)
    ensures UnescapeOne(HexEscape(c, upper) + rest) == Ok((Units(c), |HexEscape(c, upper)|))
  {
    var h, s := Hex(c, upper), HexEscape(c, upper) + rest;
    HexIsPlain(c, upper);
    ParseInvertsHex(c, upper);
    assert s[0] == BACKSLASH && s[1] == 0x78 && s[2] == OPEN && s[3 + |h|] == CLOSE;
    assert forall i :: 3 <= i < 3 + |h| ==> s[i] == h[i - 3];
    FindFirst(s, CLOSE, 1, 3 + |h|);
    assert s[3..3 + |h|] == h;
  }

  lemma UnescapeOneInverts(c: nat, upper: bool, rest: Text)
    requires CodePoint(c)
    ensures UnescapeOne(Escaped(c, upper) + rest) == Ok((Units(c), |Escaped(c, upper)|))
  {
    if c != BACKSLASH && c != TAB && c != LF && c != CR && !Plain(c) {
      HexEscapeInverts(c, upper, rest);
    } else {
      var s := Escaped(c, upper) + rest;
      assert s[0] == Escaped(c, upper)[0];
      if !Plain(c) { assert s[1] == Escaped(c, upper)[1]; }
    }
  }

  lemma {:induction false} UnescapeInverts(s: Text, upper: bool)
    requires forall i :: 0 <= i < |s| ==> CodePoint(s[i])
    ensures Unescaped(EscapedAll(s, upper)) == Ok(Utf16(s))
  {
    if s != [] {
      var e, rest := Escaped(s[0], upper), EscapedAll(s[1..], upper);
      UnescapeOneInverts(s[0], upper, rest);
      UnescapeInverts(s[1..], upper);
      assert (e + rest)[|e|..] == rest;
      assert e != [] by { if !Plain(s[0]) { HexIsPlain(s[0], upper); } }
    }
  }

  /** Java's pair of functions is an identity on every UTF-16 string, lone surrogates included. */
  lemma JavaRoundTrip(s: Text)
    requires forall i :: 0 <= i < |s| ==> Unit(s[i])
    ensures Unescaped(EscapedAll(CodePoints(s), true)) == Ok(s)
  {
    UnitsOfCodePoints(s);
    UnescapeInverts(CodePoints(s), true);
  }

  // ---- lines

  function Line(pattern: Text, subject: Text): Text {
    EscapedAll(pattern, false) + [TAB] + EscapedAll(subject, false)
  }

  function Split(s: Text, sep: nat): (fields: seq<Text>)
    ensures fields != []
  {
    if s == [] then [[]]
    else
      var rest := Split(s[1..], sep);
      if s[0] == sep then [[]] + rest else [[s[0]] + rest[0]] + rest[1..]
  }

  datatype Reading = Comment | Malformed | Case(pattern: Result<Text, BadEscape>, subject: Result<Text, BadEscape>)

  /** How the oracle takes a line: blank and `#` lines pass through. */
  function ReadLine(line: Text): Reading {
    if line == [] || line[0] == HASH then Comment
    else
      var f := Split(line, TAB);
      if |f| < 2 then Malformed else Case(Unescaped(f[0]), Unescaped(f[1]))
  }

  predicate Visible(s: Text) { forall i :: 0 <= i < |s| ==> 0x20 <= s[i] <= 0x7E }

  lemma {:induction false} EscapedIsVisible(s: Text, upper: bool)
    ensures Visible(EscapedAll(s, upper))
    ensures s != [] ==> EscapedAll(s, upper) != [] && (EscapedAll(s, upper)[0] == HASH <==> s[0] == HASH)
  {
    if s != [] {
      EscapedIsVisible(s[1..], upper);
      OneIsVisible(s[0], upper);
    }
  }

  lemma OneIsVisible(c: nat, upper: bool)
    ensures Visible(Escaped(c, upper)) && Escaped(c, upper) != [] && (Escaped(c, upper)[0] == HASH <==> c == HASH)
  {
    HexIsPlain(c, upper);
  }

  lemma {:induction false} SplitAtTab(a: Text, b: Text)
    requires Visible(a) && Visible(b)
    ensures Split(a + [TAB] + b, TAB) == [a, b]
  {
    if a == [] {
      assert ([TAB] + b)[1..] == b && a + [TAB] + b == [TAB] + b;
      SplitWithoutTab(b);
    } else {
      assert (a + [TAB] + b)[1..] == a[1..] + [TAB] + b;
      SplitAtTab(a[1..], b);
      assert [a[0]] + a[1..] == a;
    }
  }

  lemma {:induction false} SplitWithoutTab(s: Text)
    requires Visible(s)
    ensures Split(s, TAB) == [s]
  {
    if s != [] {
      SplitWithoutTab(s[1..]);
      assert [s[0]] + s[1..] == s;
    }
  }

  /**
   Every printed case is one line of visible ASCII with a single tab. The oracle reads it
   back as exactly the same pair, if and only if the pattern does not start with `#`.
   */
  lemma LineRoundTrip(pattern: Text, subject: Text)
    requires forall i :: 0 <= i < |pattern| ==> CodePoint(pattern[i])
    requires forall i :: 0 <= i < |subject| ==> CodePoint(subject[i])
    ensures ReadLine(Line(pattern, subject)) == Case(Ok(Utf16(pattern)), Ok(Utf16(subject)))
       <==> !(pattern != [] && pattern[0] == HASH)
    ensures var line, t := Line(pattern, subject), |EscapedAll(pattern, false)|;
      Visible(line[..t]) && line[t] == TAB && Visible(line[t + 1..])
  {
    var p, s := EscapedAll(pattern, false), EscapedAll(subject, false);
    EscapedIsVisible(pattern, false);
    EscapedIsVisible(subject, false);
    var line := Line(pattern, subject);
    assert line[..|p|] == p && line[|p| + 1..] == s;
    assert line[0] == if p == [] then TAB else p[0];
    SplitAtTab(p, s);
    UnescapeInverts(pattern, false);
    UnescapeInverts(subject, false);
  }
}
