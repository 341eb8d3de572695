/**
 The documentation checker: does a documented call fit the stub's signature, and on which line
 of the document does a reported call stand.
 */
module DocSymbols {
  import opened Basics

  // ---- argument matching

  /**
   A signature without its receiver: `posOnly` then `args` may be given by position, the last
   `defaults` of them may be left out; `optional` are the keyword-only names with a default.
   */
  datatype Signature = Signature(posOnly: seq<string>, args: seq<string>, defaults: nat, vararg: bool,
                                 kwOnly: set<string>, optional: set<string>, kwarg: bool)

  /** A call without unpacking: so many positional arguments, these keywords. */
  datatype Call = Call(positional: nat, keywords: seq<string>)

  function Members(s: seq<string>): set<string> { set x | x in s }

  function Positional(s: Signature): seq<string> { s.posOnly + s.args }

  predicate Distinct(s: seq<string>) { forall i, j :: 0 <= i < j < |s| ==> s[i] != s[j] }

  /** What the grammar of function definitions guarantees. */
  ghost predicate WellFormed(s: Signature) {
    s.defaults <= |Positional(s)| && Distinct(Positional(s)) && Members(Positional(s)) !! s.kwOnly && s.optional <= s.kwOnly
  }

  /** The parameters filled by position. */
  function ByPosition(s: Signature, c: Call): set<string> {
    Members(if c.positional <= |Positional(s)| then Positional(s)[..c.positional] else Positional(s))
  }

  function Required(s: Signature): set<string>
    requires s.defaults <= |Positional(s)|
  {
    Members(Positional(s)[..|Positional(s)| - s.defaults]) + (s.kwOnly - s.optional)
  }

  /** The parameters that a keyword can name. */
  function Nameable(s: Signature): set<string> { Members(s.args) + s.kwOnly }

  /**
   Binding of keywords one by one (section 6.3.4 of the Python Language Reference): a keyword
   fills its parameter unless that is already filled; one that names no such parameter goes to
   the keyword dictionary if there is one.
   */
  function BindKeywords(s: Signature, filled: set<string>, extra: set<string>, kws: seq<string>): Option<set<string>>
    decreases |kws|
  {
    if kws == [] then Some(filled)
    else if kws[0] in Nameable(s) then
      if kws[0] in filled then None else BindKeywords(s, filled + {kws[0]}, extra, kws[1..])
    else if !s.kwarg || kws[0] in extra then None
    else BindKeywords(s, filled, extra + {kws[0]}, kws[1..])
  }

  /** The call is accepted when run. */
  predicate Binds(s: Signature, c: Call)
    requires s.defaults <= |Positional(s)|
  {
    && (c.positional <= |Positional(s)| || s.vararg)
    && var f := BindKeywords(s, ByPosition(s, c), {}, c.keywords);
       f != None && Required(s) <= f.value
  }

  /** The checker's test. */
  predicate Mismatch(s: Signature, c: Call)
    requires s.defaults <= |Positional(s)|
  {
    var names := Members(Positional(s)) + s.kwOnly;
    var supplied := ByPosition(s, c) + Members(c.keywords);
    || Required(s) - supplied != {}
    || (c.positional > |Positional(s)| && !s.vararg)
    || (supplied - names != {} && !s.kwarg)
  }

  /** Parameter `i` needs a value and gets none, by position or by name. */
  ghost predicate Unfilled(s: Signature, c: Call, i: nat) {
    i + s.defaults < |s.posOnly + s.args| && c.positional <= i && (s.posOnly + s.args)[i] !in c.keywords
  }

  lemma FilledByPosition(s: Signature, c: Call, i: nat)
    requires Distinct(Positional(s)) && i < |Positional(s)|
    ensures Positional(s)[i] in ByPosition(s, c) <==> i < c.positional
  {
    var ps := Positional(s);
    if i < c.positional <= |ps| { assert ps[..c.positional][i] == ps[i]; }
    if c.positional <= i {
      forall j | 0 <= j < c.positional ensures ps[..c.positional][j] != ps[i] { assert ps[j] != ps[i]; }
    }
  }

  /**
   A call is reported when a parameter without a default, by position or keyword-only, gets no
   value; when there are more arguments than positions and none collects them; or when a
   keyword names no parameter and none collects it.
   */
  lemma MismatchIs(s: Signature, c: Call)
    requires WellFormed(s)
    ensures Mismatch(s, c) <==>
      || (exists i: nat :: Unfilled(s, c, i))
      || (exists k :: k in s.kwOnly && k !in s.optional && k !in c.keywords)
      || (c.positional > |s.posOnly + s.args| && !s.vararg)
      || (!s.kwarg && exists k :: k in c.keywords && k !in s.posOnly && k !in s.args && k !in s.kwOnly)
  {
    MissingIs(s, c);
    UnknownIs(s, c);
  }

  lemma MissingIs(s: Signature, c: Call)
    requires WellFormed(s)
    ensures Required(s) - (ByPosition(s, c) + Members(c.keywords)) != {} <==>
      || (exists i: nat :: Unfilled(s, c, i))
      || (exists k :: k in s.kwOnly && k !in s.optional && k !in c.keywords)
  {
    var ps, n := Positional(s), |Positional(s)| - s.defaults;
    var supplied := ByPosition(s, c) + Members(c.keywords);
    if i: nat :| Unfilled(s, c, i) {
      FilledByPosition(s, c, i);
      assert ps[..n][i] == ps[i] && ps[i] in Required(s) - supplied;
    }
    if k :| k in s.kwOnly && k !in s.optional && k !in c.keywords {
      ByPositionIsParameter(s, c);
      assert k in Required(s) - supplied;
    }
    if Required(s) - supplied != {} {
      var k :| k in Required(s) - supplied;
      if k in Members(ps[..n]) {
        var i :| 0 <= i < n && ps[..n][i] == k;
        FilledByPosition(s, c, i);
        assert Unfilled(s, c, i);
      }
    }
  }

  lemma UnknownIs(s: Signature, c: Call)
    ensures (ByPosition(s, c) + Members(c.keywords)) - (Members(Positional(s)) + s.kwOnly) != {} <==>
      exists k :: k in c.keywords && k !in s.posOnly && k !in s.args && k !in s.kwOnly
  {
    ByPositionIsParameter(s, c);
    var unknown := (ByPosition(s, c) + Members(c.keywords)) - (Members(Positional(s)) + s.kwOnly);
    if unknown != {} {
      var k :| k in unknown;
      assert k in c.keywords && k !in s.posOnly && k !in s.args;
    }
    if k :| k in c.keywords && k !in s.posOnly && k !in s.args && k !in s.kwOnly { assert k in unknown; }
  }

  /** A parameter is given twice: by position and by name, or by name twice. */
  ghost predicate GivenTwice(s: Signature, c: Call) {
    !Distinct(c.keywords) || exists k :: k in c.keywords && k in Nameable(s) && k in ByPosition(s, c)
  }

  /** A positional-only parameter is passed by keyword, and so is refused or left without a value. */
  ghost predicate LosesPositionalOnly(s: Signature, c: Call)
    requires s.defaults <= |Positional(s)|
  {
    exists k :: k in c.keywords && k in s.posOnly && (!s.kwarg || (k in Required(s) && k !in ByPosition(s, c)))
  }

  lemma {:induction false} KeywordsBind(s: Signature, filled: set<string>, extra: set<string>, kws: seq<string>)
    ensures BindKeywords(s, filled, extra, kws) != None <==>
      && Distinct(kws)
      && (forall k :: k in kws ==> if k in Nameable(s) then k !in filled else s.kwarg && k !in extra)
    ensures BindKeywords(s, filled, extra, kws) != None ==>
      BindKeywords(s, filled, extra, kws).value == filled + (Members(kws) * Nameable(s))
    decreases |kws|
  {
    if kws != [] {
      var k, rest := kws[0], kws[1..];
      assert kws == [k] + rest;
      DistinctCons(k, rest);
      assert Members(kws) == {k} + Members(rest);
      if k in Nameable(s) {
        KeywordsBind(s, filled + {k}, extra, rest);
      } else {
        KeywordsBind(s, filled, extra + {k}, rest);
      }
    }
  }

  lemma DistinctCons(k: string, rest: seq<string>)
    ensures Distinct([k] + rest) <==> k !in rest && Distinct(rest)
  {
    var all := [k] + rest;
    if Distinct(all) {
      forall i | 0 <= i < |rest| ensures rest[i] != k { assert all[i + 1] == rest[i] && all[0] == k; }
      forall i, j | 0 <= i < j < |rest| ensures rest[i] != rest[j] { assert all[i + 1] == rest[i] && all[j + 1] == rest[j]; }
    }
  }

  lemma PositionalNames(s: Signature)
    ensures Members(Positional(s)) == Members(s.posOnly) + Members(s.args)
  {
  }

  lemma ByPositionIsParameter(s: Signature, c: Call)
    ensures ByPosition(s, c) <= Members(Positional(s))
  {
  }

  lemma KeywordOutside(s: Signature, c: Call, k: string)
    requires k in ByPosition(s, c) + Members(c.keywords) && k !in Members(Positional(s)) + s.kwOnly
    ensures k in c.keywords && k !in Nameable(s)
  {
    ByPositionIsParameter(s, c);
    PositionalNames(s);
  }

  /** What is reported would indeed be rejected: no false alarm, for any signature and call. */
  lemma MismatchIsRejected(s: Signature, c: Call)
    requires WellFormed(s) && Mismatch(s, c)
    ensures !Binds(s, c)
  {
    KeywordsBind(s, ByPosition(s, c), {}, c.keywords);
    var supplied := ByPosition(s, c) + Members(c.keywords);
    if Required(s) - supplied != {} {
      var r :| r in Required(s) - supplied;
      assert r !in ByPosition(s, c) + (Members(c.keywords) * Nameable(s));
    } else if supplied - (Members(Positional(s)) + s.kwOnly) != {} && !s.kwarg {
      var k :| k in supplied - (Members(Positional(s)) + s.kwOnly);
      KeywordOutside(s, c, k);
    }
  }

  /** What is rejected is reported, given twice, or names a positional-only parameter. */
  lemma RejectedHasReason(s: Signature, c: Call)
    requires WellFormed(s) && !Binds(s, c) && !GivenTwice(s, c) && !LosesPositionalOnly(s, c)
    ensures Mismatch(s, c)
  {
    KeywordsBind(s, ByPosition(s, c), {}, c.keywords);
    PositionalNames(s);
    var supplied := ByPosition(s, c) + Members(c.keywords);
    var f := BindKeywords(s, ByPosition(s, c), {}, c.keywords);
    if c.positional <= |Positional(s)| || s.vararg {
      if f == None {
        var k :| k in c.keywords && k !in Nameable(s) && !s.kwarg;
        assert k in supplied - (Members(Positional(s)) + s.kwOnly);
      } else {
        var r :| r in Required(s) && r !in f.value;
        RequiredIsParameter(s, r);
        assert r in Required(s) - supplied;
      }
    }
  }

  lemma RequiredIsParameter(s: Signature, r: string)
    requires WellFormed(s) && r in Required(s)
    ensures r in s.posOnly || r in Nameable(s)
  {
    PositionalNames(s);
    if r !in s.kwOnly {
      var front := Positional(s)[..|Positional(s)| - s.defaults];
      assert r in front;
      assert r in Positional(s);
      assert r in Members(Positional(s));
    }
  }

  lemma PositionalOnlyIsNotNameable(s: Signature, k: string)
    requires WellFormed(s) && k in s.posOnly
    ensures k !in Nameable(s)
  {
    PositionalNames(s);
    var i :| 0 <= i < |s.posOnly| && s.posOnly[i] == k;
    assert Positional(s)[i] == k;
    forall j | 0 <= j < |s.args| ensures s.args[j] != k {
      assert Positional(s)[|s.posOnly| + j] == s.args[j];
    }
    assert k in Members(Positional(s));
  }

  /**
   A call is rejected exactly when it is reported, or gives a parameter twice, or loses a
   positional-only one; the last two are what the checker does not see.
   */
  lemma RejectedExactly(s: Signature, c: Call)
    requires WellFormed(s)
    ensures !Binds(s, c) <==> Mismatch(s, c) || GivenTwice(s, c) || LosesPositionalOnly(s, c)
  {
    KeywordsBind(s, ByPosition(s, c), {}, c.keywords);
    if Mismatch(s, c) { MismatchIsRejected(s, c); }
    if !Binds(s, c) && !GivenTwice(s, c) && !LosesPositionalOnly(s, c) { RejectedHasReason(s, c); }
    if LosesPositionalOnly(s, c) {
      var k :| k in c.keywords && k in s.posOnly && (!s.kwarg || (k in Required(s) && k !in ByPosition(s, c)));
      PositionalOnlyIsNotNameable(s, k);
      assert k !in ByPosition(s, c) + (Members(c.keywords) * Nameable(s)) || !s.kwarg;
    }
  }

  /** The gaps are real: `f(1, a=2)` for `def f(a)`, and `f(a=1)` for `def f(a, /)`. */
  lemma MissedMismatches()
    ensures var s, c := Signature([], ["a"], 0, false, {}, {}, false), Call(1, ["a"]); !Mismatch(s, c) && !Binds(s, c)
    ensures var s, c := Signature(["a"], [], 0, false, {}, {}, false), Call(0, ["a"]); !Mismatch(s, c) && !Binds(s, c)
  {
    var s1, c1 := Signature([], ["a"], 0, false, {}, {}, false), Call(1, ["a"]);
    assert Positional(s1) == ["a"] && ["a"][..1] == ["a"];
    assert "a" in ByPosition(s1, c1) && "a" in Nameable(s1);
    var s2, c2 := Signature(["a"], [], 0, false, {}, {}, false), Call(0, ["a"]);
    assert Positional(s2) == ["a"] && ["a"][..1] == ["a"];
    assert "a" !in Nameable(s2);
    assert Members(["a"]) == {"a"};
  }

  // ---- fenced blocks and line numbers

  /** A line of a document; a fence may open a language. */
  datatype Line = Fence(lang: Option<string>) | Plain(text: string)

  datatype Block = Block(start: nat, text: seq<string>)

  /** One more than the index of the nearest fence above line `n`; 0 when there is none. */
  function FenceAbove(lines: seq<Line>, n: nat): (f: nat)
    requires n <= |lines|
    ensures f <= n
  {
    if n == 0 then 0 else if lines[n - 1].Fence? then n else FenceAbove(lines, n - 1)
  }

  lemma {:induction false} FenceAboveIsNearest(lines: seq<Line>, n: nat)
    requires n <= |lines|
    ensures FenceAbove(lines, n) > 0 ==> lines[FenceAbove(lines, n) - 1].Fence?
    ensures forall i :: FenceAbove(lines, n) <= i < n ==> lines[i].Plain?
    ensures forall i :: FenceAbove(lines, n) <= i <= n ==> FenceAbove(lines, i) == FenceAbove(lines, n)
  {
    if n > 0 && !lines[n - 1].Fence? { FenceAboveIsNearest(lines, n - 1); }
  }

  predicate Opens(lines: seq<Line>, f: nat, languages: set<string>)
    requires f <= |lines|
  {
    f > 0 && lines[f - 1].Fence? && lines[f - 1].lang.Some? && lines[f - 1].lang.value in languages
  }

  /** The line is inside a block of a selected language: the nearest fence above opened one. */
  predicate Selected(lines: seq<Line>, n: nat, languages: set<string>)
    requires n < |lines|
  {
    lines[n].Plain? && Opens(lines, FenceAbove(lines, n), languages)
  }

  /** The block's text is the document's, line for line, from line index `start` on. */
  ghost predicate Faithful(b: Block, lines: seq<Line>) {
    b.start + |b.text| <= |lines| && forall j :: 0 <= j < |b.text| ==> lines[b.start + j] == Plain(b.text[j])
  }

  ghost predicate Contains(b: Block, n: nat) { b.start <= n < b.start + |b.text| }

  /** The blocks yielded so far hold exactly the selected lines before `n`. */
  ghost predicate Yielded(blocks: seq<Block>, lines: seq<Line>, languages: set<string>, n: nat)
    requires n <= |lines|
  {
    && (forall i :: 0 <= i < |blocks| ==> Faithful(blocks[i], lines) && blocks[i].start + |blocks[i].text| <= n)
    && (forall i, m: nat :: 0 <= i < |blocks| && m < |lines| && Contains(blocks[i], m) ==> Selected(lines, m, languages))
    && (forall m: nat :: m < n && Selected(lines, m, languages) ==> exists i :: 0 <= i < |blocks| && Contains(blocks[i], m))
  }

  /** The block being read: from the nearest fence to the current line. */
  ghost predicate Reading(lines: seq<Line>, n: nat, start: nat, buf: seq<string>)
    requires n <= |lines|
  {
    start == FenceAbove(lines, n) && start + |buf| == n && Faithful(Block(start, buf), lines)
  }

  lemma Flush(blocks: seq<Block>, lines: seq<Line>, languages: set<string>, n: nat, start: nat, buf: seq<string>)
    requires n <= |lines| && Reading(lines, n, start, buf) && Yielded(blocks, lines, languages, start)
    ensures Opens(lines, start, languages) ==> Yielded(blocks + [Block(start, buf)], lines, languages, n)
    ensures !Opens(lines, start, languages) ==> Yielded(blocks, lines, languages, n)
  {
    FenceAboveIsNearest(lines, n);
    var more := blocks + [Block(start, buf)];
    if Opens(lines, start, languages) {
      forall m: nat | m < n && Selected(lines, m, languages) ensures exists i :: 0 <= i < |more| && Contains(more[i], m) {
        if m < start {
          var i :| 0 <= i < |blocks| && Contains(blocks[i], m);
          assert Contains(more[i], m);
        } else {
          assert Contains(more[|blocks|], m);
        }
      }
    } else {
      forall m | start <= m < n ensures !Selected(lines, m, languages) {
        assert FenceAbove(lines, m) == FenceAbove(lines, n);
      }
    }
  }

  /** A line is yielded exactly when the nearest fence above it opened a selected language. */
  method CodeBlocks(lines: seq<Line>, languages: set<string>) returns (blocks: seq<Block>)
    ensures Yielded(blocks, lines, languages, |lines|)
  {
    blocks := [];
    var lang: Option<string> := None;
    var buf: seq<string>, start: nat := [], 0;
    for i := 0 to |lines|
      invariant Reading(lines, i, start, buf) && Yielded(blocks, lines, languages, start)
      invariant Opens(lines, start, languages) <==> lang.Some? && lang.value in languages
    {
      match lines[i]
      case Fence(l) =>
        Flush(blocks, lines, languages, i, start, buf);
        if lang.Some? && lang.value in languages { blocks := blocks + [Block(start, buf)]; }
        FenceIsNotSelected(blocks, lines, languages, i);
        lang, buf, start := l, [], i + 1;
      case Plain(text) =>
        buf := buf + [text];
    }
    Flush(blocks, lines, languages, |lines|, start, buf);
    if lang.Some? && lang.value in languages { blocks := blocks + [Block(start, buf)]; }
  }

  lemma FenceIsNotSelected(blocks: seq<Block>, lines: seq<Line>, languages: set<string>, i: nat)
    requires i < |lines| && lines[i].Fence? && Yielded(blocks, lines, languages, i)
    ensures Yielded(blocks, lines, languages, i + 1)
  {
  }

  // ---- from a position in the joined text back to the line

  function Join(text: seq<string>): string {
    if |text| == 0 then "" else if |text| == 1 then text[0] else Join(text[..|text| - 1]) + "\n" + text[|text| - 1]
  }

  function Newlines(s: string): nat {
    if s == "" then 0 else Newlines(s[..|s| - 1]) + if s[|s| - 1] == '\n' then 1 else 0
  }

  /** Where line `k` begins in the joined text. */
  function Begins(text: seq<string>, k: nat): nat
    requires k < |text|
  {
    if k == 0 then 0 else |Join(text[..k])| + 1
  }

  lemma {:induction false} NewlinesAppend(s: string, t: string)
    ensures Newlines(s + t) == Newlines(s) + Newlines(t)
  {
    if t == "" {
      assert s + t == s;
    } else {
      assert (s + t)[..|s + t| - 1] == s + t[..|t| - 1];
      NewlinesAppend(s, t[..|t| - 1]);
    }
  }

  lemma {:induction false} NoNewlines(s: string)
    requires '\n' !in s
    ensures Newlines(s) == 0
  {
    if s != "" { NoNewlines(s[..|s| - 1]); }
  }

  predicate SingleLines(text: seq<string>) { forall i :: 0 <= i < |text| ==> '\n' !in text[i] }

  lemma {:induction false} JoinNewlines(text: seq<string>)
    requires text != [] && SingleLines(text)
    ensures Newlines(Join(text)) == |text| - 1
  {
    var last := text[|text| - 1];
    NoNewlines(last);
    if |text| > 1 {
      var front := Join(text[..|text| - 1]);
      JoinNewlines(text[..|text| - 1]);
      NewlinesAppend(front + "\n", last);
      NewlinesAppend(front, "\n");
      assert "\n"[..0] == "";
    }
  }

  lemma {:induction false} JoinPrefix(text: seq<string>, k: nat)
    requires 0 < k <= |text|
    ensures Join(text[..k]) <= Join(text)
    ensures k < |text| ==> Join(text[..k]) + "\n" + text[k] <= Join(text)
  {
    if k == |text| {
      assert text[..k] == text;
    } else {
      var front := text[..|text| - 1];
      assert front[..k] == text[..k];
      JoinPrefix(front, k);
      if k == |text| - 1 { assert front == text[..k]; }
    }
  }

  /**
   Counting the newlines before any position of line `k` gives `k`: the reported number
   `start + offset + 1` is the document line, counted from 1, on which the call begins.
   */
  lemma OffsetIsLine(text: seq<string>, k: nat, column: nat)
    requires k < |text| && column <= |text[k]| && SingleLines(text)
    ensures Begins(text, k) + column <= |Join(text)|
    ensures Newlines(Join(text)[..Begins(text, k) + column]) == k
  {
    var head := text[k][..column];
    NoNewlines(head);
    if k == 0 {
      JoinPrefix(text, 1);
      assert text[..1] == [text[0]] && Join(text[..1]) == text[0];
      assert Join(text)[..column] == head;
    } else {
      JoinPrefix(text, k);
      var before := Join(text[..k]);
      JoinNewlines(text[..k]);
      var line := before + "\n" + text[k];
      assert Join(text)[..Begins(text, k) + column] == line[..Begins(text, k) + column] == before + "\n" + head;
      NewlinesAppend(before + "\n", head);
      NewlinesAppend(before, "\n");
      assert "\n"[..0] == "";
    }
  }

  /** The reported line is where the text stands in the document. */
  lemma ReportedLineIsTrue(blocks: seq<Block>, lines: seq<Line>, languages: set<string>, i: nat, k: nat, column: nat)
    requires Yielded(blocks, lines, languages, |lines|) && i < |blocks|
    requires k < |blocks[i].text| && column <= |blocks[i].text[k]| && SingleLines(blocks[i].text)
    ensures Begins(blocks[i].text, k) + column <= |Join(blocks[i].text)|
    ensures var reported := blocks[i].start + Newlines(Join(blocks[i].text)[..Begins(blocks[i].text, k) + column]) + 1;
      1 <= reported <= |lines| && lines[reported - 1] == Plain(blocks[i].text[k])
  {
    OffsetIsLine(blocks[i].text, k, column);
    assert Faithful(blocks[i], lines);
  }
}
