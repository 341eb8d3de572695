/**
 Counting test scenarios by expanding feature files: three nested loops over lines, shown equal
 to a four-state machine that reads each line once, and to the count of a document's parts.
 */
module ScenarioCount {

  datatype Line = Scenario | Outline | Head | Examples | Row | Blank | Text

  predicate Starts(s: string, prefix: string) { prefix <= s }

  lemma StartsIs(prefix: string, rest: string, s: string)
    ensures Starts(prefix + rest, prefix)
    ensures Starts(s, prefix) ==> s == prefix + s[|prefix|..]
  {
  }

  /** What a stripped line is to the counter. */
  function Classify(s: string): Line {
    if Starts(s, "Scenario Outline:") || Starts(s, "Scenario Template:") then Outline
    else if Starts(s, "Scenario:") then Scenario
    else if Starts(s, "Background:") || Starts(s, "Rule:") || Starts(s, "Feature:") then Head
    else if Starts(s, "Examples:") || Starts(s, "Scenarios:") then Examples
    else if Starts(s, "|") then Row
    else if s == "" || Starts(s, "#") then Blank
    else Text
  }

  /** No two of the words that matter begin alike. */
  lemma HeadingsDiffer(s: string)
    ensures Starts(s, "Scenario:") ==> !Starts(s, "Scenario Outline:") && !Starts(s, "Scenario Template:") && !Starts(s, "Scenarios:")
    ensures Starts(s, "Scenarios:") ==> !Starts(s, "Scenario Outline:") && !Starts(s, "Scenario Template:")
    ensures Starts(s, "|") || Starts(s, "#") || s == "" ==>
      && !Starts(s, "Scenario:") && !Starts(s, "Scenario Outline:") && !Starts(s, "Scenario Template:")
      && !Starts(s, "Background:") && !Starts(s, "Rule:") && !Starts(s, "Feature:")
      && !Starts(s, "Examples:") && !Starts(s, "Scenarios:")
    ensures Starts(s, "|") ==> !Starts(s, "#")
    ensures Starts(s, "Examples:") || Starts(s, "Scenarios:") ==> !Starts(s, "Background:") && !Starts(s, "Rule:") && !Starts(s, "Feature:")
    ensures Starts(s, "Examples:") ==> !Starts(s, "Scenario:") && !Starts(s, "Scenario Outline:") && !Starts(s, "Scenario Template:")
  {
    assert "Scenario:"[8] == ':' && "Scenario Outline:"[8] == ' ' && "Scenario Template:"[8] == ' ' && "Scenarios:"[8] == 's';
    assert "Scenario:"[0] == 'S' && "Scenario Outline:"[0] == 'S' && "Scenario Template:"[0] == 'S' && "Scenarios:"[0] == 'S';
    assert "Background:"[0] == 'B' && "Rule:"[0] == 'R' && "Feature:"[0] == 'F' && "Examples:"[0] == 'E';
    assert "|"[0] == '|' && "#"[0] == '#';
  }

  /** A line that ends an outline. */
  predicate IsHead(l: Line) { l == Scenario || l == Outline || l == Head }

  // ---- the machine

  datatype State = Outside | InOutline | BeforeHeader | InRows

  function Next(s: State, l: Line): State {
    match l
    case Outline => InOutline
    case Scenario => Outside
    case Head => Outside
    case Examples => if s == Outside then Outside else BeforeHeader
    case Row => if s == BeforeHeader then InRows else s
    case Blank => s
    case Text => if s == Outside then Outside else InOutline
  }

  function Gain(s: State, l: Line): nat {
    if l == Scenario || (l == Row && s == InRows) then 1 else 0
  }

  function Total(s: State, lines: seq<Line>): nat
    decreases |lines|
  {
    if lines == [] then 0 else Gain(s, lines[0]) + Total(Next(s, lines[0]), lines[1..])
  }

  function Final(s: State, lines: seq<Line>): State
    decreases |lines|
  {
    if lines == [] then s else Final(Next(s, lines[0]), lines[1..])
  }

  function Classes(text: seq<string>): seq<Line> {
    seq(|text|, i requires 0 <= i < |text| => Classify(text[i]))
  }

  /** The machine on the lines from `i` on. */
  function Rest(s: State, text: seq<string>, i: nat): nat
    requires i <= |text|
  {
    Total(s, Classes(text)[i..])
  }

  lemma Read(s: State, text: seq<string>, i: nat)
    requires i < |text|
    ensures Rest(s, text, i) == Gain(s, Classify(text[i])) + Rest(Next(s, Classify(text[i])), text, i + 1)
  {
    assert Classes(text)[i..][0] == Classify(text[i]) && Classes(text)[i..][1..] == Classes(text)[i + 1..];
  }

  /** The nested loops count what the machine counts. */
  method Count(text: seq<string>) returns (total: nat)
    ensures total == Total(Outside, Classes(text))
  {
    total := 0;
    var i := 0;
    assert Classes(text)[0..] == Classes(text);
    while i < |text|
      invariant i <= |text| && total + Rest(Outside, text, i) == Total(Outside, Classes(text))
      decreases |text| - i
    {
      Read(Outside, text, i);
      HeadingsDiffer(text[i]);
      if Starts(text[i], "Scenario Outline:") || Starts(text[i], "Scenario Template:") {
        total, i := CountOutline(text, total, i + 1);
      } else {
        if Starts(text[i], "Scenario:") { total := total + 1; }
        i := i + 1;
      }
    }
  }

  /** The middle loop: from the line after the outline's heading to the next heading. */
  method CountOutline(text: seq<string>, t: nat, start: nat) returns (total: nat, j: nat)
    requires start <= |text|
    ensures start <= j <= |text| && total + Rest(Outside, text, j) == t + Rest(InOutline, text, start)
  {
    total, j := t, start;
    while j < |text|
      invariant start <= j <= |text| && total + Rest(InOutline, text, j) == t + Rest(InOutline, text, start)
      decreases |text| - j
    {
      Read(InOutline, text, j);
      HeadingsDiffer(text[j]);
      if Starts(text[j], "Scenario:") || Starts(text[j], "Scenario Outline:") || Starts(text[j], "Scenario Template:")
        || Starts(text[j], "Background:") || Starts(text[j], "Rule:") || Starts(text[j], "Feature:")
      {
        Read(Outside, text, j);
        break;
      }
      if Starts(text[j], "Examples:") || Starts(text[j], "Scenarios:") {
        total, j := CountRows(text, total, j + 1);
      } else {
        j := j + 1;
      }
    }
  }

  /** The inner loop: a table's rows after its header, across blank lines and comments. */
  method CountRows(text: seq<string>, t: nat, start: nat) returns (total: nat, k: nat)
    requires start <= |text|
    ensures start <= k <= |text| && total + Rest(InOutline, text, k) == t + Rest(BeforeHeader, text, start)
  {
    total, k := t, start;
    var headerSeen := false;
    while k < |text|
      invariant start <= k <= |text|
      invariant total + Rest(if headerSeen then InRows else BeforeHeader, text, k) == t + Rest(BeforeHeader, text, start)
      decreases |text| - k
    {
      Read(if headerSeen then InRows else BeforeHeader, text, k);
      HeadingsDiffer(text[k]);
      if Starts(text[k], "|") {
        if headerSeen { total := total + 1; } else { headerSeen := true; }
      } else if text[k] != "" && !Starts(text[k], "#") {
        Read(InOutline, text, k);
        break;
      }
      k := k + 1;
    }
  }

  // ---- joining texts

  lemma {:induction false} TotalAppend(s: State, a: seq<Line>, b: seq<Line>)
    ensures Total(s, a + b) == Total(s, a) + Total(Final(s, a), b)
    ensures Final(s, a + b) == Final(Final(s, a), b)
    decreases |a|
  {
    if a == [] {
      assert a + b == b;
    } else {
      assert (a + b)[0] == a[0] && (a + b)[1..] == a[1..] + b;
      TotalAppend(Next(s, a[0]), a[1..], b);
    }
  }

  lemma FreshStart(s: State, lines: seq<Line>)
    requires lines == [] || IsHead(lines[0])
    ensures Total(s, lines) == Total(Outside, lines)
  {
  }

  /** Two files can be joined when the second begins with a heading: nothing leaks across. */
  lemma CountIsAdditive(a: seq<Line>, b: seq<Line>)
    requires b == [] || IsHead(b[0])
    ensures Total(Outside, a + b) == Total(Outside, a) + Total(Outside, b)
  {
    TotalAppend(Outside, a, b);
    FreshStart(Final(Outside, a), b);
  }

  // ---- exactly when the count of two texts is the sum

  /** Some outline's heading stands before `i` with no other heading in between. */
  ghost predicate Open(text: seq<Line>, i: nat)
    requires i <= |text|
  {
    exists h :: 0 <= h < i && text[h] == Outline && forall m :: h < m < i ==> !IsHead(text[m])
  }

  /** From the line after an outline's `Examples:` at `t` up to `i` there are only these lines. */
  ghost predicate TableFrom(text: seq<Line>, t: nat, i: nat, rows: bool)
    requires i <= |text|
  {
    && t < i && text[t] == Examples && Open(text, t)
    && forall m :: t < m < i ==> text[m] == Blank || (rows && text[m] == Row)
  }

  ghost predicate HeaderDue(text: seq<Line>, i: nat)
    requires i <= |text|
  {
    exists t: nat :: TableFrom(text, t, i, false)
  }

  ghost predicate RowsDue(text: seq<Line>, i: nat)
    requires i <= |text|
  {
    exists t: nat, r: nat :: TableFrom(text, t, i, true) && t < r < i && text[r] == Row
  }

  /** A row below its table's header, in a table of an outline: said of the text, not of the machine. */
  ghost predicate DataRow(text: seq<Line>, i: nat)
    requires i < |text|
  {
    text[i] == Row && RowsDue(text, i)
  }

  lemma OpenMore(text: seq<Line>, i: nat)
    requires i < |text|
    ensures Open(text, i + 1) <==> text[i] == Outline || (!IsHead(text[i]) && Open(text, i))
  {
    if Open(text, i + 1) {
      var h :| 0 <= h < i + 1 && text[h] == Outline && forall m :: h < m < i + 1 ==> !IsHead(text[m]);
      if h < i { assert !IsHead(text[i]); }
    }
  }

  lemma HeaderDueMore(text: seq<Line>, i: nat)
    requires i < |text|
    ensures HeaderDue(text, i + 1) <==> (text[i] == Examples && Open(text, i)) || (text[i] == Blank && HeaderDue(text, i))
  {
    if HeaderDue(text, i + 1) {
      var t: nat :| TableFrom(text, t, i + 1, false);
      if t < i { assert TableFrom(text, t, i, false); }
    }
    if text[i] == Examples && Open(text, i) { assert TableFrom(text, i, i + 1, false); }
    if text[i] == Blank && HeaderDue(text, i) {
      var t: nat :| TableFrom(text, t, i, false);
      assert TableFrom(text, t, i + 1, false);
    }
  }

  lemma RowsDueMore(text: seq<Line>, i: nat)
    requires i < |text|
    ensures RowsDue(text, i + 1) <==> (text[i] == Row && (HeaderDue(text, i) || RowsDue(text, i))) || (text[i] == Blank && RowsDue(text, i))
  {
    if RowsDue(text, i + 1) {
      var t: nat, r: nat :| TableFrom(text, t, i + 1, true) && t < r < i + 1 && text[r] == Row;
      assert TableFrom(text, t, i, true);
      if r == i && !RowsDue(text, i) { assert TableFrom(text, t, i, false); }
    }
    if text[i] == Row && HeaderDue(text, i) {
      var t: nat :| TableFrom(text, t, i, false);
      assert TableFrom(text, t, i + 1, true);
    }
    if (text[i] == Row || text[i] == Blank) && RowsDue(text, i) {
      var t: nat, r: nat :| TableFrom(text, t, i, true) && t < r < i && text[r] == Row;
      assert TableFrom(text, t, i + 1, true);
    }
  }

  lemma OneMoreRead(s: State, lines: seq<Line>, l: Line)
    ensures Final(s, lines + [l]) == Next(Final(s, lines), l)
    ensures Total(s, lines + [l]) == Total(s, lines) + Gain(Final(s, lines), l)
  {
    TotalAppend(s, lines, [l]);
    assert [l][1..] == [];
  }

  /** What each state of the machine means of the text read so far. */
  lemma {:induction false} StateIs(text: seq<Line>, i: nat)
    requires i <= |text|
    ensures RowsDue(text, i) || HeaderDue(text, i) ==> Open(text, i)
    ensures !(RowsDue(text, i) && HeaderDue(text, i))
    ensures Final(Outside, text[..i]) ==
      if RowsDue(text, i) then InRows else if HeaderDue(text, i) then BeforeHeader else if Open(text, i) then InOutline else Outside
  {
    if i > 0 {
      var k: nat := i - 1;
      StateIs(text, k);
      OpenMore(text, k);
      HeaderDueMore(text, k);
      RowsDueMore(text, k);
      assert text[..i] == text[..k] + [text[k]];
      OneMoreRead(Outside, text[..k], text[k]);
    }
  }

  lemma {:induction false} StatesMeet(s: State, lines: seq<Line>)
    ensures Final(Outside, lines) != Outside ==> Final(s, lines) == Final(Outside, lines)
  {
    if lines != [] {
      var front, last := lines[..|lines| - 1], lines[|lines| - 1];
      StatesMeet(s, front);
      assert lines == front + [last];
      OneMoreRead(s, front, last);
      OneMoreRead(Outside, front, last);
    }
  }

  /** The row counts only for what came before the text. */
  ghost predicate CountsExtra(s: State, lines: seq<Line>, i: nat)
    requires i < |lines|
  {
    lines[i] == Row && Final(s, lines[..i]) == InRows && Final(Outside, lines[..i]) != InRows
  }

  lemma {:induction false} TotalsDiffer(s: State, lines: seq<Line>)
    ensures Total(s, lines) >= Total(Outside, lines)
    ensures Total(s, lines) == Total(Outside, lines) <==> forall i :: 0 <= i < |lines| ==> !CountsExtra(s, lines, i)
  {
    if lines != [] {
      var n := |lines| - 1;
      var front, last := lines[..n], lines[n];
      TotalsDiffer(s, front);
      StatesMeet(s, front);
      assert lines == front + [last];
      OneMoreRead(s, front, last);
      OneMoreRead(Outside, front, last);
      forall i | 0 <= i < n ensures CountsExtra(s, lines, i) <==> CountsExtra(s, front, i) {
        assert lines[..i] == front[..i];
      }
      assert CountsExtra(s, lines, n) <==> Gain(Final(s, front), last) != Gain(Final(Outside, front), last);
      if forall i :: 0 <= i < |front| ==> !CountsExtra(s, front, i) {
        assert forall i :: 0 <= i < n ==> !CountsExtra(s, lines, i);
      } else {
        var i :| 0 <= i < |front| && CountsExtra(s, front, i);
        assert CountsExtra(s, lines, i);
      }
    }
  }

  lemma ExtraIsStraddling(a: seq<Line>, b: seq<Line>, i: nat)
    requires i < |b|
    ensures CountsExtra(Final(Outside, a), b, i) <==> DataRow(a + b, |a| + i) && !DataRow(b, i)
  {
    TotalAppend(Outside, a, b[..i]);
    assert (a + b)[..|a| + i] == a + b[..i];
    InRowsIs(a + b, |a| + i);
    InRowsIs(b, i);
  }

  lemma InRowsIs(text: seq<Line>, i: nat)
    requires i <= |text|
    ensures Final(Outside, text[..i]) == InRows <==> RowsDue(text, i)
  {
    StateIs(text, i);
  }

  /**
   The count of two texts joined is never less than the sum, and is the sum if and only if no
   line of the second is a data row only by what stands in the first.
   */
  lemma CountIsAdditiveExactly(a: seq<Line>, b: seq<Line>)
    ensures Total(Outside, a + b) >= Total(Outside, a) + Total(Outside, b)
    ensures Total(Outside, a + b) == Total(Outside, a) + Total(Outside, b)
       <==> forall i :: 0 <= i < |b| && DataRow(a + b, |a| + i) ==> DataRow(b, i)
  {
    TotalAppend(Outside, a, b);
    TotalsDiffer(Final(Outside, a), b);
    forall i | 0 <= i < |b| ensures CountsExtra(Final(Outside, a), b, i) <==> DataRow(a + b, |a| + i) && !DataRow(b, i) {
      ExtraIsStraddling(a, b, i);
    }
  }

  /** The condition matters: a table split from its header loses a row. */
  lemma SplitTableLosesRow()
    ensures Total(Outside, [Outline, Examples, Row] + [Row]) == 1
    ensures Total(Outside, [Outline, Examples, Row]) + Total(Outside, [Row]) == 0
  {
    var a, b := [Outline, Examples, Row], [Row];
    assert (a + b)[1..] == [Examples, Row, Row] && [Examples, Row, Row][1..] == [Row, Row];
    assert [Row, Row][1..] == [Row] && [Row][1..] == [];
    assert a[1..] == [Examples, Row] && [Examples, Row][1..] == [Row];
    assert Total(InRows, [Row]) == 1;
    assert Total(BeforeHeader, [Row, Row]) == 1;
    assert Total(InOutline, [Examples, Row, Row]) == 1;
    assert Total(BeforeHeader, [Row]) == 0;
    assert Total(InOutline, [Examples, Row]) == 0;
  }

  // ---- what is counted

  /** A table under `Examples:`: rows and blank lines, then prose up to whatever comes next. */
  datatype Table = Table(rows: seq<Line>, prose: seq<Line>)

  datatype Block =
    | Other(body: seq<Line>)
    | PlainScenario(body: seq<Line>)
    | ScenarioOutline(body: seq<Line>, tables: seq<Table>)

  /** Lines that end nothing. */
  predicate Calm(lines: seq<Line>) {
    forall i :: 0 <= i < |lines| ==> !IsHead(lines[i]) && lines[i] != Examples
  }

  predicate NoHeads(lines: seq<Line>) { forall i :: 0 <= i < |lines| ==> !IsHead(lines[i]) }

  predicate GoodTable(t: Table) {
    && (forall i :: 0 <= i < |t.rows| ==> t.rows[i] == Row || t.rows[i] == Blank)
    && Calm(t.prose) && (t.prose == [] || t.prose[0] == Text)
  }

  predicate Good(b: Block) {
    match b
    case Other(body) => NoHeads(body)
    case PlainScenario(body) => NoHeads(body)
    case ScenarioOutline(body, tables) => Calm(body) && forall i :: 0 <= i < |tables| ==> GoodTable(tables[i])
  }

  predicate AllGood(bs: seq<Block>) { forall i :: 0 <= i < |bs| ==> Good(bs[i]) }

  function RenderTables(ts: seq<Table>): seq<Line> {
    if ts == [] then [] else [Examples] + ts[0].rows + ts[0].prose + RenderTables(ts[1..])
  }

  function Render(b: Block): seq<Line> {
    match b
    case Other(body) => [Head] + body
    case PlainScenario(body) => [Scenario] + body
    case ScenarioOutline(body, tables) => [Outline] + body + RenderTables(tables)
  }

  function RenderAll(bs: seq<Block>): seq<Line> {
    if bs == [] then [] else Render(bs[0]) + RenderAll(bs[1..])
  }

  function Rows(lines: seq<Line>): nat { multiset(lines)[Row] }

  /** The rows of a table after its header. */
  function DataRows(t: Table): nat { if Rows(t.rows) == 0 then 0 else Rows(t.rows) - 1 }

  function ExpandedTables(ts: seq<Table>): nat {
    if ts == [] then 0 else DataRows(ts[0]) + ExpandedTables(ts[1..])
  }

  /** One for a scenario, one for each data row of an outline's tables. */
  function Expanded(bs: seq<Block>): nat {
    if bs == [] then 0
    else (match bs[0]
          case Other(_) => 0
          case PlainScenario(_) => 1
          case ScenarioOutline(_, ts) => ExpandedTables(ts)) + Expanded(bs[1..])
  }

  lemma {:induction false} RowsSplit(lines: seq<Line>)
    requires lines != []
    ensures Rows(lines) == (if lines[0] == Row then 1 else 0) + Rows(lines[1..])
  {
    assert lines == [lines[0]] + lines[1..];
  }

  lemma {:induction false} TableRows(s: State, rows: seq<Line>)
    requires s == BeforeHeader || s == InRows
    requires forall i :: 0 <= i < |rows| ==> rows[i] == Row || rows[i] == Blank
    ensures Total(s, rows) == (if s == InRows then Rows(rows) else if Rows(rows) == 0 then 0 else Rows(rows) - 1)
    ensures Final(s, rows) == BeforeHeader || Final(s, rows) == InRows
    decreases |rows|
  {
    if rows != [] {
      RowsSplit(rows);
      TableRows(Next(s, rows[0]), rows[1..]);
    }
  }

  lemma {:induction false} ProseCountsNothing(s: State, lines: seq<Line>)
    requires Calm(lines) && (s == InOutline || lines == [] || lines[0] == Text) && s != Outside
    ensures Total(s, lines) == 0 && (Final(s, lines) == InOutline || Final(s, lines) == s) && Final(s, lines) != Outside
    decreases |lines|
  {
    if lines != [] { ProseCountsNothing(InOutline, lines[1..]); }
  }

  lemma {:induction false} OutsideCountsNothing(lines: seq<Line>)
    requires NoHeads(lines)
    ensures Total(Outside, lines) == 0 && Final(Outside, lines) == Outside
  {
    if lines != [] { OutsideCountsNothing(lines[1..]); }
  }

  lemma {:induction false} TablesExpand(s: State, ts: seq<Table>)
    requires s != Outside && forall i :: 0 <= i < |ts| ==> GoodTable(ts[i])
    ensures Total(s, RenderTables(ts)) == ExpandedTables(ts)
    decreases |ts|
  {
    if ts != [] {
      var rows, prose, rest := ts[0].rows, ts[0].prose, RenderTables(ts[1..]);
      TotalAppend(s, [Examples] + rows + prose, rest);
      TotalAppend(s, [Examples] + rows, prose);
      TotalAppend(s, [Examples], rows);
      assert [Examples][1..] == [];
      assert Total(s, [Examples]) == 0 && Final(s, [Examples]) == BeforeHeader;
      TableRows(BeforeHeader, rows);
      ProseCountsNothing(Final(BeforeHeader, rows), prose);
      TablesExpand(Final(s, [Examples] + rows + prose), ts[1..]);
    }
  }

  lemma BlockExpands(b: Block)
    requires Good(b)
    ensures Total(Outside, Render(b)) == Expanded([b])
  {
    assert [b][1..] == [];
    match b
    case Other(body) =>
      assert Render(b)[1..] == body;
      OutsideCountsNothing(body);
    case PlainScenario(body) =>
      assert Render(b)[1..] == body;
      OutsideCountsNothing(body);
    case ScenarioOutline(body, ts) =>
      TotalAppend(Outside, [Outline] + body, RenderTables(ts));
      TotalAppend(Outside, [Outline], body);
      assert [Outline][1..] == [];
      assert Total(Outside, [Outline]) == 0 && Final(Outside, [Outline]) == InOutline;
      ProseCountsNothing(InOutline, body);
      TablesExpand(Final(InOutline, body), ts);
  }

  lemma {:induction false} BlocksExpand(bs: seq<Block>)
    requires AllGood(bs)
    ensures Total(Outside, RenderAll(bs)) == Expanded(bs)
  {
    if bs != [] {
      var rest := RenderAll(bs[1..]);
      BlocksExpand(bs[1..]);
      BlockExpands(bs[0]);
      StartsWithHead(bs[1..]);
      CountIsAdditive(Render(bs[0]), rest);
      assert Expanded(bs) == Expanded([bs[0]]) + Expanded(bs[1..]) by { assert [bs[0]][1..] == []; }
    }
  }

  lemma StartsWithHead(bs: seq<Block>)
    ensures RenderAll(bs) == [] || IsHead(RenderAll(bs)[0])
  {
    if bs != [] { assert RenderAll(bs)[0] == Render(bs[0])[0]; }
  }

  /**
   The counter's total is one per scenario and one per data row of every outline's tables;
   whatever stands before the first heading counts for nothing.
   */
  lemma DocumentExpands(preamble: seq<Line>, bs: seq<Block>)
    requires NoHeads(preamble) && AllGood(bs)
    ensures Total(Outside, preamble + RenderAll(bs)) == Expanded(bs)
  {
    StartsWithHead(bs);
    CountIsAdditive(preamble, RenderAll(bs));
    OutsideCountsNothing(preamble);
    BlocksExpand(bs);
  }

  // ---- every text is such a document

  /** Lines that end nothing are rows and blank lines, then prose. */
  lemma {:induction false} AsTable(lines: seq<Line>) returns (t: Table)
    requires Calm(lines)
    ensures GoodTable(t) && t.rows + t.prose == lines
  {
    if lines == [] || lines[0] == Text {
      t := Table([], lines);
    } else {
      var rest := AsTable(lines[1..]);
      t := Table([lines[0]] + rest.rows, rest.prose);
    }
  }

  /** Lines without headings are a calm body, then tables. */
  lemma {:induction false} AsTables(lines: seq<Line>) returns (body: seq<Line>, ts: seq<Table>)
    requires NoHeads(lines)
    ensures Calm(body) && (forall i :: 0 <= i < |ts| ==> GoodTable(ts[i])) && body + RenderTables(ts) == lines
  {
    if lines == [] {
      body, ts := [], [];
    } else {
      var front, rest := AsTables(lines[1..]);
      assert lines == [lines[0]] + (front + RenderTables(rest));
      if lines[0] == Examples {
        var t := AsTable(front);
        body, ts := [], [t] + rest;
        TablesCons(t, rest);
      } else {
        body, ts := [lines[0]] + front, rest;
        Regroup([lines[0]], front, RenderTables(rest));
      }
    }
  }

  lemma TablesCons(t: Table, rest: seq<Table>)
    ensures RenderTables([t] + rest) == [Examples] + ((t.rows + t.prose) + RenderTables(rest))
  {
    assert ([t] + rest)[1..] == rest;
    Regroup([Examples], t.rows, t.prose);
    Regroup([Examples], t.rows + t.prose, RenderTables(rest));
  }

  lemma Regroup(a: seq<Line>, b: seq<Line>, c: seq<Line>)
    ensures (a + b) + c == a + (b + c)
  {
  }

  lemma RenderMore(b: Block, bs: seq<Block>)
    ensures RenderAll([b] + bs) == Render(b) + RenderAll(bs)
  {
    assert ([b] + bs)[1..] == bs;
  }

  /** One more line in front: of the preamble, or heading a block made of it. */
  lemma OneMoreLine(line: Line, before: seq<Line>, rest: seq<Block>) returns (preamble: seq<Line>, bs: seq<Block>)
    requires NoHeads(before) && AllGood(rest)
    ensures NoHeads(preamble) && AllGood(bs) && preamble + RenderAll(bs) == [line] + (before + RenderAll(rest))
  {
    var lines := RenderAll(rest);
    Regroup([line], before, lines);
    if IsHead(line) {
      var b := AsBlock(line, before);
      preamble, bs := [], [b] + rest;
      RenderMore(b, rest);
      assert preamble + (Render(b) + lines) == Render(b) + lines;
    } else {
      preamble, bs := [line] + before, rest;
    }
  }

  lemma {:induction false} AsDocument(lines: seq<Line>) returns (preamble: seq<Line>, bs: seq<Block>)
    ensures NoHeads(preamble) && AllGood(bs) && preamble + RenderAll(bs) == lines
  {
    if lines == [] {
      preamble, bs := [], [];
    } else {
      var before, rest := AsDocument(lines[1..]);
      preamble, bs := OneMoreLine(lines[0], before, rest);
      assert lines == [lines[0]] + lines[1..];
    }
  }

  /** Every text is a preamble and blocks, so its count is that of its parts. */
  lemma EveryTextIsADocument(lines: seq<Line>) returns (preamble: seq<Line>, bs: seq<Block>)
    ensures NoHeads(preamble) && AllGood(bs) && preamble + RenderAll(bs) == lines
    ensures Total(Outside, lines) == Expanded(bs)
  {
    preamble, bs := AsDocument(lines);
    DocumentExpands(preamble, bs);
  }

  lemma AsBlock(heading: Line, lines: seq<Line>) returns (b: Block)
    requires IsHead(heading) && NoHeads(lines)
    ensures Good(b) && Render(b) == [heading] + lines
  {
    match heading
    case Head => b := Other(lines);
    case Scenario => b := PlainScenario(lines);
    case Outline =>
      var body, ts := AsTables(lines);
      b := ScenarioOutline(body, ts);
  }
}
