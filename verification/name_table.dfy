/**
 The character-name file: `GenUcdTables.writeNames` interns the words of every name into a
 growing dictionary and packs words and names into a little-endian file;
 `gen_cases.names_data` reads the file back. Characters and bytes are natural numbers.
 */
module NameTable {
  import opened Basics

  type Word = seq<nat>

  const SPACE: nat := 0x20
  const HYPHEN: nat := 0x2D

  datatype Entry = Entry(cp: nat, name: seq<nat>)

  /** A name as written: its code point and its tokens. */
  datatype Row = Row(cp: nat, tokens: seq<nat>)

  /** The dictionary in insertion order, and the encoded names. */
  datatype Table = Table(words: seq<Word>, rows: seq<Row>)

  datatype Error = UnexpectedCharacter | TooManyWords

  predicate IsSeparator(c: nat) { c == SPACE || c == HYPHEN }

  predicate IsWordChar(c: nat) { !IsSeparator(c) && 0x20 < c <= 0x7E }

  predicate Printable(name: seq<nat>) {
    forall i :: 0 <= i < |name| ==> IsSeparator(name[i]) || IsWordChar(name[i])
  }

  /** A maximal separator-free stretch of a name; it may be empty. */
  predicate Segment(name: seq<nat>, i: int, j: int) {
    && 0 <= i <= j <= |name|
    && (i == 0 || IsSeparator(name[i - 1])) && (j == |name| || IsSeparator(name[j]))
    && forall t :: i <= t < j ==> !IsSeparator(name[t])
  }

  ghost predicate WordOf(name: seq<nat>, w: Word) {
    exists i, j :: Segment(name, i, j) && name[i..j] == w
  }

  ghost predicate WordOfSome(names: seq<Entry>, w: Word) {
    exists n :: 0 <= n < |names| && WordOf(names[n].name, w)
  }

  // ---- tokens

  /** Bitwise or with the separator flag. */
  function Flagged(id: nat): nat { if (id / 0x8000) % 2 == 1 then id else id + 0x8000 }

  function Token(id: nat, hyphen: bool): nat { if hyphen then Flagged(id) else id }

  predicate TokenOk(words: seq<Word>, token: nat) { token % 0x8000 < |words| && token < 0x10000 }

  function Joined(token: nat, first: bool): seq<nat> {
    if first then [] else [if token >= 0x8000 then HYPHEN else SPACE]
  }

  /** The text of a token list: words joined by the separators their top bits name. */
  ghost function Render(words: seq<Word>, tokens: seq<nat>): seq<nat>
    requires forall t :: 0 <= t < |tokens| ==> TokenOk(words, tokens[t])
  {
    if tokens == [] then []
    else
      var n := |tokens| - 1;
      assert TokenOk(words, tokens[n]);
      Render(words, tokens[..n]) + Joined(tokens[n], n == 0) + words[tokens[n] % 0x8000]
  }

  /** Growing the dictionary never changes what a token already emitted means. */
  lemma {:induction false} RenderIsStable(words: seq<Word>, more: seq<Word>, tokens: seq<nat>)
    requires forall t :: 0 <= t < |tokens| ==> TokenOk(words, tokens[t])
    ensures forall t :: 0 <= t < |tokens| ==> TokenOk(words + more, tokens[t])
    ensures Render(words + more, tokens) == Render(words, tokens)
  {
    if tokens != [] { RenderIsStable(words, more, tokens[..|tokens| - 1]); }
  }

  predicate Distinct(words: seq<Word>) {
    forall i, j :: 0 <= i < j < |words| ==> words[i] != words[j]
  }

  /** The table says exactly what the names say. */
  ghost predicate Represents(table: Table, names: seq<Entry>) {
    && Distinct(table.words) && |table.rows| == |names|
    && (forall w :: w in table.words <==> WordOfSome(names, w))
    && forall n :: 0 <= n < |names| ==> RowSays(table.words, table.rows[n], names[n])
  }

  ghost predicate RowSays(words: seq<Word>, row: Row, e: Entry) {
    && row.cp == e.cp && row.tokens != []
    && (forall t :: 0 <= t < |row.tokens| ==> TokenOk(words, row.tokens[t]))
    && Render(words, row.tokens) == e.name
  }

  // ---- the encoder

  /** Looks a word up in the dictionary, adding it at the end if it is new. */
  method Intern(words: seq<Word>, ids: map<Word, nat>, w: Word) returns (words': seq<Word>, ids': map<Word, nat>, id: nat)
    requires Indexes(words, ids)
    ensures Indexes(words', ids') && id < |words'| && words'[id] == w
    ensures words <= words' && |words'| == |words| + if w in words then 0 else 1
    ensures forall x :: x in words' <==> x in words || x == w
  {
    words', ids' := words, ids;
    if w in ids {
      id := ids[w];
    } else {
      id := |words|;
      words', ids' := words + [w], ids[w := id];
    }
  }

  /** The map and the insertion order describe the same bijection. */
  ghost predicate Indexes(words: seq<Word>, ids: map<Word, nat>) {
    && (forall w :: w in ids ==> ids[w] < |words| && words[ids[w]] == w)
    && (forall i :: 0 <= i < |words| ==> words[i] in ids && ids[words[i]] == i)
  }

  ghost predicate AllOk(words: seq<Word>, tokens: seq<nat>) {
    forall t :: 0 <= t < |tokens| ==> TokenOk(words, tokens[t])
  }

  /** What has been tokenized so far, the pending separator, and the pending word, spell the prefix. */
  ghost predicate Spells(words: seq<Word>, tokens: seq<nat>, sep: nat, pending: seq<nat>, text: seq<nat>) {
    |words| < 0x8000 ==>
      AllOk(words, tokens) && Render(words, tokens) + (if tokens == [] then [] else [sep]) + pending == text
  }

  /** Below the limit, the separator bit never collides with an id. */
  lemma TokenMeans(id: nat, hyphen: bool)
    requires id < 0x8000
    ensures var tok := Token(id, hyphen); tok < 0x10000 && tok % 0x8000 == id && (tok >= 0x8000 <==> hyphen)
  {
  }

  /** Finishing the pending word keeps the spelling. */
  lemma SpellsNext(words: seq<Word>, words': seq<Word>, tokens: seq<nat>, sep: nat, w: Word, id: nat, text: seq<nat>)
    requires Spells(words, tokens, sep, w, text) && IsSeparator(sep) && (tokens == [] ==> sep == SPACE)
    requires words <= words' && id < |words'| && words'[id] == w
    ensures |words'| < 0x8000 ==>
      var next := tokens + [Token(id, sep == HYPHEN)];
      AllOk(words', next) && Render(words', next) == text
  {
    if |words'| < 0x8000 {
      var tok := Token(id, sep == HYPHEN);
      var next := tokens + [tok];
      assert words' == words + words'[|words|..];
      RenderIsStable(words, words'[|words|..], tokens);
      TokenMeans(id, sep == HYPHEN);
      assert next[..|tokens|] == tokens;
      assert Joined(tok, tokens == []) == if tokens == [] then [] else [sep];
    }
  }

  /** The word being read starts after a separator and holds none. */
  ghost predicate Pending(name: seq<nat>, start: nat, k: nat) {
    && start <= k <= |name| && (start == 0 || IsSeparator(name[start - 1]))
    && forall t :: start <= t < k ==> !IsSeparator(name[t])
  }

  ghost predicate CharsGood(name: seq<nat>, k: nat) {
    k <= |name| && forall i :: 0 <= i < k ==> IsSeparator(name[i]) || IsWordChar(name[i])
  }

  /** The dictionary holds what it held and the words that end before `start`. */
  ghost predicate Knows(words': seq<Word>, words: seq<Word>, name: seq<nat>, start: nat) {
    forall x :: x in words' <==> x in words || WordBefore(name, start, x)
  }

  /** Before character `k`: what is known, and what has been spelled. */
  ghost predicate Reading(words: seq<Word>, known: seq<Word>, tokens: seq<nat>, sep: nat, name: seq<nat>, start: nat, k: nat) {
    && Pending(name, start, k) && CharsGood(name, k) && Knows(words, known, name, start)
    && IsSeparator(sep) && (tokens == [] ==> sep == SPACE)
    && Spells(words, tokens, sep, name[start..k], name[..k])
  }

  /** All words up to position `k` are closed. */
  ghost predicate Closed(words: seq<Word>, known: seq<Word>, tokens: seq<nat>, name: seq<nat>, k: nat) {
    && tokens != [] && CharsGood(name, k) && Knows(words, known, name, k + 1)
    && (|words| < 0x8000 ==> AllOk(words, tokens) && Render(words, tokens) == name[..k])
  }

  /** Reading up to `k`, or past the end with the last word closed. */
  ghost predicate Progress(words: seq<Word>, known: seq<Word>, tokens: seq<nat>, sep: nat, name: seq<nat>, start: nat, k: nat) {
    if k <= |name| then Reading(words, known, tokens, sep, name, start, k) else Closed(words, known, tokens, name, |name|)
  }

  lemma ReadLetter(words: seq<Word>, known: seq<Word>, tokens: seq<nat>, sep: nat, name: seq<nat>, start: nat, k: nat)
    requires Reading(words, known, tokens, sep, name, start, k) && k < |name| && IsWordChar(name[k]) && !IsSeparator(name[k])
    ensures Reading(words, known, tokens, sep, name, start, k + 1)
  {
    assert name[start..k + 1] == name[start..k] + [name[k]] && name[..k + 1] == name[..k] + [name[k]];
  }

  lemma ReadSeparator(words: seq<Word>, known: seq<Word>, tokens: seq<nat>, name: seq<nat>, k: nat)
    requires Closed(words, known, tokens, name, k) && k <= |name| && (k < |name| ==> IsSeparator(name[k]))
    ensures Progress(words, known, tokens, if k < |name| then name[k] else SPACE, name, k + 1, k + 1)
  {
    if k < |name| { assert name[..k + 1] == name[..k] + [name[k]]; }
  }

  /** The word that ends at `k` is interned and becomes a token. */
  method CloseWord(words: seq<Word>, ids: map<Word, nat>, name: seq<nat>, start: nat, k: nat, sep: nat, tokens: seq<nat>, ghost known: seq<Word>)
    returns (words': seq<Word>, ids': map<Word, nat>, tokens': seq<nat>)
    requires Indexes(words, ids) && Reading(words, known, tokens, sep, name, start, k) && (k == |name| || IsSeparator(name[k]))
    ensures Indexes(words', ids') && words <= words' && Closed(words', known, tokens', name, k)
  {
    var w := name[start..k];
    var id;
    words', ids', id := Intern(words, ids, w);
    SpellsNext(words, words', tokens, sep, w, id, name[..k]);
    tokens' := tokens + [Token(id, sep == HYPHEN)];
    WordsBefore(name, start, k);
  }

  lemma NothingRead(words: seq<Word>, name: seq<nat>)
    ensures Reading(words, words, [], SPACE, name, 0, 0)
  {
  }

  lemma AllRead(words: seq<Word>, known: seq<Word>, tokens: seq<nat>, name: seq<nat>)
    requires Closed(words, known, tokens, name, |name|)
    ensures Printable(name) && tokens != [] && forall x :: x in words <==> x in known || WordOf(name, x)
    ensures |words| < 0x8000 ==> AllOk(words, tokens) && Render(words, tokens) == name
  {
    assert name[..|name|] == name;
    assert forall x :: WordBefore(name, |name| + 1, x) <==> WordOf(name, x);
  }

  /** One turn of the loop; the turn after the last character closes the last word. */
  method ReadOne(words: seq<Word>, ids: map<Word, nat>, tokens: seq<nat>, sep: nat, start: nat, name: seq<nat>, k: nat, ghost known: seq<Word>)
    returns (ok: bool, words': seq<Word>, ids': map<Word, nat>, tokens': seq<nat>, sep': nat, start': nat)
    requires k <= |name| && Indexes(words, ids) && known <= words && Progress(words, known, tokens, sep, name, start, k)
    ensures !ok ==> !Printable(name)
    ensures ok ==> Indexes(words', ids') && known <= words' && Progress(words', known, tokens', sep', name, start', k + 1)
  {
    ok, words', ids', tokens', sep', start' := true, words, ids, tokens, sep, start;
    var c := if k < |name| then name[k] else SPACE;
    if k < |name| && !(c == ' ' as nat || c == '-' as nat) {
      if c <= 0x20 || c > 0x7E { return false, words, ids, tokens, sep, start; }
      ReadLetter(words, known, tokens, sep, name, start, k);
      return;
    }
    words', ids', tokens' := CloseWord(words, ids, name, start, k, sep, tokens, known);
    ReadSeparator(words', known, tokens', name, k);
    sep', start' := c, k + 1;
  }

  method Tokenize(words: seq<Word>, ids: map<Word, nat>, name: seq<nat>)
    returns (ok: bool, words': seq<Word>, ids': map<Word, nat>, tokens: seq<nat>)
    requires Indexes(words, ids)
    ensures ok <==> forall i :: 0 <= i < |name| ==> 0x20 <= name[i] <= 0x7E
    ensures ok <==> Printable(name)
    ensures ok ==> Indexes(words', ids') && words <= words' && tokens != []
    ensures ok ==> forall x :: x in words' <==> x in words || WordOf(name, x)
    ensures ok && |words'| < 0x8000 ==> AllOk(words', tokens) && Render(words', tokens) == name
  {
    words', ids', tokens := words, ids, [];
    var start: nat, sep: nat := 0, SPACE;
    NothingRead(words, name);
    for k := 0 to |name| + 1
      invariant Indexes(words', ids') && words <= words'
      invariant Progress(words', words, tokens, sep, name, start, k)
    {
      var good;
      good, words', ids', tokens, sep, start := ReadOne(words', ids', tokens, sep, start, name, k, words);
      if !good { return false, words', ids', tokens; }
    }
    ok := true;
    AllRead(words', words, tokens, name);
  }

  /** A word of the name that ends before position `limit`. */
  ghost predicate WordBefore(name: seq<nat>, limit: nat, w: Word) {
    exists i, j :: j < limit && Segment(name, i, j) && name[i..j] == w
  }

  lemma WordsBefore(name: seq<nat>, start: nat, k: nat)
    requires start <= k <= |name| && (start == 0 || IsSeparator(name[start - 1]))
    requires k == |name| || IsSeparator(name[k])
    requires forall t :: start <= t < k ==> !IsSeparator(name[t])
    ensures forall x :: WordBefore(name, k + 1, x) <==> WordBefore(name, start, x) || x == name[start..k]
  {
    LastSegment(name, start, k);
    forall x ensures WordBefore(name, k + 1, x) <==> WordBefore(name, start, x) || x == name[start..k] {
      if WordBefore(name, k + 1, x) {
        var i, j :| j < k + 1 && Segment(name, i, j) && name[i..j] == x;
      }
    }
  }

  /** The only segment ending at `k` is the pending word. */
  lemma LastSegment(name: seq<nat>, start: nat, k: nat)
    requires start <= k <= |name| && (start == 0 || IsSeparator(name[start - 1]))
    requires k == |name| || IsSeparator(name[k])
    requires forall t :: start <= t < k ==> !IsSeparator(name[t])
    ensures Segment(name, start, k)
    ensures forall i, j :: Segment(name, i, j) && start <= j <= k ==> i == start && j == k
  {
    forall i, j | Segment(name, i, j) && start <= j <= k ensures i == start && j == k {
    }
  }

  // ---- the file

  type Byte = b: nat | b < 256

  function Low(v: nat): Byte { v % 256 }

  function U16(v: nat): seq<Byte> { [Low(v), Low(v / 256)] }

  function U32(v: nat): seq<Byte> { U16(v % 0x10000) + U16(v / 0x10000) }

  function Ascii(w: Word): seq<Byte> {
    seq(|w|, i requires 0 <= i < |w| => if w[i] < 128 then w[i] else 0x3F)
  }

  /** The length byte keeps only the low eight bits of the length. */
  function WordBytes(w: Word): seq<Byte> { [Low(|w|)] + Ascii(w) }

  function WordsBytes(words: seq<Word>): seq<Byte> {
    if words == [] then [] else WordBytes(words[0]) + WordsBytes(words[1..])
  }

  function TokensBytes(tokens: seq<nat>): seq<Byte> {
    if tokens == [] then [] else U16(tokens[0]) + TokensBytes(tokens[1..])
  }

  function RowBytes(row: Row): seq<Byte> {
    [Low(row.cp), Low(row.cp / 256), Low(row.cp / 0x10000), Low(|row.tokens|)] + TokensBytes(row.tokens)
  }

  function RowsBytes(rows: seq<Row>): seq<Byte> {
    if rows == [] then [] else RowBytes(rows[0]) + RowsBytes(rows[1..])
  }

  function FileBytes(table: Table): seq<Byte> {
    U32(|table.words|) + WordsBytes(table.words) + U32(|table.rows|) + RowsBytes(table.rows)
  }

  lemma {:induction false} WordsBytesSnoc(words: seq<Word>, w: Word)
    ensures WordsBytes(words + [w]) == WordsBytes(words) + WordBytes(w)
  {
    if words == [] {
      assert (words + [w])[1..] == [];
    } else {
      assert (words + [w])[1..] == words[1..] + [w];
      WordsBytesSnoc(words[1..], w);
    }
  }

  lemma {:induction false} TokensBytesSnoc(tokens: seq<nat>, t: nat)
    ensures TokensBytes(tokens + [t]) == TokensBytes(tokens) + U16(t)
  {
    if tokens == [] {
      assert (tokens + [t])[1..] == [];
    } else {
      assert (tokens + [t])[1..] == tokens[1..] + [t];
      TokensBytesSnoc(tokens[1..], t);
    }
  }

  lemma {:induction false} RowsBytesSnoc(rows: seq<Row>, r: Row)
    ensures RowsBytes(rows + [r]) == RowsBytes(rows) + RowBytes(r)
  {
    if rows == [] {
      assert (rows + [r])[1..] == [];
    } else {
      assert (rows + [r])[1..] == rows[1..] + [r];
      RowsBytesSnoc(rows[1..], r);
    }
  }

  method EmitWords(words: seq<Word>) returns (out: seq<Byte>)
    ensures out == WordsBytes(words)
  {
    out := [];
    for i := 0 to |words|
      invariant out == WordsBytes(words[..i])
    {
      WordsBytesSnoc(words[..i], words[i]);
      assert words[..i + 1] == words[..i] + [words[i]];
      out := out + ([Low(|words[i]|)] + Ascii(words[i]));
    }
    assert words[..|words|] == words;
  }

  method EmitRow(row: Row) returns (out: seq<Byte>)
    ensures out == RowBytes(row)
  {
    out := [Low(row.cp), Low(row.cp / 256), Low(row.cp / 0x10000), Low(|row.tokens|)];
    ghost var head := out;
    for k := 0 to |row.tokens|
      invariant out == head + TokensBytes(row.tokens[..k])
    {
      TokensBytesSnoc(row.tokens[..k], row.tokens[k]);
      assert row.tokens[..k + 1] == row.tokens[..k] + [row.tokens[k]];
      out := out + U16(row.tokens[k]);
    }
    assert row.tokens[..|row.tokens|] == row.tokens;
  }

  method EmitRows(rows: seq<Row>) returns (out: seq<Byte>)
    ensures out == RowsBytes(rows)
  {
    out := [];
    for i := 0 to |rows|
      invariant out == RowsBytes(rows[..i])
    {
      RowsBytesSnoc(rows[..i], rows[i]);
      assert rows[..i + 1] == rows[..i] + [rows[i]];
      var row := EmitRow(rows[i]);
      out := out + row;
    }
    assert rows[..|rows|] == rows;
  }

  /** The names are those of Unicode code points. */
  ghost predicate CodePointsGood(names: seq<Entry>) {
    |names| <= 0x110000 && forall n :: 0 <= n < |names| ==> names[n].cp <= 0x10FFFF
  }

  /** The first `n` names are printable, the dictionary holds exactly their words, and below its limit each row spells its name. */
  ghost predicate Encoded(words: seq<Word>, rows: seq<Row>, names: seq<Entry>, n: nat) {
    && |rows| == n <= |names|
    && (forall m :: 0 <= m < n ==> Printable(names[m].name))
    && (forall w :: w in words <==> WordOfSome(names[..n], w))
    && (|words| < 0x8000 ==> forall m :: 0 <= m < n ==> RowSays(words, rows[m], names[m]))
  }

  lemma RowsStayTrue(before: seq<Word>, words: seq<Word>, rows: seq<Row>, names: seq<Entry>, n: nat)
    requires before <= words && n == |rows| <= |names| && forall m :: 0 <= m < n ==> RowSays(before, rows[m], names[m])
    ensures forall m :: 0 <= m < n ==> RowSays(words, rows[m], names[m])
  {
    forall m | 0 <= m < n ensures RowSays(words, rows[m], names[m]) { RowStaysTrue(before, words, rows[m], names[m]); }
  }

  lemma EncodedMore(before: seq<Word>, words: seq<Word>, rows: seq<Row>, names: seq<Entry>, n: nat, tokens: seq<nat>)
    requires Encoded(before, rows, names, n) && n < |names| && Printable(names[n].name) && before <= words
    requires forall x :: x in words <==> x in before || WordOf(names[n].name, x)
    requires |words| < 0x8000 ==> RowSays(words, Row(names[n].cp, tokens), names[n])
    ensures Encoded(words, rows + [Row(names[n].cp, tokens)], names, n + 1)
  {
    WordsOfMore(names, n);
    if |words| < 0x8000 { RowsStayTrue(before, words, rows, names, n); }
  }

  /** The loop over the names: the dictionary grows, each name becomes a row of tokens. */
  method Encode(names: seq<Entry>) returns (ok: bool, words: seq<Word>, rows: seq<Row>)
    ensures ok <==> forall n :: 0 <= n < |names| ==> Printable(names[n].name)
    ensures ok ==> forall i, j :: 0 <= i < j < |words| ==> words[i] != words[j]
    ensures ok ==> |rows| == |names| && forall w :: w in words <==> WordOfSome(names, w)
    ensures ok && |words| < 0x8000 ==> forall n :: 0 <= n < |names| ==> RowSays(words, rows[n], names[n])
  {
    var ids: map<Word, nat> := map[];
    words, rows := [], [];
    for n := 0 to |names|
      invariant Indexes(words, ids) && Encoded(words, rows, names, n)
    {
      ghost var before := words;
      var good, tokens;
      good, words, ids, tokens := Tokenize(words, ids, names[n].name);
      if !good { return false, words, rows; }
      EncodedMore(before, words, rows, names, n, tokens);
      rows := rows + [Row(names[n].cp, tokens)];
    }
    assert names[..|names|] == names;
    ok := true;
  }

  /**
   The whole encoder. The dictionary may overflow only in the final check, so tokens made
   meanwhile are meaningless when it fails and exact when it succeeds. Its file is decoded to
   the very names exactly when they fit the eight-bit fields.
   */
  method WriteNames(names: seq<Entry>) returns (r: Result<seq<Byte>, Error>, ghost table: Table)
    ensures r == Err(UnexpectedCharacter) <==> exists n :: 0 <= n < |names| && !Printable(names[n].name)
    ensures r == Err(TooManyWords) ==>
      |table.words| >= 0x8000 && Distinct(table.words) && forall w :: w in table.words <==> WordOfSome(names, w)
    ensures r.Ok? ==> |table.words| < 0x8000 && Represents(table, names) && r.value == FileBytes(table)
    ensures r.Ok? && CodePointsGood(names) ==> (Decode(r.value) == Some(names) <==> NamesFit(names))
  {
    var ok, words, rows := Encode(names);
    table := Table(words, rows);
    if !ok { return Err(UnexpectedCharacter), table; }
    if |words| >= 0x8000 { return Err(TooManyWords), table; }
    var dictionary := EmitWords(words);
    var body := EmitRows(rows);
    r := Ok(U32(|words|) + dictionary + U32(|rows|) + body);
    if CodePointsGood(names) { DecodesExactly(table, names); }
  }

  lemma WordsOfMore(names: seq<Entry>, n: nat)
    requires n < |names|
    ensures forall w :: WordOfSome(names[..n + 1], w) <==> WordOfSome(names[..n], w) || WordOf(names[n].name, w)
  {
    forall w ensures WordOfSome(names[..n + 1], w) <==> WordOfSome(names[..n], w) || WordOf(names[n].name, w) {
      if WordOfSome(names[..n], w) {
        var m :| 0 <= m < n && WordOf(names[..n][m].name, w);
        assert names[..n + 1][m] == names[..n][m];
      }
      if WordOf(names[n].name, w) { assert names[..n + 1][n] == names[n]; }
      if WordOfSome(names[..n + 1], w) {
        var m :| 0 <= m < n + 1 && WordOf(names[..n + 1][m].name, w);
        if m < n { assert names[..n][m] == names[..n + 1][m]; }
      }
    }
  }

  lemma RowStaysTrue(words: seq<Word>, words': seq<Word>, row: Row, e: Entry)
    requires RowSays(words, row, e) && words <= words'
    ensures RowSays(words', row, e)
  {
    assert words' == words + words'[|words|..];
    RenderIsStable(words, words'[|words|..], row.tokens);
  }

  // ---- the decoder

  datatype Parsed<T> = Fail | Got(value: T, at: nat)

  function At(data: seq<Byte>, i: nat): nat
    requires i < |data|
  {
    data[i]
  }

  function ReadU16(data: seq<Byte>, at: nat): Parsed<nat> {
    if at + 2 <= |data| then Got(At(data, at) + 256 * At(data, at + 1), at + 2) else Fail
  }

  function ReadU32(data: seq<Byte>, at: nat): Parsed<nat> {
    if at + 4 <= |data| then
      Got(At(data, at) + 256 * At(data, at + 1) + 0x10000 * At(data, at + 2) + 0x1000000 * At(data, at + 3), at + 4)
    else Fail
  }

  /** A slice that runs past the end is cut short; a byte outside ASCII is an error. */
  function ReadWord(data: seq<Byte>, at: nat): Parsed<Word> {
    if at >= |data| then Fail
    else
      var end := at + 1 + At(data, at);
      var w := data[at + 1..if end <= |data| then end else |data|];
      if forall i :: 0 <= i < |w| ==> w[i] < 128 then Got(w, end) else Fail
  }

  function ReadWords(data: seq<Byte>, at: nat, n: nat): Parsed<seq<Word>>
    decreases n
  {
    if n == 0 then Got([], at)
    else match ReadWord(data, at)
      case Fail => Fail
      case Got(w, next) =>
        match ReadWords(data, next, n - 1)
        case Fail => Fail
        case Got(ws, end) => Got([w] + ws, end)
  }

  function ReadTokens(data: seq<Byte>, words: seq<Word>, at: nat, k: nat, first: bool): Parsed<seq<nat>>
    decreases k
  {
    if k == 0 then Got([], at)
    else match ReadU16(data, at)
      case Fail => Fail
      case Got(tok, next) =>
        if tok % 0x8000 >= |words| then Fail
        else match ReadTokens(data, words, next, k - 1, false)
          case Fail => Fail
          case Got(rest, end) => Got(Joined(tok, first) + words[tok % 0x8000] + rest, end)
  }

  function CodePointAt(data: seq<Byte>, at: nat): nat
    requires at + 3 <= |data|
  {
    At(data, at) + 256 * At(data, at + 1) + 0x10000 * At(data, at + 2)
  }

  function ReadName(data: seq<Byte>, words: seq<Word>, at: nat): Parsed<Entry> {
    if at + 4 > |data| then Fail
    else match ReadTokens(data, words, at + 4, At(data, at + 3), true)
      case Fail => Fail
      case Got(text, end) => Got(Entry(CodePointAt(data, at), text), end)
  }

  function ReadNames(data: seq<Byte>, words: seq<Word>, at: nat, n: nat): Parsed<seq<Entry>>
    decreases n
  {
    if n == 0 then Got([], at)
    else match ReadName(data, words, at)
      case Fail => Fail
      case Got(e, next) =>
        match ReadNames(data, words, next, n - 1)
        case Fail => Fail
        case Got(es, end) => Got([e] + es, end)
  }

  /** Trailing bytes are ignored. */
  function Decode(data: seq<Byte>): Option<seq<Entry>> {
    match ReadU32(data, 0)
    case Fail => None
    case Got(nwords, at) =>
      match ReadWords(data, at, nwords)
      case Fail => None
      case Got(words, at) =>
        match ReadU32(data, at)
        case Fail => None
        case Got(nnames, at) =>
          match ReadNames(data, words, at, nnames)
          case Fail => None
          case Got(names, _) => Some(names)
  }

  method ReadDictionary(data: seq<Byte>, from: nat, n: nat) returns (r: Parsed<seq<Word>>)
    ensures r == ReadWords(data, from, n)
  {
    var at: nat, words: seq<Word> := from, [];
    AfterNothing(ReadWords(data, from, n));
    for i := 0 to n
      invariant ReadWords(data, from, n) == After(words, ReadWords(data, at, n - i))
    {
      var w := ReadWord(data, at);
      if w.Fail? { return Fail; }
      AfterStep(words, [w.value], ReadWords(data, w.at, n - i - 1));
      words, at := words + [w.value], w.at;
    }
    AfterEnd(words, at);
    r := Got(words, at);
  }

  method NameText(data: seq<Byte>, words: seq<Word>, from: nat, k: nat) returns (r: Parsed<seq<nat>>)
    ensures r == ReadTokens(data, words, from, k, true)
  {
    var at: nat, parts: seq<nat> := from, [];
    AfterNothing(ReadTokens(data, words, from, k, true));
    for t := 0 to k
      invariant ReadTokens(data, words, from, k, true) == After(parts, ReadTokens(data, words, at, k - t, t == 0))
    {
      var tok := ReadU16(data, at);
      if tok.Fail? || tok.value % 0x8000 >= |words| { return Fail; }
      var piece: seq<nat> := if t > 0 then [if tok.value >= 0x8000 then '-' as nat else ' ' as nat] else [];
      piece := piece + words[tok.value % 0x8000];
      AfterStep(parts, piece, ReadTokens(data, words, tok.at, k - t - 1, false));
      parts, at := parts + piece, tok.at;
    }
    AfterEnd(parts, at);
    r := Got(parts, at);
  }

  /** The cursor loop over the whole file. */
  method NamesData(data: seq<Byte>) returns (r: Option<seq<Entry>>)
    ensures r == Decode(data)
  {
    var count := ReadU32(data, 0);
    if count.Fail? { return None; }
    var dictionary := ReadDictionary(data, count.at, count.value);
    if dictionary.Fail? { return None; }
    var words := dictionary.value;
    count := ReadU32(data, dictionary.at);
    if count.Fail? { return None; }
    var at: nat, out: seq<Entry> := count.at, [];
    AfterNothing(ReadNames(data, words, at, count.value));
    for i := 0 to count.value
      invariant ReadNames(data, words, count.at, count.value) == After(out, ReadNames(data, words, at, count.value - i))
    {
      if at + 4 > |data| { return None; }
      var text := NameText(data, words, at + 4, At(data, at + 3));
      if text.Fail? { return None; }
      var e := Entry(CodePointAt(data, at), text.value);
      AfterStep(out, [e], ReadNames(data, words, text.at, count.value - i - 1));
      out, at := out + [e], text.at;
    }
    AfterEnd(out, at);
    r := Some(out);
  }

  ghost function After<T>(done: seq<T>, rest: Parsed<seq<T>>): Parsed<seq<T>> {
    match rest case Fail => Fail case Got(value, at) => Got(done + value, at)
  }

  lemma AfterNothing<T>(rest: Parsed<seq<T>>)
    ensures After([], rest) == rest
  {
    if rest.Got? { assert [] + rest.value == rest.value; }
  }

  lemma AfterEnd<T>(done: seq<T>, at: nat)
    ensures After(done, Got([], at)) == Got(done, at)
  {
    assert done + [] == done;
  }

  lemma AfterStep<T>(done: seq<T>, piece: seq<T>, rest: Parsed<seq<T>>)
    ensures After(done, After(piece, rest)) == After(done + piece, rest)
  {
    if rest.Got? { assert done + (piece + rest.value) == done + piece + rest.value; }
  }

  // ---- round trip

  /** The fields the file writes in eight bits really fit in eight bits. */
  ghost predicate Fits(table: Table) {
    && |table.words| < 0x8000 && |table.rows| < 0x1_0000_0000
    && (forall i :: 0 <= i < |table.words| ==> WordFits(table.words[i]))
    && (forall i :: 0 <= i < |table.rows| ==> RowFits(table.rows[i]))
  }

  ghost predicate WordFits(w: Word) { |w| <= 255 && forall i :: 0 <= i < |w| ==> w[i] < 128 }

  /** `data` continues with `field` at `at`. */
  ghost predicate Holds(data: seq<Byte>, at: nat, field: seq<Byte>) {
    at + |field| <= |data| && data[at..at + |field|] == field
  }

  lemma HoldsParts(data: seq<Byte>, at: nat, a: seq<Byte>, b: seq<Byte>)
    requires Holds(data, at, a + b)
    ensures Holds(data, at, a) && Holds(data, at + |a|, b)
  {
    var both := data[at..at + |a| + |b|];
    assert data[at..at + |a|] == both[..|a|] == a;
    assert data[at + |a|..at + |a| + |b|] == both[|a|..] == b;
  }

  lemma HoldsByte(data: seq<Byte>, at: nat, field: seq<Byte>, i: nat)
    requires Holds(data, at, field) && i < |field|
    ensures at + i < |data| && At(data, at + i) == field[i]
  {
    assert data[at..at + |field|][i] == data[at + i];
  }

  lemma ReadsU16(data: seq<Byte>, at: nat, v: nat)
    requires Holds(data, at, U16(v)) && v < 0x10000
    ensures ReadU16(data, at) == Got(v, at + 2)
  {
    HoldsByte(data, at, U16(v), 0);
    HoldsByte(data, at, U16(v), 1);
  }

  lemma ReadsU32(data: seq<Byte>, at: nat, v: nat)
    requires Holds(data, at, U32(v)) && v < 0x1_0000_0000
    ensures ReadU32(data, at) == Got(v, at + 4)
  {
    HoldsByte(data, at, U32(v), 0);
    HoldsByte(data, at, U32(v), 1);
    HoldsByte(data, at, U32(v), 2);
    HoldsByte(data, at, U32(v), 3);
  }

  lemma ReadsWord(data: seq<Byte>, at: nat, w: Word)
    requires Holds(data, at, WordBytes(w)) && WordFits(w)
    ensures ReadWord(data, at) == Got(w, at + |WordBytes(w)|)
  {
    HoldsByte(data, at, WordBytes(w), 0);
    HoldsParts(data, at, [Low(|w|)], Ascii(w));
    assert Ascii(w) == w;
  }

  lemma {:induction false} ReadsWords(data: seq<Byte>, at: nat, words: seq<Word>)
    requires Holds(data, at, WordsBytes(words)) && forall i :: 0 <= i < |words| ==> WordFits(words[i])
    ensures ReadWords(data, at, |words|) == Got(words, at + |WordsBytes(words)|)
    decreases |words|
  {
    if words != [] {
      var w, rest := words[0], words[1..];
      var next, end := at + |WordBytes(w)|, at + |WordBytes(w)| + |WordsBytes(rest)|;
      assert words == [w] + rest && WordsBytes(words) == WordBytes(w) + WordsBytes(rest);
      HoldsParts(data, at, WordBytes(w), WordsBytes(rest));
      ReadsWord(data, at, w);
      ReadsWords(data, next, rest);
      WordsCons(data, at, w, next, rest, end);
    }
  }

  lemma WordsCons(data: seq<Byte>, at: nat, w: Word, next: nat, rest: seq<Word>, end: nat)
    requires ReadWord(data, at) == Got(w, next) && ReadWords(data, next, |rest|) == Got(rest, end)
    ensures ReadWords(data, at, |rest| + 1) == Got([w] + rest, end)
  {
  }

  /** The text the decoder assembles, front to back. */
  ghost function Spell(words: seq<Word>, tokens: seq<nat>, first: bool): seq<nat>
    requires AllOk(words, tokens)
  {
    if tokens == [] then []
    else
      assert TokenOk(words, tokens[0]);
      Joined(tokens[0], first) + words[tokens[0] % 0x8000] + Spell(words, tokens[1..], false)
  }

  lemma {:induction false} SpellSnoc(words: seq<Word>, tokens: seq<nat>, t: nat, first: bool)
    requires AllOk(words, tokens) && TokenOk(words, t)
    ensures AllOk(words, tokens + [t])
    ensures Spell(words, tokens + [t], first)
         == Spell(words, tokens, first) + Joined(t, first && tokens == []) + words[t % 0x8000]
  {
    if tokens == [] {
      assert (tokens + [t])[1..] == [];
    } else {
      var rest := tokens[1..];
      assert (tokens + [t])[1..] == rest + [t];
      SpellSnoc(words, rest, t, false);
      assert TokenOk(words, tokens[0]);
      Regroup(Joined(tokens[0], first) + words[tokens[0] % 0x8000], Spell(words, rest, false), Joined(t, false), words[t % 0x8000]);
    }
  }

  lemma Regroup(a: seq<nat>, b: seq<nat>, c: seq<nat>, d: seq<nat>)
    ensures a + (b + c + d) == a + b + c + d
  {
  }

  lemma {:induction false} SpellIsRender(words: seq<Word>, tokens: seq<nat>)
    requires AllOk(words, tokens)
    ensures Spell(words, tokens, true) == Render(words, tokens)
  {
    if tokens != [] {
      var n := |tokens| - 1;
      SpellIsRender(words, tokens[..n]);
      SpellSnoc(words, tokens[..n], tokens[n], true);
      assert tokens == tokens[..n] + [tokens[n]];
    }
  }

  lemma {:induction false} ReadsTokens(data: seq<Byte>, words: seq<Word>, at: nat, tokens: seq<nat>, first: bool)
    requires Holds(data, at, TokensBytes(tokens)) && AllOk(words, tokens)
    ensures ReadTokens(data, words, at, |tokens|, first) == Got(Spell(words, tokens, first), at + |TokensBytes(tokens)|)
    decreases |tokens|
  {
    if tokens != [] {
      assert TokenOk(words, tokens[0]);
      HoldsParts(data, at, U16(tokens[0]), TokensBytes(tokens[1..]));
      ReadsU16(data, at, tokens[0]);
      ReadsTokens(data, words, at + 2, tokens[1..], false);
    }
  }

  ghost predicate RowFits(row: Row) { row.cp < 0x100_0000 && |row.tokens| <= 255 }

  function RowHead(row: Row): seq<Byte> {
    [Low(row.cp), Low(row.cp / 256), Low(row.cp / 0x10000), Low(|row.tokens|)]
  }

  lemma ReadsHead(data: seq<Byte>, at: nat, row: Row)
    requires Holds(data, at, RowHead(row)) && row.cp < 0x100_0000
    ensures at + 4 <= |data| && CodePointAt(data, at) == row.cp && At(data, at + 3) == |row.tokens| % 256
  {
    HoldsByte(data, at, RowHead(row), 0);
    HoldsByte(data, at, RowHead(row), 1);
    HoldsByte(data, at, RowHead(row), 2);
    HoldsByte(data, at, RowHead(row), 3);
  }

  lemma ReadsName(data: seq<Byte>, words: seq<Word>, at: nat, row: Row, e: Entry)
    requires Holds(data, at, RowBytes(row)) && RowFits(row) && RowSays(words, row, e)
    ensures ReadName(data, words, at) == Got(e, at + |RowBytes(row)|)
  {
    CutRowReads(data, words, at, row, |row.tokens|);
    assert row.tokens[..|row.tokens|] == row.tokens;
    SpellIsRender(words, row.tokens);
  }

  ghost predicate RowsSay(words: seq<Word>, rows: seq<Row>, names: seq<Entry>) {
    && |rows| == |names|
    && (rows != [] ==>
          RowFits(rows[0]) && RowSays(words, rows[0], names[0]) && RowsSay(words, rows[1..], names[1..]))
  }

  lemma {:induction false} RowsSayAll(words: seq<Word>, rows: seq<Row>, names: seq<Entry>)
    requires |rows| == |names|
    requires forall i :: 0 <= i < |rows| ==> RowFits(rows[i])
    requires forall i :: 0 <= i < |rows| ==> RowSays(words, rows[i], names[i])
    ensures RowsSay(words, rows, names)
    decreases |rows|
  {
    if rows != [] {
      assert forall i :: 0 <= i < |rows[1..]| ==> rows[1..][i] == rows[i + 1] && names[1..][i] == names[i + 1];
      RowsSayAll(words, rows[1..], names[1..]);
    }
  }

  lemma {:induction false} ReadsNames(data: seq<Byte>, words: seq<Word>, at: nat, rows: seq<Row>, names: seq<Entry>)
    requires RowsSay(words, rows, names) && Holds(data, at, RowsBytes(rows))
    ensures ReadNames(data, words, at, |rows|) == Got(names, at + |RowsBytes(rows)|)
    decreases |rows|
  {
    if rows != [] {
      var row, rest, name, others := rows[0], rows[1..], names[0], names[1..];
      var next, end := at + |RowBytes(row)|, at + |RowBytes(row)| + |RowsBytes(rest)|;
      assert names == [name] + others && |rest| == |rows| - 1 && RowsBytes(rows) == RowBytes(row) + RowsBytes(rest);
      HoldsParts(data, at, RowBytes(row), RowsBytes(rest));
      ReadsName(data, words, at, row, name);
      ReadsNames(data, words, next, rest, others);
      NamesCons(data, words, at, name, next, others, end);
    }
  }

  lemma NamesCons(data: seq<Byte>, words: seq<Word>, at: nat, e: Entry, next: nat, rest: seq<Entry>, end: nat)
    requires ReadName(data, words, at) == Got(e, next)
    requires ReadNames(data, words, next, |rest|) == Got(rest, end)
    ensures ReadNames(data, words, at, |rest| + 1) == Got([e] + rest, end)
  {
  }

  /** Where the four parts of the file lie. */
  lemma FileParts(table: Table)
    ensures var data, w := FileBytes(table), WordsBytes(table.words);
      && Holds(data, 0, U32(|table.words|)) && Holds(data, 4, w)
      && Holds(data, 4 + |w|, U32(|table.rows|)) && Holds(data, 8 + |w|, RowsBytes(table.rows))
  {
    FourParts(FileBytes(table), U32(|table.words|), WordsBytes(table.words), U32(|table.rows|), RowsBytes(table.rows));
  }

  lemma FourParts(data: seq<Byte>, n: seq<Byte>, w: seq<Byte>, m: seq<Byte>, r: seq<Byte>)
    requires data == n + w + m + r && |n| == |m| == 4
    ensures Holds(data, 0, n) && Holds(data, 4, w) && Holds(data, 4 + |w|, m) && Holds(data, 8 + |w|, r)
  {
    assert data == n + (w + (m + r));
    HoldsParts(data, 0, n, w + (m + r));
    HoldsParts(data, 4, w, m + r);
    HoldsParts(data, 4 + |w|, m, r);
  }

  lemma DecodesTo(data: seq<Byte>, nwords: nat, words: seq<Word>, at: nat, nnames: nat, names: seq<Entry>, end: nat)
    requires ReadU32(data, 0) == Got(nwords, 4) && ReadWords(data, 4, nwords) == Got(words, at)
    requires ReadU32(data, at) == Got(nnames, at + 4) && ReadNames(data, words, at + 4, nnames) == Got(names, end)
    ensures Decode(data) == Some(names)
  {
  }

  /** The dictionary and both counts are read back, whatever the rows hold. */
  lemma CountsRead(table: Table)
    requires |table.words| < 0x8000 && |table.rows| < 0x1_0000_0000
    requires forall i :: 0 <= i < |table.words| ==> WordFits(table.words[i])
    ensures var data, w := FileBytes(table), |WordsBytes(table.words)|;
      && ReadU32(data, 0) == Got(|table.words|, 4) && ReadWords(data, 4, |table.words|) == Got(table.words, 4 + w)
      && ReadU32(data, 4 + w) == Got(|table.rows|, 8 + w)
  {
    FileParts(table);
    PartsRead(FileBytes(table), table.words, |table.rows|, |WordsBytes(table.words)|);
  }

  lemma PartsRead(data: seq<Byte>, words: seq<Word>, rows: nat, w: nat)
    requires w == |WordsBytes(words)| && Holds(data, 0, U32(|words|)) && Holds(data, 4, WordsBytes(words)) && Holds(data, 4 + w, U32(rows))
    requires |words| < 0x8000 && rows < 0x1_0000_0000 && forall i :: 0 <= i < |words| ==> WordFits(words[i])
    ensures ReadU32(data, 0) == Got(|words|, 4) && ReadWords(data, 4, |words|) == Got(words, 4 + w)
    ensures ReadU32(data, 4 + w) == Got(rows, 8 + w)
  {
    ReadsU32(data, 0, |words|);
    ReadsWords(data, 4, words);
    ReadsU32(data, 4 + w, rows);
  }

  /** Decoding the file of any table gives back exactly the names it represents. */
  lemma RoundTrip(table: Table, names: seq<Entry>)
    requires Represents(table, names) && Fits(table)
    ensures Decode(FileBytes(table)) == Some(names)
  {
    RowsSayAll(table.words, table.rows, names);
    FileParts(table);
    PartsDecode(FileBytes(table), table.words, |WordsBytes(table.words)|, table.rows, names);
  }

  lemma PartsDecode(data: seq<Byte>, words: seq<Word>, w: nat, rows: seq<Row>, names: seq<Entry>)
    requires RowsSay(words, rows, names) && w == |WordsBytes(words)|
    requires Holds(data, 0, U32(|words|)) && Holds(data, 4, WordsBytes(words))
    requires Holds(data, 4 + w, U32(|rows|)) && Holds(data, 8 + w, RowsBytes(rows))
    requires |words| < 0x8000 && |rows| < 0x1_0000_0000 && forall i :: 0 <= i < |words| ==> WordFits(words[i])
    ensures Decode(data) == Some(names)
  {
    PartsRead(data, words, |rows|, w);
    RowsReadFrom(data, words, w, rows, names);
  }

  lemma RowsReadFrom(data: seq<Byte>, words: seq<Word>, w: nat, rows: seq<Row>, names: seq<Entry>)
    requires RowsSay(words, rows, names) && Holds(data, 8 + w, RowsBytes(rows))
    requires ReadU32(data, 0) == Got(|words|, 4) && ReadWords(data, 4, |words|) == Got(words, 4 + w)
    requires ReadU32(data, 4 + w) == Got(|rows|, 8 + w)
    ensures Decode(data) == Some(names)
  {
    ReadsNames(data, words, 8 + w, rows, names);
    DecodesTo(data, |words|, words, 4 + w, |rows|, names, 8 + w + |RowsBytes(rows)|);
  }

  // ---- which names fit

  ghost function Separators(text: seq<nat>): nat {
    if text == [] then 0 else (if IsSeparator(text[0]) then 1 else 0) + Separators(text[1..])
  }

  lemma {:induction false} SeparatorsConcat(a: seq<nat>, b: seq<nat>)
    ensures Separators(a + b) == Separators(a) + Separators(b)
  {
    if a == [] {
      assert a + b == b;
    } else {
      assert (a + b)[1..] == a[1..] + b;
      SeparatorsConcat(a[1..], b);
    }
  }

  ghost predicate NoSeparator(w: Word) { forall i :: 0 <= i < |w| ==> !IsSeparator(w[i]) }

  lemma {:induction false} NoSeparators(w: Word)
    requires NoSeparator(w)
    ensures Separators(w) == 0
  {
    if w != [] { NoSeparators(w[1..]); }
  }

  /** A rendered name has one separator fewer than tokens. */
  lemma {:induction false} TokensCountSeparators(words: seq<Word>, tokens: seq<nat>)
    requires AllOk(words, tokens) && tokens != []
    requires forall i :: 0 <= i < |words| ==> NoSeparator(words[i])
    ensures Separators(Render(words, tokens)) == |tokens| - 1
  {
    var n := |tokens| - 1;
    assert TokenOk(words, tokens[n]);
    var before, sep, w := Render(words, tokens[..n]), Joined(tokens[n], n == 0), words[tokens[n] % 0x8000];
    SeparatorsConcat(before + sep, w);
    SeparatorsConcat(before, sep);
    NoSeparators(w);
    if n > 0 {
      TokensCountSeparators(words, tokens[..n]);
      assert sep[1..] == [];
    }
  }

  /** What the eight-bit fields demand of the names themselves. */
  ghost predicate NamesFit(names: seq<Entry>) {
    && (forall w :: WordOfSome(names, w) ==> |w| <= 255)
    && (forall n :: 0 <= n < |names| ==> Separators(names[n].name) <= 254)
  }

  lemma WordsAreClean(table: Table, names: seq<Entry>)
    requires Represents(table, names) && forall n :: 0 <= n < |names| ==> Printable(names[n].name)
    ensures forall i :: 0 <= i < |table.words| ==> NoSeparator(table.words[i])
    ensures forall i, t :: 0 <= i < |table.words| && 0 <= t < |table.words[i]| ==> 0x20 < table.words[i][t] < 128
  {
    forall i | 0 <= i < |table.words|
      ensures NoSeparator(table.words[i]) && forall t :: 0 <= t < |table.words[i]| ==> 0x20 < table.words[i][t] < 128
    {
      assert table.words[i] in table.words;
      var n :| 0 <= n < |names| && WordOf(names[n].name, table.words[i]);
      var a, b :| Segment(names[n].name, a, b) && names[n].name[a..b] == table.words[i];
      forall t | 0 <= t < |table.words[i]| ensures IsWordChar(table.words[i][t]) {
        assert table.words[i][t] == names[n].name[a + t];
      }
    }
  }

  /** The table of printable names fits exactly when no word and no name is too long. */
  lemma FitsExactly(table: Table, names: seq<Entry>)
    requires Represents(table, names) && |table.words| < 0x8000 && |names| < 0x1_0000_0000
    requires forall n :: 0 <= n < |names| ==> Printable(names[n].name) && names[n].cp <= 0x10FFFF
    ensures Fits(table) <==> NamesFit(names)
  {
    WordsAreClean(table, names);
    forall n | 0 <= n < |names| ensures |table.rows[n].tokens| == Separators(names[n].name) + 1 {
      assert RowSays(table.words, table.rows[n], names[n]);
      TokensCountSeparators(table.words, table.rows[n].tokens);
    }
    if Fits(table) {
      forall n | 0 <= n < |names| ensures Separators(names[n].name) <= 254 { assert RowFits(table.rows[n]); }
      forall w | WordOfSome(names, w) ensures |w| <= 255 {
        var i :| 0 <= i < |table.words| && table.words[i] == w;
        assert WordFits(table.words[i]);
      }
    }
    if NamesFit(names) {
      forall i | 0 <= i < |table.words| ensures WordFits(table.words[i]) { assert table.words[i] in table.words; }
      forall n | 0 <= n < |table.rows| ensures RowFits(table.rows[n]) { assert RowSays(table.words, table.rows[n], names[n]); }
    }
  }

  // ---- only names that fit come back

  /** No separator-free stretch is longer than a length byte can say. */
  ghost predicate ShortRuns(text: seq<nat>) {
    forall i, j :: 0 <= i <= j <= |text| && Run(text, i, j) ==> j - i <= 255
  }

  ghost predicate Run(text: seq<nat>, i: int, j: int)
    requires 0 <= i <= j <= |text|
  {
    forall t :: i <= t < j ==> !IsSeparator(text[t])
  }

  lemma ShortRunsJoin(a: seq<nat>, b: seq<nat>)
    requires ShortRuns(a) && ShortRuns(b) && (b == [] || IsSeparator(b[0]))
    ensures ShortRuns(a + b)
  {
    var ab, n := a + b, |a|;
    assert b != [] ==> ab[n] == b[0];
    forall i, j | 0 <= i <= j <= |ab| && Run(ab, i, j) ensures j - i <= 255 {
      if j <= n {
        assert forall t :: i <= t < j ==> a[t] == ab[t];
        assert Run(a, i, j);
      } else if n <= i {
        assert forall t :: i - n <= t < j - n ==> b[t] == ab[t + n];
        assert Run(b, i - n, j - n);
      }
    }
  }

  lemma SmallIsShort(w: seq<nat>)
    requires |w| <= 255
    ensures ShortRuns(w)
  {
  }

  lemma SeparatorIsShort(sep: nat, text: seq<nat>)
    requires ShortRuns(text) && IsSeparator(sep)
    ensures ShortRuns([sep] + text)
  {
    var all := [sep] + text;
    assert IsSeparator(all[0]);
    forall i, j | 0 <= i <= j <= |all| && Run(all, i, j) ensures j - i <= 255 {
      if 0 < i {
        assert forall t :: i - 1 <= t < j - 1 ==> text[t] == all[t + 1];
        assert Run(text, i - 1, j - 1);
      }
    }
  }

  /** Whatever bytes it is read from, a decoded word is short. */
  lemma {:induction false} WordsReadShort(data: seq<Byte>, at: nat, n: nat)
    requires ReadWords(data, at, n).Got?
    ensures var ws := ReadWords(data, at, n).value; forall i :: 0 <= i < |ws| ==> |ws[i]| <= 255
    decreases n
  {
    if n > 0 {
      var w := ReadWord(data, at);
      WordsReadShort(data, w.at, n - 1);
    }
  }

  lemma {:induction false} TextReadShort(data: seq<Byte>, words: seq<Word>, at: nat, k: nat, first: bool)
    requires ReadTokens(data, words, at, k, first).Got? && forall i :: 0 <= i < |words| ==> |words[i]| <= 255
    ensures ShortRuns(ReadTokens(data, words, at, k, first).value)
    ensures !first && k > 0 ==> var text := ReadTokens(data, words, at, k, first).value; text != [] && IsSeparator(text[0])
    decreases k
  {
    if k > 0 {
      var tok := ReadU16(data, at);
      var w, rest := words[tok.value % 0x8000], ReadTokens(data, words, tok.at, k - 1, false);
      TextReadShort(data, words, tok.at, k - 1, false);
      SmallIsShort(w);
      ShortRunsJoin(w, rest.value);
      assert Joined(tok.value, first) + w + rest.value == Joined(tok.value, first) + (w + rest.value);
      if first {
        assert Joined(tok.value, first) + (w + rest.value) == w + rest.value;
      } else {
        SeparatorIsShort(Joined(tok.value, first)[0], w + rest.value);
      }
    }
  }

  lemma {:induction false} TextReadSeparators(data: seq<Byte>, words: seq<Word>, at: nat, k: nat, first: bool)
    requires ReadTokens(data, words, at, k, first).Got? && forall i :: 0 <= i < |words| ==> NoSeparator(words[i])
    ensures Separators(ReadTokens(data, words, at, k, first).value) <= if first && k > 0 then k - 1 else k
    decreases k
  {
    if k > 0 {
      var tok := ReadU16(data, at);
      var sep, w, rest := Joined(tok.value, first), words[tok.value % 0x8000], ReadTokens(data, words, tok.at, k - 1, false);
      TextReadSeparators(data, words, tok.at, k - 1, false);
      SeparatorsConcat(sep + w, rest.value);
      SeparatorsConcat(sep, w);
      NoSeparators(w);
      assert !first ==> sep[1..] == [];
    }
  }

  lemma {:induction false} NamesReadShort(data: seq<Byte>, words: seq<Word>, at: nat, n: nat)
    requires ReadNames(data, words, at, n).Got? && forall i :: 0 <= i < |words| ==> |words[i]| <= 255
    ensures var es := ReadNames(data, words, at, n).value; forall i :: 0 <= i < |es| ==> ShortRuns(es[i].name)
    decreases n
  {
    if n > 0 {
      var e := ReadName(data, words, at);
      TextReadShort(data, words, at + 4, At(data, at + 3), true);
      NamesReadShort(data, words, e.at, n - 1);
    }
  }

  lemma {:induction false} NamesReadSeparators(data: seq<Byte>, words: seq<Word>, at: nat, n: nat)
    requires ReadNames(data, words, at, n).Got? && forall i :: 0 <= i < |words| ==> NoSeparator(words[i])
    ensures var es := ReadNames(data, words, at, n).value; forall i :: 0 <= i < |es| ==> Separators(es[i].name) <= 254
    decreases n
  {
    if n > 0 {
      var e := ReadName(data, words, at);
      TextReadSeparators(data, words, at + 4, At(data, at + 3), true);
      NamesReadSeparators(data, words, e.at, n - 1);
    }
  }

  /** Whatever the file, no decoded name holds a word of more than 255 characters. */
  lemma DecodedWordsAreShort(data: seq<Byte>, names: seq<Entry>, w: Word)
    requires Decode(data) == Some(names) && WordOfSome(names, w)
    ensures |w| <= 255
  {
    var nwords := ReadU32(data, 0);
    var words := ReadWords(data, nwords.at, nwords.value);
    var nnames := ReadU32(data, words.at);
    WordsReadShort(data, nwords.at, nwords.value);
    NamesReadShort(data, words.value, nnames.at, nnames.value);
    var n :| 0 <= n < |names| && WordOf(names[n].name, w);
    var i, j :| Segment(names[n].name, i, j) && names[n].name[i..j] == w;
    assert Run(names[n].name, i, j);
  }

  /** Whatever the rows, no decoded name holds more separators than a count byte allows. */
  lemma DecodedNamesAreShort(table: Table, names: seq<Entry>)
    requires |table.words| < 0x8000 && |table.rows| < 0x1_0000_0000
    requires forall i :: 0 <= i < |table.words| ==> WordFits(table.words[i]) && NoSeparator(table.words[i])
    requires Decode(FileBytes(table)) == Some(names)
    ensures forall n :: 0 <= n < |names| ==> Separators(names[n].name) <= 254
  {
    CountsRead(table);
    NamesReadSeparators(FileBytes(table), table.words, 8 + |WordsBytes(table.words)|, |table.rows|);
  }

  /**
   Encoder and decoder meet: the file of printable names is decoded to exactly those names if
   and only if no word is over 255 characters and no name has over 254 separators.
   */
  lemma DecodesExactly(table: Table, names: seq<Entry>)
    requires Represents(table, names) && |table.words| < 0x8000 && |names| < 0x1_0000_0000
    requires forall n :: 0 <= n < |names| ==> Printable(names[n].name) && names[n].cp <= 0x10FFFF
    ensures Decode(FileBytes(table)) == Some(names) <==> NamesFit(names)
  {
    FitsExactly(table, names);
    if NamesFit(names) {
      RoundTrip(table, names);
    } else if Decode(FileBytes(table)) == Some(names) {
      forall w | WordOfSome(names, w) ensures |w| <= 255 { DecodedWordsAreShort(FileBytes(table), names, w); }
      WordsAreClean(table, names);
      forall i | 0 <= i < |table.words| ensures WordFits(table.words[i]) { assert table.words[i] in table.words; }
      DecodedNamesAreShort(table, names);
    }
  }

  // ---- what happens to names that do not fit

  lemma {:induction false} NamesTakeSpace(data: seq<Byte>, words: seq<Word>, at: nat, n: nat)
    requires ReadNames(data, words, at, n).Got? && n > 0
    ensures at + 4 * n <= |data|
    decreases n
  {
    var e := ReadName(data, words, at);
    TokensTakeSpace(data, words, at + 4, At(data, at + 3), true);
    if n > 1 { NamesTakeSpace(data, words, e.at, n - 1); }
  }

  lemma {:induction false} TokensTakeSpace(data: seq<Byte>, words: seq<Word>, at: nat, k: nat, first: bool)
    requires ReadTokens(data, words, at, k, first).Got?
    ensures at <= ReadTokens(data, words, at, k, first).at
    decreases k
  {
    if k > 0 { TokensTakeSpace(data, words, at + 2, k - 1, false); }
  }

  lemma OneWordFile(cp: nat, w: Word, token: nat)
    requires forall i :: 0 <= i < |w| ==> w[i] < 128
    ensures var data := FileBytes(Table([w], [Row(cp, [token])]));
      && |data| == |w| + 15 && ReadU32(data, 0) == Got(1, 4) && At(data, 4) == |w| % 256
      && forall i :: 0 <= i < |w| ==> At(data, 5 + i) == w[i]
  {
    var table := Table([w], [Row(cp, [token])]);
    var data := FileBytes(table);
    FileParts(table);
    ReadsU32(data, 0, 1);
    assert WordsBytes([w]) == WordBytes(w) by { assert WordsBytes([]) == []; }
    assert RowsBytes(table.rows) == RowBytes(table.rows[0]) by { assert RowsBytes([]) == []; }
    assert TokensBytes([token]) == U16(token) by { assert TokensBytes([]) == []; }
    HoldsByte(data, 4, WordBytes(w), 0);
    forall i | 0 <= i < |w| ensures At(data, 5 + i) == w[i] {
      HoldsByte(data, 4, WordBytes(w), i + 1);
      assert WordBytes(w)[i + 1] == Ascii(w)[i];
    }
  }

  /** Reading letters as a count asks for more names than the file can hold. */
  lemma LettersAreNoCount(data: seq<Byte>, words: seq<Word>, at: nat)
    requires at + 4 <= |data| < 0x8400_0000 && At(data, at + 3) > 0x20
    ensures var count := ReadU32(data, at); count.Got? && ReadNames(data, words, count.at, count.value).Fail?
  {
    var count := ReadU32(data, at);
    assert count.value >= 0x2100_0000;
    if ReadNames(data, words, count.at, count.value).Got? {
      NamesTakeSpace(data, words, count.at, count.value);
    }
  }

  /** Only the low byte of the length is there to read. */
  lemma ReadsShortWord(data: seq<Byte>, w: Word, n: nat)
    requires 256 <= |w| && n == |w| % 256 && |data| == |w| + 15 && At(data, 4) == n
    requires forall i :: 0 <= i < |w| ==> At(data, 5 + i) == w[i] < 128
    ensures ReadWord(data, 4) == Got(data[5..5 + n], 5 + n)
  {
    var short := data[5..5 + n];
    forall i | 0 <= i < |short| ensures short[i] < 128 {
      assert w[i] < 128;
      assert short[i] == At(data, 5 + i);
    }
  }

  lemma OneWord(data: seq<Byte>, at: nat, w: Word, next: nat)
    requires ReadWord(data, at) == Got(w, next)
    ensures ReadWords(data, at, 1) == Got([w] + [], next)
  {
    assert ReadWords(data, next, 0) == Got([], next);
  }

  lemma NoNames(data: seq<Byte>, words: seq<Word>, at: nat)
    requires ReadU32(data, 0) == Got(1, 4) && ReadWords(data, 4, 1) == Got(words, at)
    requires ReadU32(data, at).Got? && ReadNames(data, words, ReadU32(data, at).at, ReadU32(data, at).value).Fail?
    ensures Decode(data) == None
  {
  }

  /** A one-word name of 256 characters or more makes the whole file undecodable. */
  lemma LongWordIsFatal(cp: nat, w: Word, token: nat)
    requires 256 <= |w| < 0x8000_0000 && forall i :: 0 <= i < |w| ==> IsWordChar(w[i])
    ensures Decode(FileBytes(Table([w], [Row(cp, [token])]))) == None
  {
    OneWordFile(cp, w, token);
    LongWordData(FileBytes(Table([w], [Row(cp, [token])])), w);
  }

  lemma LongWordData(data: seq<Byte>, w: Word)
    requires 256 <= |w| < 0x8000_0000 && forall i :: 0 <= i < |w| ==> IsWordChar(w[i])
    requires |data| == |w| + 15 && ReadU32(data, 0) == Got(1, 4) && At(data, 4) == |w| % 256
    requires forall i :: 0 <= i < |w| ==> At(data, 5 + i) == w[i]
    ensures Decode(data) == None
  {
    var n := |w| % 256;
    ReadsShortWord(data, w, n);
    OneWord(data, 4, data[5..5 + n], 5 + n);
    assert At(data, 5 + (n + 3)) == w[n + 3];
    LettersAreNoCount(data, [data[5..5 + n]] + [], 5 + n);
    NoNames(data, [data[5..5 + n]] + [], 5 + n);
  }

  lemma {:induction false} TokensBytesSplit(tokens: seq<nat>, k: nat)
    requires k <= |tokens|
    ensures TokensBytes(tokens) == TokensBytes(tokens[..k]) + TokensBytes(tokens[k..])
  {
    if k == 0 {
      assert tokens[..0] == [] && tokens[0..] == tokens;
    } else {
      TokensBytesSplit(tokens[1..], k - 1);
      assert tokens[..k][1..] == tokens[1..][..k - 1] && tokens[1..][k - 1..] == tokens[k..];
      assert tokens[..k][0] == tokens[0];
    }
  }

  lemma OneName(data: seq<Byte>, words: seq<Word>, at: nat, e: Entry, next: nat)
    requires ReadName(data, words, at) == Got(e, next)
    ensures ReadNames(data, words, at, 1) == Got([e] + [], next)
  {
    assert ReadNames(data, words, next, 0) == Got([], next);
  }

  /** A name of 256 tokens or more comes back cut to its first `count mod 256` tokens. */
  lemma LongNameIsCut(words: seq<Word>, row: Row, e: Entry)
    requires |words| < 0x8000 && forall i :: 0 <= i < |words| ==> WordFits(words[i]) && NoSeparator(words[i])
    requires RowSays(words, row, e) && |row.tokens| >= 256 && row.cp < 0x100_0000
    ensures var got := Decode(FileBytes(Table(words, [row])));
      && got.Some? && |got.value| == 1 && got.value[0].cp == e.cp
      && Separators(got.value[0].name) < Separators(e.name)
  {
    var k := |row.tokens| % 256;
    RowAlone(words, row);
    CountsRead(Table(words, [row]));
    CutFile(FileBytes(Table(words, [row])), words, |WordsBytes(words)|, row, k);
    CutHasFewerSeparators(words, row.tokens, k);
  }

  lemma RowAlone(words: seq<Word>, row: Row)
    ensures Holds(FileBytes(Table(words, [row])), 8 + |WordsBytes(words)|, RowBytes(row))
  {
    FileParts(Table(words, [row]));
    assert RowsBytes([row]) == RowBytes(row) by { assert RowsBytes([]) == []; }
  }

  lemma OnlyName(data: seq<Byte>, words: seq<Word>, w: nat, e: Entry, next: nat)
    requires ReadU32(data, 0) == Got(|words|, 4) && ReadWords(data, 4, |words|) == Got(words, 4 + w)
    requires ReadU32(data, 4 + w) == Got(1, 8 + w) && ReadName(data, words, 8 + w) == Got(e, next)
    ensures Decode(data) == Some([e] + [])
  {
    OneName(data, words, 8 + w, e, next);
    DecodesTo(data, |words|, words, 4 + w, 1, [e] + [], next);
  }

  lemma CutFile(data: seq<Byte>, words: seq<Word>, w: nat, row: Row, k: nat)
    requires ReadU32(data, 0) == Got(|words|, 4) && ReadWords(data, 4, |words|) == Got(words, 4 + w)
    requires ReadU32(data, 4 + w) == Got(1, 8 + w) && Holds(data, 8 + w, RowBytes(row))
    requires AllOk(words, row.tokens) && row.cp < 0x100_0000 && k == |row.tokens| % 256
    ensures Decode(data) == Some([Entry(row.cp, Spell(words, row.tokens[..k], true))] + [])
  {
    CutRowReads(data, words, 8 + w, row, k);
    OnlyName(data, words, w, Entry(row.cp, Spell(words, row.tokens[..k], true)), 8 + w + 4 + |TokensBytes(row.tokens[..k])|);
  }

  lemma CutRowReads(data: seq<Byte>, words: seq<Word>, at: nat, row: Row, k: nat)
    requires Holds(data, at, RowBytes(row)) && k == |row.tokens| % 256
    requires AllOk(words, row.tokens) && row.cp < 0x100_0000
    ensures ReadName(data, words, at) == Got(Entry(row.cp, Spell(words, row.tokens[..k], true)), at + 4 + |TokensBytes(row.tokens[..k])|)
  {
    assert RowBytes(row) == RowHead(row) + TokensBytes(row.tokens);
    HoldsParts(data, at, RowHead(row), TokensBytes(row.tokens));
    ReadsHead(data, at, row);
    TokensBytesSplit(row.tokens, k);
    HoldsParts(data, at + 4, TokensBytes(row.tokens[..k]), TokensBytes(row.tokens[k..]));
    ReadsTokens(data, words, at + 4, row.tokens[..k], true);
  }

  lemma CutHasFewerSeparators(words: seq<Word>, tokens: seq<nat>, k: nat)
    requires AllOk(words, tokens) && k < |tokens| && |tokens| > 1
    requires forall i :: 0 <= i < |words| ==> NoSeparator(words[i])
    ensures Separators(Spell(words, tokens[..k], true)) < Separators(Render(words, tokens))
  {
    SpellIsRender(words, tokens[..k]);
    TokensCountSeparators(words, tokens);
    if k > 0 { TokensCountSeparators(words, tokens[..k]); }
  }
}
