/** Reading callgrind output: one cost per file, added up per benchmark. */
module IaiCollect {
  import opened Basics

  /** The lines of an output file that matter. */
  datatype Line = Events(names: seq<string>) | Totals(counts: seq<nat>) | Summary(counts: seq<nat>) | Other

  predicate IsCost(l: Line) { l.Totals? || l.Summary? }

  /** The event names in force after the first `k` lines. */
  function EventsAt(lines: seq<Line>, k: nat): seq<string>
    requires k <= |lines|
  {
    if k == 0 then [] else if lines[k - 1].Events? then lines[k - 1].names else EventsAt(lines, k - 1)
  }

  /** The last `totals:` line (or, with `totals` false, the last `summary:` line) among the first `k`. */
  function LastCost(lines: seq<Line>, totals: bool, k: nat): Option<seq<nat>>
    requires k <= |lines|
  {
    if k == 0 then None
    else if (if totals then lines[k - 1].Totals? else lines[k - 1].Summary?) then Some(lines[k - 1].counts)
    else LastCost(lines, totals, k - 1)
  }

  /** Some cost line comes before any event names. */
  ghost predicate Premature(lines: seq<Line>, k: nat)
    requires k <= |lines|
  {
    exists i :: 0 <= i < k && IsCost(lines[i]) && EventsAt(lines, i) == []
  }

  function IrIndex(events: seq<string>): (i: nat)
    ensures "Ir" in events ==> i < |events| && events[i] == "Ir" && "Ir" !in events[..i]
    ensures "Ir" !in events ==> i == 0
  {
    if "Ir" !in events then 0
    else if events[0] == "Ir" then 0
    else
      assert events == [events[0]] + events[1..];
      assert forall j: nat :: j < |events| - 1 ==> events[..j + 1] == [events[0]] + events[1..][..j];
      1 + IrIndex(events[1..])
  }

  /** The line that decides: `totals:` when there is one, else `summary:`. */
  function Authoritative(lines: seq<Line>): Option<seq<nat>> {
    var t := LastCost(lines, true, |lines|);
    if t != None then t else LastCost(lines, false, |lines|)
  }

  method ParseOutFile(lines: seq<Line>) returns (r: Result<nat, string>)
    ensures r.Err? <==> Premature(lines, |lines|) || Degenerate(lines)
    ensures r.Ok? ==> r.value == Cost(lines)
  {
    var events: seq<string> := [];
    var totals: Option<seq<nat>>, summary: Option<seq<nat>> := None, None;
    for k := 0 to |lines|
      invariant events == EventsAt(lines, k) && !Premature(lines, k)
      invariant totals == LastCost(lines, true, k) && summary == LastCost(lines, false, k)
    {
      match lines[k]
      case Events(names) => events := names;
      case Totals(counts) =>
        if events == [] { return Err("totals before events"); }
        totals := Some(counts);
      case Summary(counts) =>
        if events == [] { return Err("summary before events"); }
        summary := Some(counts);
      case Other =>
    }
    var idx := IrIndex(events);
    var line := if totals != None then totals else summary;
    if line == None { return Ok(0); }
    if line.value == [0] { return Ok(0); }
    if |line.value| == |events| && idx < |events| { return Ok(line.value[idx]); }
    return Err("degenerate cost line");
  }

  /** The deciding line is neither the bare zero nor as wide as the events. */
  predicate Degenerate(lines: seq<Line>) {
    var line := Authoritative(lines);
    line != None && line.value != [0] &&
    (|line.value| != |EventsAt(lines, |lines|)| || IrIndex(EventsAt(lines, |lines|)) >= |line.value|)
  }

  function Cost(lines: seq<Line>): nat
    requires !Degenerate(lines)
  {
    var line := Authoritative(lines);
    if line == None || line.value == [0] then 0 else line.value[IrIndex(EventsAt(lines, |lines|))]
  }

  /** The readings that count as nothing: no cost line, the bare zero, or zero instructions at full width. */
  predicate NothingCollected(lines: seq<Line>) {
    var line := Authoritative(lines);
    || line == None || line.value == [0]
    || (|line.value| == |EventsAt(lines, |lines|)| && IrIndex(EventsAt(lines, |lines|)) < |line.value|
        && line.value[IrIndex(EventsAt(lines, |lines|))] == 0)
  }

  // ---- adding up

  /** One output file: its benchmark and thread come from the path. */
  datatype File = File(bench: string, thread: nat, lines: seq<Line>)

  datatype Entry = Entry(instructions: nat, mainThread: nat, otherThreads: nat, threads: nat)

  predicate Readable(f: File) { !Degenerate(f.lines) }

  predicate AllReadable(files: seq<File>) { forall i :: 0 <= i < |files| ==> Readable(files[i]) }

  /** The cost of a benchmark's files, those of one kind of thread or all. */
  function SumOf(files: seq<File>, bench: string, thread: File -> bool): nat
    requires AllReadable(files)
  {
    if files == [] then 0
    else
      var last := files[|files| - 1];
      SumOf(files[..|files| - 1], bench, thread) + (if last.bench == bench && thread(last) then Cost(last.lines) else 0)
  }

  function CountOf(files: seq<File>, bench: string): nat {
    if files == [] then 0 else CountOf(files[..|files| - 1], bench) + (if files[|files| - 1].bench == bench then 1 else 0)
  }

  function OnMain(f: File): bool { f.thread == 1 }

  function OnWorker(f: File): bool { f.thread != 1 }

  function OnAny(f: File): bool { true }

  /** What the entry of a benchmark must be after these files. */
  function EntryOf(files: seq<File>, bench: string): Entry
    requires AllReadable(files)
  {
    Entry(SumOf(files, bench, OnAny), SumOf(files, bench, OnMain), SumOf(files, bench, OnWorker), CountOf(files, bench))
  }

  /** The dictionary holds an entry for each benchmark that has a file, adding up its files. */
  ghost predicate Tallied(benches: map<string, Entry>, files: seq<File>) {
    && AllReadable(files)
    && (forall b :: b in benches <==> CountOf(files, b) > 0)
    && (forall b :: b in benches ==> benches[b] == EntryOf(files, b))
  }

  function Charge(e: Entry, f: File, ir: nat): Entry {
    var counted := e.(instructions := e.instructions + ir, threads := e.threads + 1);
    if f.thread == 1 then counted.(mainThread := counted.mainThread + ir)
    else counted.(otherThreads := counted.otherThreads + ir)
  }

  lemma EntryMore(files: seq<File>, f: File, bench: string)
    requires AllReadable(files) && Readable(f)
    ensures AllReadable(files + [f])
    ensures EntryOf(files + [f], bench) ==
      if f.bench == bench then Charge(EntryOf(files, bench), f, Cost(f.lines)) else EntryOf(files, bench)
    ensures CountOf(files + [f], bench) == CountOf(files, bench) + if f.bench == bench then 1 else 0
  {
    var more := files + [f];
    assert more[..|more| - 1] == files;
  }

  lemma TalliedMore(benches: map<string, Entry>, files: seq<File>, f: File)
    requires Tallied(benches, files) && Readable(f)
    ensures var entry := if f.bench in benches then benches[f.bench] else Entry(0, 0, 0, 0);
      Tallied(benches[f.bench := Charge(entry, f, Cost(f.lines))], files + [f])
  {
    var entry := if f.bench in benches then benches[f.bench] else Entry(0, 0, 0, 0);
    NoFilesNoCost(files, f.bench);
    var next := benches[f.bench := Charge(entry, f, Cost(f.lines))];
    forall b ensures (b in next <==> CountOf(files + [f], b) > 0) && AllReadable(files + [f]) {
      EntryMore(files, f, b);
    }
    forall b | b in next ensures next[b] == EntryOf(files + [f], b) {
      EntryMore(files, f, b);
    }
  }

  /** Parsing the file raises. */
  ghost predicate Unreadable(f: File) { Premature(f.lines, |f.lines|) || Degenerate(f.lines) }

  /** Every benchmark that has a file has an entry, and every entry adds up its own files. */
  method Collect(files: seq<File>) returns (r: Result<map<string, Entry>, string>)
    ensures r.Err? <==> exists i :: 0 <= i < |files| && Unreadable(files[i])
    ensures r.Ok? ==> Tallied(r.value, files)
  {
    var benches: map<string, Entry> := map[];
    for k := 0 to |files|
      invariant forall i :: 0 <= i < k ==> !Unreadable(files[i])
      invariant Tallied(benches, files[..k])
    {
      var f := files[k];
      var ir := ParseOutFile(f.lines);
      if ir.Err? {
        assert Unreadable(files[k]);
        return Err(ir.error);
      }
      assert files[..k + 1] == files[..k] + [f];
      TalliedMore(benches, files[..k], f);
      var entry := if f.bench in benches then benches[f.bench] else Entry(0, 0, 0, 0);
      benches := benches[f.bench := Charge(entry, f, ir.value)];
    }
    assert files[..|files|] == files;
    r := Ok(benches);
  }

  lemma {:induction false} NoFilesNoCost(files: seq<File>, bench: string)
    requires AllReadable(files)
    ensures CountOf(files, bench) == 0 ==> EntryOf(files, bench) == Entry(0, 0, 0, 0)
  {
    if files != [] { NoFilesNoCost(files[..|files| - 1], bench); }
  }

  /** A benchmark's total is its main thread plus its workers. */
  lemma {:induction false} TotalIsMainPlusWorkers(files: seq<File>, bench: string)
    requires AllReadable(files)
    ensures EntryOf(files, bench).instructions == EntryOf(files, bench).mainThread + EntryOf(files, bench).otherThreads
  {
    if files != [] { TotalIsMainPlusWorkers(files[..|files| - 1], bench); }
  }

  /** A total of zero means that every file of the benchmark collected nothing. */
  lemma {:induction false} ZeroMeansNothingCollected(files: seq<File>, bench: string)
    requires AllReadable(files)
    ensures EntryOf(files, bench).instructions == 0
      <==> forall i :: 0 <= i < |files| && files[i].bench == bench ==> NothingCollected(files[i].lines)
  {
    if files != [] {
      var front, last := files[..|files| - 1], files[|files| - 1];
      ZeroMeansNothingCollected(front, bench);
      assert Cost(last.lines) == 0 <==> NothingCollected(last.lines);
      assert forall i :: 0 <= i < |front| ==> front[i] == files[i];
      assert files[|front|] == last;
    }
  }
}
