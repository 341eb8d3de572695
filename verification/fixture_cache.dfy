/**
 The benchmark fixture cache: download beside the destination, verify, rename; verify what is
 cached; delete what is corrupt. The disk keeps a ghost history of every state it passes
 through, so that a claim about each state of the history is a claim about a crash at any point.
 */
module FixtureCache {
  import opened Basics

  type Bytes = seq<nat>

  /** `file` is the last component of the pinned path. */
  datatype Entry = Entry(name: string, revision: string, file: string, algo: string, digest: string, bytes: nat)

  /** A file of the cache: `<root>/<name>/<revision>/<file>`. */
  datatype Key = Key(name: string, revision: string, file: string)

  type Files = map<Key, Bytes>

  /** What is outside: the digest functions, the rendering of a receipt, the process id. */
  datatype Env = Env(digest: (string, Bytes) -> string, receipt: Entry -> Bytes, pid: string)

  /** One answer of the server, with the free space found before asking. */
  datatype Reply = Reply(free: nat, connected: bool, status: nat, contentType: string, encoding: string,
                         declared: Option<int>, blocks: seq<Bytes>, whole: bool)

  function Dest(e: Entry): Key { Key(e.name, e.revision, e.file) }

  function Receipt(e: Entry): Key { Key(e.name, e.revision, "receipt.json") }

  function Temp(e: Entry, env: Env): Key { Key(e.name, e.revision, "." + e.file + ".part." + env.pid) }

  predicate Verified(env: Env, e: Entry, content: Bytes) {
    |content| == e.bytes && env.digest(e.algo, content) == e.digest
  }

  datatype Verdict = Matches | Absent | WrongSize | WrongDigest

  function VerifyFile(env: Env, files: Files, k: Key, e: Entry): (v: Verdict)
    ensures v == Matches <==> k in files && Verified(env, e, files[k])
    ensures v == Absent <==> k !in files
  {
    if k !in files then Absent
    else if |files[k]| != e.bytes then WrongSize
    else if env.digest(e.algo, files[k]) != e.digest then WrongDigest
    else Matches
  }

  function Concat(blocks: seq<Bytes>): Bytes {
    if blocks == [] then [] else Concat(blocks[..|blocks| - 1]) + blocks[|blocks| - 1]
  }

  predicate HeadersGood(e: Entry, r: Reply) {
    && r.connected && r.status == 200
    && r.contentType != "text/html" && r.contentType != "application/xhtml+xml"
    && r.encoding == ""
    && (r.declared == None || r.declared == Some(e.bytes))
  }

  /** The answers that a download accepts. */
  predicate Serves(env: Env, e: Entry, r: Reply) {
    r.free >= 2 * e.bytes && HeadersGood(e, r) && r.whole && Verified(env, e, Concat(r.blocks))
  }

  // ---- the disk

  class Disk {
    var files: Files
    ghost var history: seq<Files>

    ghost predicate Valid() reads this { history != [] && history[|history| - 1] == files }

    constructor (initial: Files)
      ensures Valid() && files == initial && history == [initial]
    {
      files := initial;
      history := [initial];
    }

    method Write(k: Key, content: Bytes)
      requires Valid()
      modifies this
      ensures Valid() && files == old(files)[k := content] && history == old(history) + [files]
    {
      files := files[k := content];
      history := history + [files];
    }

    method Remove(k: Key)
      requires Valid()
      modifies this
      ensures Valid() && files == old(files) - {k} && history == old(history) + [files]
    {
      files := files - {k};
      history := history + [files];
    }

    /** The atomic rename. */
    method Rename(from: Key, to: Key)
      requires Valid() && from in files && from != to
      modifies this
      ensures Valid() && files == old(files)[to := old(files)[from]] - {from} && history == old(history) + [files]
    {
      files := files[to := files[from]] - {from};
      history := history + [files];
    }
  }

  // ---- the operations

  /** No entry writes its receipt over its own data. */
  predicate NoClash(manifest: seq<Entry>) {
    forall i :: 0 <= i < |manifest| ==> manifest[i].file != "receipt.json"
  }

  /** What loading the manifest has checked. */
  predicate DistinctNames(manifest: seq<Entry>) {
    forall i, j :: 0 <= i < j < |manifest| ==> manifest[i].name != manifest[j].name
  }

  lemma TempIsOther(e: Entry, env: Env)
    ensures Temp(e, env) != Dest(e) && Temp(e, env) != Receipt(e)
  {
    assert |Temp(e, env).file| > |e.file|;
    assert Temp(e, env).file[0] == '.';
  }

  lemma {:induction false} ConcatTake(blocks: seq<Bytes>, i: nat)
    requires i < |blocks|
    ensures Concat(blocks[..i + 1]) == Concat(blocks[..i]) + blocks[i]
  {
    assert blocks[..i + 1][..i] == blocks[..i];
  }

  /** The disk states of a stream into file `k` after `n` blocks: created empty, then longer block by block. */
  function StreamStates(files: Files, k: Key, blocks: seq<Bytes>, n: nat): seq<Files>
    requires n <= |blocks|
  {
    if n == 0 then [files[k := []]] else StreamStates(files, k, blocks, n - 1) + [files[k := Concat(blocks[..n])]]
  }

  /** Stream into the temporary file. */
  method Stream(disk: Disk, k: Key, blocks: seq<Bytes>) returns (written: nat)
    requires disk.Valid()
    modifies disk
    ensures disk.Valid() && disk.files == old(disk.files)[k := Concat(blocks)] && written == |Concat(blocks)|
    ensures disk.history == old(disk.history) + StreamStates(old(disk.files), k, blocks, |blocks|)
  {
    ghost var was := disk.files;
    disk.Write(k, []);
    written := 0;
    for i := 0 to |blocks|
      invariant disk.Valid() && disk.files == was[k := Concat(blocks[..i])] && written == |Concat(blocks[..i])|
      invariant disk.history == old(disk.history) + StreamStates(was, k, blocks, i)
    {
      ConcatTake(blocks, i);
      disk.Write(k, disk.files[k] + blocks[i]);
      assert disk.files == was[k := Concat(blocks[..i + 1])];
      written := written + |blocks[i]|;
    }
    assert blocks[..|blocks|] == blocks;
  }

  /** What a download leaves behind. */
  function Downloaded(env: Env, files: Files, e: Entry, r: Reply): Files {
    if r.free < e.bytes * 2 then files
    else if Serves(env, e, r) then files[Dest(e) := Concat(r.blocks)] - {Temp(e, env)}
    else files - {Temp(e, env)}
  }

  /** The disk states a download passes through: the stream, the rename, the removal of the temporary file. */
  function DownloadStates(env: Env, files: Files, e: Entry, r: Reply): seq<Files> {
    if r.free < e.bytes * 2 then []
    else
      (if HeadersGood(e, r) then StreamStates(files, Temp(e, env), r.blocks, |r.blocks|) else [])
      + (if Serves(env, e, r) then [Downloaded(env, files, e, r)] else [])
      + [Downloaded(env, files, e, r)]
  }

  /** The checks on an answer, one after the other. */
  method CheckAnswer(e: Entry, r: Reply) returns (good: bool)
    ensures good == HeadersGood(e, r)
  {
    if !r.connected { return false; }
    if r.status != 200 { return false; }
    if r.contentType == "text/html" { return false; }
    if r.contentType == "application/xhtml+xml" { return false; }
    if r.encoding != "" { return false; }
    if r.declared != None {
      if r.declared.value != e.bytes { return false; }
    }
    return true;
  }

  method Download(disk: Disk, env: Env, e: Entry, r: Reply) returns (ok: bool)
    requires disk.Valid()
    modifies disk
    ensures disk.Valid() && ok == Serves(env, e, r)
    ensures disk.files == Downloaded(env, old(disk.files), e, r)
    ensures disk.history == old(disk.history) + DownloadStates(env, old(disk.files), e, r)
  {
    if r.free < e.bytes * 2 { return false; }
    TempIsOther(e, env);
    var tmp := Temp(e, env);
    ok := false;
    var good := CheckAnswer(e, r);
    if good {
      var written := Stream(disk, tmp, r.blocks);
      if r.whole && written == e.bytes && VerifyFile(env, disk.files, tmp, e) == Matches {
        disk.Rename(tmp, Dest(e));
        assert disk.files == Downloaded(env, old(disk.files), e, r);
        ok := true;
      }
    }
    disk.Remove(tmp);
    assert disk.files == Downloaded(env, old(disk.files), e, r);
  }

  /** Whether an entry is reported as verified. */
  predicate Okay(env: Env, files: Files, e: Entry, r: Reply, network: bool) {
    match VerifyFile(env, files, Dest(e), e)
    case Matches => true
    case Absent => network && Serves(env, e, r)
    case _ => false
  }

  /** What handling an entry leaves on the disk. */
  function Settled(env: Env, files: Files, e: Entry, r: Reply, network: bool): Files {
    match VerifyFile(env, files, Dest(e), e)
    case Matches => files[Receipt(e) := env.receipt(e)]
    case Absent =>
      if !network then files
      else if Serves(env, e, r) then Downloaded(env, files, e, r)[Receipt(e) := env.receipt(e)]
      else Downloaded(env, files, e, r)
    case _ => files - {Dest(e)}
  }

  /** A receipt is written in place: empty first, then its text. */
  function ReceiptStates(env: Env, files: Files, e: Entry): seq<Files> {
    [files[Receipt(e) := []], files[Receipt(e) := env.receipt(e)]]
  }

  /** Every disk state that handling an entry passes through. */
  function HandleStates(env: Env, files: Files, e: Entry, r: Reply, network: bool): seq<Files> {
    match VerifyFile(env, files, Dest(e), e)
    case Matches => ReceiptStates(env, files, e)
    case Absent =>
      if !network then []
      else if !Serves(env, e, r) then DownloadStates(env, files, e, r)
      else DownloadStates(env, files, e, r) + ReceiptStates(env, Downloaded(env, files, e, r), e)
    case _ => [files - {Dest(e)}]
  }

  lemma DownloadedMatches(env: Env, files: Files, e: Entry, r: Reply)
    requires Serves(env, e, r)
    ensures VerifyFile(env, Downloaded(env, files, e, r), Dest(e), e) == Matches
  {
    TempIsOther(e, env);
  }

  method WriteReceipt(disk: Disk, env: Env, e: Entry)
    requires disk.Valid()
    modifies disk
    ensures disk.Valid() && disk.files == old(disk.files)[Receipt(e) := env.receipt(e)]
    ensures disk.history == old(disk.history) + ReceiptStates(env, old(disk.files), e)
  {
    disk.Write(Receipt(e), []);
    disk.Write(Receipt(e), env.receipt(e));
    assert disk.files == old(disk.files)[Receipt(e) := env.receipt(e)];
  }

  /** One turn of the loop. */
  method Handle(disk: Disk, env: Env, e: Entry, r: Reply, network: bool) returns (ok: bool)
    requires disk.Valid()
    modifies disk
    ensures disk.Valid() && ok == Okay(env, old(disk.files), e, r, network)
    ensures disk.files == Settled(env, old(disk.files), e, r, network)
    ensures disk.history == old(disk.history) + HandleStates(env, old(disk.files), e, r, network)
  {
    var verdict := VerifyFile(env, disk.files, Dest(e), e);
    if verdict == Absent && network {
      var got := Download(disk, env, e, r);
      if !got { return false; }
      DownloadedMatches(env, old(disk.files), e, r);
      verdict := VerifyFile(env, disk.files, Dest(e), e);
    }
    if verdict != Matches {
      if verdict != Absent { disk.Remove(Dest(e)); }
      return false;
    }
    WriteReceipt(disk, env, e);
    ok := true;
  }

  /** The disk after the first `k` entries. */
  function After(env: Env, files: Files, entries: seq<Entry>, replies: seq<Reply>, network: bool, k: nat): Files
    requires k <= |entries| == |replies|
  {
    if k == 0 then files
    else Settled(env, After(env, files, entries, replies, network, k - 1), entries[k - 1], replies[k - 1], network)
  }

  predicate OkayAt(env: Env, files: Files, entries: seq<Entry>, replies: seq<Reply>, network: bool, k: nat)
    requires k < |entries| == |replies|
  {
    Okay(env, After(env, files, entries, replies, network, k), entries[k], replies[k], network)
  }

  /** The results of the first `k` entries. */
  function Outcomes(env: Env, files: Files, entries: seq<Entry>, replies: seq<Reply>, network: bool, k: nat): seq<bool>
    requires k <= |entries| == |replies|
  {
    if k == 0 then [] else Outcomes(env, files, entries, replies, network, k - 1) + [OkayAt(env, files, entries, replies, network, k - 1)]
  }

  lemma {:induction false} OutcomesPointwise(env: Env, files: Files, entries: seq<Entry>, replies: seq<Reply>, network: bool, k: nat)
    requires k <= |entries| == |replies|
    ensures |Outcomes(env, files, entries, replies, network, k)| == k
    ensures forall i :: 0 <= i < k ==> Outcomes(env, files, entries, replies, network, k)[i] == OkayAt(env, files, entries, replies, network, i)
  {
    if k > 0 { OutcomesPointwise(env, files, entries, replies, network, k - 1); }
  }

  /** Every disk state the first `k` entries pass through, in order. */
  function RunStates(env: Env, files: Files, entries: seq<Entry>, replies: seq<Reply>, network: bool, k: nat): seq<Files>
    requires k <= |entries| == |replies|
  {
    if k == 0 then [] else
      RunStates(env, files, entries, replies, network, k - 1)
      + HandleStates(env, After(env, files, entries, replies, network, k - 1), entries[k - 1], replies[k - 1], network)
  }

  lemma RunOneMore(env: Env, files: Files, entries: seq<Entry>, replies: seq<Reply>, network: bool, k: nat, before: seq<Files>)
    requires k < |entries| == |replies|
    ensures before + RunStates(env, files, entries, replies, network, k)
              + HandleStates(env, After(env, files, entries, replies, network, k), entries[k], replies[k], network)
         == before + RunStates(env, files, entries, replies, network, k + 1)
  {
  }

  /** A whole run: its exit code and results, the disk it leaves, and every state the disk passes through. */
  method RunFetch(disk: Disk, env: Env, entries: seq<Entry>, replies: seq<Reply>, network: bool) returns (code: nat, results: seq<bool>)
    requires disk.Valid() && |replies| == |entries|
    modifies disk
    ensures disk.Valid() && disk.files == After(env, old(disk.files), entries, replies, network, |entries|)
    ensures results == Outcomes(env, old(disk.files), entries, replies, network, |entries|)
    ensures code == 0 <==> false !in results
    ensures disk.history == old(disk.history) + RunStates(env, old(disk.files), entries, replies, network, |entries|)
  {
    results := [];
    var failed := false;
    ghost var was := disk.files;
    for k := 0 to |entries|
      invariant disk.Valid() && disk.files == After(env, was, entries, replies, network, k)
      invariant results == Outcomes(env, was, entries, replies, network, k)
      invariant failed <==> false in results
      invariant disk.history == old(disk.history) + RunStates(env, was, entries, replies, network, k)
    {
      var ok := Handle(disk, env, entries[k], replies[k], network);
      RunOneMore(env, was, entries, replies, network, k, old(disk.history));
      results := results + [ok];
      if !ok { failed := true; }
    }
    code := if failed then 1 else 0;
  }

  // ---- crash safety

  /**
   What a destination may become: what it was, nothing, or a file that matches its pin. A
   fixture that is itself called `receipt.json` is left out; see ReceiptOverwritesFixture.
   */
  ghost predicate Sound(env: Env, e: Entry, was: Files, now: Files) {
    || e.file == "receipt.json"
    || Dest(e) !in now
    || (Dest(e) in was && was[Dest(e)] == now[Dest(e)])
    || Verified(env, e, now[Dest(e)])
  }

  ghost predicate SoundAll(env: Env, manifest: seq<Entry>, was: Files, now: Files) {
    forall i :: 0 <= i < |manifest| ==> Sound(env, manifest[i], was, now)
  }

  ghost predicate AllSound(env: Env, manifest: seq<Entry>, was: Files, states: seq<Files>) {
    forall i :: 0 <= i < |states| ==> SoundAll(env, manifest, was, states[i])
  }

  lemma SoundTransitively(env: Env, manifest: seq<Entry>, a: Files, b: Files, c: Files)
    requires SoundAll(env, manifest, a, b) && SoundAll(env, manifest, b, c)
    ensures SoundAll(env, manifest, a, c)
  {
    forall i | 0 <= i < |manifest| ensures Sound(env, manifest[i], a, c) {
      assert Sound(env, manifest[i], a, b) && Sound(env, manifest[i], b, c);
    }
  }

  lemma AllSoundLater(env: Env, manifest: seq<Entry>, a: Files, b: Files, states: seq<Files>)
    requires SoundAll(env, manifest, a, b) && AllSound(env, manifest, b, states)
    ensures AllSound(env, manifest, a, states)
  {
    forall i | 0 <= i < |states| ensures SoundAll(env, manifest, a, states[i]) { SoundTransitively(env, manifest, a, b, states[i]); }
  }

  lemma AllSoundConcat(env: Env, manifest: seq<Entry>, was: Files, s: seq<Files>, t: seq<Files>)
    requires AllSound(env, manifest, was, s) && AllSound(env, manifest, was, t)
    ensures AllSound(env, manifest, was, s + t)
  {
  }

  /** Two entries of a manifest share a directory only if they are one. */
  lemma SameName(manifest: seq<Entry>, e: Entry, f: Entry)
    requires DistinctNames(manifest) && e in manifest && f in manifest && e.name == f.name
    ensures e == f
  {
    var i :| 0 <= i < |manifest| && manifest[i] == e;
    var j :| 0 <= j < |manifest| && manifest[j] == f;
  }

  /** A change confined to files of `e` that are not its destination, or that makes the destination absent or verified. */
  lemma ChangeIsSound(env: Env, manifest: seq<Entry>, was: Files, now: Files, e: Entry)
    requires e in manifest && DistinctNames(manifest)
    requires forall k: Key :: k.name != e.name ==> (k in now <==> k in was) && (k in was ==> now[k] == was[k])
    requires Sound(env, e, was, now)
    ensures SoundAll(env, manifest, was, now)
  {
    forall i | 0 <= i < |manifest| ensures Sound(env, manifest[i], was, now) {
      if manifest[i].name == e.name { SameName(manifest, e, manifest[i]); }
    }
  }

  lemma ReceiptIsSound(env: Env, manifest: seq<Entry>, files: Files, e: Entry)
    requires e in manifest && DistinctNames(manifest)
    ensures AllSound(env, manifest, files, ReceiptStates(env, files, e))
  {
    ChangeIsSound(env, manifest, files, files[Receipt(e) := []], e);
    ChangeIsSound(env, manifest, files, files[Receipt(e) := env.receipt(e)], e);
  }

  lemma {:induction false} StreamIsSound(env: Env, manifest: seq<Entry>, files: Files, e: Entry, blocks: seq<Bytes>, n: nat)
    requires e in manifest && DistinctNames(manifest) && n <= |blocks|
    ensures AllSound(env, manifest, files, StreamStates(files, Temp(e, env), blocks, n))
  {
    TempIsOther(e, env);
    if n == 0 {
      ChangeIsSound(env, manifest, files, files[Temp(e, env) := []], e);
    } else {
      StreamIsSound(env, manifest, files, e, blocks, n - 1);
      ChangeIsSound(env, manifest, files, files[Temp(e, env) := Concat(blocks[..n])], e);
    }
  }

  lemma DownloadIsSound(env: Env, manifest: seq<Entry>, files: Files, e: Entry, r: Reply)
    requires e in manifest && DistinctNames(manifest)
    ensures AllSound(env, manifest, files, DownloadStates(env, files, e, r)) && SoundAll(env, manifest, files, Downloaded(env, files, e, r))
  {
    TempIsOther(e, env);
    StreamIsSound(env, manifest, files, e, r.blocks, |r.blocks|);
    ChangeIsSound(env, manifest, files, Downloaded(env, files, e, r), e);
  }

  /** Every disk state that handling an entry passes through is sound against the state it began in. */
  lemma HandleIsSound(env: Env, manifest: seq<Entry>, files: Files, e: Entry, r: Reply, network: bool)
    requires e in manifest && DistinctNames(manifest)
    ensures AllSound(env, manifest, files, HandleStates(env, files, e, r, network))
    ensures SoundAll(env, manifest, files, Settled(env, files, e, r, network))
  {
    match VerifyFile(env, files, Dest(e), e)
    case Matches =>
      ReceiptIsSound(env, manifest, files, e);
      assert ReceiptStates(env, files, e)[1] == Settled(env, files, e, r, network);
    case Absent =>
      var down := Downloaded(env, files, e, r);
      DownloadIsSound(env, manifest, files, e, r);
      if network && Serves(env, e, r) {
        ReceiptIsSound(env, manifest, down, e);
        AllSoundLater(env, manifest, files, down, ReceiptStates(env, down, e));
        AllSoundConcat(env, manifest, files, DownloadStates(env, files, e, r), ReceiptStates(env, down, e));
        assert ReceiptStates(env, down, e)[1] == Settled(env, files, e, r, network);
      }
    case _ =>
      ChangeIsSound(env, manifest, files, files - {Dest(e)}, e);
  }

  lemma {:induction false} RunIsSound(env: Env, manifest: seq<Entry>, files: Files, entries: seq<Entry>, replies: seq<Reply>, network: bool, k: nat)
    requires k <= |entries| == |replies| && DistinctNames(manifest)
    requires forall i :: 0 <= i < |entries| ==> entries[i] in manifest
    ensures AllSound(env, manifest, files, RunStates(env, files, entries, replies, network, k))
    ensures SoundAll(env, manifest, files, After(env, files, entries, replies, network, k))
  {
    if k > 0 {
      var now, e, r := After(env, files, entries, replies, network, k - 1), entries[k - 1], replies[k - 1];
      RunIsSound(env, manifest, files, entries, replies, network, k - 1);
      HandleIsSound(env, manifest, now, e, r, network);
      AllSoundLater(env, manifest, files, now, HandleStates(env, now, e, r, network));
      SoundTransitively(env, manifest, files, now, Settled(env, now, e, r, network));
      AllSoundConcat(env, manifest, files, RunStates(env, files, entries, replies, network, k - 1), HandleStates(env, now, e, r, network));
    }
  }

  // ---- many runs

  /** One invocation: the process, what it selects, what the server answers, with or without the network. */
  datatype Session = Session(pid: string, entries: seq<Entry>, replies: seq<Reply>, network: bool)

  /** The run, finished or killed after any number of disk operations, can leave this behind. */
  ghost predicate MayLeave(env: Env, s: Session, was: Files, now: Files) {
    && |s.entries| == |s.replies|
    && (now == was || now in RunStates(env.(pid := s.pid), was, s.entries, s.replies, s.network, |s.entries|))
  }

  /** A run begun here may leave what it found, and any state it passes through. */
  lemma RunMayLeave(env: Env, s: Session, was: Files, i: nat)
    requires |s.entries| == |s.replies| && i < |RunStates(env.(pid := s.pid), was, s.entries, s.replies, s.network, |s.entries|)|
    ensures MayLeave(env, s, was, was)
    ensures MayLeave(env, s, was, RunStates(env.(pid := s.pid), was, s.entries, s.replies, s.network, |s.entries|)[i])
  {
  }

  /** Each state is one that a run, finished or crashed, left of the state before it. */
  ghost predicate Succession(env: Env, manifest: seq<Entry>, sessions: seq<Session>, states: seq<Files>) {
    && |states| == |sessions| + 1
    && forall i :: 0 <= i < |sessions| ==> Selects(sessions[i], manifest) && MayLeave(env, sessions[i], states[i], states[i + 1])
  }

  ghost predicate Selects(s: Session, manifest: seq<Entry>) {
    forall i :: 0 <= i < |s.entries| ==> s.entries[i] in manifest
  }

  lemma SessionIsSound(env: Env, manifest: seq<Entry>, s: Session, was: Files, now: Files)
    requires DistinctNames(manifest) && Selects(s, manifest) && MayLeave(env, s, was, now)
    ensures SoundAll(env, manifest, was, now)
  {
    var own := env.(pid := s.pid);
    RunIsSound(own, manifest, was, s.entries, s.replies, s.network, |s.entries|);
    if now != was {
      var states := RunStates(own, was, s.entries, s.replies, s.network, |s.entries|);
      var i :| 0 <= i < |states| && states[i] == now;
      forall j | 0 <= j < |manifest| ensures Sound(env, manifest[j], was, now) { assert Sound(own, manifest[j], was, now); }
    }
  }

  lemma {:induction false} SessionsStaySound(env: Env, manifest: seq<Entry>, sessions: seq<Session>, states: seq<Files>, k: nat)
    requires DistinctNames(manifest) && Succession(env, manifest, sessions, states) && k < |states|
    ensures SoundAll(env, manifest, states[0], states[k])
  {
    if k > 0 {
      SessionsStaySound(env, manifest, sessions, states, k - 1);
      SessionIsSound(env, manifest, sessions[k - 1], states[k - 1], states[k]);
      SoundTransitively(env, manifest, states[0], states[k - 1], states[k]);
    }
  }

  /**
   From an empty cache, over any number of runs, each finished or killed between any two disk
   operations, each destination is absent or matches its pin.
   */
  lemma AbsentOrVerified(env: Env, manifest: seq<Entry>, sessions: seq<Session>, states: seq<Files>, k: nat, e: Entry)
    requires DistinctNames(manifest) && Succession(env, manifest, sessions, states) && k < |states| && states[0] == map[]
    requires e in manifest && e.file != "receipt.json"
    ensures Dest(e) in states[k] ==> Verified(env, e, states[k][Dest(e)])
  {
    SessionsStaySound(env, manifest, sessions, states, k);
    var i :| 0 <= i < |manifest| && manifest[i] == e;
    assert Sound(env, manifest[i], states[0], states[k]);
  }

  // ---- what the exit code means

  lemma OtherEntryUntouched(env: Env, files: Files, e: Entry, r: Reply, network: bool, k: Key)
    requires k.name != e.name
    ensures k in Settled(env, files, e, r, network) <==> k in files
    ensures k in files ==> Settled(env, files, e, r, network)[k] == files[k]
  {
  }

  lemma {:induction false} EarlierUntouched(env: Env, files: Files, entries: seq<Entry>, replies: seq<Reply>, network: bool, k: nat, d: Key)
    requires k <= |entries| == |replies| && forall i :: 0 <= i < k ==> entries[i].name != d.name
    ensures d in After(env, files, entries, replies, network, k) <==> d in files
    ensures d in files ==> After(env, files, entries, replies, network, k)[d] == files[d]
  {
    if k > 0 {
      EarlierUntouched(env, files, entries, replies, network, k - 1, d);
      OtherEntryUntouched(env, After(env, files, entries, replies, network, k - 1), entries[k - 1], replies[k - 1], network, d);
    }
  }

  /**
   With each name selected once, the outcome of an entry depends on nothing but its own file
   and its own answer: entries do not disturb one another.
   */
  lemma EntriesAreIndependent(env: Env, files: Files, entries: seq<Entry>, replies: seq<Reply>, network: bool, k: nat)
    requires k < |entries| == |replies| && DistinctNames(entries)
    ensures OkayAt(env, files, entries, replies, network, k) == Okay(env, files, entries[k], replies[k], network)
  {
    EarlierUntouched(env, files, entries, replies, network, k, Dest(entries[k]));
  }

  lemma SettledMatches(env: Env, files: Files, e: Entry, r: Reply, network: bool)
    requires Okay(env, files, e, r, network) && e.file != "receipt.json"
    ensures VerifyFile(env, Settled(env, files, e, r, network), Dest(e), e) == Matches
  {
    TempIsOther(e, env);
  }

  lemma {:induction false} VerifiedStays(env: Env, files: Files, entries: seq<Entry>, replies: seq<Reply>, network: bool,
                                         manifest: seq<Entry>, e: Entry, j: nat, k: nat)
    requires j <= k <= |entries| == |replies| && e in manifest && NoClash(manifest) && DistinctNames(manifest)
    requires forall i :: 0 <= i < |entries| ==> entries[i] in manifest
    requires VerifyFile(env, After(env, files, entries, replies, network, j), Dest(e), e) == Matches
    ensures VerifyFile(env, After(env, files, entries, replies, network, k), Dest(e), e) == Matches
    decreases k - j
  {
    if j < k {
      VerifiedStays(env, files, entries, replies, network, manifest, e, j, k - 1);
      var now := After(env, files, entries, replies, network, k - 1);
      if entries[k - 1].name == e.name {
        SameName(manifest, e, entries[k - 1]);
        assert Okay(env, now, e, replies[k - 1], network);
        SettledMatches(env, now, e, replies[k - 1], network);
      } else {
        OtherEntryUntouched(env, now, entries[k - 1], replies[k - 1], network, Dest(e));
      }
    }
  }

  /** Exit code 0 means that at the end every selected file is present and matches its pin. */
  lemma ExitZeroMeansVerified(env: Env, files: Files, entries: seq<Entry>, replies: seq<Reply>, network: bool, manifest: seq<Entry>)
    requires |entries| == |replies| && NoClash(manifest) && DistinctNames(manifest)
    requires forall i :: 0 <= i < |entries| ==> entries[i] in manifest
    requires false !in Outcomes(env, files, entries, replies, network, |entries|)
    ensures forall k :: 0 <= k < |entries| ==>
      VerifyFile(env, After(env, files, entries, replies, network, |entries|), Dest(entries[k]), entries[k]) == Matches
  {
    OutcomesPointwise(env, files, entries, replies, network, |entries|);
    forall k | 0 <= k < |entries|
      ensures VerifyFile(env, After(env, files, entries, replies, network, |entries|), Dest(entries[k]), entries[k]) == Matches
    {
      assert OkayAt(env, files, entries, replies, network, k);
      SettledMatches(env, After(env, files, entries, replies, network, k), entries[k], replies[k], network);
      VerifiedStays(env, files, entries, replies, network, manifest, entries[k], k + 1, |entries|);
    }
  }

  /** With each name selected once, exit code 0 is decided by the files at the start and the answers alone. */
  lemma ExitZeroExactly(env: Env, files: Files, entries: seq<Entry>, replies: seq<Reply>, network: bool)
    requires |entries| == |replies| && DistinctNames(entries)
    ensures false !in Outcomes(env, files, entries, replies, network, |entries|)
      <==> forall k :: 0 <= k < |entries| ==> Okay(env, files, entries[k], replies[k], network)
  {
    OutcomesPointwise(env, files, entries, replies, network, |entries|);
    forall k | 0 <= k < |entries|
      ensures Outcomes(env, files, entries, replies, network, |entries|)[k] == Okay(env, files, entries[k], replies[k], network)
    {
      EntriesAreIndependent(env, files, entries, replies, network, k);
    }
  }

  /**
   Without the guard on the file name the claim fails: a fixture named `receipt.json` is
   overwritten by its own receipt and still reported as verified. It ends verified exactly
   when the receipt happens to match the pin.
   */
  lemma ReceiptOverwritesFixture(env: Env, files: Files, e: Entry, r: Reply, network: bool)
    requires Okay(env, files, e, r, network)
    ensures VerifyFile(env, Settled(env, files, e, r, network), Dest(e), e) == Matches
      <==> e.file != "receipt.json" || Verified(env, e, env.receipt(e))
  {
    if e.file != "receipt.json" { SettledMatches(env, files, e, r, network); } else { assert Dest(e) == Receipt(e); }
  }

  lemma ReceiptClashExample() returns (env: Env, files: Files, e: Entry, r: Reply)
    ensures Okay(env, files, e, r, false)
    ensures VerifyFile(env, Settled(env, files, e, r, false), Dest(e), e) == WrongSize
  {
    env := Env((algo, content) => "d", entry => [123, 125], "7");
    e := Entry("x", "r", "receipt.json", "sha256", "d", 1);
    files := map[Dest(e) := [0]];
    r := Reply(0, false, 0, "", "", None, [], false);
  }

  // ---- repair

  /** No destination of these entries holds anything but a verified file. */
  ghost predicate Clean(env: Env, files: Files, entries: seq<Entry>, k: nat)
    requires k <= |entries|
  {
    forall i :: 0 <= i < k ==> Dest(entries[i]) in files ==> Verified(env, entries[i], files[Dest(entries[i])])
  }

  ghost predicate AllServed(env: Env, entries: seq<Entry>, replies: seq<Reply>) {
    |entries| == |replies| && forall i :: 0 <= i < |entries| ==> Serves(env, entries[i], replies[i])
  }

  /** Handling one entry cleans its own destination and spoils no other. */
  lemma SettledCleans(env: Env, files: Files, entries: seq<Entry>, e: Entry, r: Reply, network: bool, manifest: seq<Entry>, k: nat)
    requires DistinctNames(manifest) && NoClash(manifest) && e in manifest && k <= |entries|
    requires forall i :: 0 <= i < |entries| ==> entries[i] in manifest
    requires Clean(env, files, entries, k)
    ensures Clean(env, Settled(env, files, e, r, network), entries, k)
    ensures Dest(e) in Settled(env, files, e, r, network) ==> Verified(env, e, Settled(env, files, e, r, network)[Dest(e)])
  {
    var next := Settled(env, files, e, r, network);
    if Okay(env, files, e, r, network) { SettledMatches(env, files, e, r, network); }
    forall i | 0 <= i < k && Dest(entries[i]) in next ensures Verified(env, entries[i], next[Dest(entries[i])]) {
      if entries[i].name == e.name {
        SameName(manifest, e, entries[i]);
      } else {
        OtherEntryUntouched(env, files, e, r, network, Dest(entries[i]));
      }
    }
  }

  lemma {:induction false} RunCleans(env: Env, files: Files, entries: seq<Entry>, replies: seq<Reply>, network: bool, manifest: seq<Entry>, k: nat)
    requires k <= |entries| == |replies| && DistinctNames(manifest) && NoClash(manifest)
    requires forall i :: 0 <= i < |entries| ==> entries[i] in manifest
    ensures Clean(env, After(env, files, entries, replies, network, k), entries, k)
    ensures Clean(env, files, entries, |entries|) ==> Clean(env, After(env, files, entries, replies, network, k), entries, |entries|)
  {
    if k > 0 {
      RunCleans(env, files, entries, replies, network, manifest, k - 1);
      var now := After(env, files, entries, replies, network, k - 1);
      SettledCleans(env, now, entries, entries[k - 1], replies[k - 1], network, manifest, k - 1);
      if Clean(env, files, entries, |entries|) {
        SettledCleans(env, now, entries, entries[k - 1], replies[k - 1], network, manifest, |entries|);
      }
    }
  }

  /**
   From any state of the cache, whatever the first run met, a second run against a server that
   sends the pinned bytes verifies every selected fixture.
   */
  lemma SecondRunRepairs(env: Env, files: Files, entries: seq<Entry>, first: seq<Reply>, second: seq<Reply>, network: bool, manifest: seq<Entry>)
    requires |entries| == |first| && AllServed(env, entries, second)
    requires DistinctNames(manifest) && NoClash(manifest) && forall i :: 0 <= i < |entries| ==> entries[i] in manifest
    ensures false !in Outcomes(env, After(env, files, entries, first, network, |entries|), entries, second, true, |entries|)
  {
    var between := After(env, files, entries, first, network, |entries|);
    RunCleans(env, files, entries, first, network, manifest, |entries|);
    OutcomesPointwise(env, between, entries, second, true, |entries|);
    forall k | 0 <= k < |entries| ensures OkayAt(env, between, entries, second, true, k) {
      RunCleans(env, between, entries, second, true, manifest, k);
    }
  }
}
