/**
 The prepared ONNX Runtime cache: a resumable download, a pinned checksum, an archive that may
 hold one library and nothing else, and a directory that is published by one rename. As with
 the fixture cache, the destination keeps a ghost history of every state it passes through.
 */
module OrtCache {
  import opened Basics

  type Bytes = seq<nat>

  const LIBRARY: string := "libonnxruntime.a"

  // ---- the download loop

  /** One call of the transfer tool: what it appended to the output, and its exit code. */
  datatype Call = Call(chunk: Bytes, code: nat)

  /** The output file before call `k`; a server that cannot resume has it deleted. */
  function Output(calls: seq<Call>, k: nat): Option<Bytes>
    requires k <= |calls|
  {
    if k == 0 then None
    else if calls[k - 1].code == 33 || calls[k - 1].code == 36 then None
    else Some(Content(Output(calls, k - 1)) + calls[k - 1].chunk)
  }

  function Content(f: Option<Bytes>): Bytes { if f == None then [] else f.value }

  /** No call before `k` succeeded. */
  predicate FailedBefore(calls: seq<Call>, k: nat)
    requires k <= |calls|
  {
    forall i :: 0 <= i < k ==> calls[i].code != 0
  }

  /** The loop stops at the first success, else after all attempts. */
  method Download(calls: seq<Call>) returns (output: Option<Bytes>, used: nat, ok: bool)
    ensures used <= |calls| && output == Output(calls, used)
    ensures ok ==> 0 < used && calls[used - 1].code == 0 && FailedBefore(calls, used - 1)
    ensures !ok ==> used == |calls| && FailedBefore(calls, used)
  {
    output := None;
    for attempt := 0 to |calls|
      invariant output == Output(calls, attempt) && FailedBefore(calls, attempt)
    {
      var result := calls[attempt];
      output := Some(Content(output) + result.chunk);
      if result.code == 0 { return output, attempt + 1, true; }
      if result.code == 33 || result.code == 36 { output := None; }
    }
    return output, |calls|, false;
  }

  /**
   The server sends the body from the offset it is asked for, possibly cut short; the tool
   reports success only once the whole body has arrived.
   */
  ghost predicate Honest(calls: seq<Call>, body: Bytes) {
    forall k :: 0 <= k < |calls| ==> HonestAt(calls, body, k)
  }

  ghost predicate HonestAt(calls: seq<Call>, body: Bytes, k: nat)
    requires k < |calls|
  {
    HonestCall(Content(Output(calls, k)), calls[k], body)
  }

  ghost predicate HonestCall(have: Bytes, c: Call, body: Bytes) {
    && (have <= body ==> have + c.chunk <= body)
    && (have <= body && c.code == 0 ==> have + c.chunk == body)
  }

  /** However often it was interrupted, the file is a beginning of the body. */
  lemma {:induction false} OutputIsPrefix(calls: seq<Call>, body: Bytes, k: nat)
    requires Honest(calls, body) && k <= |calls|
    ensures Content(Output(calls, k)) <= body
    ensures 0 < k && calls[k - 1].code == 0 ==> Output(calls, k) == Some(body)
  {
    if k > 0 {
      OutputIsPrefix(calls, body, k - 1);
      assert HonestAt(calls, body, k - 1);
    }
  }

  // ---- extraction

  datatype Member = Member(name: string, isFile: bool, content: Bytes)

  /** The archives that extract: exactly one regular file, the library. */
  predicate OnlyLibrary(members: seq<Member>) {
    |members| == 1 && members[0].name == LIBRARY && members[0].isFile
  }

  method Extract(members: seq<Member>) returns (library: Option<Bytes>)
    ensures library != None <==> OnlyLibrary(members)
    ensures library != None ==> library.value == members[0].content
  {
    library := None;
    for i := 0 to |members|
      invariant i == 0 ==> library == None
      invariant i > 0 ==> i == 1 && OnlyLibrary(members[..1]) && library == Some(members[0].content)
    {
      if members[i].name != LIBRARY || !members[i].isFile { return None; }
      // Exclusive creation fails on a second member of the same name.
      if library != None { return None; }
      library := Some(members[i].content);
    }
  }

  // ---- the published directory

  datatype Meta = Meta(archive: string, library: string)

  /** A directory; `meta` is the parsed metadata file, `None` when missing or unreadable. */
  datatype Dir = Dir(meta: Option<Meta>, library: Option<Bytes>, others: set<string>)

  datatype Env = Env(sha: Bytes -> string, unpack: Bytes -> Option<seq<Member>>)

  predicate CacheValid(env: Env, dest: Option<Dir>, digest: string) {
    match dest
    case Some(Dir(Some(m), Some(lib), _)) => m.archive == digest && m.library == env.sha(lib)
    case _ => false
  }

  /** The validity test as it is made: a missing directory, metadata or library is invalid, and so is either sum that differs. */
  method CheckCache(env: Env, dest: Option<Dir>, digest: string) returns (valid: bool)
    ensures valid == CacheValid(env, dest, digest)
  {
    if dest == None { return false; }
    if dest.value.meta == None { return false; }
    if dest.value.meta.value.archive != digest { return false; }
    if dest.value.library == None { return false; }
    if dest.value.meta.value.library != env.sha(dest.value.library.value) { return false; }
    return true;
  }

  /** What is left of a directory while it is being removed. */
  ghost predicate Remnant(part: Dir, whole: Dir) {
    && (part.meta == None || part.meta == whole.meta)
    && (part.library == None || part.library == whole.library)
    && part.others <= whole.others
  }

  lemma RemnantStaysInvalid(env: Env, part: Dir, whole: Dir, digest: string)
    requires Remnant(part, whole) && !CacheValid(env, Some(whole), digest)
    ensures !CacheValid(env, Some(part), digest)
  {
    match whole
    case Dir(Some(m), Some(lib), _) =>
    case _ =>
  }

  class Destination {
    var dir: Option<Dir>
    ghost var history: seq<Option<Dir>>

    ghost predicate Valid() reads this { history != [] && history[|history| - 1] == dir }

    constructor (initial: Option<Dir>)
      ensures Valid() && dir == initial && history == [initial]
    {
      dir := initial;
      history := [initial];
    }

    method Set(d: Option<Dir>)
      requires Valid()
      modifies this
      ensures Valid() && dir == d && history == old(history) + [d]
    {
      dir := d;
      history := history + [d];
    }
  }

  /** Each state since `from` is the old directory, a remnant of it, or nothing. */
  ghost predicate OnlyRemnants(history: seq<Option<Dir>>, from: nat, was: Dir) {
    forall i :: from <= i < |history| ==> history[i] == None || Remnant(history[i].value, was)
  }

  /** Recursive removal, file by file, in whatever order the system lists them. */
  method RemoveTree(dest: Destination)
    requires dest.Valid() && dest.dir != None
    modifies dest
    ensures dest.Valid() && dest.dir == None && |old(dest.history)| <= |dest.history|
    ensures dest.history[..|old(dest.history)|] == old(dest.history)
    ensures OnlyRemnants(dest.history, |old(dest.history)|, old(dest.dir).value)
  {
    var d := dest.dir.value;
    ghost var was, from := d, |dest.history|;
    while d != Dir(None, None, {})
      invariant dest.Valid() && Remnant(d, was) && dest.dir == Some(d)
      invariant from <= |dest.history| && dest.history[..from] == old(dest.history)
      invariant OnlyRemnants(dest.history, from, was)
      decreases if d.meta == None then 0 else 1, if d.library == None then 0 else 1, |d.others|
    {
      if {
        case d.meta != None => d := d.(meta := None);
        case d.library != None => d := d.(library := None);
        case d.others != {} =>
          var x :| x in d.others;
          d := d.(others := d.others - {x});
      }
      dest.Set(Some(d));
    }
    dest.Set(None);
  }

  /** What a successful preparation publishes. */
  function Published(env: Env, digest: string, library: Bytes): Dir {
    Dir(Some(Meta(digest, env.sha(library))), Some(library), {})
  }

  /** Call `n - 1` is the first success and what it leaves is the pinned archive of one library. */
  ghost predicate Obtained(env: Env, digest: string, calls: seq<Call>, n: nat) {
    && 0 < n <= |calls| && calls[n - 1].code == 0 && FailedBefore(calls, n - 1)
    && env.sha(Content(Output(calls, n))) == digest
    && env.unpack(Content(Output(calls, n))) != None
    && OnlyLibrary(env.unpack(Content(Output(calls, n))).value)
  }

  /** Download, check the pin, unpack. */
  method Obtain(env: Env, digest: string, calls: seq<Call>) returns (library: Option<Bytes>, ghost used: nat)
    ensures library != None <==> exists n :: Obtained(env, digest, calls, n)
    ensures library != None ==>
      Obtained(env, digest, calls, used) && library.value == env.unpack(Content(Output(calls, used))).value[0].content
  {
    var output, n, done := Download(calls);
    used := n;
    assert forall m :: Obtained(env, digest, calls, m) ==> done && m == n;
    if !done { return None, n; }
    if env.sha(Content(output)) != digest { return None, n; }
    var members := env.unpack(Content(output));
    if members == None { return None, n; }
    library := Extract(members.value);
    assert OnlyLibrary(members.value) <==> Obtained(env, digest, calls, n);
  }

  /** One preparation: the pin, and what the transfer tool does. */
  datatype Session = Session(digest: string, calls: seq<Call>)

  /** The library of the pinned archive, if the session gets it. */
  ghost predicate Yields(env: Env, s: Session, library: Bytes) {
    exists n :: Obtained(env, s.digest, s.calls, n) && library == env.unpack(Content(Output(s.calls, n))).value[0].content
  }

  lemma YieldsOne(env: Env, s: Session, library: Bytes, other: Bytes)
    requires Yields(env, s, library) && Yields(env, s, other)
    ensures library == other
  {
    var n: nat :| Obtained(env, s.digest, s.calls, n) && library == env.unpack(Content(Output(s.calls, n))).value[0].content;
    var m: nat :| Obtained(env, s.digest, s.calls, m) && other == env.unpack(Content(Output(s.calls, m))).value[0].content;
  }

  /**
   What the preparation, finished, failed or killed between any two disk operations, can leave
   of a destination: the destination itself; or, if that was not valid and the library was
   obtained, part of it, nothing, or the finished entry.
   */
  ghost predicate MayLeave(env: Env, s: Session, was: Option<Dir>, now: Option<Dir>) {
    now == was ||
    (!CacheValid(env, was, s.digest) && exists library :: Yields(env, s, library) && PartOrDone(env, s, library, was, now))
  }

  ghost predicate PartOrDone(env: Env, s: Session, library: Bytes, was: Option<Dir>, now: Option<Dir>) {
    || now == None || now == Some(Published(env, s.digest, library))
    || (was != None && Remnant(now.value, was.value))
  }

  /** No state since `from` that passes the validity test is anything but the finished entry. */
  ghost predicate NothingHalfDone(env: Env, digest: string, history: seq<Option<Dir>>, from: nat, final: Option<Dir>) {
    forall i :: from <= i < |history| && CacheValid(env, history[i], digest) ==> history[i] == final
  }

  /**
   A valid entry is left alone. Otherwise the entry is replaced, and whenever the preparation
   stops, at a failure or by a crash, the destination is valid only if it is the finished entry.
   */
  method Prepare(dest: Destination, env: Env, digest: string, calls: seq<Call>) returns (ok: bool, ghost used: nat)
    requires dest.Valid()
    modifies dest
    ensures dest.Valid()
    ensures ok ==> CacheValid(env, dest.dir, digest)
    ensures CacheValid(env, old(dest.dir), digest) ==> ok && dest.dir == old(dest.dir) && dest.history == old(dest.history)
    ensures !ok ==> dest.dir == old(dest.dir) && dest.history == old(dest.history)
    ensures !CacheValid(env, old(dest.dir), digest) ==> (ok <==> exists n :: Obtained(env, digest, calls, n))
    ensures ok && !CacheValid(env, old(dest.dir), digest) ==>
      && Obtained(env, digest, calls, used)
      && dest.dir == Some(Published(env, digest, env.unpack(Content(Output(calls, used))).value[0].content))
    ensures |old(dest.history)| <= |dest.history|
    ensures NothingHalfDone(env, digest, dest.history, |old(dest.history)|, dest.dir)
    ensures forall i :: |old(dest.history)| <= i < |dest.history| ==> MayLeave(env, Session(digest, calls), old(dest.dir), dest.history[i])
  {
    used := 0;
    var valid := CheckCache(env, dest.dir, digest);
    if valid { return true, 0; }
    var library: Option<Bytes>;
    library, used := Obtain(env, digest, calls);
    if library == None { return false, used; }
    ghost var from := |dest.history|;
    ghost var session := Session(digest, calls);
    assert Yields(env, session, library.value);
    if dest.dir != None {
      ghost var was := dest.dir.value;
      RemoveTree(dest);
      forall i | from <= i < |dest.history| ensures !CacheValid(env, dest.history[i], digest) {
        if dest.history[i] != None { RemnantStaysInvalid(env, dest.history[i].value, was, digest); }
      }
    }
    var metadata := Meta(digest, env.sha(library.value));
    dest.Set(Some(Dir(Some(metadata), library, {})));
    ok := true;
  }

  /**
   Against an honest server whose body is the pinned archive, a call that succeeds in time
   yields the library of exactly that archive, however the transfer was interrupted.
   */
  lemma HonestServerIsPublished(env: Env, digest: string, calls: seq<Call>, body: Bytes, used: nat)
    requires Honest(calls, body) && env.sha(body) == digest && env.unpack(body) != None && OnlyLibrary(env.unpack(body).value)
    requires 0 < used <= |calls| && calls[used - 1].code == 0 && FailedBefore(calls, used - 1)
    ensures Obtained(env, digest, calls, used) && Content(Output(calls, used)) == body
  {
    OutputIsPrefix(calls, body, used);
  }

  // ---- many preparations

  /** Each state is one that a preparation, finished or not, left of the state before it. */
  ghost predicate Succession(env: Env, sessions: seq<Session>, states: seq<Option<Dir>>) {
    && |states| == |sessions| + 1
    && forall i :: 0 <= i < |sessions| ==> MayLeave(env, sessions[i], states[i], states[i + 1])
  }

  /** The directory is, in whole or in part, what one of these sessions published. */
  ghost predicate From(env: Env, sessions: seq<Session>, dir: Dir) {
    exists j, library ::
      && 0 <= j < |sessions| && Yields(env, sessions[j], library)
      && Remnant(dir, Published(env, sessions[j].digest, library))
  }

  lemma FromMore(env: Env, sessions: seq<Session>, s: Session, was: Dir, now: Dir)
    requires From(env, sessions, was) && Remnant(now, was)
    ensures From(env, sessions + [s], now)
  {
    var j, library :| 0 <= j < |sessions| && Yields(env, sessions[j], library)
      && Remnant(was, Published(env, sessions[j].digest, library));
    assert (sessions + [s])[j] == sessions[j];
    assert Remnant(now, Published(env, sessions[j].digest, library));
  }

  lemma SessionLeavesFrom(env: Env, sessions: seq<Session>, s: Session, was: Option<Dir>, now: Option<Dir>)
    requires MayLeave(env, s, was, now) && (was != None ==> From(env, sessions, was.value))
    ensures now != None ==> From(env, sessions + [s], now.value)
  {
    if now == was {
      if was != None { FromMore(env, sessions, s, was.value, was.value); }
    } else {
      var library :| Yields(env, s, library) && PartOrDone(env, s, library, was, now);
      var more := sessions + [s];
      assert more[|sessions|] == s;
      if now == Some(Published(env, s.digest, library)) {
        assert Yields(env, more[|sessions|], library) && Remnant(now.value, Published(env, more[|sessions|].digest, library));
      } else if now != None {
        FromMore(env, sessions, s, was.value, now.value);
      }
    }
  }

  lemma {:induction false} AlwaysFrom(env: Env, sessions: seq<Session>, states: seq<Option<Dir>>, k: nat)
    requires Succession(env, sessions, states) && states[0] == None && k < |states|
    ensures states[k] != None ==> From(env, sessions[..k], states[k].value)
  {
    if k > 0 {
      AlwaysFrom(env, sessions, states, k - 1);
      SessionLeavesFrom(env, sessions[..k - 1], sessions[k - 1], states[k - 1], states[k]);
      assert sessions[..k] == sessions[..k - 1] + [sessions[k - 1]];
    }
  }

  /**
   From an absent destination, over any number of preparations with any pins, each finished,
   failed or killed between any two disk operations: whenever the destination is valid for a
   pin, it is the finished entry of a session that obtained the archive of that pin.
   */
  lemma ValidIsFinished(env: Env, sessions: seq<Session>, states: seq<Option<Dir>>, k: nat, digest: string)
    requires Succession(env, sessions, states) && states[0] == None && k < |states|
    requires CacheValid(env, states[k], digest)
    ensures exists j, library ::
      && 0 <= j < k && sessions[j].digest == digest && Yields(env, sessions[j], library)
      && states[k] == Some(Published(env, digest, library))
  {
    AlwaysFrom(env, sessions, states, k);
    var j, library :| 0 <= j < k && Yields(env, sessions[..k][j], library)
      && Remnant(states[k].value, Published(env, sessions[..k][j].digest, library));
    assert sessions[..k][j] == sessions[j];
    assert states[k].value == Published(env, digest, library);
  }
}
