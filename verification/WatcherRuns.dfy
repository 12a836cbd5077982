/** Runs of the watcher that show where its guarantees end, and that they end exactly there. */
module WatcherRuns {
  import opened Packets
  import opened Watcher

  /** The parser that accepts every file and keeps its bytes. */
  function Raw(c: Content): Parsed<Content> {
    Parsed(c)
  }

  /** One file under the path, with the versions it has had. */
  function OneFile(f: File, history: seq<File>): FileSystem {
    FileSystem(map[f.info.ino := f], Some(f.info.ino), history)
  }

  /** The watcher before its first load, on a file with one version. */
  function Start(f: File): State<Content> {
    State(OneFile(f, [f]), None, None, Free, NotStarted, false, false, [])
  }

  lemma {:induction false} OneFileValid(f: File)
    requires Sized(f)
    ensures Init(Start(f))
  {
    var fs := OneFile(f, [f]);
    assert fs.history[0] == fs.files[f.info.ino] && Untouched(fs, f.info.ino, 1);
    assert FileValid(fs, f.info.ino);
  }

  lemma {:induction false} OneFileWritten(f: File, g: File, history: seq<File>)
    requires f.info.ino == g.info.ino && Sized(g)
    ensures Writes(OneFile(f, history), g.info.ino, g, OneFile(g, history + [g]))
  {
  }

  /** A manual reload begins: the file is open and statted, nothing read yet. */
  lemma {:induction false} BeginReload(states: seq<State<Content>>, f: File, history: seq<File>)
    returns (longer: seq<State<Content>>)
    requires Path(Raw, states) && states[|states| - 1].mutex.Free? && states[|states| - 1].fs == OneFile(f, history)
    ensures Path(Raw, longer) && longer[0] == states[0]
    ensures longer[|longer| - 1] ==
      states[|states| - 1].(mutex := Held(false, Reading(f.info.ino, f.info, [], |history|)))
  {
    hide Path;
    var s := states[|states| - 1];
    longer := ByReload(Raw, states, s.(mutex := Held(false, Locked)));
    longer := ByReload(Raw, longer, s.(mutex := Held(false, Opened(f.info.ino))));
    longer := ByReload(Raw, longer, s.(mutex := Held(false, Reading(f.info.ino, f.info, [], |history|))));
  }

  /** At the end of the file, with the stat the reload began with, everything read is published. */
  lemma {:induction false} StoreWhatWasRead(
    states: seq<State<Content>>, f: File, history: seq<File>, buffer: Content, since: nat)
    returns (longer: seq<State<Content>>)
    requires Path(Raw, states)
    requires states[|states| - 1].mutex == Held(false, Read(f.info.ino, f.info, Parsed(buffer), since))
    requires states[|states| - 1].fs == OneFile(f, history)
    ensures Path(Raw, longer) && longer[0] == states[0]
    ensures var s := states[|states| - 1];
      longer[|longer| - 1] ==
        s.(snap := Some(buffer), approved := s.approved + [buffer], mutex := Held(false, Stored(f.info)))
  {
    hide Path;
    var s := states[|states| - 1];
    longer := ByReload(Raw, states, s.(mutex := Held(false, Checked(f.info, buffer))));
    var validated := s.(mutex := Held(false, Validated(f.info, buffer)), approved := s.approved + [buffer]);
    assert Validate(longer[|longer| - 1], true, validated);
    longer := ByReload(Raw, longer, validated);
    longer := ByReload(Raw, longer, validated.(snap := Some(buffer), mutex := Held(false, Stored(f.info))));
  }

  /** An undisturbed reload up to the first assignment. */
  lemma {:induction false} ReloadToStored(states: seq<State<Content>>, f: File, history: seq<File>)
    returns (longer: seq<State<Content>>)
    requires Path(Raw, states) && states[|states| - 1].mutex.Free? && states[|states| - 1].fs == OneFile(f, history)
    ensures Path(Raw, longer) && longer[0] == states[0]
    ensures var s := states[|states| - 1];
      longer[|longer| - 1] ==
        s.(snap := Some(f.content), approved := s.approved + [f.content], mutex := Held(false, Stored(f.info)))
  {
    hide Path;
    var s := states[|states| - 1];
    longer := BeginReload(states, f, history);
    longer := ByReadingOn(Raw, longer, |f.content|);
    assert [] + f.content[0..|f.content|] == f.content;
    longer := ByReload(Raw, longer, s.(mutex := Held(false, Read(f.info.ino, f.info, Parsed(f.content), |history|))));
    longer := StoreWhatWasRead(longer, f, history, f.content, |history|);
  }

  lemma {:induction false} Release(states: seq<State<Content>>, info: Info) returns (longer: seq<State<Content>>)
    requires Path(Raw, states) && states[|states| - 1].mutex == Held(false, Stored(info))
    ensures Path(Raw, longer) && longer[0] == states[0]
    ensures longer[|longer| - 1] == states[|states| - 1].(lastInfo := Some(info), mutex := Free)
  {
    longer := ByReload(Raw, states, states[|states| - 1].(lastInfo := Some(info), mutex := Free));
  }

  /** The first load of a file. */
  lemma {:induction false} FirstLoad(f: File) returns (states: seq<State<Content>>)
    requires Sized(f)
    ensures Run(Raw, states)
    ensures states[|states| - 1] ==
      Start(f).(snap := Some(f.content), lastInfo := Some(f.info), approved := [f.content])
  {
    hide Path;
    OneFileValid(f);
    states := [Start(f)];
    PathOfOne(Raw, Start(f));
    states := ReloadToStored(states, f, [f]);
    states := Release(states, f.info);
  }

  // ----- Snapshot and lastInfo between the two assignments -----

  /**
   * A run, with stats that never recur, in which snapshot and lastInfo speak of different versions: it stands between
   * the two assignments of a second reload.
   */
  lemma {:induction false} DisagreementReached(f: File, g: File) returns (states: seq<State<Content>>)
    requires Sized(f) && Sized(g) && f.info.ino == g.info.ino && f.info != g.info && f.content != g.content
    ensures Run(Raw, states)
    ensures var s := states[|states| - 1];
      && InPublication(s) && Distinct(Stats(s.fs.history))
      && s.snap == Some(g.content) && s.lastInfo == Some(f.info) && !Agreed(Raw, s)
  {
    hide Path;
    states := FirstLoad(f);
    OneFileWritten(f, g, [f]);
    states := ByWrite(Raw, states, g, OneFile(g, [f, g]));
    states := ReloadToStored(states, g, [f, g]);
  }

  // ----- An edit that keeps its stat -----

  /**
   * A run in which the poller skips a changed file: the edit kept identity, size and time, so the tick ends with the
   * snapshot of the old content.
   */
  lemma {:induction false} SilentEditIsMissed(info: Info, before: Content, after: Content)
    returns (states: seq<State<Content>>)
    requires before != after && |before| == |after| == info.size
    ensures Run(Raw, states) && |states| >= 2 && Compare(states[|states| - 2], states[|states| - 1])
    ensures var s := states[|states| - 1];
      && s.poller.Waiting? && s.mutex.Free? && PathHas(s.fs, info) && s.lastInfo == Some(info)
      && PathContent(s.fs) == after && s.snap == Some(before)
  {
    hide Path;
    var f, g := File(before, info), File(after, info);
    states := FirstLoad(f);
    states := ByControl(Raw, states, states[|states| - 1].(poller := Waiting));
    OneFileWritten(f, g, [f]);
    states := ByWrite(Raw, states, g, OneFile(g, [f, g]));
    var s := states[|states| - 1];
    assert PathHas(s.fs, info);
    states := ByControl(Raw, states, s.(poller := Statted(info)));
    var seen := states;
    states := LastControl(seen, s);
  }

  lemma {:induction false} LastControl(seen: seq<State<Content>>, s: State<Content>)
    returns (states: seq<State<Content>>)
    requires Path(Raw, seen) && Compare(seen[|seen| - 1], s)
    ensures Path(Raw, states) && states == seen + [s]
  {
    hide Next;
    assert ControlStep(seen[|seen| - 1], s);
    assert Next(Raw, seen[|seen| - 1], s) by { ControlIsNext(seen[|seen| - 1], s); }
    Extend(Raw, seen, s);
    states := seen + [s];
  }

  lemma {:induction false} ControlIsNext(s: State<Content>, s': State<Content>)
    requires ControlStep(s, s')
    ensures Next(Raw, s, s')
  {
    hide ControlStep;
  }

  // ----- A torn read -----

  /**
   * A reload that reads the first `n` bytes of one version and the rest of the next, while a third version brings the
   * first stat back, passes the change guard and publishes the mixture.
   */
  lemma {:induction false} TornRead(f: File, g: File, h: File, n: nat) returns (states: seq<State<Content>>)
    requires Sized(f) && Sized(g) && Sized(h)
    requires f.info.ino == g.info.ino && h.info == f.info && n <= |f.content| && n <= |g.content|
    ensures Run(Raw, states)
    ensures var s := states[|states| - 1];
      && s.snap == Some(f.content[..n] + g.content[n..]) && s.lastInfo == Some(f.info) && s.mutex.Free?
      && s.fs == OneFile(h, [f, g, h])
  {
    hide Path;
    OneFileValid(f);
    states := [Start(f)];
    PathOfOne(Raw, Start(f));
    states := BeginReload(states, f, [f]);
    states := ByReadingOn(Raw, states, n);
    assert [] + f.content[0..n] == f.content[..n];
    OneFileWritten(f, g, [f]);
    states := ByWrite(Raw, states, g, OneFile(g, [f, g]));
    states := ByReadingOn(Raw, states, |g.content|);
    var mixed := f.content[..n] + g.content[n..];
    assert g.content[n..|g.content|] == g.content[n..];
    var s := states[|states| - 1];
    states := ByReload(Raw, states, s.(mutex := Held(false, Read(f.info.ino, f.info, Parsed(mixed), 1))));
    OneFileWritten(g, h, [f, g]);
    assert [f, g] + [h] == [f, g, h];
    states := ByWrite(Raw, states, h, OneFile(h, [f, g, h]));
    states := StoreWhatWasRead(states, h, [f, g, h], mixed, 1);
    states := Release(states, h.info);
  }

  // ----- One file through all its versions -----

  /** The stats of one file, version by version. */
  predicate OfOneFile(infos: seq<Info>) {
    forall k :: 0 <= k < |infos| ==> infos[k].ino == infos[0].ino
  }

  /** Versions with these stats: the one at `k` holds ones, all others hold zeros. */
  function Versions(infos: seq<Info>, k: nat): (vs: seq<File>)
    ensures |vs| == |infos| && forall x :: 0 <= x < |vs| ==> vs[x].info == infos[x] && Sized(vs[x])
  {
    seq(|infos|, x requires 0 <= x < |infos| => File(Filled(if x == k then 1 else 0, infos[x].size), infos[x]))
  }

  function Filled(b: Byte, n: nat): (c: Content)
    ensures |c| == n && forall i :: 0 <= i < n ==> c[i] == b
  {
    seq(n, _ => b)
  }

  /** The file as it is from its version `x` on, until the next. */
  function At(vs: seq<File>, x: nat): FileSystem
    requires x < |vs|
  {
    OneFile(vs[x], vs[..x + 1])
  }

  /** The file is written on, from version `x` to version `y`, while everything else rests. */
  lemma {:induction false} WriteOn(
    states: seq<State<Content>>, infos: seq<Info>, k: nat, x: nat, y: nat) returns (longer: seq<State<Content>>)
    requires OfOneFile(infos) && x <= y < |infos|
    requires Path(Raw, states) && states[|states| - 1].fs == At(Versions(infos, k), x)
    ensures Path(Raw, longer) && longer[0] == states[0]
    ensures longer[|longer| - 1] == states[|states| - 1].(fs := At(Versions(infos, k), y))
    decreases y
  {
    hide Path, Versions;
    if x == y {
      longer := states;
    } else {
      var vs := Versions(infos, k);
      longer := WriteOn(states, infos, k, x, y - 1);
      OneFileWritten(vs[y - 1], vs[y], vs[..y]);
      assert vs[..y] + [vs[y]] == vs[..y + 1];
      longer := ByWrite(Raw, longer, vs[y], At(vs, y));
    }
  }

  /** A run in which a reload stats version `x` and has read nothing yet when the file is at version `y`. */
  lemma {:induction false} StatAt(infos: seq<Info>, k: nat, x: nat, y: nat) returns (states: seq<State<Content>>)
    requires OfOneFile(infos) && x <= y < |infos|
    ensures var vs := Versions(infos, k);
      && Run(Raw, states)
      && states[|states| - 1] ==
           Start(vs[0]).(fs := At(vs, y), mutex := Held(false, Reading(infos[x].ino, infos[x], [], x + 1)))
  {
    hide Path, Versions;
    var vs := Versions(infos, k);
    OneFileValid(vs[0]);
    assert vs[..1] == [vs[0]];
    states := [Start(vs[0])];
    PathOfOne(Raw, Start(vs[0]));
    states := WriteOn(states, infos, k, 0, x);
    states := BeginReload(states, vs[x], vs[..x + 1]);
    states := WriteOn(states, infos, k, x, y);
  }

  /** What a reload has read since version `x` is published once the stat it began with is back, at version `y`. */
  lemma {:induction false} PublishAt(
    states: seq<State<Content>>, infos: seq<Info>, k: nat, x: nat, y: nat, buffer: Content, since: nat)
    returns (longer: seq<State<Content>>)
    requires OfOneFile(infos) && x <= y < |infos|
    requires Path(Raw, states) && states[|states| - 1].fs == At(Versions(infos, k), x)
    requires states[|states| - 1].mutex == Held(false, Reading(infos[y].ino, infos[y], buffer, since))
    requires infos[x].size <= |buffer|
    ensures Path(Raw, longer) && longer[0] == states[0]
    ensures var s := longer[|longer| - 1];
      && s.fs == At(Versions(infos, k), y) && s.mutex.Free? && s.snap == Some(buffer) && s.lastInfo == Some(infos[y])
  {
    hide Path, Versions;
    var s := states[|states| - 1];
    var vs := Versions(infos, k);
    var ended := s.(mutex := Held(false, Read(infos[y].ino, infos[y], Parsed(buffer), since)));
    assert ReadEnd(Raw, s, ended);
    longer := ByReload(Raw, states, ended);
    longer := WriteOn(longer, infos, k, x, y);
    longer := StoreWhatWasRead(longer, vs[y], vs[..y + 1], buffer, since);
    longer := Release(longer, infos[y]);
  }

  // ----- Only whole versions -----

  /** What is published, if anything is, is a whole version. */
  ghost predicate PublishedWhole(s: State<Content>) {
    s.snap.Some? ==> Genuine(Raw, s.fs, Parsed(s.snap.value))
  }

  /** Whatever the versions hold and however reloads and writes interleave, only whole versions are published. */
  ghost predicate AlwaysWhole(infos: seq<Info>) {
    forall states: seq<State<Content>> ::
      Run(Raw, states) && Stats(states[|states| - 1].fs.history) == infos ==> PublishedWhole(states[|states| - 1])
  }

  /** One byte of a version of ones, and all but the first byte of the version of zeros that follows it. */
  function Mixture(size: nat): Content {
    [1] + Filled(0, if size == 0 then 0 else size - 1)
  }

  lemma {:induction false} MixtureIsNoVersion(infos: seq<Info>, k: nat, size: nat, fs: FileSystem)
    requires k < |infos| && infos[k].size >= 2 && fs.history == Versions(infos, k)
    ensures !Genuine(Raw, fs, Parsed(Mixture(size)))
  {
    var vs := Versions(infos, k);
    forall v | v in fs.history
      ensures Raw(v.content) != Parsed(Mixture(size))
    {
      var x :| 0 <= x < |vs| && vs[x] == v;
      if x == k && |Mixture(size)| >= 2 {
        assert v.content[1] == 1 && Mixture(size)[1] == 0;
      } else if x != k && |v.content| > 0 {
        assert v.content[0] == 0 && Mixture(size)[0] == 1;
      }
    }
  }

  /**
   * Stat `x` comes back at `y`, and version `k` from `x` on and before `y` has two bytes or more: a reload that stats
   * version `x`, reads one byte of version `k` and the rest of the next one publishes a mixture.
   */
  lemma {:induction false} TornRun(infos: seq<Info>, x: nat, k: nat, y: nat) returns (states: seq<State<Content>>)
    requires OfOneFile(infos) && x <= k < y < |infos| && infos[x] == infos[y] && infos[k].size >= 2
    ensures Run(Raw, states) && Stats(states[|states| - 1].fs.history) == infos
    ensures !PublishedWhole(states[|states| - 1])
  {
    hide Path, Versions, Init;
    var vs := Versions(infos, k);
    states := StatAt(infos, k, x, k);
    states := ByReadingOn(Raw, states, 1);
    FirstByte(infos, k);
    states := WriteOn(states, infos, k, k, k + 1);
    var size := infos[k + 1].size;
    if size > 0 {
      states := ByReadingOn(Raw, states, size);
      RestOfNext(infos, k);
    } else {
      assert [1] + Filled(0, 0) == [1];
    }
    states := PublishAt(states, infos, k, k + 1, y, Mixture(size), x + 1);
    states := WriteOn(states, infos, k, y, |infos| - 1);
    assert vs[..|infos|] == vs;
    assert states[|states| - 1].fs.history == vs;
    MixtureIsNoVersion(infos, k, size, states[|states| - 1].fs);
    assert Stats(vs) == infos;
  }

  lemma {:induction false} FirstByte(infos: seq<Info>, k: nat)
    requires k < |infos| && infos[k].size >= 2
    ensures [] + Versions(infos, k)[k].content[0..1] == [1]
  {
  }

  lemma {:induction false} RestOfNext(infos: seq<Info>, k: nat)
    requires k + 1 < |infos| && infos[k + 1].size > 0
    ensures [1] + Versions(infos, k)[k + 1].content[1..infos[k + 1].size] == Mixture(infos[k + 1].size)
  {
  }

  /**
   * For every list of stats of one file: all runs over versions with these stats publish only whole versions exactly
   * when a stat comes back only over versions of at most one byte.
   */
  lemma {:induction false} WholeExactly(infos: seq<Info>)
    requires OfOneFile(infos)
    ensures AlwaysWhole(infos) <==> RecursWithin(infos, 1)
  {
    if RecursWithin(infos, 1) {
      forall states: seq<State<Content>> | Run(Raw, states) && Stats(states[|states| - 1].fs.history) == infos
        ensures PublishedWhole(states[|states| - 1])
      {
        if states[|states| - 1].snap.Some? {
          NeverTorn(Raw, states, |states| - 1);
        }
      }
    } else {
      var x, k, y := Recurring(infos, 1);
      var states := TornRun(infos, x, k, y);
    }
  }

  /** A stat that comes back over a larger version does so with that version before the last. */
  lemma {:induction false} Recurring(infos: seq<Info>, n: nat) returns (x: nat, k: nat, y: nat)
    requires !RecursWithin(infos, n)
    ensures x <= k < y < |infos| && infos[x] == infos[y] && infos[k].size > n
  {
    var i, m, j :| 0 <= i <= m <= j < |infos| && i < j && infos[i] == infos[j] && infos[m].ino == infos[i].ino &&
      infos[m].size > n;
    x, k, y := i, if m < j then m else i, j;
  }

  // ----- Equal stats -----

  /** If the path has the stat kept beside the snapshot, the snapshot is what the path holds. */
  predicate EqualStatCurrent(s: State<Content>) {
    s.lastInfo.Some? && PathHas(s.fs, s.lastInfo.value) ==> s.snap == Some(PathContent(s.fs))
  }

  /** So it is in every run over these versions, or the first few of them, outside the two assignments. */
  ghost predicate AlwaysCurrent(infos: seq<Info>) {
    forall states: seq<State<Content>> ::
      Run(Raw, states) && Stats(states[|states| - 1].fs.history) <= infos && !InPublication(states[|states| - 1]) ==>
        EqualStatCurrent(states[|states| - 1])
  }

  /**
   * Stat `x` comes back at `y`, and version `k` from `x` on and before `y` is not empty: a reload that stats version
   * `x` and reads version `k` leaves a snapshot that passes for that of version `y`.
   */
  lemma {:induction false} MissedRun(infos: seq<Info>, x: nat, k: nat, y: nat) returns (states: seq<State<Content>>)
    requires OfOneFile(infos) && x <= k < y < |infos| && infos[x] == infos[y] && infos[k].size >= 1
    ensures Run(Raw, states) && Stats(states[|states| - 1].fs.history) <= infos
    ensures states[|states| - 1].mutex.Free? && !EqualStatCurrent(states[|states| - 1])
  {
    hide Path, Versions, Init;
    var vs := Versions(infos, k);
    states := StatAt(infos, k, x, k);
    states := ByReadingOn(Raw, states, infos[k].size);
    var content := vs[k].content;
    assert [] + content[0..|content|] == content;
    states := PublishAt(states, infos, k, k, y, content, x + 1);
    assert Stats(vs[..y + 1]) == infos[..y + 1];
    OnesAreNotZeros(infos, k, y);
  }

  lemma {:induction false} OnesAreNotZeros(infos: seq<Info>, k: nat, y: nat)
    requires k < y < |infos| && infos[k].size >= 1
    ensures Versions(infos, k)[k].content != Versions(infos, k)[y].content
  {
    var vs := Versions(infos, k);
    assert vs[k].content[0] == 1;
    assert |vs[y].content| > 0 ==> vs[y].content[0] == 0;
  }

  /**
   * For every list of stats of one file: in all runs over versions with these stats an equal stat means a current
   * snapshot, so no edit is missed, exactly when a stat comes back only over empty versions.
   */
  lemma {:induction false} CurrentExactly(infos: seq<Info>)
    requires OfOneFile(infos)
    ensures AlwaysCurrent(infos) <==> RecursWithin(infos, 0)
  {
    if RecursWithin(infos, 0) {
      forall states: seq<State<Content>> |
        Run(Raw, states) && Stats(states[|states| - 1].fs.history) <= infos && !InPublication(states[|states| - 1])
        ensures EqualStatCurrent(states[|states| - 1])
      {
        PrefixRecurs(Stats(states[|states| - 1].fs.history), infos, 0);
        EqualStatMeansCurrent(Raw, states, |states| - 1);
      }
    } else {
      var x, k, y := Recurring(infos, 0);
      var states := MissedRun(infos, x, k, y);
    }
  }

  lemma {:induction false} PrefixRecurs(some: seq<Info>, infos: seq<Info>, n: nat)
    requires some <= infos && RecursWithin(infos, n)
    ensures RecursWithin(some, n)
  {
    assert forall k :: 0 <= k < |some| ==> some[k] == infos[k];
  }

  /** For files that are never that small, both come down to this: no stat ever comes back. */
  lemma {:induction false} DistinctExactly(infos: seq<Info>)
    requires OfOneFile(infos)
    ensures (forall k :: 0 <= k < |infos| ==> infos[k].size >= 2) ==> (AlwaysWhole(infos) <==> Distinct(infos))
    ensures (forall k :: 0 <= k < |infos| ==> infos[k].size >= 1) ==> (AlwaysCurrent(infos) <==> Distinct(infos))
  {
    hide AlwaysWhole, AlwaysCurrent;
    WholeExactly(infos);
    CurrentExactly(infos);
    DistinctRecurs(infos, 1);
    DistinctRecurs(infos, 0);
  }

  lemma {:induction false} DistinctRecurs(infos: seq<Info>, n: nat)
    ensures Distinct(infos) ==> RecursWithin(infos, n)
    ensures (forall k :: 0 <= k < |infos| ==> infos[k].size > n) && RecursWithin(infos, n) ==> Distinct(infos)
  {
    if !Distinct(infos) && forall k :: 0 <= k < |infos| ==> infos[k].size > n {
      var i, j :| 0 <= i < j < |infos| && infos[i] == infos[j];
      ComesBack(infos, i, j, n);
    }
  }

  lemma {:induction false} ComesBack(infos: seq<Info>, i: nat, j: nat, n: nat)
    requires i < j < |infos| && infos[i] == infos[j] && infos[i].size > n
    ensures !RecursWithin(infos, n)
  {
  }
}
