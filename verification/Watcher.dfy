/** The hot-reloading file watcher under every interleaving of writers, the poller, manual reloads and Close. */
module Watcher {
  import opened Packets

  /** What a stat reports and what `FileChanged` compares: file identity, size and modification time. */
  datatype Info = Info(ino: nat, size: nat, mtime: int)

  /** Whether two stats describe a different file. */
  predicate FileChanged(a: Info, b: Info) {
    a.ino != b.ino || a.size != b.size || a.mtime != b.mtime
  }

  type Content = seq<Byte>

  datatype Parsed<+S> = ParseError | NilSnapshot | Parsed(snap: S)

  // ----- The file system -----

  datatype File = File(content: Content, info: Info)

  /** A stat reports the size the file has. */
  predicate Sized(f: File) {
    f.info.size == |f.content|
  }

  /**
   * Files by identity, the file the path names now (None if it is missing), and every version there ever was, in the
   * order they came to be. An open descriptor keeps its file, so files are never forgotten.
   */
  datatype FileSystem = FileSystem(files: map<nat, File>, path: Option<nat>, history: seq<File>)

  /** A write in place. Nothing is said about the new stat: it may be the old one, or one the file had before. */
  ghost predicate Writes(fs: FileSystem, ino: nat, f: File, fs': FileSystem) {
    && ino in fs.files && f.info.ino == ino && Sized(f)
    && fs' == fs.(files := fs.files[ino := f], history := fs.history + [f])
  }

  /** A new file appears under the path, as by an atomic rename. */
  ghost predicate Renames(fs: FileSystem, ino: nat, f: File, fs': FileSystem) {
    && ino !in fs.files && f.info.ino == ino && Sized(f)
    && fs' == FileSystem(fs.files[ino := f], Some(ino), fs.history + [f])
  }

  /** The path is made to name another file that exists, as by moving a backup over it. */
  ghost predicate Relinks(fs: FileSystem, ino: nat, fs': FileSystem) {
    ino in fs.files && fs' == fs.(path := Some(ino))
  }

  ghost predicate ChangesFiles(fs: FileSystem, fs': FileSystem) {
    || (exists ino, f :: Writes(fs, ino, f, fs'))
    || (exists ino, f :: Renames(fs, ino, f, fs'))
    || (exists ino :: Relinks(fs, ino, fs'))
    || fs' == fs.(path := None)
  }

  /** No version of file `ino` came to be from index `since` on. */
  ghost predicate Untouched(fs: FileSystem, ino: nat, since: nat) {
    forall k :: since <= k < |fs.history| ==> fs.history[k].info.ino != ino
  }

  /** The file is as its last version left it. */
  ghost predicate FileValid(fs: FileSystem, ino: nat)
    requires ino in fs.files
  {
    && fs.files[ino].info.ino == ino
    && exists m :: 0 <= m < |fs.history| && fs.history[m] == fs.files[ino] && Untouched(fs, ino, m + 1)
  }

  ghost predicate FilesValid(fs: FileSystem) {
    && (forall ino :: ino in fs.files ==> FileValid(fs, ino))
    && (forall v :: v in fs.history ==> Sized(v))
    && (fs.path.Some? ==> fs.path.value in fs.files)
  }

  function Stats(history: seq<File>): (infos: seq<Info>)
    ensures |infos| == |history| && forall k :: 0 <= k < |infos| ==> infos[k] == history[k].info
  {
    seq(|history|, k requires 0 <= k < |history| => history[k].info)
  }

  ghost predicate Distinct(infos: seq<Info>) {
    forall i, j :: 0 <= i < j < |infos| ==> infos[i] != infos[j]
  }

  /** Wherever a stat comes back, the file had at most `n` bytes from the one version to the other. */
  ghost predicate RecursWithin(infos: seq<Info>, n: nat) {
    forall i, k, j :: 0 <= i <= k <= j < |infos| && i < j && infos[i] == infos[j] && infos[k].ino == infos[i].ino ==>
      infos[k].size <= n
  }

  /**
   * What the comparison of stats needs of its file system. That every change shows in the stat, or that a stat tells
   * the content, is not enough; that no stat ever comes back is more than enough.
   */
  ghost predicate StatsTell(fs: FileSystem, n: nat) {
    RecursWithin(Stats(fs.history), n)
  }

  predicate PathHas(fs: FileSystem, info: Info) {
    fs.path.Some? && fs.path.value in fs.files && fs.files[fs.path.value].info == info
  }

  /** The stat of the path. */
  function PathInfo(fs: FileSystem): Info
    requires fs.path.Some? && fs.path.value in fs.files
  {
    fs.files[fs.path.value].info
  }

  /** What the path holds. */
  function PathContent(fs: FileSystem): Content
    requires fs.path.Some? && fs.path.value in fs.files
  {
    fs.files[fs.path.value].content
  }

  // ----- The watcher -----

  /**
   * How far the holder of the mutex is through a reload. `since` is the number of versions there were at the first
   * stat; only the proofs look at it.
   */
  datatype Stage<+S> =
    | Locked
    | Opened(ino: nat)
    | Reading(ino: nat, info: Info, buffer: Content, since: nat)
    | Read(ino: nat, info: Info, result: Parsed<S>, since: nat)
    | Checked(info: Info, snap: S)
    | Validated(info: Info, snap: S)
    | Stored(info: Info)

  /** Reloads run under the mutex; a thread waiting for it has nothing to remember. */
  datatype Mutex<+S> = Free | Held(byPoller: bool, stage: Stage<S>)

  datatype Poller =
    | NotStarted
    | Waiting
    | Statted(info: Info)
    | WantsReload
    | Reloading
    | Exited

  datatype State<+S> = State(
    fs: FileSystem, snap: Option<S>, lastInfo: Option<Info>, mutex: Mutex<S>,
    poller: Poller, done: bool, closed: bool, approved: seq<S>)

  /** The end of a reload: the mutex is free and a polling holder goes back to wait for the next tick. */
  ghost function Unlock<S>(s: State<S>): State<S>
    requires s.mutex.Held?
  {
    s.(mutex := Free, poller := if s.mutex.byPoller then Waiting else s.poller)
  }

  // ----- Reload, one file-system access or assignment at a time -----

  ghost predicate Acquire<S(!new)>(s: State<S>, s': State<S>) {
    && s.mutex.Free?
    && (s' == s.(mutex := Held(false, Locked)) ||
        (s.poller.WantsReload? && s' == s.(mutex := Held(true, Locked), poller := Reloading)))
  }

  ghost predicate Open<S(!new)>(s: State<S>, s': State<S>) {
    && s.mutex.Held? && s.mutex.stage.Locked?
    && if s.fs.path.Some? then s' == s.(mutex := s.mutex.(stage := Opened(s.fs.path.value)))
       else s' == Unlock(s)
  }

  ghost predicate StatBefore<S(!new)>(s: State<S>, s': State<S>) {
    && s.mutex.Held? && s.mutex.stage.Opened? && s.mutex.stage.ino in s.fs.files
    && var ino := s.mutex.stage.ino;
       s' == s.(mutex := s.mutex.(stage := Reading(ino, s.fs.files[ino].info, [], |s.fs.history|)))
  }

  /** One read returns the next bytes of whatever the file holds at that moment. */
  ghost predicate ReadSome<S(!new)>(s: State<S>, n: nat, s': State<S>) {
    && s.mutex.Held? && s.mutex.stage.Reading? && s.mutex.stage.ino in s.fs.files
    && var Reading(ino, info, buffer, since) := s.mutex.stage;
       var content := s.fs.files[ino].content;
       && 0 < n && |buffer| + n <= |content|
       && s' == s.(mutex := s.mutex.(stage := Reading(ino, info, buffer + content[|buffer|..|buffer| + n], since)))
  }

  /** At the end of the file the bytes collected so far are parsed. */
  ghost predicate ReadEnd<S(!new)>(parse: Content -> Parsed<S>, s: State<S>, s': State<S>) {
    && s.mutex.Held? && s.mutex.stage.Reading? && s.mutex.stage.ino in s.fs.files
    && var Reading(ino, info, buffer, since) := s.mutex.stage;
       && |s.fs.files[ino].content| <= |buffer|
       && s' == s.(mutex := s.mutex.(stage := Read(ino, info, parse(buffer), since)))
  }

  /** A parse error, a nil snapshot or a changed stat ends the reload; otherwise the snapshot is worth validating. */
  ghost predicate StatAfter<S(!new)>(s: State<S>, s': State<S>) {
    && s.mutex.Held? && s.mutex.stage.Read? && s.mutex.stage.ino in s.fs.files
    && var Read(ino, info, result, _) := s.mutex.stage;
       if !result.Parsed? || FileChanged(info, s.fs.files[ino].info) then s' == Unlock(s)
       else s' == s.(mutex := s.mutex.(stage := Checked(info, result.snap)))
  }

  /** Validation may go either way, for reasons outside the file. */
  ghost predicate Validate<S(!new)>(s: State<S>, ok: bool, s': State<S>) {
    && s.mutex.Held? && s.mutex.stage.Checked?
    && var Checked(info, snap) := s.mutex.stage;
       if ok then s' == s.(mutex := s.mutex.(stage := Validated(info, snap)), approved := s.approved + [snap])
       else s' == Unlock(s)
  }

  /** The snapshot is published before lastInfo is set; readers of the snapshot take no lock. */
  ghost predicate StoreSnapshot<S(!new)>(s: State<S>, s': State<S>) {
    && s.mutex.Held? && s.mutex.stage.Validated?
    && s' == s.(snap := Some(s.mutex.stage.snap), mutex := s.mutex.(stage := Stored(s.mutex.stage.info)))
  }

  ghost predicate StoreInfo<S(!new)>(s: State<S>, s': State<S>) {
    && s.mutex.Held? && s.mutex.stage.Stored?
    && s' == Unlock(s.(lastInfo := Some(s.mutex.stage.info)))
  }

  /** Opening, a stat or a read may fail; that ends the reload. */
  ghost predicate AccessFails<S(!new)>(s: State<S>, s': State<S>) {
    && s.mutex.Held?
    && (s.mutex.stage.Locked? || s.mutex.stage.Opened? || s.mutex.stage.Reading? || s.mutex.stage.Read?)
    && s' == Unlock(s)
  }

  ghost predicate ReloadStep<S(!new)>(parse: Content -> Parsed<S>, s: State<S>, s': State<S>) {
    || Acquire(s, s') || Open(s, s') || StatBefore(s, s')
    || (exists n :: ReadSome(s, n, s')) || ReadEnd(parse, s, s') || StatAfter(s, s')
    || (exists ok :: Validate(s, ok, s'))
    || StoreSnapshot(s, s') || StoreInfo(s, s') || AccessFails(s, s')
  }

  // ----- The poller and Close -----

  ghost predicate StartPoller<S(!new)>(s: State<S>, s': State<S>) {
    s.poller.NotStarted? && s.mutex.Free? && s.lastInfo.Some? && s' == s.(poller := Waiting)
  }

  /** A tick: stat the path, without the mutex. Done and a tick may be ready together, and either may be taken. */
  ghost predicate Tick<S(!new)>(s: State<S>, s': State<S>) {
    && s.poller.Waiting?
    && (s' == s || exists info :: PathHas(s.fs, info) && s' == s.(poller := Statted(info)))
  }

  /** Compare with lastInfo under the mutex: an unchanged file ends the tick. */
  ghost predicate Compare<S(!new)>(s: State<S>, s': State<S>) {
    && s.poller.Statted? && s.mutex.Free?
    && s' == s.(poller :=
         if s.lastInfo.Some? && !FileChanged(s.lastInfo.value, s.poller.info) then Waiting else WantsReload)
  }

  ghost predicate PollerExit<S(!new)>(s: State<S>, s': State<S>) {
    s.poller.Waiting? && s.done && s' == s.(poller := Exited)
  }

  ghost predicate BeginClose<S(!new)>(s: State<S>, s': State<S>) {
    s' == s.(done := true)
  }

  /** Close waits for the poller, if one was started. */
  ghost predicate EndClose<S(!new)>(s: State<S>, s': State<S>) {
    s.done && s.poller.Exited? && s' == s.(closed := true)
  }

  /** The steps of the poller and of Close. */
  ghost predicate ControlStep<S(!new)>(s: State<S>, s': State<S>) {
    || StartPoller(s, s') || Tick(s, s') || Compare(s, s') || PollerExit(s, s')
    || BeginClose(s, s') || EndClose(s, s')
  }

  ghost predicate Next<S(!new)>(parse: Content -> Parsed<S>, s: State<S>, s': State<S>) {
    || ReloadStep(parse, s, s')
    || ControlStep(s, s')
    || (exists fs :: ChangesFiles(s.fs, fs) && s' == s.(fs := fs))
  }

  ghost predicate Init<S(!new)>(s: State<S>) {
    && FilesValid(s.fs)
    && s.snap.None? && s.lastInfo.None? && s.mutex.Free?
    && s.poller.NotStarted? && !s.done && !s.closed && s.approved == []
  }

  /** Consecutive states are steps of the machine. */
  ghost predicate Path<S(!new)>(parse: Content -> Parsed<S>, states: seq<State<S>>)
    ensures Path(parse, states) ==> |states| > 0
  {
    |states| > 0 && forall k :: 0 <= k < |states| - 1 ==> Next(parse, states[k], states[k + 1])
  }

  ghost predicate Run<S(!new)>(parse: Content -> Parsed<S>, states: seq<State<S>>)
    ensures Run(parse, states) ==> |states| > 0
  {
    Path(parse, states) && Init(states[0])
  }

  lemma {:induction false} PathStep<S(!new)>(parse: Content -> Parsed<S>, states: seq<State<S>>, k: nat)
    requires Path(parse, states) && k + 1 < |states|
    ensures Next(parse, states[k], states[k + 1])
  {
  }

  // ----- The invariant -----

  /** `snap` is what some whole file version with this stat parses to. */
  ghost predicate Describes<S(!new)>(parse: Content -> Parsed<S>, fs: FileSystem, info: Info, snap: S) {
    exists v :: v in fs.history && v.info == info && parse(v.content) == Parsed(snap)
  }

  /** The published pair: snapshot and lastInfo speak of the same version. */
  ghost predicate Agreed<S(!new)>(parse: Content -> Parsed<S>, s: State<S>) {
    if s.snap.None? then s.lastInfo.None?
    else s.lastInfo.Some? && Describes(parse, s.fs, s.lastInfo.value, s.snap.value)
  }

  /** Between the two assignments of a successful reload; the mutex is held. */
  predicate InPublication<S>(s: State<S>) {
    s.mutex.Held? && s.mutex.stage.Stored?
  }

  /** The stat a reload began with is one the file had by then. */
  ghost predicate StattedBy<S(!new)>(s: State<S>, ino: nat, info: Info, since: nat) {
    && ino in s.fs.files && info.ino == ino && since <= |s.fs.history|
    && exists v :: 0 <= v < since && s.fs.history[v].info == info
  }

  /** The versions of file `ino` from index `from` on have at most `n` bytes. */
  ghost predicate SmallSince(fs: FileSystem, ino: nat, from: nat, n: nat) {
    forall k :: from <= k < |fs.history| && fs.history[k].info.ino == ino ==> fs.history[k].info.size <= n
  }

  ghost predicate HasContent(fs: FileSystem, content: Content) {
    exists v :: v in fs.history && v.content == content
  }

  /** A file of at most one byte cannot be torn, whatever becomes of it meanwhile; of an empty one nothing is read. */
  ghost predicate ReadsSmall(fs: FileSystem, ino: nat, info: Info, buffer: Content, since: nat) {
    forall v :: 0 <= v < since && v < |fs.history| && fs.history[v].info == info ==>
      && (SmallSince(fs, ino, v, 1) ==> buffer == [] || HasContent(fs, buffer))
      && (SmallSince(fs, ino, v, 0) ==> buffer == [])
  }

  /** What a whole version parses to. */
  ghost predicate Genuine<S(!new)>(parse: Content -> Parsed<S>, fs: FileSystem, result: Parsed<S>) {
    exists v :: v in fs.history && parse(v.content) == result
  }

  ghost predicate ParsesSmall<S(!new)>(
    parse: Content -> Parsed<S>, fs: FileSystem, ino: nat, info: Info, result: Parsed<S>, since: nat)
  {
    forall v :: 0 <= v < since && v < |fs.history| && fs.history[v].info == info ==>
      && (SmallSince(fs, ino, v, 1) ==> Genuine(parse, fs, result))
      && (SmallSince(fs, ino, v, 0) ==> result == parse([]))
  }

  /**
   * What holds of a reload under any file system: if the file was left alone, the bytes read are its bytes, and if it
   * stayed small, they are those of some version.
   */
  ghost predicate StageValid<S(!new)>(parse: Content -> Parsed<S>, s: State<S>)
    requires s.mutex.Held?
  {
    match s.mutex.stage
    case Locked => true
    case Opened(ino) => ino in s.fs.files
    case Reading(ino, info, buffer, since) =>
      && StattedBy(s, ino, info, since) && ReadsSmall(s.fs, ino, info, buffer, since)
      && (Untouched(s.fs, ino, since) ==> s.fs.files[ino].info == info && buffer <= s.fs.files[ino].content)
    case Read(ino, info, result, since) =>
      && StattedBy(s, ino, info, since) && ParsesSmall(parse, s.fs, ino, info, result, since)
      && (Untouched(s.fs, ino, since) ==> s.fs.files[ino].info == info && result == parse(s.fs.files[ino].content))
    case Checked(_, _) => true
    case Validated(_, snap) => snap in s.approved
    case Stored(_) => s.snap.Some?
  }

  /** When stats come back over at most one byte: what passed the change guard is a whole version. */
  ghost predicate NotTorn<S(!new)>(parse: Content -> Parsed<S>, s: State<S>) {
    && (s.snap.Some? ==> Genuine(parse, s.fs, Parsed(s.snap.value)))
    && (s.mutex.Held? ==>
          match s.mutex.stage
          case Checked(_, snap) => Genuine(parse, s.fs, Parsed(snap))
          case Validated(_, snap) => Genuine(parse, s.fs, Parsed(snap))
          case _ => true)
  }

  /** When stats come back over empty versions only: it is a version with the stat that goes with it. */
  ghost predicate Whole<S(!new)>(parse: Content -> Parsed<S>, s: State<S>) {
    && (InPublication(s) || Agreed(parse, s))
    && (s.mutex.Held? ==>
          match s.mutex.stage
          case Checked(info, snap) => Describes(parse, s.fs, info, snap)
          case Validated(info, snap) => Describes(parse, s.fs, info, snap)
          case Stored(info) => s.snap.Some? && Describes(parse, s.fs, info, s.snap.value)
          case _ => true)
  }

  ghost predicate Inv<S(!new)>(parse: Content -> Parsed<S>, s: State<S>) {
    && FilesValid(s.fs)
    && (s.mutex.Held? ==> StageValid(parse, s))
    && (s.snap.Some? ==> s.snap.value in s.approved)
    && (s.poller.Reloading? <==> s.mutex.Held? && s.mutex.byPoller)
    && (s.closed ==> s.poller.Exited?)
    && (StatsTell(s.fs, 1) ==> NotTorn(parse, s))
    && (StatsTell(s.fs, 0) ==> Whole(parse, s))
  }

  // ----- Changes of files keep it -----

  /** A new version leaves other files, and what earlier versions describe, as they were. */
  lemma {:induction false} VersionAdded(fs: FileSystem, ino: nat, f: File, fs': FileSystem)
    requires FilesValid(fs) && f.info.ino == ino && Sized(f)
    requires fs'.files == fs.files[ino := f] && fs'.history == fs.history + [f]
    requires fs'.path.Some? ==> fs'.path.value in fs'.files
    ensures FilesValid(fs')
    ensures forall other: nat, since: nat :: since <= |fs.history| ==>
      (Untouched(fs', other, since) <==> Untouched(fs, other, since) && other != ino)
  {
    var n := |fs.history|;
    assert forall k :: 0 <= k < n ==> fs'.history[k] == fs.history[k];
    assert fs'.history[n] == f;
    forall other: nat, since: nat | since <= n
      ensures Untouched(fs', other, since) <==> Untouched(fs, other, since) && other != ino
    {
      if Untouched(fs', other, since) {
        assert fs'.history[n].info.ino != other;
        assert forall k :: since <= k < n ==> fs'.history[k] == fs.history[k];
      }
    }
    forall other | other in fs'.files
      ensures FileValid(fs', other)
    {
      if other == ino {
        assert Untouched(fs', ino, n + 1);
      } else {
        assert FileValid(fs, other);
        var m :| 0 <= m < n && fs.history[m] == fs.files[other] && Untouched(fs, other, m + 1);
        assert Untouched(fs', other, m + 1);
      }
    }
  }

  lemma {:induction false} DescribesStays<S(!new)>(
    parse: Content -> Parsed<S>, fs: FileSystem, fs': FileSystem, info: Info, snap: S)
    requires fs.history <= fs'.history && Describes(parse, fs, info, snap)
    ensures Describes(parse, fs', info, snap)
  {
    var v :| v in fs.history && v.info == info && parse(v.content) == Parsed(snap);
    assert v in fs'.history;
  }

  lemma {:induction false} WholeStays<S(!new)>(parse: Content -> Parsed<S>, s: State<S>, fs: FileSystem)
    requires s.fs.history <= fs.history
    ensures Whole(parse, s) ==> Whole(parse, s.(fs := fs))
    ensures NotTorn(parse, s) ==> NotTorn(parse, s.(fs := fs))
  {
    hide Describes, Genuine;
    forall info, snap | Describes(parse, s.fs, info, snap)
      ensures Describes(parse, fs, info, snap)
    {
      DescribesStays(parse, s.fs, fs, info, snap);
    }
    forall result | Genuine(parse, s.fs, result)
      ensures Genuine(parse, fs, result)
    {
      GenuineStays(parse, s.fs, fs, result);
    }
  }

  lemma {:induction false} GenuineStays<S(!new)>(
    parse: Content -> Parsed<S>, fs: FileSystem, fs': FileSystem, result: Parsed<S>)
    requires fs.history <= fs'.history && Genuine(parse, fs, result)
    ensures Genuine(parse, fs', result)
  {
    var v :| v in fs.history && parse(v.content) == result;
    assert v in fs'.history;
  }

  lemma {:induction false} StatsTellBefore(fs: FileSystem, fs': FileSystem, n: nat)
    requires fs.history <= fs'.history && StatsTell(fs', n)
    ensures StatsTell(fs, n)
  {
    var infos, infos' := Stats(fs.history), Stats(fs'.history);
    assert forall k :: 0 <= k < |infos| ==> infos[k] == infos'[k];
  }

  lemma {:induction false} SmallBefore(fs: FileSystem, fs': FileSystem, ino: nat, from: nat, n: nat)
    requires fs.history <= fs'.history && SmallSince(fs', ino, from, n)
    ensures SmallSince(fs, ino, from, n)
  {
    assert forall k :: 0 <= k < |fs.history| ==> fs.history[k] == fs'.history[k];
  }

  lemma {:induction false} ReadsSmallStays(
    fs: FileSystem, fs': FileSystem, ino: nat, info: Info, buffer: Content, since: nat)
    requires fs.history <= fs'.history && since <= |fs.history| && ReadsSmall(fs, ino, info, buffer, since)
    ensures ReadsSmall(fs', ino, info, buffer, since)
  {
    hide SmallSince;
    forall v, n: nat | 0 <= v < since && SmallSince(fs', ino, v, n)
      ensures SmallSince(fs, ino, v, n)
    {
      SmallBefore(fs, fs', ino, v, n);
    }
    assert forall v :: v in fs.history ==> v in fs'.history;
  }

  lemma {:induction false} ParsesSmallStays<S(!new)>(
    parse: Content -> Parsed<S>, fs: FileSystem, fs': FileSystem, ino: nat, info: Info, result: Parsed<S>, since: nat)
    requires fs.history <= fs'.history && since <= |fs.history| && ParsesSmall(parse, fs, ino, info, result, since)
    ensures ParsesSmall(parse, fs', ino, info, result, since)
  {
    hide SmallSince;
    forall v, n: nat | 0 <= v < since && SmallSince(fs', ino, v, n)
      ensures SmallSince(fs, ino, v, n)
    {
      SmallBefore(fs, fs', ino, v, n);
    }
    assert forall v :: v in fs.history ==> v in fs'.history;
  }

  /** What was read so far stays what it was when the history grows. */
  lemma {:induction false} StageSmallStays<S(!new)>(parse: Content -> Parsed<S>, s: State<S>, fs: FileSystem)
    requires s.mutex.Held? && StageValid(parse, s) && s.fs.history <= fs.history
    ensures s.mutex.stage.Reading? ==>
      var Reading(ino, info, buffer, since) := s.mutex.stage; ReadsSmall(fs, ino, info, buffer, since)
    ensures s.mutex.stage.Read? ==>
      var Read(ino, info, result, since) := s.mutex.stage; ParsesSmall(parse, fs, ino, info, result, since)
  {
    hide ReadsSmall, ParsesSmall, Untouched;
    match s.mutex.stage
    case Reading(ino, info, buffer, since) => ReadsSmallStays(s.fs, fs, ino, info, buffer, since);
    case Read(ino, info, result, since) => ParsesSmallStays(parse, s.fs, fs, ino, info, result, since);
    case _ =>
  }

  /** What follows from the history alone when it grows. */
  lemma {:induction false} HistoryGrows<S(!new)>(parse: Content -> Parsed<S>, s: State<S>, fs: FileSystem)
    requires Inv(parse, s) && s.fs.history <= fs.history
    ensures StatsTell(fs, 1) ==> NotTorn(parse, s.(fs := fs))
    ensures StatsTell(fs, 0) ==> Whole(parse, s.(fs := fs))
  {
    hide Whole, NotTorn, FilesValid, StageValid, StatsTell;
    WholeStays(parse, s, fs);
    forall n: nat | StatsTell(fs, n)
      ensures StatsTell(s.fs, n)
    {
      StatsTellBefore(s.fs, fs, n);
    }
  }

  lemma {:induction false} NewVersionKeepsInv<S(!new)>(
    parse: Content -> Parsed<S>, s: State<S>, ino: nat, f: File, fs: FileSystem)
    requires Inv(parse, s) && (Writes(s.fs, ino, f, fs) || Renames(s.fs, ino, f, fs))
    ensures Inv(parse, s.(fs := fs))
  {
    hide Whole, NotTorn, FileValid, Untouched, StatsTell, ReadsSmall, ParsesSmall;
    VersionAdded(s.fs, ino, f, fs);
    HistoryGrows(parse, s, fs);
    if s.mutex.Held? {
      StageSmallStays(parse, s, fs);
    }
    assert forall k :: 0 <= k < |s.fs.history| ==> fs.history[k] == s.fs.history[k];
  }

  lemma {:induction false} PathChangeKeepsInv<S(!new)>(parse: Content -> Parsed<S>, s: State<S>, path: Option<nat>)
    requires Inv(parse, s) && (path.Some? ==> path.value in s.fs.files)
    ensures Inv(parse, s.(fs := s.fs.(path := path)))
  {
    hide Whole, NotTorn, FileValid, Untouched, StatsTell, ReadsSmall, ParsesSmall;
    var fs := s.fs.(path := path);
    HistoryGrows(parse, s, fs);
    if s.mutex.Held? {
      StageSmallStays(parse, s, fs);
    }
    PathIsNoVersion(s.fs, path);
  }

  lemma {:induction false} PathIsNoVersion(fs: FileSystem, path: Option<nat>)
    ensures forall ino: nat, since: nat :: Untouched(fs.(path := path), ino, since) <==> Untouched(fs, ino, since)
    ensures forall ino | ino in fs.files :: FileValid(fs, ino) ==> FileValid(fs.(path := path), ino)
  {
    var fs' := fs.(path := path);
    forall ino: nat, since: nat
      ensures Untouched(fs', ino, since) <==> Untouched(fs, ino, since)
    {
    }
    forall ino | ino in fs.files && FileValid(fs, ino)
      ensures FileValid(fs', ino)
    {
      var m :| 0 <= m < |fs.history| && fs.history[m] == fs.files[ino] && Untouched(fs, ino, m + 1);
      assert Untouched(fs', ino, m + 1);
    }
  }

  lemma {:induction false} FileChangeKeepsInv<S(!new)>(parse: Content -> Parsed<S>, s: State<S>, fs: FileSystem)
    requires Inv(parse, s) && ChangesFiles(s.fs, fs)
    ensures Inv(parse, s.(fs := fs))
  {
    hide Inv;
    if ino, f :| Writes(s.fs, ino, f, fs) {
      NewVersionKeepsInv(parse, s, ino, f, fs);
    } else if ino, f :| Renames(s.fs, ino, f, fs) {
      NewVersionKeepsInv(parse, s, ino, f, fs);
    } else if ino :| Relinks(s.fs, ino, fs) {
      PathChangeKeepsInv(parse, s, Some(ino));
    } else {
      PathChangeKeepsInv(parse, s, None);
    }
  }

  // ----- The steps of a reload keep it -----

  lemma {:induction false} EntryKeepsInv<S(!new)>(parse: Content -> Parsed<S>, s: State<S>, s': State<S>)
    requires Inv(parse, s) && (Acquire(s, s') || Open(s, s') || AccessFails(s, s'))
    ensures Inv(parse, s')
  {
    hide FileValid, StatsTell, Describes, Genuine, ReadsSmall, ParsesSmall;
  }

  lemma {:induction false} StatBeforeKeepsInv<S(!new)>(parse: Content -> Parsed<S>, s: State<S>, s': State<S>)
    requires Inv(parse, s) && StatBefore(s, s')
    ensures Inv(parse, s')
  {
    hide StatsTell, Describes, Genuine, SmallSince;
    assert FileValid(s.fs, s.mutex.stage.ino);
  }

  /** A file that stayed small since one of its versions is small now. */
  lemma {:induction false} CurrentIsSmall(fs: FileSystem, ino: nat, v: nat, n: nat)
    requires FilesValid(fs) && ino in fs.files && v < |fs.history| && fs.history[v].info.ino == ino
    requires SmallSince(fs, ino, v, n)
    ensures |fs.files[ino].content| <= n && HasContent(fs, fs.files[ino].content)
  {
    assert FileValid(fs, ino);
    var m :| 0 <= m < |fs.history| && fs.history[m] == fs.files[ino] && Untouched(fs, ino, m + 1);
    assert v <= m;
    assert fs.history[m] in fs.history;
  }

  lemma {:induction false} ReadSomeSmall<S(!new)>(s: State<S>, n: nat, s': State<S>)
    requires FilesValid(s.fs) && ReadSome(s, n, s')
    requires var Reading(ino, info, buffer, since) := s.mutex.stage;
      StattedBy(s, ino, info, since) && ReadsSmall(s.fs, ino, info, buffer, since)
    ensures var Reading(ino, info, buffer, since) := s'.mutex.stage; ReadsSmall(s'.fs, ino, info, buffer, since)
  {
    hide FilesValid, SmallSince, HasContent;
    var Reading(ino, info, buffer, since) := s.mutex.stage;
    var content := s.fs.files[ino].content;
    forall v | 0 <= v < since && s.fs.history[v].info == info
      ensures SmallSince(s.fs, ino, v, 1) ==> HasContent(s.fs, s'.mutex.stage.buffer)
      ensures !SmallSince(s.fs, ino, v, 0)
    {
      if SmallSince(s.fs, ino, v, 1) {
        CurrentIsSmall(s.fs, ino, v, 1);
        assert s'.mutex.stage.buffer == content;
      }
      if SmallSince(s.fs, ino, v, 0) {
        CurrentIsSmall(s.fs, ino, v, 0);
      }
    }
  }

  lemma {:induction false} ReadEndSmall<S(!new)>(parse: Content -> Parsed<S>, s: State<S>, s': State<S>)
    requires FilesValid(s.fs) && ReadEnd(parse, s, s')
    requires var Reading(ino, info, buffer, since) := s.mutex.stage;
      StattedBy(s, ino, info, since) && ReadsSmall(s.fs, ino, info, buffer, since)
    ensures var Read(ino, info, result, since) := s'.mutex.stage; ParsesSmall(parse, s'.fs, ino, info, result, since)
  {
    hide FilesValid, SmallSince;
    var Reading(ino, info, buffer, since) := s.mutex.stage;
    forall v | 0 <= v < since && s.fs.history[v].info == info
      ensures SmallSince(s.fs, ino, v, 1) ==> Genuine(parse, s.fs, parse(buffer))
    {
      if SmallSince(s.fs, ino, v, 1) {
        CurrentIsSmall(s.fs, ino, v, 1);
        assert HasContent(s.fs, buffer);
      }
    }
  }

  lemma {:induction false} ReadKeepsInv<S(!new)>(parse: Content -> Parsed<S>, s: State<S>, s': State<S>)
    requires Inv(parse, s) && (ReadEnd(parse, s, s') || exists n :: ReadSome(s, n, s'))
    ensures Inv(parse, s')
  {
    hide FileValid, StatsTell, Describes, Genuine, ReadsSmall, ParsesSmall;
    var Reading(ino, info, buffer, since) := s.mutex.stage;
    if ReadEnd(parse, s, s') {
      ReadEndSmall(parse, s, s');
      if Untouched(s.fs, ino, since) {
        assert buffer == s.fs.files[ino].content;
      }
    } else {
      var n :| ReadSome(s, n, s');
      ReadSomeSmall(s, n, s');
    }
  }

  lemma {:induction false} Recurrence(fs: FileSystem, i: nat, k: nat, j: nat, n: nat)
    requires StatsTell(fs, n) && i <= k <= j < |fs.history| && i < j
    requires fs.history[i].info == fs.history[j].info && fs.history[k].info.ino == fs.history[i].info.ino
    ensures fs.history[k].info.size <= n
  {
    var infos := Stats(fs.history);
    assert infos[i] == infos[j] && infos[k].ino == infos[i].ino;
  }

  /**
   * A file that has the stat a reload began with was either left alone, or the stat came back, and then it stayed as
   * small as the file system promises.
   */
  lemma {:induction false} SameStat<S(!new)>(s: State<S>, ino: nat, info: Info, since: nat, n: nat) returns (v: nat)
    requires FilesValid(s.fs) && StatsTell(s.fs, n) && StattedBy(s, ino, info, since) && s.fs.files[ino].info == info
    ensures v < since && s.fs.history[v].info == info
    ensures Untouched(s.fs, ino, since) || SmallSince(s.fs, ino, v, n)
  {
    hide StatsTell;
    v :| 0 <= v < since && s.fs.history[v].info == info;
    if !Untouched(s.fs, ino, since) {
      assert FileValid(s.fs, ino);
      var m :| 0 <= m < |s.fs.history| && s.fs.history[m] == s.fs.files[ino] && Untouched(s.fs, ino, m + 1);
      assert m >= since;
      forall k | v <= k < |s.fs.history| && s.fs.history[k].info.ino == ino
        ensures s.fs.history[k].info.size <= n
      {
        assert k <= m;
        Recurrence(s.fs, v, k, m, n);
      }
    }
  }

  lemma {:induction false} PassedGuard<S(!new)>(parse: Content -> Parsed<S>, s: State<S>)
    requires Inv(parse, s) && s.mutex.Held? && s.mutex.stage.Read?
    requires s.mutex.stage.result.Parsed? && s.fs.files[s.mutex.stage.ino].info == s.mutex.stage.info
    ensures StatsTell(s.fs, 1) ==> Genuine(parse, s.fs, s.mutex.stage.result)
    ensures StatsTell(s.fs, 0) ==> Describes(parse, s.fs, s.mutex.stage.info, s.mutex.stage.result.snap)
  {
    hide StatsTell, Whole, NotTorn;
    var Read(ino, info, result, since) := s.mutex.stage;
    assert FileValid(s.fs, ino);
    assert s.fs.files[ino] in s.fs.history;
    if StatsTell(s.fs, 1) {
      var v := SameStat(s, ino, info, since, 1);
    }
    if StatsTell(s.fs, 0) {
      var v := SameStat(s, ino, info, since, 0);
      if !Untouched(s.fs, ino, since) {
        assert s.fs.history[v] in s.fs.history && s.fs.history[v].content == [];
      }
    }
  }

  lemma {:induction false} StatAfterKeepsInv<S(!new)>(parse: Content -> Parsed<S>, s: State<S>, s': State<S>)
    requires Inv(parse, s) && StatAfter(s, s')
    ensures Inv(parse, s')
  {
    hide FileValid, StatsTell, Describes, Genuine, Untouched, StattedBy, ReadsSmall, ParsesSmall;
    if s'.mutex.Held? {
      PassedGuard(parse, s);
    }
  }

  lemma {:induction false} PublicationKeepsInv<S(!new)>(parse: Content -> Parsed<S>, s: State<S>, s': State<S>)
    requires Inv(parse, s) && (StoreSnapshot(s, s') || StoreInfo(s, s') || exists ok :: Validate(s, ok, s'))
    ensures Inv(parse, s')
  {
    hide FileValid, StatsTell, Describes, Genuine;
  }

  lemma {:induction false} ReloadKeepsInv<S(!new)>(parse: Content -> Parsed<S>, s: State<S>, s': State<S>)
    requires Inv(parse, s) && ReloadStep(parse, s, s')
    ensures Inv(parse, s')
  {
    hide Inv;
    if Acquire(s, s') || Open(s, s') || AccessFails(s, s') {
      EntryKeepsInv(parse, s, s');
    } else if StatBefore(s, s') {
      StatBeforeKeepsInv(parse, s, s');
    } else if ReadEnd(parse, s, s') || exists n :: ReadSome(s, n, s') {
      ReadKeepsInv(parse, s, s');
    } else if StatAfter(s, s') {
      StatAfterKeepsInv(parse, s, s');
    } else {
      PublicationKeepsInv(parse, s, s');
    }
  }

  lemma {:induction false} PollerMoveKeepsInv<S(!new)>(
    parse: Content -> Parsed<S>, s: State<S>, poller: Poller, done: bool, closed: bool)
    requires Inv(parse, s)
    requires (s.poller.Reloading? <==> poller.Reloading?) && (closed ==> poller.Exited?)
    ensures Inv(parse, s.(poller := poller, done := done, closed := closed))
  {
    hide FileValid, StatsTell, Describes, Genuine, Untouched, ReadsSmall, ParsesSmall;
  }

  lemma {:induction false} ControlKeepsInv<S(!new)>(parse: Content -> Parsed<S>, s: State<S>, s': State<S>)
    requires Inv(parse, s) && ControlStep(s, s')
    ensures Inv(parse, s')
  {
    hide FilesValid, StageValid, StatsTell, Whole, NotTorn;
    assert s' == s.(poller := s'.poller, done := s'.done, closed := s'.closed);
    PollerMoveKeepsInv(parse, s, s'.poller, s'.done, s'.closed);
  }

  lemma {:induction false} NextKeepsInv<S(!new)>(parse: Content -> Parsed<S>, s: State<S>, s': State<S>)
    requires Inv(parse, s) && Next(parse, s, s')
    ensures Inv(parse, s')
  {
    hide Inv, ReloadStep, ControlStep, ChangesFiles;
    if ReloadStep(parse, s, s') {
      ReloadKeepsInv(parse, s, s');
    } else if ControlStep(s, s') {
      ControlKeepsInv(parse, s, s');
    } else {
      var fs :| ChangesFiles(s.fs, fs) && s' == s.(fs := fs);
      FileChangeKeepsInv(parse, s, fs);
    }
  }

  lemma {:induction false} RunKeepsInv<S(!new)>(parse: Content -> Parsed<S>, states: seq<State<S>>, k: nat)
    requires Run(parse, states) && k < |states|
    ensures Inv(parse, states[k])
  {
    hide Next, FilesValid;
    if k > 0 {
      RunKeepsInv(parse, states, k - 1);
      PathStep(parse, states, k - 1);
      NextKeepsInv(parse, states[k - 1], states[k]);
    }
  }

  // ----- What every run keeps -----

  /**
   * Whatever is published passed validation, under any file system. When stats come back over at most one byte, it is
   * the parse of one whole file version, even while files are being overwritten.
   */
  lemma {:induction false} NeverTorn<S(!new)>(parse: Content -> Parsed<S>, states: seq<State<S>>, k: nat)
    requires Run(parse, states) && k < |states| && states[k].snap.Some?
    ensures StatsTell(states[k].fs, 1) ==> Genuine(parse, states[k].fs, Parsed(states[k].snap.value))
    ensures states[k].snap.value in states[k].approved
  {
    hide Run, Describes, Genuine, StatsTell;
    RunKeepsInv(parse, states, k);
  }

  /** The version a stat describes is, up to its parse, the one a file with that stat holds. */
  lemma {:induction false} DescribedIsHeld<S(!new)>(parse: Content -> Parsed<S>, fs: FileSystem, ino: nat, snap: S)
    requires FilesValid(fs) && StatsTell(fs, 0) && ino in fs.files
    requires Describes(parse, fs, fs.files[ino].info, snap)
    ensures parse(fs.files[ino].content) == Parsed(snap)
  {
    hide StatsTell;
    assert FileValid(fs, ino);
    var m :| 0 <= m < |fs.history| && fs.history[m] == fs.files[ino];
    var v :| v in fs.history && v.info == fs.files[ino].info && parse(v.content) == Parsed(snap);
    var i :| 0 <= i < |fs.history| && fs.history[i] == v;
    if i != m {
      var first, last := if i < m then i else m, if i < m then m else i;
      Recurrence(fs, first, first, last, 0);
      assert Sized(fs.history[i]) && Sized(fs.history[m]);
      assert fs.history[i].content == [] == fs.history[m].content;
    }
  }

  /**
   * In every state outside the two assignments of a publication, mutex held or not, lastInfo describes the version the
   * snapshot came from; so a stat of the path that equals lastInfo means the snapshot is the parse of what it holds.
   */
  lemma {:induction false} EqualStatMeansCurrent<S(!new)>(parse: Content -> Parsed<S>, states: seq<State<S>>, k: nat)
    requires Run(parse, states) && k < |states| && !InPublication(states[k]) && StatsTell(states[k].fs, 0)
    ensures Agreed(parse, states[k])
    ensures states[k].lastInfo.Some? && PathHas(states[k].fs, states[k].lastInfo.value) ==>
      parse(PathContent(states[k].fs)) == Parsed(states[k].snap.value)
  {
    hide Run, Describes, Genuine, StatsTell;
    RunKeepsInv(parse, states, k);
    var s := states[k];
    if s.lastInfo.Some? && PathHas(s.fs, s.lastInfo.value) {
      DescribedIsHeld(parse, s.fs, s.fs.path.value, s.snap.value);
    }
  }

  /** A tick is skipped exactly when the stat it took equals lastInfo, and then it took it of the published version. */
  lemma {:induction false} SkippedTickIsCurrent<S(!new)>(parse: Content -> Parsed<S>, states: seq<State<S>>, k: nat)
    requires Run(parse, states) && k + 1 < |states| && Compare(states[k], states[k + 1])
    ensures states[k + 1].poller.Waiting? <==> states[k].lastInfo == Some(states[k].poller.info)
    ensures states[k + 1].poller.Waiting? && StatsTell(states[k].fs, 0) ==>
      states[k].snap.Some? && Describes(parse, states[k].fs, states[k].poller.info, states[k].snap.value)
    ensures !states[k + 1].poller.Waiting? ==> states[k + 1].poller.WantsReload?
  {
    hide Run, Describes, Genuine, StatsTell;
    RunKeepsInv(parse, states, k);
  }

  ghost predicate NeverInPublication<S(!new)>(states: seq<State<S>>, i: nat, j: nat)
    requires i <= j < |states|
  {
    forall k :: i <= k <= j ==> !InPublication(states[k])
  }

  lemma {:induction false} StepOutsidePublication<S(!new)>(parse: Content -> Parsed<S>, s: State<S>, s': State<S>)
    requires Next(parse, s, s') && !InPublication(s) && !InPublication(s')
    ensures s'.snap == s.snap && s'.lastInfo == s.lastInfo
  {
  }

  /** A reload that does not reach publication, for whatever reason, changes neither the snapshot nor lastInfo. */
  lemma {:induction false} FailedReloadChangesNothing<S(!new)>(
    parse: Content -> Parsed<S>, states: seq<State<S>>, i: nat, j: nat)
    requires Path(parse, states) && i <= j < |states| && NeverInPublication(states, i, j)
    ensures states[j].snap == states[i].snap && states[j].lastInfo == states[i].lastInfo
    decreases j
  {
    hide Next, InPublication;
    if i < j {
      FailedReloadChangesNothing(parse, states, i, j - 1);
      PathStep(parse, states, j - 1);
      StepOutsidePublication(parse, states[j - 1], states[j]);
    }
  }

  // ----- No update is lost -----

  ghost predicate PathValid(fs: FileSystem) {
    fs.path.Some? && fs.path.value in fs.files
  }

  /** Snapshot and lastInfo are those of what the path holds. */
  ghost predicate Current<S(!new)>(parse: Content -> Parsed<S>, s: State<S>) {
    && PathValid(s.fs) && s.lastInfo == Some(PathInfo(s.fs))
    && s.snap.Some? && parse(PathContent(s.fs)) == Parsed(s.snap.value)
  }

  /** A reload in progress, if there is one, works on the file the path names, as it is now. */
  ghost predicate OnCurrentFile<S(!new)>(parse: Content -> Parsed<S>, s: State<S>) {
    && PathValid(s.fs)
    && (s.mutex.Held? ==>
          match s.mutex.stage
          case Locked => true
          case Opened(ino) => ino == s.fs.path.value
          case Reading(ino, info, buffer, _) =>
            ino == s.fs.path.value && info == PathInfo(s.fs) && buffer <= PathContent(s.fs)
          case Read(ino, info, result, _) =>
            ino == s.fs.path.value && info == PathInfo(s.fs) && result == parse(PathContent(s.fs))
          case Checked(info, snap) => info == PathInfo(s.fs) && parse(PathContent(s.fs)) == Parsed(snap)
          case Validated(info, snap) => info == PathInfo(s.fs) && parse(PathContent(s.fs)) == Parsed(snap)
          case Stored(info) =>
            info == PathInfo(s.fs) && s.snap.Some? && parse(PathContent(s.fs)) == Parsed(s.snap.value))
  }

  lemma {:induction false} QuietRead<S(!new)>(parse: Content -> Parsed<S>, s: State<S>, s': State<S>)
    requires StatBefore(s, s') || ReadEnd(parse, s, s') || exists n :: ReadSome(s, n, s')
    requires OnCurrentFile(parse, s)
    ensures OnCurrentFile(parse, s') && s'.fs == s.fs
  {
    if ReadEnd(parse, s, s') {
      assert s.mutex.stage.buffer == PathContent(s.fs);
    }
  }

  lemma {:induction false} QuietReload<S(!new)>(parse: Content -> Parsed<S>, s: State<S>, s': State<S>)
    requires ReloadStep(parse, s, s') && OnCurrentFile(parse, s)
    ensures OnCurrentFile(parse, s') && s'.fs == s.fs
  {
    hide StatBefore, ReadEnd, ReadSome;
    if StatBefore(s, s') || ReadEnd(parse, s, s') || exists n :: ReadSome(s, n, s') {
      QuietRead(parse, s, s');
    }
  }

  lemma {:induction false} QuietPublication<S(!new)>(parse: Content -> Parsed<S>, s: State<S>, s': State<S>)
    requires ReloadStep(parse, s, s') && OnCurrentFile(parse, s)
    ensures StoreInfo(s, s') || Current(parse, s) ==> Current(parse, s')
  {
    if StoreInfo(s, s') {
      assert s'.mutex.Free?;
    } else if StoreSnapshot(s, s') {
      assert s'.snap == Some(s.mutex.stage.snap);
    } else {
      assert s'.lastInfo == s.lastInfo && s'.snap == s.snap && s'.fs == s.fs;
    }
  }

  /** While the files rest, a reload on the current file stays on it, and a current snapshot stays current. */
  lemma {:induction false} QuietStep<S(!new)>(parse: Content -> Parsed<S>, s: State<S>, s': State<S>)
    requires Next(parse, s, s') && s'.fs == s.fs && OnCurrentFile(parse, s)
    ensures OnCurrentFile(parse, s')
    ensures StoreInfo(s, s') || Current(parse, s) ==> Current(parse, s')
  {
    hide ReloadStep, ChangesFiles;
    if ReloadStep(parse, s, s') {
      QuietReload(parse, s, s');
      QuietPublication(parse, s, s');
    }
  }

  ghost predicate Quiet<S(!new)>(states: seq<State<S>>, i: nat, j: nat)
    requires i <= j < |states|
  {
    forall k :: i <= k <= j ==> states[k].fs == states[i].fs
  }

  lemma {:induction false} QuietKeeps<S(!new)>(parse: Content -> Parsed<S>, states: seq<State<S>>, i: nat, j: nat)
    requires Path(parse, states) && i <= j < |states| && Quiet(states, i, j) && OnCurrentFile(parse, states[i])
    ensures OnCurrentFile(parse, states[j])
    ensures Current(parse, states[i]) ==> Current(parse, states[j])
    decreases j
  {
    hide Next, OnCurrentFile, Current;
    if i < j {
      QuietKeeps(parse, states, i, j - 1);
      PathStep(parse, states, j - 1);
      QuietStep(parse, states[j - 1], states[j]);
    }
  }

  /**
   * If the files do not change from `i` to `j`, where no reload was under way at `i`, then as soon as one reload
   * succeeds the snapshot is, and stays, the parse of what the path holds. This needs nothing of the stats.
   */
  lemma {:induction false} QuietReloadConverges<S(!new)>(
    parse: Content -> Parsed<S>, states: seq<State<S>>, i: nat, m: nat, j: nat)
    requires Path(parse, states) && i <= m < j < |states| && Quiet(states, i, j)
    requires PathValid(states[i].fs) && states[i].mutex.Free? && StoreInfo(states[m], states[m + 1])
    ensures Current(parse, states[j])
  {
    hide Next, Current;
    QuietKeeps(parse, states, i, m);
    PathStep(parse, states, m);
    QuietStep(parse, states[m], states[m + 1]);
    assert Quiet(states, m + 1, j);
    QuietKeeps(parse, states, m + 1, j);
  }

  // ----- A tick in a quiet period -----

  /** The poller's reload ends for want of access, at a parse error or nil snapshot, or at validation. */
  ghost predicate PollFails<S(!new)>(s: State<S>, s': State<S>) {
    && s.mutex.Held? && s.mutex.byPoller
    && (AccessFails(s, s') || (StatAfter(s, s') && !s.mutex.stage.result.Parsed?) || Validate(s, false, s'))
  }

  /** A tick under way since the files came to rest. */
  ghost predicate TickUnderWay<S(!new)>(parse: Content -> Parsed<S>, s: State<S>) {
    && PathValid(s.fs)
    && match s.poller
       case Statted(info) => info == PathInfo(s.fs)
       case WantsReload => OnCurrentFile(parse, s)
       case Reloading => OnCurrentFile(parse, s)
       case _ => false
  }

  lemma {:induction false} TickControl<S(!new)>(parse: Content -> Parsed<S>, s: State<S>, s': State<S>)
    requires Inv(parse, s) && StatsTell(s.fs, 0) && TickUnderWay(parse, s) && ControlStep(s, s')
    ensures s'.fs == s.fs
    ensures if s'.poller.Waiting? then Current(parse, s') else TickUnderWay(parse, s')
  {
    hide StatsTell, Describes, Genuine, ReadsSmall, ParsesSmall;
    if Compare(s, s') && s'.poller.Waiting? {
      assert Agreed(parse, s);
      DescribedIsHeld(parse, s.fs, s.fs.path.value, s.snap.value);
    }
  }

  lemma {:induction false} TickReload<S(!new)>(parse: Content -> Parsed<S>, s: State<S>, s': State<S>)
    requires Inv(parse, s) && TickUnderWay(parse, s) && ReloadStep(parse, s, s')
    ensures if s'.poller.Waiting? then Current(parse, s') || PollFails(s, s') else TickUnderWay(parse, s')
  {
    hide StatsTell, Describes, Genuine, FilesValid, StageValid;
    if OnCurrentFile(parse, s) {
      QuietReload(parse, s, s');
      QuietPublication(parse, s, s');
    }
    if s'.poller.Waiting? {
      assert s.poller.Reloading? && s.mutex.byPoller && s'.mutex.Free?;
    }
  }

  lemma {:induction false} TickStep<S(!new)>(parse: Content -> Parsed<S>, s: State<S>, s': State<S>)
    requires Inv(parse, s) && StatsTell(s.fs, 0) && TickUnderWay(parse, s) && Next(parse, s, s') && s'.fs == s.fs
    ensures if s'.poller.Waiting? then Current(parse, s') || PollFails(s, s') else TickUnderWay(parse, s')
  {
    hide Inv, StatsTell, ReloadStep, ControlStep, ChangesFiles, Current, PollFails;
    if ReloadStep(parse, s, s') {
      TickReload(parse, s, s');
    } else if ControlStep(s, s') {
      TickControl(parse, s, s');
    }
  }

  lemma {:induction false} TickGoesOn<S(!new)>(parse: Content -> Parsed<S>, states: seq<State<S>>, i: nat, j: nat)
    requires Run(parse, states) && i <= j < |states| && Quiet(states, i, j) && StatsTell(states[i].fs, 0)
    requires TickUnderWay(parse, states[i]) && forall k :: i <= k <= j ==> !states[k].poller.Waiting?
    ensures TickUnderWay(parse, states[j])
    decreases j
  {
    hide Next, Init, Inv, StatsTell, TickUnderWay, Current, PollFails;
    if i < j {
      TickGoesOn(parse, states, i, j - 1);
      RunKeepsInv(parse, states, j - 1);
      PathStep(parse, states, j - 1);
      TickStep(parse, states[j - 1], states[j]);
    }
  }

  /**
   * In a quiet period every tick taken to its end, whatever other threads do meanwhile, leaves the snapshot that of
   * what the path holds, unless the poller's own reload could not read, parse or validate the file.
   */
  lemma {:induction false} QuietTickEndsCurrent<S(!new)>(
    parse: Content -> Parsed<S>, states: seq<State<S>>, i: nat, j: nat)
    requires Run(parse, states) && i + 1 < j < |states| && Quiet(states, i, j) && StatsTell(states[i].fs, 0)
    requires Tick(states[i], states[i + 1]) && states[i + 1].poller.Statted?
    requires states[j].poller.Waiting? && forall k :: i < k < j ==> !states[k].poller.Waiting?
    ensures Current(parse, states[j]) || PollFails(states[j - 1], states[j])
  {
    hide Run, Inv, StatsTell, Current, PollFails;
    assert TickUnderWay(parse, states[i + 1]);
    assert Quiet(states, i + 1, j - 1);
    TickGoesOn(parse, states, i + 1, j - 1);
    RunKeepsInv(parse, states, j - 1);
    RunStep(parse, states, j - 1);
    TickStep(parse, states[j - 1], states[j]);
  }

  lemma {:induction false} RunStep<S(!new)>(parse: Content -> Parsed<S>, states: seq<State<S>>, k: nat)
    requires Run(parse, states) && k + 1 < |states|
    ensures Next(parse, states[k], states[k + 1])
  {
    hide Next;
    PathStep(parse, states, k);
  }

  // ----- Close -----

  lemma {:induction false} ClosedStays<S(!new)>(parse: Content -> Parsed<S>, states: seq<State<S>>, i: nat, j: nat)
    requires Path(parse, states) && i <= j < |states| && states[i].closed
    ensures states[j].closed
    decreases j
  {
    hide Next;
    if i < j {
      ClosedStays(parse, states, i, j - 1);
      PathStep(parse, states, j - 1);
      ClosedStep(parse, states[j - 1], states[j]);
    }
  }

  lemma {:induction false} ClosedStep<S(!new)>(parse: Content -> Parsed<S>, s: State<S>, s': State<S>)
    requires Next(parse, s, s') && s.closed
    ensures s'.closed
  {
  }

  lemma {:induction false} OnlyStoreSnapshotPublishes<S(!new)>(parse: Content -> Parsed<S>, s: State<S>, s': State<S>)
    requires Next(parse, s, s') && s'.snap != s.snap
    ensures StoreSnapshot(s, s')
  {
  }

  /** Once Close has returned the poller holds no mutex and publishes nothing: only a manual reload still can. */
  lemma {:induction false} ClosedPollerIsSilent<S(!new)>(
    parse: Content -> Parsed<S>, states: seq<State<S>>, i: nat, j: nat)
    requires Run(parse, states) && i <= j && j + 1 < |states| && states[i].closed
    ensures states[j].poller.Exited? && states[j + 1].poller.Exited?
    ensures states[j + 1].snap != states[j].snap ==> states[j].mutex.Held? && !states[j].mutex.byPoller
  {
    hide Next, Init, FilesValid, StageValid, StatsTell;
    ClosedStays(parse, states, i, j);
    ClosedStays(parse, states, i, j + 1);
    RunKeepsInv(parse, states, j);
    RunKeepsInv(parse, states, j + 1);
    PathStep(parse, states, j);
    if states[j + 1].snap != states[j].snap {
      OnlyStoreSnapshotPublishes(parse, states[j], states[j + 1]);
    }
  }

  // ----- Building paths -----

  lemma {:induction false} Extend<S(!new)>(parse: Content -> Parsed<S>, states: seq<State<S>>, s: State<S>)
    requires Path(parse, states) && Next(parse, states[|states| - 1], s)
    ensures Path(parse, states + [s])
  {
    hide Next;
    var longer := states + [s];
    forall k | 0 <= k < |longer| - 1
      ensures Next(parse, longer[k], longer[k + 1])
    {
      if k < |states| - 1 {
        PathStep(parse, states, k);
      }
    }
  }

  lemma {:induction false} JoinPaths<S(!new)>(parse: Content -> Parsed<S>, a: seq<State<S>>, b: seq<State<S>>)
    requires Path(parse, a) && Path(parse, b) && a[|a| - 1] == b[0]
    ensures Path(parse, a + b[1..])
    ensures (a + b[1..])[0] == a[0] && (a + b[1..])[|a + b[1..]| - 1] == b[|b| - 1]
  {
    hide Next;
    var joined := a + b[1..];
    forall k | 0 <= k < |joined| - 1
      ensures Next(parse, joined[k], joined[k + 1])
    {
      if k < |a| - 1 {
        PathStep(parse, a, k);
      } else {
        PathStep(parse, b, k - |a| + 1);
      }
    }
  }

  lemma {:induction false} PathOfOne<S(!new)>(parse: Content -> Parsed<S>, s: State<S>)
    ensures Path(parse, [s])
  {
  }

  /** A path goes on by a step of a reload. */
  lemma {:induction false} ByReload<S(!new)>(parse: Content -> Parsed<S>, states: seq<State<S>>, s: State<S>)
    returns (longer: seq<State<S>>)
    requires Path(parse, states) && ReloadStep(parse, states[|states| - 1], s)
    ensures Path(parse, longer) && longer[0] == states[0] && longer[|longer| - 1] == s
  {
    hide ReloadStep;
    Extend(parse, states, s);
    longer := states + [s];
  }

  /** A path goes on by a step of the poller or of Close. */
  lemma {:induction false} ByControl<S(!new)>(parse: Content -> Parsed<S>, states: seq<State<S>>, s: State<S>)
    returns (longer: seq<State<S>>)
    requires Path(parse, states) && ControlStep(states[|states| - 1], s)
    ensures Path(parse, longer) && longer[0] == states[0] && longer[|longer| - 1] == s
  {
    hide ControlStep;
    Extend(parse, states, s);
    longer := states + [s];
  }

  /** A path goes on by a write in place. */
  lemma {:induction false} ByWrite<S(!new)>(parse: Content -> Parsed<S>, states: seq<State<S>>, f: File, fs: FileSystem)
    returns (longer: seq<State<S>>)
    requires Path(parse, states) && Writes(states[|states| - 1].fs, f.info.ino, f, fs)
    ensures Path(parse, longer) && longer[0] == states[0] && longer[|longer| - 1] == states[|states| - 1].(fs := fs)
  {
    var s := states[|states| - 1];
    assert ChangesFiles(s.fs, fs);
    Extend(parse, states, s.(fs := fs));
    longer := states + [s.(fs := fs)];
  }

  /** The bytes of a file from where the buffer ends to the end, in one read. */
  lemma {:induction false} ByReadingOn<S(!new)>(parse: Content -> Parsed<S>, states: seq<State<S>>, n: nat)
    returns (longer: seq<State<S>>)
    requires Path(parse, states)
    requires var s := states[|states| - 1];
      && s.mutex.Held? && s.mutex.stage.Reading? && s.mutex.stage.ino in s.fs.files
      && |s.mutex.stage.buffer| <= n <= |s.fs.files[s.mutex.stage.ino].content|
    ensures Path(parse, longer) && longer[0] == states[0]
    ensures var s := states[|states| - 1]; var m := |s.mutex.stage.buffer|;
      longer[|longer| - 1] == s.(mutex := s.mutex.(stage := s.mutex.stage.(buffer :=
        s.mutex.stage.buffer + s.fs.files[s.mutex.stage.ino].content[m..n])))
  {
    hide Path;
    var s := states[|states| - 1];
    var m := |s.mutex.stage.buffer|;
    var buffer := s.mutex.stage.buffer + s.fs.files[s.mutex.stage.ino].content[m..n];
    if m == n {
      assert buffer == s.mutex.stage.buffer;
      longer := states;
    } else {
      var s' := s.(mutex := s.mutex.(stage := s.mutex.stage.(buffer := buffer)));
      assert ReadSome(s, n - m, s');
      longer := ByReload(parse, states, s');
    }
  }
}
