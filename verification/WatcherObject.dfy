/** The watcher as an object: its methods, among any writers, are paths of the machine. */
module WatcherObject {
  import opened Packets
  import opened Watcher

  // ----- What writers do meanwhile -----

  /** Any number of changes lead from one file system to the other. */
  ghost predicate Becomes(fs: FileSystem, fs': FileSystem) {
    exists trail :: IsTrail(trail) && trail[0] == fs && trail[|trail| - 1] == fs'
  }

  ghost predicate IsTrail(trail: seq<FileSystem>) {
    trail != [] && forall k :: 0 <= k < |trail| - 1 ==> ChangesFiles(trail[k], trail[k + 1])
  }

  lemma {:induction false} BecomesItself(fs: FileSystem)
    ensures Becomes(fs, fs)
  {
    assert IsTrail([fs]);
  }

  lemma {:induction false} TrailKeepsFiles(trail: seq<FileSystem>, ino: nat)
    requires IsTrail(trail) && ino in trail[0].files
    ensures ino in trail[|trail| - 1].files
    decreases |trail|
  {
    if |trail| > 1 {
      assert ChangesFiles(trail[0], trail[0 + 1]);
      assert forall k :: 0 <= k < |trail| - 2 ==> trail[1..][k] == trail[k + 1];
      TrailKeepsFiles(trail[1..], ino);
    }
  }

  /** An open file is never forgotten. */
  lemma {:induction false} BecomesKeepsFiles(fs: FileSystem, fs': FileSystem, ino: nat)
    requires Becomes(fs, fs') && ino in fs.files
    ensures ino in fs'.files
  {
    var trail :| IsTrail(trail) && trail[0] == fs && trail[|trail| - 1] == fs';
    TrailKeepsFiles(trail, ino);
  }

  lemma {:induction false} AlongTrail<S(!new)>(
    parse: Content -> Parsed<S>, states: seq<State<S>>, trail: seq<FileSystem>) returns (longer: seq<State<S>>)
    requires Path(parse, states) && IsTrail(trail) && states[|states| - 1].fs == trail[0]
    ensures Path(parse, longer) && longer[0] == states[0]
    ensures longer[|longer| - 1] == states[|states| - 1].(fs := trail[|trail| - 1])
    decreases |trail|
  {
    hide Path, ChangesFiles;
    longer := states;
    if |trail| > 1 {
      var s := states[|states| - 1];
      assert ChangesFiles(trail[0], trail[0 + 1]);
      Extend(parse, states, s.(fs := trail[1]));
      assert forall k :: 0 <= k < |trail| - 2 ==> trail[1..][k] == trail[k + 1];
      longer := AlongTrail(parse, states + [s.(fs := trail[1])], trail[1..]);
    }
  }

  /** A path goes on by what writers do. */
  lemma {:induction false} ByWriters<S(!new)>(parse: Content -> Parsed<S>, states: seq<State<S>>, fs: FileSystem)
    returns (longer: seq<State<S>>)
    requires Path(parse, states) && Becomes(states[|states| - 1].fs, fs)
    ensures Path(parse, longer) && longer[0] == states[0]
    ensures longer[|longer| - 1] == states[|states| - 1].(fs := fs)
  {
    var trail :| IsTrail(trail) && trail[0] == states[|states| - 1].fs && trail[|trail| - 1] == fs;
    longer := AlongTrail(parse, states, trail);
  }

  // ----- What one reload sees -----

  /** A read of up to `n` bytes, and the file system at that moment. */
  datatype Access = Access(fs: FileSystem, n: nat)

  /** The file system at each access of a reload: open, stat, reads, the read that finds the end, and stat again. */
  datatype Sights = Sights(open: FileSystem, stat: FileSystem, pieces: seq<Access>, end: FileSystem, after: FileSystem)

  function NextBytes(content: Content, from: nat, n: nat): (bytes: Content)
    ensures |bytes| <= n && (from <= |content| ==> from + |bytes| <= |content|)
  {
    if from >= |content| then [] else if from + n <= |content| then content[from..from + n] else content[from..]
  }

  /** The file system after the first `k` reads. */
  function SeenLast(sights: Sights, k: nat): FileSystem
    requires k <= |sights.pieces|
  {
    if k == 0 then sights.stat else sights.pieces[k - 1].fs
  }

  /** Each sight comes after the one before, with any writes in between. */
  ghost predicate InOrder(sights: Sights) {
    && FilesValid(sights.open)
    && Becomes(sights.open, sights.stat)
    && (forall k :: 0 <= k < |sights.pieces| ==> Becomes(SeenLast(sights, k), sights.pieces[k].fs))
    && Becomes(SeenLast(sights, |sights.pieces|), sights.end) && Becomes(sights.end, sights.after)
  }

  lemma {:induction false} FileStays(sights: Sights, ino: nat, k: nat)
    requires InOrder(sights) && ino in sights.open.files && k <= |sights.pieces|
    ensures ino in sights.stat.files && ino in SeenLast(sights, k).files
  {
    hide Becomes, FilesValid;
    BecomesKeepsFiles(sights.open, sights.stat, ino);
    if k > 0 {
      FileStays(sights, ino, k - 1);
      assert Becomes(SeenLast(sights, k - 1), sights.pieces[k - 1].fs);
      BecomesKeepsFiles(SeenLast(sights, k - 1), sights.pieces[k - 1].fs, ino);
    }
  }

  /** The bytes the reads collect, each from what the file holds at that moment. */
  function Collected(ino: nat, pieces: seq<Access>): Content
    requires forall k :: 0 <= k < |pieces| ==> ino in pieces[k].fs.files
  {
    if pieces == [] then []
    else
      var buffer := Collected(ino, pieces[..|pieces| - 1]);
      var last := pieces[|pieces| - 1];
      buffer + NextBytes(last.fs.files[ino].content, |buffer|, last.n)
  }

  /** The file the reload opens is there at every access, and the last read finds its end. */
  ghost predicate Readable(sights: Sights) {
    sights.open.path.Some? ==>
      var ino := sights.open.path.value;
      && (forall k :: 0 <= k < |sights.pieces| ==> ino in sights.pieces[k].fs.files)
      && ino in sights.stat.files && ino in sights.end.files && ino in sights.after.files
      && |sights.end.files[ino].content| <= |Collected(ino, sights.pieces)|
  }

  /** Of these only the end is a condition: an open file is there at every access. */
  lemma {:induction false} OpenFileStays(sights: Sights, ino: nat)
    requires InOrder(sights) && sights.open.path == Some(ino)
    ensures forall k :: 0 <= k < |sights.pieces| ==> ino in sights.pieces[k].fs.files
    ensures ino in sights.stat.files && ino in sights.end.files && ino in sights.after.files
  {
    hide Becomes;
    forall k | 0 <= k < |sights.pieces|
      ensures ino in sights.pieces[k].fs.files
    {
      FileStays(sights, ino, k + 1);
    }
    FileStays(sights, ino, |sights.pieces|);
    BecomesKeepsFiles(SeenLast(sights, |sights.pieces|), sights.end, ino);
    BecomesKeepsFiles(sights.end, sights.after, ino);
  }

  /** The file the reload reads keeps its content and stat throughout. */
  ghost predicate Undisturbed(sights: Sights, f: File)
    requires Readable(sights) && sights.open.path.Some?
  {
    var ino := sights.open.path.value;
    && sights.stat.files[ino] == f && sights.end.files[ino] == f && sights.after.files[ino] == f
    && forall k :: 0 <= k < |sights.pieces| ==> sights.pieces[k].fs.files[ino] == f
  }

  lemma {:induction false} NextBytesFollow(buffer: Content, content: Content, n: nat)
    requires buffer <= content
    ensures buffer + NextBytes(content, |buffer|, n) <= content
  {
  }

  lemma {:induction false} CollectedPrefix(ino: nat, pieces: seq<Access>, content: Content)
    requires forall k :: 0 <= k < |pieces| ==> ino in pieces[k].fs.files && pieces[k].fs.files[ino].content == content
    ensures Collected(ino, pieces) <= content
  {
    if pieces != [] {
      var buffer := Collected(ino, pieces[..|pieces| - 1]);
      CollectedPrefix(ino, pieces[..|pieces| - 1], content);
      NextBytesFollow(buffer, content, pieces[|pieces| - 1].n);
    }
  }

  /** Left alone, the file is read whole. */
  lemma {:induction false} UndisturbedIsWhole(sights: Sights, f: File)
    requires Readable(sights) && sights.open.path.Some? && Undisturbed(sights, f)
    ensures Collected(sights.open.path.value, sights.pieces) == f.content
  {
    CollectedPrefix(sights.open.path.value, sights.pieces, f.content);
  }

  /** What the reload makes of what it sees, or None if it ends before publication. */
  function Outcome<S>(parse: Content -> Parsed<S>, sights: Sights, validates: bool): Option<(S, Info)>
    requires Readable(sights)
  {
    if sights.open.path.None? then None
    else
      var ino := sights.open.path.value;
      var result := parse(Collected(ino, sights.pieces));
      if !result.Parsed? || sights.stat.files[ino].info != sights.after.files[ino].info || !validates then None
      else Some((result.snap, sights.stat.files[ino].info))
  }

  /** Of a file left alone the outcome is that of its content. */
  lemma {:induction false} UndisturbedOutcome<S(!new)>(parse: Content -> Parsed<S>, sights: Sights, validates: bool)
    requires Readable(sights)
    ensures forall f :: sights.open.path.Some? && Undisturbed(sights, f) ==>
      Outcome(parse, sights, validates) ==
        if parse(f.content).Parsed? && validates then Some((parse(f.content).snap, f.info)) else None
  {
    forall f | sights.open.path.Some? && Undisturbed(sights, f)
      ensures Collected(sights.open.path.value, sights.pieces) == f.content
    {
      UndisturbedIsWhole(sights, f);
    }
  }

  /** A path goes on by a read of the next bytes, if there are any. */
  lemma {:induction false} ByPiece<S(!new)>(parse: Content -> Parsed<S>, states: seq<State<S>>, n: nat)
    returns (longer: seq<State<S>>)
    requires Path(parse, states)
    requires var s := states[|states| - 1];
      s.mutex.Held? && s.mutex.stage.Reading? && s.mutex.stage.ino in s.fs.files
    ensures Path(parse, longer) && longer[0] == states[0]
    ensures var s := states[|states| - 1]; var buffer := s.mutex.stage.buffer;
      var bytes := NextBytes(s.fs.files[s.mutex.stage.ino].content, |buffer|, n);
      longer[|longer| - 1] == s.(mutex := s.mutex.(stage := s.mutex.stage.(buffer := buffer + bytes)))
  {
    hide Path;
    var s := states[|states| - 1];
    var buffer := s.mutex.stage.buffer;
    var content := s.fs.files[s.mutex.stage.ino].content;
    var bytes := NextBytes(content, |buffer|, n);
    if bytes == [] {
      assert buffer + bytes == buffer;
      longer := states;
    } else {
      assert bytes == content[|buffer|..|buffer| + |bytes|];
      longer := ByReadingOn(parse, states, |buffer| + |bytes|);
    }
  }

  /** A path goes on by the first `k` reads, with what writers do before each of them. */
  lemma {:induction false} ReadPieces<S(!new)>(
    parse: Content -> Parsed<S>, states: seq<State<S>>, sights: Sights, ino: nat, k: nat)
    returns (longer: seq<State<S>>)
    requires InOrder(sights) && Readable(sights) && sights.open.path == Some(ino) && k <= |sights.pieces|
    requires Path(parse, states)
    requires var s := states[|states| - 1];
      s.fs == sights.stat && s.mutex.Held? && s.mutex.stage.Reading? && s.mutex.stage.ino == ino &&
      s.mutex.stage.buffer == []
    ensures Path(parse, longer) && longer[0] == states[0]
    ensures var s := states[|states| - 1]; var buffer := Collected(ino, sights.pieces[..k]);
      longer[|longer| - 1] ==
        s.(fs := SeenLast(sights, k), mutex := s.mutex.(stage := s.mutex.stage.(buffer := buffer)))
    decreases k
  {
    hide Path, Becomes, FilesValid, Collected, NextBytes;
    longer := states;
    CollectedStep(ino, sights.pieces, k);
    if k > 0 {
      longer := ReadPieces(parse, states, sights, ino, k - 1);
      longer := ByWriters(parse, longer, sights.pieces[k - 1].fs);
      longer := ByPiece(parse, longer, sights.pieces[k - 1].n);
    }
  }

  lemma {:induction false} CollectedStep(ino: nat, pieces: seq<Access>, k: nat)
    requires k <= |pieces| && forall i :: 0 <= i < |pieces| ==> ino in pieces[i].fs.files
    ensures k == 0 ==> Collected(ino, pieces[..k]) == []
    ensures k > 0 ==>
      var buffer, Access(fs, n) := Collected(ino, pieces[..k - 1]), pieces[k - 1];
      Collected(ino, pieces[..k]) == buffer + NextBytes(fs.files[ino].content, |buffer|, n)
  {
    if k > 0 {
      assert pieces[..k][..k - 1] == pieces[..k - 1];
    }
  }

  /** The bytes one reload collects. */
  method Collect(ino: nat, pieces: seq<Access>) returns (buffer: Content)
    requires forall k :: 0 <= k < |pieces| ==> ino in pieces[k].fs.files
    ensures buffer == Collected(ino, pieces)
  {
    buffer := [];
    for k := 0 to |pieces|
      invariant buffer == Collected(ino, pieces[..k])
    {
      CollectedStep(ino, pieces, k + 1);
      buffer := buffer + NextBytes(pieces[k].fs.files[ino].content, |buffer|, pieces[k].n);
    }
    assert pieces[..|pieces|] == pieces;
  }

  /** A path goes on from the open file to the parse of what the reads collect. */
  lemma {:induction false} ByReading<S(!new)>(
    parse: Content -> Parsed<S>, states: seq<State<S>>, sights: Sights, ino: nat) returns (longer: seq<State<S>>)
    requires InOrder(sights) && Readable(sights) && sights.open.path == Some(ino)
    requires Path(parse, states)
    requires var s := states[|states| - 1]; s.fs == sights.stat && s.mutex.Held? && s.mutex.stage == Opened(ino)
    ensures Path(parse, longer) && longer[0] == states[0]
    ensures var s := states[|states| - 1]; var info := sights.stat.files[ino].info;
      var result := parse(Collected(ino, sights.pieces));
      longer[|longer| - 1] ==
        s.(fs := sights.end, mutex := s.mutex.(stage := Read(ino, info, result, |sights.stat.history|)))
  {
    hide Path, Becomes, FilesValid, Collected;
    var s := states[|states| - 1];
    var info, since := sights.stat.files[ino].info, |sights.stat.history|;
    var statted := s.(mutex := s.mutex.(stage := Reading(ino, info, [], since)));
    assert StatBefore(s, statted);
    longer := ByReload(parse, states, statted);
    longer := ReadPieces(parse, longer, sights, ino, |sights.pieces|);
    assert sights.pieces[..|sights.pieces|] == sights.pieces;
    longer := ByWriters(parse, longer, sights.end);
    longer := ByEnd(parse, longer);
  }

  lemma {:induction false} ByEnd<S(!new)>(parse: Content -> Parsed<S>, states: seq<State<S>>)
    returns (longer: seq<State<S>>)
    requires Path(parse, states)
    requires var s := states[|states| - 1];
      && s.mutex.Held? && s.mutex.stage.Reading? && s.mutex.stage.ino in s.fs.files
      && |s.fs.files[s.mutex.stage.ino].content| <= |s.mutex.stage.buffer|
    ensures Path(parse, longer) && longer[0] == states[0]
    ensures var s := states[|states| - 1]; var Reading(ino, info, buffer, since) := s.mutex.stage;
      longer[|longer| - 1] == s.(mutex := s.mutex.(stage := Read(ino, info, parse(buffer), since)))
  {
    hide Path;
    var s := states[|states| - 1];
    var Reading(ino, info, buffer, since) := s.mutex.stage;
    var s' := s.(mutex := s.mutex.(stage := Read(ino, info, parse(buffer), since)));
    assert ReadEnd(parse, s, s');
    longer := ByReload(parse, states, s');
  }

  /** A reload takes the mutex and opens the path, or gives up. */
  lemma {:induction false} Opening<S(!new)>(parse: Content -> Parsed<S>, s: State<S>) returns (states: seq<State<S>>)
    requires s.mutex.Free? && !s.poller.Reloading?
    ensures Path(parse, states) && states[0] == s
    ensures var mine := s.poller.WantsReload?;
      states[|states| - 1] == match s.fs.path
        case None => s.(poller := if mine then Waiting else s.poller)
        case Some(ino) => s.(mutex := Held(mine, Opened(ino)), poller := if mine then Reloading else s.poller)
  {
    hide Path;
    var mine := s.poller.WantsReload?;
    var locked := s.(mutex := Held(mine, Locked), poller := if mine then Reloading else s.poller);
    states := [s];
    PathOfOne(parse, s);
    states := ByReload(parse, states, locked);
    if s.fs.path.None? {
      states := ByReload(parse, states, Unlock(locked));
    } else {
      states := ByReload(parse, states, locked.(mutex := Held(mine, Opened(s.fs.path.value))));
    }
  }

  /** The watcher's fields. `approved` only records what validation let through. */
  class FileWatcher<S(!new)> {
    var snap: Option<S>
    var lastInfo: Option<Info>
    var done: bool
    ghost var approved: seq<S>

    constructor ()
      ensures snap.None? && lastInfo.None? && !done && approved == []
    {
      snap, lastInfo, done, approved := None, None, false, [];
    }

    ghost function View(fs: FileSystem, mutex: Mutex<S>, poller: Poller): State<S>
      reads this
    {
      State(fs, snap, lastInfo, mutex, poller, done, false, approved)
    }

    /**
     * A reload among writers: statement by statement it is a path of the machine, and what it publishes, if anything,
     * is the outcome of what it saw. A file left alone is published exactly when it is there, parses and validates.
     * `poller` is where the poller stands; if this is its own reload it goes back to waiting.
     */
    method Reload(parse: Content -> Parsed<S>, sights: Sights, validates: bool, ghost poller: Poller)
      returns (ok: bool, ghost states: seq<State<S>>)
      requires InOrder(sights) && Readable(sights) && !poller.Reloading?
      modifies this`snap, this`lastInfo, this`approved
      ensures Path(parse, states) && states[0] == old(View(sights.open, Free, poller))
      ensures states[|states| - 1] ==
        View(if sights.open.path.None? then sights.open else sights.after, Free,
             if poller.WantsReload? then Waiting else poller)
      ensures ok <==> Outcome(parse, sights, validates).Some?
      ensures ok ==> snap == Some(Outcome(parse, sights, validates).value.0)
      ensures ok ==> lastInfo == Some(Outcome(parse, sights, validates).value.1)
      ensures !ok ==> snap == old(snap) && lastInfo == old(lastInfo)
      ensures forall f :: sights.open.path.Some? && Undisturbed(sights, f) ==>
        && (ok <==> parse(f.content).Parsed? && validates)
        && (ok ==> snap.Some? && parse(f.content) == Parsed(snap.value) && lastInfo == Some(f.info))
    {
      hide Path, Becomes, FilesValid, Collected, Undisturbed;
      UndisturbedOutcome(parse, sights, validates);
      ghost var mine := poller.WantsReload?;
      ghost var during := if mine then Reloading else poller;
      ghost var end := if mine then Waiting else poller;
      states := Opening(parse, View(sights.open, Free, poller));
      if sights.open.path.None? {
        return false, states;
      }
      var ino := sights.open.path.value;
      states := ByWriters(parse, states, sights.stat);
      var info := sights.stat.files[ino].info;
      var result;
      result, states := ReadFile(parse, sights, ino, mine, during, states);
      states := ByWriters(parse, states, sights.after);
      var after := sights.after.files[ino].info;
      if !result.Parsed? || FileChanged(info, after) {
        states := ByReload(parse, states, View(sights.after, Free, end));
        return false, states;
      }
      states := ByReload(parse, states, View(sights.after, Held(mine, Checked(info, result.snap)), during));
      ok, states := Publish(parse, sights.after, info, result.snap, validates, mine, during, states);
    }

    /** The open file is statted and then read, piece by piece, to what is its end by then. */
    method ReadFile(
      parse: Content -> Parsed<S>, sights: Sights, ino: nat,
      ghost mine: bool, ghost during: Poller, ghost before: seq<State<S>>)
      returns (result: Parsed<S>, ghost states: seq<State<S>>)
      requires InOrder(sights) && Readable(sights) && sights.open.path == Some(ino)
      requires Path(parse, before) && before[|before| - 1] == View(sights.stat, Held(mine, Opened(ino)), during)
      ensures result == parse(Collected(ino, sights.pieces))
      ensures Path(parse, states) && states[0] == before[0]
      ensures var info, since := sights.stat.files[ino].info, |sights.stat.history|;
        states[|states| - 1] == View(sights.end, Held(mine, Read(ino, info, result, since)), during)
    {
      hide Path, Becomes, FilesValid;
      states := ByReading(parse, before, sights, ino);
      var buffer := Collect(ino, sights.pieces);
      result := parse(buffer);
    }

    /** The end of a reload: validation, then the two assignments. */
    method Publish(
      parse: Content -> Parsed<S>, fs: FileSystem, info: Info, parsed: S, validates: bool,
      ghost mine: bool, ghost during: Poller, ghost before: seq<State<S>>)
      returns (ok: bool, ghost states: seq<State<S>>)
      requires Path(parse, before) && before[|before| - 1] == View(fs, Held(mine, Checked(info, parsed)), during)
      modifies this`snap, this`lastInfo, this`approved
      ensures Path(parse, states) && states[0] == before[0]
      ensures states[|states| - 1] == View(fs, Free, if mine then Waiting else during)
      ensures ok <==> validates
      ensures snap == (if ok then Some(parsed) else old(snap)) && lastInfo == (if ok then Some(info) else old(lastInfo))
    {
      hide Path;
      ghost var end := if mine then Waiting else during;
      states := before;
      if !validates {
        assert Validate(states[|states| - 1], false, View(fs, Free, end));
        states := ByReload(parse, states, View(fs, Free, end));
        return false, states;
      }
      approved := approved + [parsed];
      assert Validate(states[|states| - 1], true, View(fs, Held(mine, Validated(info, parsed)), during));
      states := ByReload(parse, states, View(fs, Held(mine, Validated(info, parsed)), during));
      snap := Some(parsed);
      states := ByReload(parse, states, View(fs, Held(mine, Stored(info)), during));
      lastInfo := Some(info);
      states := ByReload(parse, states, View(fs, Free, end));
      ok := true;
    }

    /**
     * One poll among writers: `tick` is what its stat sees. It does nothing if the path is missing or the stat equals
     * lastInfo, and otherwise it is a reload.
     */
    method Poll(parse: Content -> Parsed<S>, tick: FileSystem, sights: Sights, validates: bool)
      returns (ghost states: seq<State<S>>)
      requires FilesValid(tick) && Becomes(tick, sights.open) && InOrder(sights) && Readable(sights)
      modifies this`snap, this`lastInfo, this`approved
      ensures Path(parse, states) && states[0] == old(View(tick, Free, Waiting))
      ensures states[|states| - 1] == View(states[|states| - 1].fs, Free, Waiting)
      ensures var skips := tick.path.None? || old(lastInfo) == Some(PathInfo(tick));
        var outcome := Outcome(parse, sights, validates);
        if skips || outcome.None? then snap == old(snap) && lastInfo == old(lastInfo)
        else snap == Some(outcome.value.0) && lastInfo == Some(outcome.value.1)
    {
      hide Path, Next, Becomes, InOrder, Outcome;
      states := [View(tick, Free, Waiting)];
      PathOfOne(parse, View(tick, Free, Waiting));
      if tick.path.None? {
        return;
      }
      var info := tick.files[tick.path.value].info;
      states := ByControl(parse, states, View(tick, Free, Statted(info)));
      var last := lastInfo;
      if last.Some? && !FileChanged(last.value, info) {
        states := ByControl(parse, states, View(tick, Free, Waiting));
        return;
      }
      states := ByControl(parse, states, View(tick, Free, WantsReload));
      states := ByWriters(parse, states, sights.open);
      ghost var more;
      var ok;
      ok, more := Reload(parse, sights, validates, WantsReload);
      JoinPaths(parse, states, more);
      states := states + more[1..];
    }
  }
}
