/** The interface cache: double-checked locking with a lifetime, under any interleaving of callers and the clock. */
module InterfaceCache {
  import opened Packets
  import opened Hosts

  datatype Snapshot = Snapshot(fetched: int, nics: seq<Nic>)

  /** Where the result of a call came from; `known` counts the snapshots stored when it was served. */
  datatype Source =
    | Cached(snap: Snapshot, readAt: int)
    | OwnFetch(snap: Snapshot)
    | Stale(snap: Snapshot, known: nat)
    | Nothing(known: nat)

  /** A call to Interfaces, by the code it has reached. `began` is the clock when it was entered. */
  datatype Call =
    | Started(began: int)
    | Loaded(began: int, loaded: Option<Snapshot>)
    | WantsLock(began: int)
    | HasLock(began: int)
    | Fetching(began: int, expiredAt: int)
    | Fetched(began: int, expiredAt: int, nics: seq<Nic>)
    | Returned(began: int, ended: int, source: Source)

  /** The shared fields, the clock, the calls so far, and every snapshot ever stored, oldest first. */
  datatype State = State(
    ttl: int, now: int, snap: Option<Snapshot>, holder: Option<nat>, calls: map<nat, Call>, stored: seq<Snapshot>)

  /** Younger than the lifetime at this clock reading. */
  predicate Fresh(s: State, snap: Option<Snapshot>) {
    snap.Some? && s.now - snap.value.fetched < s.ttl
  }

  function Set(s: State, c: nat, call: Call): State {
    s.(calls := s.calls[c := call])
  }

  // ----- Steps -----

  ghost predicate Begin(s: State, c: nat, s': State) {
    c !in s.calls && s' == Set(s, c, Started(s.now))
  }

  ghost predicate LoadFast(s: State, c: nat, s': State) {
    c in s.calls && s.calls[c].Started? && s' == Set(s, c, Loaded(s.calls[c].began, s.snap))
  }

  /** The clock is read after the load, and another caller may have stored a newer snapshot meanwhile. */
  ghost predicate CheckFast(s: State, c: nat, s': State) {
    && c in s.calls && s.calls[c].Loaded?
    && var Loaded(began, loaded) := s.calls[c];
       if Fresh(s, loaded) then s' == Set(s, c, Returned(began, s.now, Cached(loaded.value, s.now)))
       else s' == Set(s, c, WantsLock(began))
  }

  ghost predicate Lock(s: State, c: nat, s': State) {
    && c in s.calls && s.calls[c].WantsLock? && s.holder.None?
    && s' == Set(s, c, HasLock(s.calls[c].began)).(holder := Some(c))
  }

  ghost predicate CheckLocked(s: State, c: nat, s': State) {
    && c in s.calls && s.calls[c].HasLock?
    && var began := s.calls[c].began;
       if Fresh(s, s.snap) then
         s' == Set(s, c, Returned(began, s.now, Cached(s.snap.value, s.now))).(holder := None)
       else s' == Set(s, c, Fetching(began, s.now))
  }

  ghost predicate FetchOk(s: State, c: nat, nics: seq<Nic>, s': State) {
    && c in s.calls && s.calls[c].Fetching?
    && s' == Set(s, c, Fetched(s.calls[c].began, s.calls[c].expiredAt, nics))
  }

  /** A failed fetch serves the stale snapshot, if there is one. */
  ghost predicate FetchFails(s: State, c: nat, s': State) {
    && c in s.calls && s.calls[c].Fetching?
    && var source := if s.snap.Some? then Stale(s.snap.value, |s.stored|) else Nothing(|s.stored|);
       s' == Set(s, c, Returned(s.calls[c].began, s.now, source)).(holder := None)
  }

  ghost predicate Store(s: State, c: nat, s': State) {
    && c in s.calls && s.calls[c].Fetched?
    && var snap := Snapshot(s.now, s.calls[c].nics);
       s' == Set(s, c, Returned(s.calls[c].began, s.now, OwnFetch(snap)))
         .(snap := Some(snap), stored := s.stored + [snap], holder := None)
  }

  ghost predicate Tick(s: State, s': State) {
    s'.now >= s.now && s' == s.(now := s'.now)
  }

  ghost predicate CallStep(s: State, c: nat, s': State) {
    || Begin(s, c, s') || LoadFast(s, c, s') || CheckFast(s, c, s') || Lock(s, c, s') || CheckLocked(s, c, s')
    || (exists nics :: FetchOk(s, c, nics, s')) || FetchFails(s, c, s') || Store(s, c, s')
  }

  ghost predicate Next(s: State, s': State) {
    Tick(s, s') || exists c :: CallStep(s, c, s')
  }

  ghost predicate Init(s: State) {
    s.ttl > 0 && s.snap.None? && s.holder.None? && s.calls == map[] && s.stored == []
  }

  ghost predicate Run(states: seq<State>)
    ensures Run(states) ==> |states| > 0
  {
    |states| > 0 && Init(states[0]) && forall k :: 0 <= k < |states| - 1 ==> Next(states[k], states[k + 1])
  }

  // ----- Promises -----

  /** Between finding the snapshot expired and storing a new one. */
  predicate IsRefetching(call: Call) {
    call.Fetching? || call.Fetched?
  }

  predicate InCriticalSection(call: Call) {
    call.HasLock? || IsRefetching(call)
  }

  /**
   * What a call may return: a stored snapshot younger than the lifetime at a clock reading inside the call; the
   * snapshot it fetched and stored itself; or, with an error, the newest snapshot stored by then, if there is any.
   */
  ghost predicate Justified(s: State, began: int, ended: int, source: Source) {
    match source
    case Cached(snap, readAt) => snap in s.stored && readAt - snap.fetched < s.ttl && began <= readAt <= ended
    case OwnFetch(snap) => snap in s.stored && began <= snap.fetched <= ended
    case Stale(snap, known) => 0 < known <= |s.stored| && snap == s.stored[known - 1]
    case Nothing(known) => known == 0
  }

  ghost predicate CallValid(s: State, call: Call) {
    match call
    case Started(began) => began <= s.now
    case Loaded(began, loaded) => began <= s.now && (loaded.Some? ==> loaded.value in s.stored)
    case WantsLock(began) => began <= s.now
    case HasLock(began) => began <= s.now
    case Fetching(began, expiredAt) => began <= expiredAt <= s.now && Expired(s, expiredAt)
    case Fetched(began, expiredAt, _) => began <= expiredAt <= s.now && Expired(s, expiredAt)
    case Returned(began, ended, source) => ended <= s.now && Justified(s, began, ended, source)
  }

  predicate Expired(s: State, at: int) {
    s.snap.Some? ==> at - s.snap.value.fetched >= s.ttl
  }

  /** Stored snapshots are at least a lifetime apart. */
  ghost predicate Spaced(s: State) {
    forall i, j :: 0 <= i < j < |s.stored| ==> s.stored[j].fetched - s.stored[i].fetched >= s.ttl
  }

  ghost predicate Inv(s: State) {
    && s.ttl > 0
    && s.snap == (if s.stored == [] then None else Some(s.stored[|s.stored| - 1]))
    && (forall k :: 0 <= k < |s.stored| ==> s.stored[k].fetched <= s.now)
    && Spaced(s)
    && (forall c :: c in s.calls ==> CallValid(s, s.calls[c]))
    && (forall c :: c in s.calls && InCriticalSection(s.calls[c]) ==> s.holder == Some(c))
    && (s.holder.Some? ==> s.holder.value in s.calls && InCriticalSection(s.calls[s.holder.value]))
  }

  lemma {:induction false} TickKeepsInv(s: State, s': State)
    requires Inv(s) && Tick(s, s')
    ensures Inv(s')
  {
  }

  lemma {:induction false} StoreKeepsInv(s: State, c: nat, s': State)
    requires Inv(s) && Store(s, c, s')
    ensures Inv(s')
  {
    var n := |s.stored|;
    assert CallValid(s, s.calls[c]);
    assert forall k :: 0 <= k < n ==> s'.stored[k] == s.stored[k];
    forall i | 0 <= i < n
      ensures s'.stored[n].fetched - s'.stored[i].fetched >= s.ttl
    {
      if i < n - 1 {
        assert s.stored[n - 1].fetched - s.stored[i].fetched >= s.ttl;
      }
    }
    forall d | d in s'.calls
      ensures CallValid(s', s'.calls[d])
    {
      if d == c {
        assert s'.stored[n] in s'.stored;
      } else {
        assert CallValid(s, s.calls[d]) && !InCriticalSection(s.calls[d]);
      }
    }
  }

  /** One call moves on, taking, keeping or giving up the lock, and nothing is stored. */
  lemma {:induction false} MoveKeepsInv(s: State, c: nat, call: Call, holder: Option<nat>)
    requires Inv(s) && CallValid(s, call)
    requires InCriticalSection(call) <==> holder == Some(c)
    requires holder == s.holder || (s.holder.None? && holder == Some(c)) || (s.holder == Some(c) && holder.None?)
    ensures Inv(Set(s, c, call).(holder := holder))
  {
    var s' := Set(s, c, call).(holder := holder);
    forall d | d in s'.calls
      ensures CallValid(s', s'.calls[d])
    {
      if d != c {
        assert CallValid(s, s.calls[d]);
      }
    }
  }

  lemma {:induction false} UnlockedStepKeepsInv(s: State, c: nat, s': State)
    requires Inv(s) && (Begin(s, c, s') || LoadFast(s, c, s') || CheckFast(s, c, s'))
    ensures Inv(s')
  {
    if c in s.calls {
      assert CallValid(s, s.calls[c]);
    }
    if s.snap.Some? {
      assert s.snap.value in s.stored;
    }
    assert s.holder != Some(c);
    MoveKeepsInv(s, c, s'.calls[c], s.holder);
  }

  lemma {:induction false} LockedStepKeepsInv(s: State, c: nat, s': State)
    requires Inv(s)
    requires Lock(s, c, s') || CheckLocked(s, c, s') || (exists nics :: FetchOk(s, c, nics, s')) || FetchFails(s, c, s')
    ensures Inv(s')
  {
    assert CallValid(s, s.calls[c]);
    if s.snap.Some? {
      assert s.snap.value in s.stored;
    }
    MoveKeepsInv(s, c, s'.calls[c], s'.holder);
  }

  lemma {:induction false} RunKeepsInv(states: seq<State>, k: nat)
    requires Run(states) && k < |states|
    ensures Inv(states[k])
  {
    hide Inv;
    if k == 0 {
      InitInv(states[0]);
    } else {
      RunKeepsInv(states, k - 1);
      var s, s' := states[k - 1], states[k - 1 + 1];
      assert Next(s, s');
      if Tick(s, s') {
        TickKeepsInv(s, s');
      } else {
        var c :| CallStep(s, c, s');
        if Store(s, c, s') {
          StoreKeepsInv(s, c, s');
        } else if Begin(s, c, s') || LoadFast(s, c, s') || CheckFast(s, c, s') {
          UnlockedStepKeepsInv(s, c, s');
        } else {
          LockedStepKeepsInv(s, c, s');
        }
      }
    }
  }

  lemma {:induction false} InitInv(s: State)
    requires Init(s)
    ensures Inv(s)
  {
  }

  // ----- Over every run -----

  /** At most one refetch runs at a time. */
  lemma {:induction false} OneRefetchAtATime(states: seq<State>, k: nat, c: nat, d: nat)
    requires Run(states) && k < |states|
    requires c in states[k].calls && IsRefetching(states[k].calls[c])
    requires d in states[k].calls && IsRefetching(states[k].calls[d])
    ensures c == d
  {
    RunKeepsInv(states, k);
  }

  /** Every result is justified; one without an error is recent or the caller's own. */
  lemma {:induction false} ResultsAreJustified(states: seq<State>, k: nat, c: nat)
    requires Run(states) && k < |states| && c in states[k].calls && states[k].calls[c].Returned?
    ensures var Returned(began, ended, source) := states[k].calls[c]; Justified(states[k], began, ended, source)
  {
    RunKeepsInv(states, k);
    assert CallValid(states[k], states[k].calls[c]);
  }

  /** Successful fetches are rationed: `n` of them take at least `n - 1` lifetimes. */
  lemma {:induction false} FetchRate(states: seq<State>, k: nat, n: nat)
    requires Run(states) && k < |states| && 0 < n <= |states[k].stored|
    ensures (n - 1) * states[k].ttl <= states[k].stored[n - 1].fetched - states[k].stored[0].fetched
    ensures states[k].stored[n - 1].fetched <= states[k].now
    decreases n
  {
    RunKeepsInv(states, k);
    var s := states[k];
    if n > 1 {
      FetchRate(states, k, n - 1);
      assert s.stored[n - 1].fetched - s.stored[n - 2].fetched >= s.ttl;
      assert (n - 1) * s.ttl == (n - 2) * s.ttl + s.ttl;
    }
  }

  /** Once there is a snapshot there always is one: no error loses it. */
  lemma {:induction false} SnapshotIsNeverLost(states: seq<State>, i: nat, j: nat)
    requires Run(states) && i <= j < |states| && states[i].snap.Some?
    ensures states[j].snap.Some? && states[i].stored <= states[j].stored
    decreases j
  {
    if i < j {
      SnapshotIsNeverLost(states, i, j - 1);
      assert Next(states[j - 1], states[j - 1 + 1]);
    }
  }

  /** A call under way when there is a snapshot, or entered later, never comes back with nothing. */
  lemma {:induction false} NeverEmptyHanded(states: seq<State>, i: nat, j: nat, c: nat)
    requires Run(states) && i <= j < |states| && states[i].snap.Some?
    requires c in states[i].calls ==> !states[i].calls[c].Returned?
    requires c in states[j].calls && states[j].calls[c].Returned?
    ensures !states[j].calls[c].source.Nothing?
    decreases j
  {
    if i < j {
      SnapshotIsNeverLost(states, i, j - 1);
      assert Next(states[j - 1], states[j - 1 + 1]);
      if c in states[j - 1].calls && states[j - 1].calls[c].Returned? {
        NeverEmptyHanded(states, i, j - 1, c);
      }
    }
  }

  // ----- The object -----

  /**
   * The cache's fields, and what only the proof sees: the clock, the calls and the history. Each method is the code of
   * `Interfaces` between two points where another caller may get in, so any calling sequence is an interleaving.
   */
  class Cache {
    const ttl: int
    var snap: Option<Snapshot>
    var locked: bool
    ghost var holder: Option<nat>
    ghost var now: int
    ghost var calls: map<nat, Call>
    ghost var stored: seq<Snapshot>

    ghost function View(): State
      reads this
    {
      State(ttl, now, snap, holder, calls, stored)
    }

    ghost predicate Valid()
      reads this
    {
      Inv(View()) && locked == holder.Some?
    }

    constructor (ttl: int)
      requires ttl > 0
      ensures Valid() && Init(View())
    {
      this.ttl := ttl;
      snap, locked, holder, now, calls, stored := None, false, None, 0, map[], [];
    }

    method Enter(ghost c: nat)
      requires Valid() && c !in calls
      modifies this`calls
      ensures Valid() && Begin(old(View()), c, View())
    {
      ghost var was := View();
      calls := calls[c := Started(now)];
      UnlockedStepKeepsInv(was, c, View());
    }

    method Load(ghost c: nat) returns (loaded: Option<Snapshot>)
      requires Valid() && c in calls && calls[c].Started?
      modifies this`calls
      ensures Valid() && LoadFast(old(View()), c, View()) && loaded == View().calls[c].loaded
    {
      ghost var was := View();
      loaded := snap;
      calls := calls[c := Loaded(calls[c].began, loaded)];
      UnlockedStepKeepsInv(was, c, View());
    }

    /** The check without the lock; a hit ends the call. */
    method CheckLoaded(ghost c: nat, loaded: Option<Snapshot>, clock: int) returns (hit: Option<seq<Nic>>)
      requires Valid() && clock == now && c in calls && calls[c].Loaded? && calls[c].loaded == loaded
      modifies this`calls
      ensures Valid() && CheckFast(old(View()), c, View())
      ensures hit.Some? <==> loaded.Some? && clock - loaded.value.fetched < ttl
      ensures hit.Some? ==> hit.value == loaded.value.nics
      ensures hit == if calls[c].Returned? then Some(calls[c].source.snap.nics) else None
    {
      ghost var was := View();
      if loaded.Some? && clock - loaded.value.fetched < ttl {
        hit := Some(loaded.value.nics);
        calls := calls[c := Returned(calls[c].began, now, Cached(loaded.value, now))];
      } else {
        hit := None;
        calls := calls[c := WantsLock(calls[c].began)];
      }
      UnlockedStepKeepsInv(was, c, View());
    }

    method Acquire(ghost c: nat) returns (ok: bool)
      requires Valid() && c in calls && calls[c].WantsLock?
      modifies this`calls, this`locked, this`holder
      ensures Valid() && (if ok then Lock(old(View()), c, View()) else View() == old(View()))
      ensures ok <==> !old(locked)
    {
      if locked {
        return false;
      }
      ghost var was := View();
      locked, holder := true, Some(c);
      calls := calls[c := HasLock(calls[c].began)];
      LockedStepKeepsInv(was, c, View());
      ok := true;
    }

    /** The check with the lock: another caller may have refreshed the snapshot meanwhile. */
    method CheckAgain(ghost c: nat, clock: int) returns (hit: Option<seq<Nic>>)
      requires Valid() && clock == now && c in calls && calls[c].HasLock?
      modifies this`calls, this`locked, this`holder
      ensures Valid() && CheckLocked(old(View()), c, View())
      ensures hit.Some? <==> snap.Some? && clock - snap.value.fetched < ttl
      ensures hit.Some? ==> hit.value == snap.value.nics && !locked
      ensures hit == if calls[c].Returned? then Some(calls[c].source.snap.nics) else None
    {
      ghost var was := View();
      if snap.Some? && clock - snap.value.fetched < ttl {
        hit := Some(snap.value.nics);
        calls := calls[c := Returned(calls[c].began, now, Cached(snap.value, now))];
        locked, holder := false, None;
      } else {
        hit := None;
        calls := calls[c := Fetching(calls[c].began, now)];
      }
      LockedStepKeepsInv(was, c, View());
    }

    /** The fetch has failed: serve what there is, with the error. */
    method ServeStale(ghost c: nat) returns (nics: Option<seq<Nic>>)
      requires Valid() && c in calls && calls[c].Fetching?
      modifies this`calls, this`locked, this`holder
      ensures Valid() && FetchFails(old(View()), c, View())
      ensures nics == if snap.Some? then Some(snap.value.nics) else None
    {
      ghost var was := View();
      nics := if snap.Some? then Some(snap.value.nics) else None;
      ghost var source := if snap.Some? then Stale(snap.value, |stored|) else Nothing(|stored|);
      calls := calls[c := Returned(calls[c].began, now, source)];
      locked, holder := false, None;
      LockedStepKeepsInv(was, c, View());
    }

    /** The enumeration returns; the lock is still held. */
    method FetchReturns(ghost c: nat, nics: seq<Nic>)
      requires Valid() && c in calls && calls[c].Fetching?
      modifies this`calls
      ensures Valid() && FetchOk(old(View()), c, nics, View())
    {
      ghost var was := View();
      calls := calls[c := Fetched(calls[c].began, calls[c].expiredAt, nics)];
      assert FetchOk(was, c, nics, View());
      LockedStepKeepsInv(was, c, View());
    }

    /** The fetch has succeeded: store it under the present time. */
    method Publish(ghost c: nat, nics: seq<Nic>, clock: int)
      requires Valid() && clock == now && c in calls && calls[c].Fetched? && calls[c].nics == nics
      modifies this`snap, this`calls, this`locked, this`holder, this`stored
      ensures Valid() && Store(old(View()), c, View())
    {
      ghost var was := View();
      snap := Some(Snapshot(clock, nics));
      stored := stored + [Snapshot(clock, nics)];
      calls := calls[c := Returned(calls[c].began, now, OwnFetch(Snapshot(clock, nics)))];
      locked, holder := false, None;
      StoreKeepsInv(was, c, View());
    }
  }
}
