/** How often the interface cache enumerates: attempts counted over every run, failed ones included. */
module CacheAttempts {
  import opened Packets
  import opened InterfaceCache

  /** In this step of the run, call `c` finds the snapshot expired under the lock and begins to enumerate. */
  ghost predicate AttemptAt(states: seq<State>, n: nat, c: nat) {
    && n + 1 < |states| && CheckLocked(states[n], c, states[n + 1])
    && c in states[n + 1].calls && states[n + 1].calls[c].Fetching?
  }

  ghost predicate FailureAt(states: seq<State>, n: nat, c: nat) {
    n + 1 < |states| && FetchFails(states[n], c, states[n + 1])
  }

  ghost predicate StoreAt(states: seq<State>, n: nat, c: nat) {
    n + 1 < |states| && Store(states[n], c, states[n + 1])
  }

  /** Call `c` looks again, with the lock. */
  ghost predicate LooksAt(states: seq<State>, n: nat, c: nat) {
    n + 1 < |states| && CheckLocked(states[n], c, states[n + 1])
  }

  ghost predicate AnyRefetching(s: State) {
    exists c :: c in s.calls && IsRefetching(s.calls[c])
  }

  lemma {:induction false} RunStep(states: seq<State>, n: nat)
    requires Run(states) && n + 1 < |states|
    ensures Next(states[n], states[n + 1]) && Inv(states[n])
  {
    hide Next, Inv;
    RunKeepsInv(states, n);
  }

  // ----- Counting -----

  ghost predicate SomeAttempt(states: seq<State>, n: nat) {
    exists c :: AttemptAt(states, n, c)
  }

  ghost predicate SomeFailure(states: seq<State>, n: nat) {
    exists c :: FailureAt(states, n, c)
  }

  ghost function Attempts(states: seq<State>, j: nat): nat
    requires j < |states|
  {
    if j == 0 then 0 else Attempts(states, j - 1) + if SomeAttempt(states, j - 1) then 1 else 0
  }

  ghost function Failures(states: seq<State>, j: nat): nat
    requires j < |states|
  {
    if j == 0 then 0 else Failures(states, j - 1) + if SomeFailure(states, j - 1) then 1 else 0
  }

  /** What one step does to the tally. */
  datatype Kind = Begins | Fails | Stores | Other

  ghost predicate IsKind(states: seq<State>, n: nat, kind: Kind)
    requires n + 1 < |states|
  {
    && (kind.Begins? <==> SomeAttempt(states, n))
    && (kind.Fails? <==> SomeFailure(states, n))
    && |states[n + 1].stored| == |states[n].stored| + (if kind.Stores? then 1 else 0)
    && (AnyRefetching(states[n + 1]) <==> kind.Begins? || (kind.Other? && AnyRefetching(states[n])))
    && (AnyRefetching(states[n]) <==> kind.Fails? || kind.Stores? || (kind.Other? && AnyRefetching(states[n])))
  }

  /** A step that leaves every call as far as it was, as far as refetching goes. */
  lemma {:induction false} OtherStep(states: seq<State>, n: nat)
    requires n + 1 < |states| && states[n + 1].stored == states[n].stored
    requires forall c :: c in states[n].calls && IsRefetching(states[n].calls[c]) ==>
      c in states[n + 1].calls && IsRefetching(states[n + 1].calls[c])
    requires forall c :: c in states[n + 1].calls && IsRefetching(states[n + 1].calls[c]) ==>
      c in states[n].calls && IsRefetching(states[n].calls[c])
    ensures IsKind(states, n, Other)
  {
    var s, s' := states[n], states[n + 1];
    if c :| AttemptAt(states, n, c) {
      assert false;
    }
    if c :| FailureAt(states, n, c) {
      assert false;
    }
    if AnyRefetching(s) {
      var c :| c in s.calls && IsRefetching(s.calls[c]);
      assert c in s'.calls && IsRefetching(s'.calls[c]);
    }
    if AnyRefetching(s') {
      var c :| c in s'.calls && IsRefetching(s'.calls[c]);
      assert c in s.calls && IsRefetching(s.calls[c]);
    }
  }

  lemma {:induction false} BeginsStep(states: seq<State>, n: nat, c: nat)
    requires n + 1 < |states| && Inv(states[n]) && AttemptAt(states, n, c)
    ensures IsKind(states, n, Begins)
  {
    var s, s' := states[n], states[n + 1];
    assert InCriticalSection(s.calls[c]);
    assert forall d :: d in s.calls && IsRefetching(s.calls[d]) ==> d == c;
    assert c in s'.calls && IsRefetching(s'.calls[c]);
    if d :| FailureAt(states, n, d) {
      assert IsRefetching(s.calls[d]);
      assert false;
    }
  }

  /** The only refetching call ends, one way or the other. */
  lemma {:induction false} EndsStep(states: seq<State>, n: nat, c: nat)
    requires n + 1 < |states| && Inv(states[n]) && (FailureAt(states, n, c) || StoreAt(states, n, c))
    ensures IsKind(states, n, if FailureAt(states, n, c) then Fails else Stores)
    ensures states[n + 1].calls[c].Returned? && !AnyRefetching(states[n + 1])
  {
    var s, s' := states[n], states[n + 1];
    assert IsRefetching(s.calls[c]) && InCriticalSection(s.calls[c]);
    forall d | d in s'.calls
      ensures !IsRefetching(s'.calls[d])
    {
      if d != c {
        assert s'.calls[d] == s.calls[d];
        assert InCriticalSection(s.calls[d]) ==> s.holder == Some(d);
      }
    }
    if d :| AttemptAt(states, n, d) {
      assert IsRefetching(s'.calls[d]);
      assert false;
    }
    assert forall d :: FailureAt(states, n, d) ==> s'.stored == s.stored;
    assert StoreAt(states, n, c) ==> |s'.stored| == |s.stored| + 1;
  }

  lemma {:induction false} StepHasKind(states: seq<State>, n: nat) returns (kind: Kind)
    requires Run(states) && n + 1 < |states|
    ensures IsKind(states, n, kind)
  {
    hide Inv, Run, IsKind;
    RunStep(states, n);
    var s, s' := states[n], states[n + 1];
    if c :| AttemptAt(states, n, c) {
      BeginsStep(states, n, c);
      kind := Begins;
    } else if c :| FailureAt(states, n, c) {
      EndsStep(states, n, c);
      kind := Fails;
    } else if c :| StoreAt(states, n, c) {
      EndsStep(states, n, c);
      kind := Stores;
    } else {
      if !Tick(s, s') {
        var c :| CallStep(s, c, s');
        QuietCall(states, n, c);
      }
      OtherStep(states, n);
      kind := Other;
    }
  }

  lemma {:induction false} QuietCall(states: seq<State>, n: nat, c: nat)
    requires n + 1 < |states| && CallStep(states[n], c, states[n + 1])
    requires !AttemptAt(states, n, c) && !FailureAt(states, n, c) && !StoreAt(states, n, c)
    ensures states[n + 1].stored == states[n].stored && states[n + 1].snap == states[n].snap
    ensures states[n + 1].now == states[n].now && states[n + 1].ttl == states[n].ttl
    ensures forall d :: d in states[n].calls && IsRefetching(states[n].calls[d]) ==>
      d in states[n + 1].calls && IsRefetching(states[n + 1].calls[d])
    ensures forall d :: d in states[n + 1].calls && IsRefetching(states[n + 1].calls[d]) ==>
      d in states[n].calls && IsRefetching(states[n].calls[d])
  {
    var s, s' := states[n], states[n + 1];
    assert forall d :: d != c ==> (d in s'.calls <==> d in s.calls);
    assert forall d :: d != c && d in s.calls ==> s'.calls[d] == s.calls[d];
  }

  /** Every attempt that is over stored a snapshot or failed, and no snapshot comes without an attempt. */
  lemma {:induction false} AttemptsCounted(states: seq<State>, j: nat)
    requires Run(states) && j < |states|
    ensures Attempts(states, j) ==
      Failures(states, j) + |states[j].stored| + if AnyRefetching(states[j]) then 1 else 0
  {
    hide Next, AttemptAt, FailureAt;
    if j == 0 {
      assert states[0].calls == map[];
    } else {
      AttemptsCounted(states, j - 1);
      var kind := StepHasKind(states, j - 1);
    }
  }

  /** Attempts are rationed by the lifetime, but for those that fail and one under way. */
  lemma {:induction false} AttemptRate(states: seq<State>, j: nat)
    requires Run(states) && j < |states| && states[j].stored != []
    ensures (Attempts(states, j) - Failures(states, j) - 2) * states[j].ttl <=
      states[j].now - states[j].stored[0].fetched
  {
    hide AnyRefetching, Attempts, Failures, Next;
    AttemptsCounted(states, j);
    RunKeepsInv(states, j);
    var n := |states[j].stored|;
    FetchRate(states, j, n);
    var a := Attempts(states, j) - Failures(states, j) - 2;
    assert a == n - 1 || a == n - 2;
    assert a * states[j].ttl <= (n - 1) * states[j].ttl by {
      assert (n - 1) * states[j].ttl == (n - 2) * states[j].ttl + states[j].ttl;
    }
  }

  // ----- When one attempt serves all -----

  /** The enumeration of `c` ends in this step. */
  ghost predicate EndsAt(states: seq<State>, e: nat, c: nat) {
    FailureAt(states, e, c) || StoreAt(states, e, c)
  }

  ghost predicate NoAttempt(states: seq<State>, i: nat, j: nat) {
    forall n: nat, d: nat :: i < n < j ==> !AttemptAt(states, n, d)
  }

  /** Until another attempt begins, the snapshot is what the ended one left. */
  lemma {:induction false} NothingNew(states: seq<State>, e: nat, c: nat, j: nat)
    requires Run(states) && e < j < |states| && EndsAt(states, e, c) && NoAttempt(states, e, j)
    ensures states[j].snap == states[e + 1].snap && !AnyRefetching(states[j])
    ensures states[j].now >= states[e].now && states[j].ttl == states[e].ttl
    decreases j
  {
    hide Inv, Run;
    if j == e + 1 {
      RunStep(states, e);
      EndsStep(states, e, c);
    } else {
      NothingNew(states, e, c, j - 1);
      RunStep(states, j - 1);
      var s, s' := states[j - 1], states[j];
      if !Tick(s, s') {
        var d :| CallStep(s, d, s');
        QuietCall(states, j - 1, d);
      }
    }
  }

  /** A call that looks again soon after the store is served; after a failure, or a lifetime later, it is not. */
  lemma {:induction false} LookAfter(states: seq<State>, e: nat, c: nat, n: nat, d: nat)
    requires Run(states) && e < n && EndsAt(states, e, c) && NoAttempt(states, e, n) && LooksAt(states, n, d)
    ensures AttemptAt(states, n, d) <==>
      !(StoreAt(states, e, c) && states[n].now - states[e].now < states[e].ttl)
  {
    NothingNew(states, e, c, n);
    RunKeepsInv(states, e);
    assert CallValid(states[e], states[e].calls[c]);
    if StoreAt(states, e, c) {
      assert states[n].snap.Some? && states[n].snap.value.fetched == states[e].now;
    } else {
      assert states[n].snap == states[e].snap;
    }
  }

  /**
   * After the enumeration of `c` has ended, no call begins another one up to state `m` exactly when it succeeded and
   * every call that looks again with the lock does so within the lifetime. So the callers that waited share one
   * enumeration exactly if it succeeds and the last of them gets the lock in time; after a failure the next one to look
   * makes its own.
   */
  lemma {:induction false} OneAttemptServesAll(states: seq<State>, e: nat, c: nat, m: nat)
    requires Run(states) && e < m < |states| && EndsAt(states, e, c)
    ensures NoAttempt(states, e, m) <==>
      forall n: nat, d: nat :: e < n < m && LooksAt(states, n, d) ==>
        StoreAt(states, e, c) && states[n].now - states[e].now < states[e].ttl
    decreases m
  {
    hide Run, AttemptAt, LooksAt, StoreAt, EndsAt;
    if m > e + 1 {
      var last := m - 1;
      OneAttemptServesAll(states, e, c, last);
      if NoAttempt(states, e, last) {
        forall d: nat
          ensures AttemptAt(states, last, d) <==>
            LooksAt(states, last, d) && !(StoreAt(states, e, c) && states[last].now - states[e].now < states[e].ttl)
        {
          AttemptLooks(states, last, d);
          if LooksAt(states, last, d) {
            LookAfter(states, e, c, last, d);
          }
        }
      }
    }
  }

  lemma {:induction false} AttemptLooks(states: seq<State>, n: nat, d: nat)
    ensures AttemptAt(states, n, d) ==> LooksAt(states, n, d)
  {
  }

  // ----- A second enumeration -----

  lemma {:induction false} Extend(states: seq<State>, c: nat, s: State) returns (longer: seq<State>)
    requires Run(states) && CallStep(states[|states| - 1], c, s)
    ensures Run(longer) && longer == states + [s]
  {
    hide CallStep;
    longer := states + [s];
    forall k | 0 <= k < |longer| - 1
      ensures Next(longer[k], longer[k + 1])
    {
      if k < |states| - 1 {
        assert Next(states[k], states[k + 1]);
      }
    }
  }

  /** One call is entered and finds no snapshot. */
  lemma {:induction false} Waits(states: seq<State>, c: nat) returns (longer: seq<State>)
    requires Run(states) && c !in states[|states| - 1].calls && states[|states| - 1].snap.None?
    ensures Run(longer) && states <= longer
    ensures longer[|longer| - 1] == Set(states[|states| - 1], c, WantsLock(states[|states| - 1].now))
  {
    hide Run;
    var s := states[|states| - 1];
    longer := Extend(states, c, Set(s, c, Started(s.now)));
    longer := Extend(longer, c, Set(s, c, Loaded(s.now, None)));
    longer := Extend(longer, c, Set(s, c, WantsLock(s.now)));
  }

  /** A waiting call gets the lock and begins to enumerate. */
  lemma {:induction false} BeginsToFetch(states: seq<State>, c: nat) returns (longer: seq<State>)
    requires Run(states) && c in states[|states| - 1].calls && states[|states| - 1].calls[c].WantsLock?
    requires states[|states| - 1].holder.None? && states[|states| - 1].snap.None?
    ensures Run(longer) && states <= longer
    ensures var s := states[|states| - 1];
      longer[|longer| - 1] == Set(s, c, Fetching(s.calls[c].began, s.now)).(holder := Some(c))
    ensures AttemptAt(longer, |longer| - 2, c)
    ensures var s := states[|states| - 1];
      longer[|longer| - 2] == Set(s, c, HasLock(s.calls[c].began)).(holder := Some(c))
  {
    hide Run;
    var s := states[|states| - 1];
    longer := Extend(states, c, Set(s, c, HasLock(s.calls[c].began)).(holder := Some(c)));
    longer := Extend(longer, c, Set(s, c, Fetching(s.calls[c].began, s.now)).(holder := Some(c)));
  }

  /**
   * Two callers find no snapshot together, the enumeration of the first fails, and the second, which was waiting for
   * it, enumerates again at the same moment.
   */
  lemma {:induction false} SecondAttempt(ttl: int, now: int) returns (states: seq<State>, first: nat, second: nat)
    requires ttl > 0
    ensures Run(states) && first < second < |states| - 1 && states[first].now == states[second].now == now
    ensures AttemptAt(states, first, 0) && states[first].calls.Keys == {0, 1} && states[first].calls[1].WantsLock?
    ensures AttemptAt(states, second, 1)
  {
    hide Run;
    var s := State(ttl, now, None, None, map[], []);
    states := [s];
    assert Run(states) by { OneState(s); }
    states := Waits(states, 0);
    states := Waits(states, 1);
    states := BeginsToFetch(states, 0);
    first := |states| - 2;
    var early := states;
    s := states[|states| - 1];
    states := Extend(states, 0, Set(s, 0, Returned(now, now, Nothing(0))).(holder := None));
    states := BeginsToFetch(states, 1);
    second := |states| - 2;
    assert early <= states && early[first] == states[first] && early[first + 1] == states[first + 1];
  }

  lemma {:induction false} OneState(s: State)
    requires Init(s)
    ensures Run([s])
  {
  }
}
