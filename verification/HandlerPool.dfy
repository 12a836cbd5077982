/** The handler pool: a semaphore bounds the handlers in flight, and a wait group guards closing the send socket. */
module HandlerPool {

  datatype Receiver =
    | Receiving
    | Handing(h: nat)      // a slot is taken, the handler not yet started
    | Draining
    | Drained              // every handler returned; the send socket is closed
    | Abandoned            // a second signal or the grace period ended the wait

  /**
   * `slots` is the number of elements in the semaphore channel and `waitGroup` the counter of the wait group; both are
   * plain numbers, as in the program. The sets say which handlers run, have released their slot but not yet left the
   * wait group, and are gone. `acquired` and `released` record every slot operation.
   */
  datatype State = State(
    max: nat, slots: int, waitGroup: int, receiver: Receiver,
    running: set<nat>, unwinding: set<nat>, gone: set<nat>,
    waitDone: bool, socketOpen: bool,
    acquired: multiset<nat>, released: multiset<nat>)

  function Known(s: State): set<nat> {
    s.running + s.unwinding + s.gone + if s.receiver.Handing? then {s.receiver.h} else {}
  }

  // ----- Steps -----

  /** A packet for which the semaphore has room. */
  ghost predicate Acquire(s: State, h: nat, s': State) {
    && s.receiver.Receiving? && s.slots < s.max && h !in Known(s)
    && s' == s.(slots := s.slots + 1, receiver := Handing(h), acquired := s.acquired + multiset{h})
  }

  /** A packet that finds the pool full is dropped. */
  ghost predicate Drop(s: State, s': State) {
    s.receiver.Receiving? && s.slots >= s.max && s' == s
  }

  ghost predicate Spawn(s: State, s': State) {
    && s.receiver.Handing?
    && s' == s.(waitGroup := s.waitGroup + 1, running := s.running + {s.receiver.h}, receiver := Receiving)
  }

  /** A running handler sends on the shared socket. */
  ghost predicate UseSocket(s: State, h: nat, s': State) {
    h in s.running && s' == s
  }

  /** The deferred receive from the semaphore runs first when a handler returns or panics. */
  ghost predicate Release(s: State, h: nat, s': State) {
    && h in s.running
    && s' == s.(slots := s.slots - 1, running := s.running - {h}, unwinding := s.unwinding + {h},
                released := s.released + multiset{h})
  }

  ghost predicate Finish(s: State, h: nat, s': State) {
    && h in s.unwinding
    && s' == s.(waitGroup := s.waitGroup - 1, unwinding := s.unwinding - {h}, gone := s.gone + {h})
  }

  /** The receive loop sees the shutdown signal between packets. */
  ghost predicate BeginDrain(s: State, s': State) {
    s.receiver.Receiving? && s' == s.(receiver := Draining)
  }

  /** The waiting goroutine sees the counter reach zero. */
  ghost predicate WaitReturns(s: State, s': State) {
    s.receiver.Draining? && s.waitGroup == 0 && s' == s.(waitDone := true)
  }

  ghost predicate DrainCompletes(s: State, s': State) {
    s.receiver.Draining? && s.waitDone && s' == s.(receiver := Drained, socketOpen := false)
  }

  ghost predicate DrainAbandoned(s: State, s': State) {
    s.receiver.Draining? && s' == s.(receiver := Abandoned)
  }

  ghost predicate Next(s: State, s': State) {
    || (exists h :: Acquire(s, h, s')) || Drop(s, s') || Spawn(s, s')
    || (exists h :: UseSocket(s, h, s')) || (exists h :: Release(s, h, s')) || (exists h :: Finish(s, h, s'))
    || BeginDrain(s, s') || WaitReturns(s, s') || DrainCompletes(s, s') || DrainAbandoned(s, s')
  }

  ghost predicate Init(s: State) {
    s == State(s.max, 0, 0, Receiving, {}, {}, {}, false, true, multiset{}, multiset{})
  }

  ghost predicate Run(states: seq<State>) {
    |states| > 0 && Init(states[0]) && forall k :: 0 <= k < |states| - 1 ==> Next(states[k], states[k + 1])
  }

  // ----- The invariant -----

  /** The numbers the program keeps count what they are meant to count. */
  ghost predicate CountsAgree(s: State) {
    && s.slots == |s.running| + (if s.receiver.Handing? then 1 else 0)
    && s.waitGroup == |s.running| + |s.unwinding|
    && s.slots <= s.max
  }

  ghost predicate PhasesDisjoint(s: State) {
    && s.running !! s.unwinding !! s.gone
    && (s.receiver.Handing? ==> s.receiver.h !in s.running + s.unwinding + s.gone)
  }

  /** One handler's slot: taken once, and given back once, before the handler leaves the wait group. */
  predicate SlotBalanced(s: State, h: nat) {
    && s.acquired[h] == (if h in Known(s) then 1 else 0)
    && s.released[h] == (if h in s.unwinding || h in s.gone then 1 else 0)
  }

  ghost predicate SlotsBalanced(s: State) {
    forall h :: SlotBalanced(s, h)
  }

  /** No handler is left behind when the wait is over or the socket closed. */
  ghost predicate DrainSound(s: State) {
    && (s.waitDone ==> s.running == {} && s.unwinding == {} && !s.receiver.Receiving? && !s.receiver.Handing?)
    && (!s.socketOpen ==> s.waitDone)
    && (s.receiver.Drained? <==> !s.socketOpen)
  }

  ghost predicate Inv(s: State) {
    CountsAgree(s) && PhasesDisjoint(s) && SlotsBalanced(s) && DrainSound(s)
  }

  lemma {:induction false} AcquireKeepsInv(s: State, h: nat, s': State)
    requires Inv(s) && Acquire(s, h, s')
    ensures Inv(s')
  {
    forall x: nat
      ensures SlotBalanced(s', x)
    {
      assert SlotBalanced(s, x);
    }
  }

  lemma {:induction false} SpawnKeepsInv(s: State, s': State)
    requires Inv(s) && Spawn(s, s')
    ensures Inv(s')
  {
    forall x: nat
      ensures SlotBalanced(s', x)
    {
      assert SlotBalanced(s, x);
    }
    SpawnKeepsCounts(s, s');
  }

  lemma {:induction false} SpawnKeepsCounts(s: State, s': State)
    requires CountsAgree(s) && PhasesDisjoint(s) && Spawn(s, s')
    ensures CountsAgree(s') && PhasesDisjoint(s')
  {
  }

  lemma {:induction false} ReleaseKeepsInv(s: State, h: nat, s': State)
    requires Inv(s) && Release(s, h, s')
    ensures Inv(s')
  {
    forall x: nat
      ensures SlotBalanced(s', x)
    {
      assert SlotBalanced(s, x);
    }
    ReleaseKeepsCounts(s, h, s');
  }

  lemma {:induction false} ReleaseKeepsCounts(s: State, h: nat, s': State)
    requires CountsAgree(s) && PhasesDisjoint(s) && Release(s, h, s')
    ensures CountsAgree(s') && PhasesDisjoint(s')
  {
  }

  lemma {:induction false} FinishKeepsInv(s: State, h: nat, s': State)
    requires Inv(s) && Finish(s, h, s')
    ensures Inv(s')
  {
    forall x: nat
      ensures SlotBalanced(s', x)
    {
      assert SlotBalanced(s, x);
    }
    FinishKeepsCounts(s, h, s');
  }

  lemma {:induction false} FinishKeepsCounts(s: State, h: nat, s': State)
    requires CountsAgree(s) && PhasesDisjoint(s) && Finish(s, h, s')
    ensures CountsAgree(s') && PhasesDisjoint(s')
  {
  }

  lemma {:induction false} DrainKeepsInv(s: State, s': State)
    requires Inv(s)
    requires BeginDrain(s, s') || WaitReturns(s, s') || DrainCompletes(s, s') || DrainAbandoned(s, s')
    ensures Inv(s')
  {
    forall x: nat
      ensures SlotBalanced(s', x)
    {
      assert SlotBalanced(s, x);
    }
  }

  lemma {:induction false} NextKeepsInv(s: State, s': State)
    requires Inv(s) && Next(s, s')
    ensures Inv(s')
  {
    hide Inv;
    if h :| Acquire(s, h, s') {
      AcquireKeepsInv(s, h, s');
    } else if Spawn(s, s') {
      SpawnKeepsInv(s, s');
    } else if h :| Release(s, h, s') {
      ReleaseKeepsInv(s, h, s');
    } else if h :| Finish(s, h, s') {
      FinishKeepsInv(s, h, s');
    } else if BeginDrain(s, s') || WaitReturns(s, s') || DrainCompletes(s, s') || DrainAbandoned(s, s') {
      DrainKeepsInv(s, s');
    }
  }

  lemma {:induction false} RunKeepsInv(states: seq<State>, k: nat)
    requires Run(states) && k < |states|
    ensures Inv(states[k])
  {
    if k > 0 {
      RunKeepsInv(states, k - 1);
      assert Next(states[k - 1], states[k - 1 + 1]);
      NextKeepsInv(states[k - 1], states[k]);
    }
  }

  // ----- Over every run -----

  /** The pool never exceeds its limit, and a slot is never released twice or without having been taken. */
  lemma {:induction false} PoolIsBounded(states: seq<State>, k: nat, h: nat)
    requires Run(states) && k < |states|
    ensures |states[k].running| <= states[k].slots <= states[k].max
    ensures states[k].released[h] <= states[k].acquired[h] <= 1
    ensures h in states[k].gone ==> states[k].released[h] == 1
    ensures h in states[k].running ==> states[k].released[h] == 0
  {
    RunKeepsInv(states, k);
    var s := states[k];
    assert SlotBalanced(s, h);
  }

  /** The socket is closed only with no handler in flight, so no handler ever uses a closed socket. */
  lemma {:induction false} NoSendAfterClose(states: seq<State>, k: nat, h: nat)
    requires Run(states) && k < |states|
    ensures !states[k].socketOpen ==> states[k].running == {} && states[k].unwinding == {}
    ensures k + 1 < |states| && UseSocket(states[k], h, states[k + 1]) ==> states[k].socketOpen
    ensures k + 1 < |states| && states[k].socketOpen && !states[k + 1].socketOpen ==>
      DrainCompletes(states[k], states[k + 1]) && states[k].waitGroup == 0
  {
    RunKeepsInv(states, k);
    if k + 1 < |states| {
      assert Next(states[k], states[k + 1]);
    }
  }

  // ----- The object -----

  /** The semaphore, the wait group and the socket; `view` is the state of the machine they are part of. */
  class Pool {
    const max: nat
    var slots: int
    var waitGroup: int
    var socketOpen: bool
    ghost var view: State

    ghost predicate Valid()
      reads this
    {
      && Inv(view) && view.max == max
      && view.slots == slots && view.waitGroup == waitGroup && view.socketOpen == socketOpen
    }

    constructor (max: nat)
      ensures Valid() && Init(view)
    {
      this.max := max;
      slots, waitGroup, socketOpen := 0, 0, true;
      view := State(max, 0, 0, Receiving, {}, {}, {}, false, true, multiset{}, multiset{});
    }

    /** Hands a packet to a new handler, or drops it because the pool is full; the receive loop never waits. */
    method HandOff(ghost h: nat) returns (accepted: bool)
      requires Valid() && view.receiver.Receiving? && h !in Known(view)
      modifies this`slots, this`waitGroup, this`view
      ensures Valid() && view.receiver.Receiving?
      ensures accepted <==> old(slots) < max
      ensures if accepted then exists mid :: Acquire(old(view), h, mid) && Spawn(mid, view) else Drop(old(view), view)
    {
      if slots >= max {
        return false;
      }
      ghost var was := view;
      slots := slots + 1;
      ghost var mid := view.(slots := slots, receiver := Handing(h), acquired := view.acquired + multiset{h});
      AcquireKeepsInv(was, h, mid);
      waitGroup := waitGroup + 1;
      view := mid.(waitGroup := waitGroup, running := mid.running + {h}, receiver := Receiving);
      SpawnKeepsInv(mid, view);
      assert Acquire(was, h, mid) && Spawn(mid, view);
      accepted := true;
    }

    /** The deferred receive from the semaphore when a handler returns. */
    method ReleaseSlot(ghost h: nat)
      requires Valid() && h in view.running
      modifies this`slots, this`view
      ensures Valid() && Release(old(view), h, view)
    {
      ghost var was := view;
      slots := slots - 1;
      view := view.(slots := slots, running := view.running - {h}, unwinding := view.unwinding + {h},
        released := view.released + multiset{h});
      ReleaseKeepsInv(was, h, view);
    }

    /** The wait group entry ends after the handler's deferred calls. */
    method Done(ghost h: nat)
      requires Valid() && h in view.unwinding
      modifies this`waitGroup, this`view
      ensures Valid() && Finish(old(view), h, view)
    {
      ghost var was := view;
      waitGroup := waitGroup - 1;
      view := view.(waitGroup := waitGroup, unwinding := view.unwinding - {h}, gone := view.gone + {h});
      FinishKeepsInv(was, h, view);
    }

    /** How the wait for handlers ended decides whether the send socket is closed. */
    method EndDrain(waitDone: bool) returns (closed: bool)
      requires Valid() && view.receiver.Draining? && (waitDone ==> view.waitDone)
      modifies this`socketOpen, this`view
      ensures Valid() && (if closed then DrainCompletes(old(view), view) else DrainAbandoned(old(view), view))
      ensures closed <==> waitDone
      ensures closed ==> waitGroup == 0 && view.running == {}
    {
      ghost var was := view;
      if waitDone {
        socketOpen := false;
        view := view.(receiver := Drained, socketOpen := false);
      } else {
        view := view.(receiver := Abandoned);
      }
      DrainKeepsInv(was, view);
      closed := waitDone;
    }
  }
}
