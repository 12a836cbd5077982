/** Every run of any network of relays and servers is finite, in any topology and any delivery order. */
module Termination {
  import opened Packets
  import opened Chains
  import opened Handler
  import opened Hosts
  import opened Layers
  import opened Numbers
  import opened Replies
  import opened Requests

  // ----- One relay step -----

  /**
   * A relay turns a request into requests with exactly one more hop, within its maximum, and a reply into a reply with
   * exactly one hop less; the hop byte never wraps.
   */
  lemma {:induction false} RelayStepHops(x: Relay, p: Packet, c: Packet)
    requires Emits(x, p, c)
    ensures c.op == p.op && !p.op.OtherOp?
    ensures p.op.Request? ==> c.hops == p.hops + 1 && c.hops <= x.cfg.maxHops
    ensures p.op.Reply? ==> p.hops >= 1 && c.hops == p.hops - 1
  {
    var q, out, k :| EmitsVia(x, p, c, q, out, k);
    HandleStepHops(x.cfg, x.host, DecisionFor(x.policy, Filtered(p)).value, x.at, Filtered(p), q, out, k, c);
  }

  lemma {:induction false} HandleStepHops(
    cfg: Config, host: Host, dec: Decision, at: int, p: Packet, q: Packet, out: seq<Attempt>, k: nat, c: Packet)
    requires Handles(cfg, host, dec, at, p, q, out) && k < |out| && Forwarded(out[k].what) == Some(c)
    ensures c.op == p.op && !p.op.OtherOp?
    ensures p.op.Request? ==> c.hops == p.hops + 1 && c.hops <= cfg.maxHops
    ensures p.op.Reply? ==> p.hops >= 1 && c.hops == p.hops - 1
  {
    hide HasMessageType, GiaddrIsLocal, RequestOpt82, ResolveGiaddr, Giaddrs;
    if p.op.Reply? && GiaddrIsLocal(cfg, host, p.giaddr) {
      ReplyFrameSource(cfg, host, dec, p, KindOf(p), out, k);
    }
  }

  /** Fan-out happens only at hop zero: a message already relayed is passed on at most once per relay that hears it. */
  lemma {:induction false} FanOutOnlyAtFirstHop(
    cfg: Config, host: Host, dec: Decision, at: int, p: Packet, q: Packet, out: seq<Attempt>)
    requires Handles(cfg, host, dec, at, p, q, out)
    requires forall k :: 0 <= k < |out| ==> !out[k].what.Frame?
    ensures |out| > 1 ==> p.op.Request? && p.hops == 0 && |out| <= |Giaddrs(ResolveGiaddr(cfg, host, dec, at))|
  {
    hide HasMessageType, GiaddrIsLocal, RequestOpt82, ResolveGiaddr, Giaddrs;
    if p.op.Reply? && |out| > 1 && 1 <= p.hops <= cfg.maxHops && !dec.dropReply && GiaddrIsLocal(cfg, host, p.giaddr) {
      ReplyFrameSource(cfg, host, dec, p, KindOf(p), out, 0);
    }
  }

  // ----- The network -----

  /** Messages in flight towards port 67. Any of them may be heard next, so their order means nothing. */
  type Network = seq<Packet>

  /** `c` is something a relay, or a server that echoes the hop count, may put on the wire on hearing `p`. */
  ghost predicate CausedBy(p: Packet, c: Packet) {
    (exists x: Relay :: Emits(x, p, c)) || (p.op.Request? && c.op.Reply? && c.hops == p.hops)
  }

  /**
   * One message leaves the network, heard by any number of nodes or lost, and at most `fanout` messages it causes join
   * it. Which relays hear it, their configuration and the state of their hosts may differ from step to step.
   */
  ghost predicate StepAt(fanout: nat, s: Network, i: nat, children: Network, s': Network) {
    && i < |s| && |children| <= fanout
    && (forall c :: c in children ==> CausedBy(s[i], c))
    && s' == s[..i] + s[i + 1..] + children
  }

  ghost predicate Step(fanout: nat, s: Network, s': Network) {
    exists i: nat, children: Network :: StepAt(fanout, s, i, children, s')
  }

  ghost predicate Run(fanout: nat, states: seq<Network>) {
    |states| > 0 && forall k :: 0 <= k < |states| - 1 ==> Step(fanout, states[k], states[k + 1])
  }

  // ----- The measure -----

  /** How many more times a message and its descendants can be heard, along one line of descent. */
  function Rank(p: Packet): nat {
    match p.op
    case Request => if p.hops == 0 then 512 else 511 - p.hops
    case Reply => p.hops
    case OtherOp(_) => 0
  }

  lemma {:induction false} RankDecreases(p: Packet, c: Packet)
    requires CausedBy(p, c)
    ensures Rank(c) < Rank(p)
  {
    if x: Relay :| Emits(x, p, c) {
      RelayStepHops(x, p, c);
    }
  }

  function Weight(fanout: nat, s: Network): nat {
    if s == [] then 0 else Weight(fanout, s[..|s| - 1]) + Power(fanout + 1, Rank(s[|s| - 1]))
  }

  lemma {:induction false} WeightConcat(fanout: nat, a: Network, b: Network)
    ensures Weight(fanout, a + b) == Weight(fanout, a) + Weight(fanout, b)
  {
    if b == [] {
      assert a + b == a;
    } else {
      assert (a + b)[..|a + b| - 1] == a + b[..|b| - 1];
      WeightConcat(fanout, a, b[..|b| - 1]);
    }
  }

  lemma {:induction false} WeightBound(fanout: nat, s: Network, r: nat)
    requires forall c :: c in s ==> Rank(c) <= r
    ensures Weight(fanout, s) <= |s| * Power(fanout + 1, r)
  {
    hide Rank, Power;
    if s != [] {
      var front := s[..|s| - 1];
      WeightBound(fanout, front, r);
      PowerMonotone(fanout + 1, Rank(s[|s| - 1]), r);
      MulSuccessor(|front|, Power(fanout + 1, r));
    }
  }

  /** What a message causes weighs less than the message. */
  lemma {:induction false} ChildrenWeighLess(fanout: nat, p: Packet, children: Network)
    requires |children| <= fanout && forall c :: c in children ==> CausedBy(p, c)
    ensures Weight(fanout, children) < Power(fanout + 1, Rank(p))
  {
    hide CausedBy, Rank;
    forall c | c in children
      ensures Rank(c) < Rank(p)
    {
      RankDecreases(p, c);
    }
    PowerMonotone(fanout + 1, 0, Rank(p));
    if children != [] {
      assert children[0] in children;
      var r := Rank(p) - 1;
      var b := Power(fanout + 1, r);
      WeightBound(fanout, children, r);
      MulMonotone(|children|, fanout, b);
      PowerMonotone(fanout + 1, 0, r);
      MulSuccessor(fanout, b);
    }
  }

  /** Each step lowers the weight of the network. */
  lemma {:induction false} StepDecreases(fanout: nat, s: Network, s': Network)
    requires Step(fanout, s, s')
    ensures Weight(fanout, s') < Weight(fanout, s)
  {
    var i: nat, children: Network :| StepAt(fanout, s, i, children, s');
    ChildrenWeighLess(fanout, s[i], children);
    assert s == s[..i] + ([s[i]] + s[i + 1..]);
    WeightConcat(fanout, s[..i], [s[i]] + s[i + 1..]);
    WeightConcat(fanout, [s[i]], s[i + 1..]);
    WeightConcat(fanout, s[..i] + s[i + 1..], children);
    WeightConcat(fanout, s[..i], s[i + 1..]);
    assert [s[i]][..0] == [];
  }

  /** No run is longer than the weight of its first state. */
  lemma {:induction false} RunsAreFinite(fanout: nat, states: seq<Network>)
    requires Run(fanout, states)
    ensures |states| - 1 + Weight(fanout, states[|states| - 1]) <= Weight(fanout, states[0])
  {
    var n := |states| - 1;
    if n > 0 {
      RunsAreFinite(fanout, states[..n]);
      assert Step(fanout, states[n - 1], states[n - 1 + 1]);
      StepDecreases(fanout, states[n - 1], states[n]);
    }
  }

  /** One client packet, of whatever kind, is done within a number of steps known beforehand. */
  lemma {:induction false} OnePacketTerminates(fanout: nat, p: Packet, states: seq<Network>)
    requires Run(fanout, states) && states[0] == [p]
    ensures |states| - 1 <= Power(fanout + 1, 512)
  {
    RunsAreFinite(fanout, states);
    assert [p][..0] == [];
    PowerMonotone(fanout + 1, Rank(p), 512);
  }

  // ----- Without a bound on the fan-out -----

  /** A step that may cause any number of messages. */
  ghost predicate AnyStep(s: Network, s': Network) {
    exists i: nat, children: Network :: StepAt(|children|, s, i, children, s')
  }

  /** Every run from `s` comes to an end. */
  least predicate Ends(s: Network) {
    forall s' :: AnyStep(s, s') ==> Ends(s')
  }

  /** Taking part `a` of a network forward takes the whole forward. */
  lemma {:induction false} StepOfPart(
    s: Network, i: nat, children: Network, s': Network, a: Network, b: Network, j: nat)
    requires StepAt(|children|, s, i, children, s')
    requires multiset(s) == multiset(a) + multiset(b) && j < |a| && a[j] == s[i]
    ensures var a' := a[..j] + a[j + 1..] + children;
      AnyStep(a, a') && multiset(s') == multiset(a') + multiset(b)
  {
    hide CausedBy;
    MultisetRemove(s, i);
    MultisetRemove(a, j);
    var c := multiset(children);
    var a' := a[..j] + a[j + 1..] + children;
    assert multiset(s') == (multiset(a) + multiset(b) - multiset{a[j]}) + c;
    assert multiset(a') == (multiset(a) - multiset{a[j]}) + c;
    assert a[j] in multiset(a);
    assert StepAt(|children|, a, j, children, a[..j] + a[j + 1..] + children);
  }

  /** Two networks that come to an end still do when their messages are mixed. */
  lemma {:induction false} EndsTogether(k: ORDINAL, m: ORDINAL, a: Network, b: Network, s: Network)
    requires Ends#[k](a) && Ends#[m](b) && multiset(s) == multiset(a) + multiset(b)
    ensures Ends(s)
    decreases k, m
  {
    hide CausedBy;
    if k.Offset == 0 {
      var k' :| k' < k && Ends#[k'](a);
      EndsTogether(k', m, a, b, s);
    } else if m.Offset == 0 {
      var m' :| m' < m && Ends#[m'](b);
      EndsTogether(k, m', a, b, s);
    } else {
      forall s' | AnyStep(s, s')
        ensures Ends(s')
      {
        var i: nat, children: Network :| StepAt(|children|, s, i, children, s');
        assert s[i] in multiset(s);
        if s[i] in multiset(a) {
          assert s[i] in a;
          var j :| 0 <= j < |a| && a[j] == s[i];
          StepOfPart(s, i, children, s', a, b, j);
          EndsTogether(k - 1, m, a[..j] + a[j + 1..] + children, b, s');
        } else {
          assert s[i] in multiset(b);
          assert s[i] in b;
          var j :| 0 <= j < |b| && b[j] == s[i];
          StepOfPart(s, i, children, s', b, a, j);
          EndsTogether(k, m - 1, a, b[..j] + b[j + 1..] + children, s');
        }
      }
    }
  }

  lemma {:induction false} AllEnd(s: Network)
    requires forall c :: c in s ==> Ends([c])
    ensures Ends(s)
  {
    hide CausedBy;
    if s == [] {
      assert forall s' :: !AnyStep(s, s');
    } else {
      var front, last := s[..|s| - 1], s[|s| - 1];
      AllEnd(front);
      assert last in s;
      assert s == front + [last];
      var k: ORDINAL :| Ends#[k](front);
      var m: ORDINAL :| Ends#[m]([last]);
      EndsTogether(k, m, front, [last], s);
    }
  }

  lemma {:induction false} OneEnds(r: nat, p: Packet)
    requires Rank(p) <= r
    ensures Ends([p])
    decreases r
  {
    hide CausedBy, Rank;
    forall s' | AnyStep([p], s')
      ensures Ends(s')
    {
      var i: nat, children: Network :| StepAt(|children|, [p], i, children, s');
      assert s' == children;
      forall c | c in children
        ensures Ends([c])
      {
        RankDecreases(p, c);
        OneEnds(r - 1, c);
      }
      AllEnd(children);
    }
  }

  lemma {:induction false} EndsMeansNoInfiniteRun(k: ORDINAL, states: nat -> Network, n: nat)
    requires Ends#[k](states(n))
    ensures exists m: nat :: !AnyStep(states(m), states(m + 1))
    decreases k
  {
    hide CausedBy;
    if k.Offset == 0 {
      var k' :| k' < k && Ends#[k'](states(n));
      EndsMeansNoInfiniteRun(k', states, n);
    } else if AnyStep(states(n), states(n + 1)) {
      EndsMeansNoInfiniteRun(k - 1, states, n + 1);
    }
  }

  /** From any messages in flight, with any fan-out at any step, no run goes on for ever. */
  lemma {:induction false} NoInfiniteRun(states: nat -> Network)
    ensures exists m: nat :: !AnyStep(states(m), states(m + 1))
  {
    hide CausedBy, Rank;
    forall c | c in states(0)
      ensures Ends([c])
    {
      OneEnds(Rank(c), c);
    }
    AllEnd(states(0));
    var k: ORDINAL :| Ends#[k](states(0));
    EndsMeansNoInfiniteRun(k, states, 0);
  }
}
