/** Chains of relays: how far requests and replies travel, and the round trip through any of them. */
module Chains {
  import opened Packets
  import opened Handler
  import opened Hosts
  import opened Layers
  import opened Opt82
  import opened Options
  import opened RelayPolicy
  import opened Replies
  import opened Requests
  import opened RoundTrip

  /** A relay on the path, with the interface the message reaches it on. */
  datatype Relay = Relay(cfg: Config, host: Host, policy: Option<Policy>, at: int)

  function Forwarded(d: Datagram): Option<Packet> {
    match d
    case ToServer(_, pkt) => Some(pkt)
    case ToRelay(_, pkt) => Some(pkt)
    case Frame(_, _, _, _, _) => None
  }

  ghost predicate EmitsVia(x: Relay, p: Packet, p': Packet, q: Packet, out: seq<Attempt>, k: nat) {
    && Receives(x.cfg, x.host, x.policy, x.at, p, q, out)
    && k < |out| && out[k].outcome == Sent && Forwarded(out[k].what) == Some(p')
  }

  /** The relay, given `p`, may put `p'` on the wire for another relay or the server. */
  ghost predicate Emits(x: Relay, p: Packet, p': Packet) {
    exists q, out, k :: EmitsVia(x, p, p', q, out, k)
  }

  /** The relay's policy passes the filtered message, and a reply is not for this relay. */
  ghost predicate Transparent(x: Relay, p: Packet) {
    && x.at >= 1
    && DecisionFor(x.policy, p).Some? && !DecisionFor(x.policy, p).value.dropReply
    && (p.op.Reply? ==> !GiaddrIsLocal(x.cfg, x.host, p.giaddr) && UsableGiaddr(p.giaddr))
  }

  /** A message that still has its type after the split-option filter. */
  predicate TakenUp(p: Packet) {
    HasMessageType(WithoutSplits(p.options))
  }

  /** Every relay filters what it passes on; only a path of no relays leaves the message as it was. */
  function Onward(path: seq<Relay>, p: Packet): Packet {
    if path == [] then p else Filtered(p)
  }

  lemma {:induction false} FilteredOnce(p: Packet, h: Byte)
    ensures Filtered(Filtered(p).(hops := h)) == Filtered(p).(hops := h)
    ensures Filtered(p.(hops := h)) == Filtered(p).(hops := h)
  {
    WithoutSplitsIdempotent(p.options);
  }

  lemma {:induction false} DecisionIgnoresHops(policy: Option<Policy>, p: Packet, h: Byte)
    ensures DecisionFor(policy, p.(hops := h)) == DecisionFor(policy, p)
  {
  }

  // ----- One relay -----

  /** A relayed request is passed on, filtered and with one more hop, exactly when it is below the relay's maximum. */
  lemma {:induction false} EmitsRequest(x: Relay, p: Packet, p': Packet)
    requires TakenUp(p) && Transparent(x, Filtered(p)) && p.op.Request? && p.hops > 0
    ensures Emits(x, p, p') <==> p.hops < x.cfg.maxHops && p' == Filtered(p).(hops := p.hops + 1)
  {
    hide DecisionFor, GiaddrIsLocal, HasMessageType, RelaysRequest, DeliversReply, WithoutSplits;
    var dec := DecisionFor(x.policy, Filtered(p)).value;
    if p.hops < x.cfg.maxHops && p' == Filtered(p).(hops := p.hops + 1) {
      var out := [Attempt(ToServer(EffectiveServer(x.cfg, dec), p'), Sent)];
      assert EmitsVia(x, p, p', p', out, 0);
    }
  }

  /** A reply for another relay is passed on, filtered and with one hop less, exactly when its hop count is in range. */
  lemma {:induction false} EmitsReply(x: Relay, p: Packet, p': Packet)
    requires TakenUp(p) && Transparent(x, Filtered(p)) && p.op.Reply?
    ensures Emits(x, p, p') <==> 1 <= p.hops <= x.cfg.maxHops && p' == Filtered(p).(hops := p.hops - 1)
  {
    hide DecisionFor, GiaddrIsLocal, HasMessageType, RelaysRequest, DeliversReply, WithoutSplits;
    if 1 <= p.hops <= x.cfg.maxHops && p' == Filtered(p).(hops := p.hops - 1) {
      var out := [Attempt(ToRelay(p.giaddr, p'), Sent)];
      assert EmitsVia(x, p, p', p', out, 0);
    }
  }

  // ----- Paths -----

  /** `p` enters the first relay and `p'` leaves the last. */
  ghost predicate Travels(path: seq<Relay>, p: Packet, p': Packet) {
    if path == [] then p' == p
    else exists mid :: Emits(path[0], p, mid) && Travels(path[1..], mid, p')
  }

  ghost predicate AllTransparent(path: seq<Relay>, p: Packet) {
    forall k :: 0 <= k < |path| ==> Transparent(path[k], p)
  }

  /** Every relay of the path finds the request below its maximum. */
  predicate RequestAdmitted(path: seq<Relay>, hops: nat) {
    forall k :: 0 <= k < |path| ==> hops + k < path[k].cfg.maxHops
  }

  /** Every relay of the path finds the reply within its hop range. */
  predicate ReplyAdmitted(path: seq<Relay>, hops: nat) {
    |path| <= hops && forall k :: 0 <= k < |path| ==> hops - k <= path[k].cfg.maxHops
  }

  lemma {:induction false} RequestAdmittedTail(path: seq<Relay>, hops: nat)
    requires path != []
    ensures RequestAdmitted(path, hops) <==> hops < path[0].cfg.maxHops && RequestAdmitted(path[1..], hops + 1)
  {
    var tail := path[1..];
    if RequestAdmitted(path, hops) {
      assert hops + 0 < path[0].cfg.maxHops;
      forall k | 0 <= k < |tail|
        ensures hops + 1 + k < tail[k].cfg.maxHops
      {
        assert hops + (k + 1) < path[k + 1].cfg.maxHops;
      }
      assert RequestAdmitted(tail, hops + 1);
    }
    if hops < path[0].cfg.maxHops && RequestAdmitted(tail, hops + 1) {
      forall k | 0 <= k < |path|
        ensures hops + k < path[k].cfg.maxHops
      {
        if k > 0 {
          assert path[k] == tail[k - 1];
        }
      }
    }
  }

  lemma {:induction false} ReplyAdmittedTail(path: seq<Relay>, hops: nat)
    requires path != [] && hops >= 1
    ensures ReplyAdmitted(path, hops) <==> hops <= path[0].cfg.maxHops && ReplyAdmitted(path[1..], hops - 1)
  {
    var tail := path[1..];
    if ReplyAdmitted(path, hops) {
      assert hops - 0 <= path[0].cfg.maxHops;
      forall k | 0 <= k < |tail|
        ensures hops - 1 - k <= tail[k].cfg.maxHops
      {
        assert hops - (k + 1) <= path[k + 1].cfg.maxHops;
      }
      assert ReplyAdmitted(tail, hops - 1);
    }
    if hops <= path[0].cfg.maxHops && ReplyAdmitted(tail, hops - 1) {
      forall k | 0 <= k < |path|
        ensures hops - k <= path[k].cfg.maxHops
      {
        if k > 0 {
          assert path[k] == tail[k - 1];
        }
      }
    }
  }

  lemma {:induction false} TransparentIgnoresHops(path: seq<Relay>, p: Packet, h: Byte)
    requires AllTransparent(path, p)
    ensures AllTransparent(path, p.(hops := h))
  {
    forall k | 0 <= k < |path|
      ensures Transparent(path[k], p.(hops := h))
    {
      DecisionIgnoresHops(path[k].policy, p, h);
    }
  }

  /** A relayed request crosses a path exactly when each relay admits it, and gains one hop per relay. */
  lemma {:induction false} RequestTravels(path: seq<Relay>, p: Packet, p': Packet)
    requires TakenUp(p) && AllTransparent(path, Filtered(p)) && p.op.Request? && p.hops > 0
    ensures Travels(path, p, p') <==>
      RequestAdmitted(path, p.hops) && p.hops + |path| <= 255 && p' == Onward(path, p).(hops := p.hops + |path|)
    decreases |path|
  {
    hide Transparent, Emits, HasMessageType, WithoutSplits;
    if path != [] {
      forall mid
        ensures Emits(path[0], p, mid) <==> p.hops < path[0].cfg.maxHops && mid == Filtered(p).(hops := p.hops + 1)
      {
        EmitsRequest(path[0], p, mid);
      }
      if p.hops < path[0].cfg.maxHops {
        var mid := Filtered(p).(hops := p.hops + 1);
        FilteredOnce(p, mid.hops);
        TransparentIgnoresHops(path, Filtered(p), mid.hops);
        RequestTravels(path[1..], mid, p');
        RequestAdmittedTail(path, p.hops);
      }
    }
  }

  /** A reply crosses a path exactly when each relay admits it, and loses one hop per relay. */
  lemma {:induction false} ReplyTravels(path: seq<Relay>, p: Packet, p': Packet)
    requires TakenUp(p) && AllTransparent(path, Filtered(p)) && p.op.Reply?
    ensures Travels(path, p, p') <==>
      ReplyAdmitted(path, p.hops) && p' == Onward(path, p).(hops := p.hops - |path|)
    decreases |path|
  {
    hide Transparent, Emits, HasMessageType, WithoutSplits;
    if path != [] {
      forall mid
        ensures Emits(path[0], p, mid) <==>
          1 <= p.hops <= path[0].cfg.maxHops && mid == Filtered(p).(hops := p.hops - 1)
      {
        EmitsReply(path[0], p, mid);
      }
      if 1 <= p.hops <= path[0].cfg.maxHops {
        var mid := Filtered(p).(hops := p.hops - 1);
        FilteredOnce(p, mid.hops);
        TransparentIgnoresHops(path, Filtered(p), mid.hops);
        ReplyTravels(path[1..], mid, p');
        ReplyAdmittedTail(path, p.hops);
      }
    }
  }

  function Reversed(path: seq<Relay>): (r: seq<Relay>)
    ensures |r| == |path| && forall k :: 0 <= k < |path| ==> r[k] == path[|path| - 1 - k]
  {
    seq(|path|, k requires 0 <= k < |path| => path[|path| - 1 - k])
  }

  lemma {:induction false} AdmittedBackwards(path: seq<Relay>, hops: nat)
    requires RequestAdmitted(path, hops)
    ensures ReplyAdmitted(Reversed(path), hops + |path|)
  {
    var back := Reversed(path);
    forall k | 0 <= k < |back|
      ensures hops + |path| - k <= back[k].cfg.maxHops
    {
      assert hops + (|path| - 1 - k) < path[|path| - 1 - k].cfg.maxHops;
    }
  }

  /**
   * Whatever mix of hop limits the relays have: if a request crosses a path, a reply with the hop count it arrived
   * with crosses the same relays backwards, and comes out with the hop count the request went in with.
   */
  lemma {:induction false} ReplyRetraces(path: seq<Relay>, p: Packet, p': Packet, reply: Packet)
    requires TakenUp(p) && AllTransparent(path, Filtered(p)) && p.op.Request? && p.hops > 0 && Travels(path, p, p')
    requires TakenUp(reply) && AllTransparent(path, Filtered(reply)) && reply.op.Reply? && reply.hops == p'.hops
    ensures reply.hops == p.hops + |path|
    ensures forall r' ::
      Travels(Reversed(path), reply, r') <==> r' == Onward(path, reply).(hops := p.hops)
  {
    hide Transparent, Emits, HasMessageType, WithoutSplits, RequestAdmitted, ReplyAdmitted;
    RequestTravels(path, p, p');
    AdmittedBackwards(path, p.hops);
    var back := Reversed(path);
    assert AllTransparent(back, Filtered(reply));
    forall r'
      ensures Travels(back, reply, r') <==> r' == Onward(path, reply).(hops := p.hops)
    {
      ReplyTravels(back, reply, r');
    }
  }

  // ----- The round trip through a chain -----

  lemma {:induction false} FirstHopTakenUp(
    cfg: Config, host: Host, policy: Option<Policy>, ifIndex: int, p: Packet, q: Packet, out: seq<Attempt>, k: nat)
    requires p.op.Request? && p.hops == 0
    requires Receives(cfg, host, policy, ifIndex, p, q, out) && k < |out|
    ensures TakenUp(out[k].what.pkt) && out[k].what.pkt.op.Request? && out[k].what.pkt.hops == 1
    ensures Filtered(out[k].what.pkt) == out[k].what.pkt
  {
    hide Clean, HasMessageType, RelaysRequest;
    FirstHop(cfg, host, policy, ifIndex, p, q, out, k);
    var dec := DecisionFor(policy, Filtered(p)).value;
    var resolved := ResolveGiaddr(cfg, host, dec, ifIndex);
    RequestOpt82Encodes(resolved, dec, ifIndex);
    WithoutSplitsClean(p.options);
    CopyTakenUp(Filtered(p), RequestOpt82(resolved, dec, ifIndex), out[k].what.pkt);
  }

  /** The next relay's filter leaves a first-hop copy alone. */
  lemma {:induction false} CopyTakenUp(p: Packet, opt82: DhcpOption, pkt: Packet)
    requires Clean(p.options) && HasMessageType(p.options) && opt82.typ == RELAY_AGENT_INFORMATION
    requires IsRelayed(p, opt82, pkt)
    ensures TakenUp(pkt) && Filtered(pkt) == pkt
  {
    SetOptionClean(p.options, opt82, pkt.options);
    SetOptionGetOther(p.options, opt82, pkt.options, MESSAGE_TYPE);
    CleanIsFixed(pkt.options);
  }

  /** The filter keeps an option that stands once before any End standing once before any End. */
  lemma {:induction false} HoldsStays(opts: seq<DhcpOption>, o: DhcpOption)
    requires Holds(opts, o) && o.typ != PAD && o.typ != END
    ensures Holds(WithoutSplits(opts), o)
  {
    var kept := WithoutSplits(opts);
    var e := FirstEnd(opts);
    KeepUnsplitMembers(opts, opts[..e], o);
    WithoutSplitsClean(opts);
    assert o in kept;
    var k :| 0 <= k < |kept| && kept[k] == o;
    assert Unsplit(kept, kept[k]);
    assert k < FirstEnd(kept);
    assert kept[..FirstEnd(kept)][k] == o;
  }

  lemma {:induction false} EchoStays(pkt: Packet, p': Packet, path: seq<Relay>, reply: Packet, h: Byte)
    requires p' == pkt.(hops := p'.hops) && Echoes(p', reply)
    requires GetOption(pkt.options, RELAY_AGENT_INFORMATION).typ == RELAY_AGENT_INFORMATION
    ensures Echoes(pkt.(hops := h), Onward(path, reply).(hops := h))
  {
    hide Holds, HasMessageType;
    HoldsStays(reply.options, GetOption(pkt.options, RELAY_AGENT_INFORMATION));
    WithoutSplitsIdempotent(reply.options);
  }

  lemma {:induction false} CopyHasOpt82(p: Packet, resolved: Resolved, dec: Decision, ifIndex: nat, pkt: Packet)
    requires IsCopy(p, resolved, dec, ifIndex, pkt)
    ensures GetOption(pkt.options, RELAY_AGENT_INFORMATION).typ == RELAY_AGENT_INFORMATION
  {
    RequestOpt82Encodes(resolved, dec, ifIndex);
    RequestCarriesIngress(resolved, dec, ifIndex, p, pkt);
  }

  lemma {:induction false} FirstHopHasOpt82(
    cfg: Config, host: Host, policy: Option<Policy>, ifIndex: nat, p: Packet, q: Packet, out: seq<Attempt>, k: nat)
    requires p.op.Request? && p.hops == 0
    requires Receives(cfg, host, policy, ifIndex, p, q, out) && k < |out|
    ensures GetOption(out[k].what.pkt.options, RELAY_AGENT_INFORMATION).typ == RELAY_AGENT_INFORMATION
  {
    hide IsCopy, Receives;
    FirstHop(cfg, host, policy, ifIndex, p, q, out, k);
    var dec := DecisionFor(policy, Filtered(p)).value;
    CopyHasOpt82(Filtered(p), ResolveGiaddr(cfg, host, dec, ifIndex), dec, ifIndex, out[k].what.pkt);
  }

  /**
   * Any number of relays between the first hop and the server, with any mix of hop limits: a reply that echoes the
   * request as the server saw it and retraces the relays, padded or with split options or not, arrives with exactly
   * one hop, and the first-hop relay delivers it, stripped, out of the interface the client is on.
   */
  lemma {:induction false} ChainRoundTrip(
    cfg: Config, host: Host, policy: Option<Policy>, ifIndex: nat, p: Packet, q: Packet, out: seq<Attempt>, k: nat,
    path: seq<Relay>, p': Packet, reply: Packet, arrived: Packet,
    later: Host, laterPolicy: Option<Policy>, at: int, q': Packet, out': seq<Attempt>)
    requires ValidConfig(cfg) && Consistent(host) && 0 < ifIndex < 0x1_0000_0000
    requires p.op.Request? && p.hops == 0
    requires Receives(cfg, host, policy, ifIndex, p, q, out) && k < |out|
    requires AllTransparent(path, out[k].what.pkt) && Travels(path, out[k].what.pkt, p')
    requires Echoes(p', reply)
    requires AllTransparent(path, Filtered(reply)) && Travels(Reversed(path), reply, arrived)
    requires StillServes(host, later, ifIndex) && KeepsIngress(laterPolicy, arrived) && at >= 1
    requires Receives(cfg, later, laterPolicy, at, arrived, q', out')
    ensures arrived == Onward(path, reply).(hops := 1)
    ensures |out'| == 1 && out'[0].what == ClientFrame(cfg, later.nics[ifIndex], Filtered(reply).(hops := 1))
  {
    hide Receives, KeepsIngress, StillServes, Consistent, Transparent, ClientFrame;
    hide HasMessageType, WithoutSplits, Holds;
    var pkt := out[k].what.pkt;
    FirstHopTakenUp(cfg, host, policy, ifIndex, p, q, out, k);
    FirstHopHasOpt82(cfg, host, policy, ifIndex, p, q, out, k);
    RequestTravels(path, pkt, p');
    ReplyRetraces(path, pkt, p', reply);
    EchoStays(pkt, p', path, reply, 1);
    ReplyReachesIngress(cfg, host, policy, ifIndex, p, q, out, k, later, laterPolicy, at, arrived, q', out');
    FilteredOnce(reply, 1);
  }

  /**
   * A reply the server sends straight to the giaddr keeps the count of the whole chain, and the first-hop relay takes
   * it exactly when its own limit covers the chain.
   */
  lemma {:induction false} DirectReturnExactly(
    cfg: Config, host: Host, policy: Option<Policy>, ifIndex: nat, p: Packet, q: Packet, out: seq<Attempt>, k: nat,
    path: seq<Relay>, p': Packet, reply: Packet,
    later: Host, laterPolicy: Option<Policy>, at: int, q': Packet, out': seq<Attempt>)
    requires ValidConfig(cfg) && Consistent(host) && 0 < ifIndex < 0x1_0000_0000
    requires p.op.Request? && p.hops == 0
    requires Receives(cfg, host, policy, ifIndex, p, q, out) && k < |out|
    requires AllTransparent(path, out[k].what.pkt) && Travels(path, out[k].what.pkt, p')
    requires Echoes(p', reply)
    requires StillServes(host, later, ifIndex) && KeepsIngress(laterPolicy, reply) && at >= 1
    requires Receives(cfg, later, laterPolicy, at, reply, q', out')
    ensures 1 + |path| <= cfg.maxHops ==>
      |out'| == 1 && out'[0].what == ClientFrame(cfg, later.nics[ifIndex], Filtered(reply))
    ensures 1 + |path| > cfg.maxHops ==> out' == []
  {
    hide Receives, KeepsIngress, StillServes, Consistent, Transparent, ClientFrame;
    hide HasMessageType, WithoutSplits, Holds;
    var pkt := out[k].what.pkt;
    FirstHopTakenUp(cfg, host, policy, ifIndex, p, q, out, k);
    RequestTravels(path, pkt, p');
    assert pkt.(hops := reply.hops) == p';
    ReplyReachesIngress(cfg, host, policy, ifIndex, p, q, out, k, later, laterPolicy, at, reply, q', out');
  }
}
