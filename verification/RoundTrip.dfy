/** From a client's request through one relay to the server, and back to the NIC it came in on. */
module RoundTrip {
  import opened Packets
  import opened Handler
  import opened Hosts
  import opened Layers
  import opened MacPolicy
  import opened Opt82
  import opened Options
  import opened RelayPolicy
  import opened Replies
  import opened Requests
  import opened SubOptions

  // ----- The server -----

  /** Option `o` stands once in the list, before any End. */
  ghost predicate Holds(opts: seq<DhcpOption>, o: DhcpOption) {
    Count(opts, o.typ) == 1 && o in opts[..FirstEnd(opts)]
  }

  /** What the relay relies on a server to do: answer with the hops, giaddr, chaddr and Option 82 it was sent. */
  ghost predicate Echoes(request: Packet, reply: Packet) {
    && reply.op.Reply? && reply.hops == request.hops
    && reply.giaddr == request.giaddr && reply.chaddr == request.chaddr
    && Holds(reply.options, GetOption(request.options, RELAY_AGENT_INFORMATION))
    && HasMessageType(WithoutSplits(reply.options))
    && reply.yiaddr.V4? && reply.ciaddr.V4?
  }

  /** The split-option filter leaves such an option to be found. */
  lemma {:induction false} HoldsAfterFilter(opts: seq<DhcpOption>, o: DhcpOption)
    requires Holds(opts, o) && o.typ != PAD
    ensures GetOption(WithoutSplits(opts), o.typ) == o
  {
    var e := FirstEnd(opts);
    var kept := WithoutSplits(opts);
    KeepUnsplitMembers(opts, opts[..e], o);
    var i :| 0 <= i < e && opts[i] == o;
    forall x | x in kept && x.typ == o.typ
      ensures x == o
    {
      KeepUnsplitMembers(opts, opts[..e], x);
      var j :| 0 <= j < |opts| && opts[j] == x;
      if j < i {
        CountPair(opts, j, i);
      } else if i < j {
        CountPair(opts, i, j);
      }
    }
    GetOnly(kept, o);
  }

  // ----- One relay -----

  /** `pkt` is a copy of the filtered first-hop request `p` under one of the giaddrs of its ingress. */
  ghost predicate IsCopy(p: Packet, resolved: Resolved, dec: Decision, ifIndex: int, pkt: Packet) {
    && IsRelayed(p, RequestOpt82(resolved, dec, ifIndex), pkt)
    && pkt.giaddr in Giaddrs(resolved)
  }

  /** What a first-hop request sends is copies of it. */
  lemma {:induction false} FirstHop(
    cfg: Config, host: Host, policy: Option<Policy>, ifIndex: int, p: Packet, q: Packet, out: seq<Attempt>, k: nat)
    requires p.op.Request? && p.hops == 0
    requires Receives(cfg, host, policy, ifIndex, p, q, out) && k < |out|
    ensures ifIndex >= 1 && DecisionFor(policy, Filtered(p)).Some?
    ensures var dec := DecisionFor(policy, Filtered(p)).value;
      IsCopy(Filtered(p), ResolveGiaddr(cfg, host, dec, ifIndex), dec, ifIndex, out[k].what.pkt)
  {
    var dec := DecisionFor(policy, Filtered(p)).value;
    var resolved := ResolveGiaddr(cfg, host, dec, ifIndex);
    assert RelaysResolved(EffectiveServer(cfg, dec), resolved, dec, ifIndex, Filtered(p), q, out);
    assert out[k].what.pkt == q.(giaddr := Giaddrs(resolved)[k]);
  }

  /**
   * A first-hop request sends at least one copy exactly when it is for this relay to take up: it carries a message
   * type, the policy passes it, a hop is allowed and its ingress has a giaddr to relay under.
   */
  lemma {:induction false} FirstHopSends(
    cfg: Config, host: Host, policy: Option<Policy>, ifIndex: int, p: Packet, q: Packet, out: seq<Attempt>)
    requires p.op.Request? && p.hops == 0 && Receives(cfg, host, policy, ifIndex, p, q, out)
    ensures out != [] <==>
      && ifIndex >= 1 && HasMessageType(WithoutSplits(p.options))
      && DecisionFor(policy, Filtered(p)).Some? && cfg.maxHops >= 1
      && !ResolveGiaddr(cfg, host, DecisionFor(policy, Filtered(p)).value, ifIndex).Unresolved?
  {
    hide HasMessageType, WithoutSplits, IsRelayed, GlobalAddrs, ServerFacing;
  }

  /** The option a reply echoes is the one the request was given, and it names the ingress. */
  lemma {:induction false} EchoNamesIngress(
    p: Packet, resolved: Resolved, dec: Decision, ifIndex: nat, pkt: Packet, reply: Packet)
    requires IsCopy(p, resolved, dec, ifIndex, pkt) && Echoes(pkt.(hops := reply.hops), reply)
    ensures var subs := Decoded(RelayAgentInformation(WithoutSplits(reply.options)).data);
      && subs == RequestSubOptions(ifIndex, LinkSubnet(resolved), dec.policyTag)
      && subs != [] && ExtractCircuitId(subs) == ifIndex % 0x1_0000_0000
  {
    RequestOpt82Encodes(resolved, dec, ifIndex);
    RequestCarriesIngress(resolved, dec, ifIndex, p, pkt);
    HoldsAfterFilter(reply.options, RequestOpt82(resolved, dec, ifIndex));
  }

  /** The frame a delivered reply becomes when no selector redirects it. */
  function ClientFrame(cfg: Config, nic: Nic, p: Packet): Datagram {
    var kind := KindOf(p);
    var pkt := Stripped(p).(flags := ReplyFlags(kind, p.flags));
    match kind
    case UnicastReply => Frame(nic, p.giaddr, UnicastDst(p), p.chaddr, pkt)
    case BroadcastReply => Frame(nic, V4(0), V4(BROADCAST), if cfg.l2Unicast then p.chaddr else ETHERNET_BROADCAST, pkt)
  }

  /** The reply has a local giaddr, names interface `i`, which can carry it, and nothing redirects or drops it. */
  ghost predicate Deliverable(cfg: Config, host: Host, dec: Decision, p: Packet, i: int) {
    && HasMessageType(p.options) && p.op.Reply? && p.yiaddr.V4? && p.ciaddr.V4?
    && GiaddrIsLocal(cfg, host, p.giaddr) && UsableGiaddr(p.giaddr)
    && i != 0 && ExtractCircuitId(ReplySubOptions(dec, p.options)) == i && i in host.nics && CanCarry(host.nics[i])
    && host.rawSocket && !dec.dropReply && dec.nicSelector.None?
  }

  /** Such a reply is delivered, as one frame, exactly when its hop count is in range. */
  lemma {:induction false} DeliveredExactly(
    cfg: Config, host: Host, dec: Decision, at: int, p: Packet, q: Packet, out: seq<Attempt>, i: int)
    requires Deliverable(cfg, host, dec, p, i) && Handles(cfg, host, dec, at, p, q, out)
    ensures
      if 1 <= p.hops <= cfg.maxHops then |out| == 1 && out[0].what == ClientFrame(cfg, host.nics[i], p) else out == []
  {
    if 1 <= p.hops <= cfg.maxHops {
      var kind := KindOf(p);
      ReplyToIngress(cfg, host, dec, p, kind, out);
      ReplyFrameSource(cfg, host, dec, p, kind, out, 0);
      DestinationMac(cfg, host, dec, p, kind, out);
    }
  }

  lemma {:induction false} DestinationMac(
    cfg: Config, host: Host, dec: Decision, p: Packet, kind: ReplyKind, out: seq<Attempt>)
    requires DeliversReply(cfg, host, dec, p, kind, out) && |out| > 0
    ensures out[0].what.Frame?
    ensures out[0].what.dstMAC == if kind.UnicastReply? || cfg.l2Unicast then p.chaddr else ETHERNET_BROADCAST
  {
    var plan := Plan(cfg, host, dec, p, kind);
    var nic := CopiesFrom(plan, Targets(cfg, host, dec.nicSelector, plan.ingress), 0);
  }

  /** The host still answers as it did for the request, as far as this reply needs it. */
  ghost predicate StillServes(host: Host, later: Host, ifIndex: int) {
    && later.allAddrs == host.allAddrs && later.rawSocket
    && ifIndex in later.nics && CanCarry(later.nics[ifIndex])
  }

  /** The policy lets the reply through and leaves it on its ingress. */
  ghost predicate KeepsIngress(policy: Option<Policy>, reply: Packet) {
    var dec := DecisionFor(policy, Filtered(reply));
    dec.Some? && !dec.value.dropReply && dec.value.nicSelector.None?
  }

  /** What the policy hands the reply path is what the reply path would decode itself. */
  lemma {:induction false} PolicySubOptions(policy: Option<Policy>, reply: Packet)
    requires reply.op.Reply? && DecisionFor(policy, reply).Some?
    ensures ReplySubOptions(DecisionFor(policy, reply).value, reply.options) ==
      Decoded(RelayAgentInformation(reply.options).data)
  {
  }

  lemma {:induction false} CopyGiaddrIsLocal(
    cfg: Config, host: Host, dec: Decision, ifIndex: int, p: Packet, pkt: Packet, later: Host)
    requires ValidConfig(cfg) && Consistent(host) && later.allAddrs == host.allAddrs
    requires IsCopy(p, ResolveGiaddr(cfg, host, dec, ifIndex), dec, ifIndex, pkt)
    ensures GiaddrIsLocal(cfg, later, pkt.giaddr) && UsableGiaddr(pkt.giaddr)
  {
    var giaddrs := Giaddrs(ResolveGiaddr(cfg, host, dec, ifIndex));
    var k :| 0 <= k < |giaddrs| && giaddrs[k] == pkt.giaddr;
    RequestGiaddrIsLocal(cfg, host, dec, ifIndex, k);
  }

  /**
   * A reply echoing a copy, with any hop count, is taken for local and names exactly the interface the request came
   * in on.
   */
  lemma {:induction false} CopyComesBack(
    cfg: Config, host: Host, dec: Decision, ifIndex: nat, p: Packet, pkt: Packet,
    later: Host, laterDec: Decision, reply: Packet)
    requires ValidConfig(cfg) && Consistent(host) && 0 < ifIndex < 0x1_0000_0000
    requires IsCopy(p, ResolveGiaddr(cfg, host, dec, ifIndex), dec, ifIndex, pkt)
    requires Echoes(pkt.(hops := reply.hops), reply) && StillServes(host, later, ifIndex)
    requires !laterDec.dropReply && laterDec.nicSelector.None?
    requires ReplySubOptions(laterDec, WithoutSplits(reply.options)) ==
      Decoded(RelayAgentInformation(WithoutSplits(reply.options)).data)
    ensures Deliverable(cfg, later, laterDec, Filtered(reply), ifIndex)
  {
    hide Decode, RequestSubOptions, ResolveGiaddr, GetOption, WithoutSplits, Count;
    CopyGiaddrIsLocal(cfg, host, dec, ifIndex, p, pkt, later);
    EchoNamesIngress(p, ResolveGiaddr(cfg, host, dec, ifIndex), dec, ifIndex, pkt, reply);
  }

  /** A request relayed from `ifIndex` and a reply that echoes it with some hop count, end to end. */
  lemma {:induction false} ReplyReachesIngress(
    cfg: Config, host: Host, policy: Option<Policy>, ifIndex: nat, p: Packet, q: Packet, out: seq<Attempt>, k: nat,
    later: Host, laterPolicy: Option<Policy>, at: int, reply: Packet, q': Packet, out': seq<Attempt>)
    requires ValidConfig(cfg) && Consistent(host) && 0 < ifIndex < 0x1_0000_0000
    requires p.op.Request? && p.hops == 0
    requires Receives(cfg, host, policy, ifIndex, p, q, out) && k < |out|
    requires Echoes(out[k].what.pkt.(hops := reply.hops), reply)
    requires StillServes(host, later, ifIndex) && KeepsIngress(laterPolicy, reply) && at >= 1
    requires Receives(cfg, later, laterPolicy, at, reply, q', out')
    ensures if 1 <= reply.hops <= cfg.maxHops
      then |out'| == 1 && out'[0].what == ClientFrame(cfg, later.nics[ifIndex], Filtered(reply))
      else out' == []
  {
    FirstHop(cfg, host, policy, ifIndex, p, q, out, k);
    var dec := DecisionFor(policy, Filtered(p)).value;
    PolicySubOptions(laterPolicy, Filtered(reply));
    var laterDec := DecisionFor(laterPolicy, Filtered(reply)).value;
    CopyComesBack(cfg, host, dec, ifIndex, Filtered(p), out[k].what.pkt, later, laterDec, reply);
    DeliveredExactly(cfg, later, laterDec, at, Filtered(reply), q', out', ifIndex);
  }

  /** A single relay: its own reply, with the one hop it counted, always comes back, stripped of what it added. */
  lemma {:induction false} SingleRelayRoundTrip(
    cfg: Config, host: Host, policy: Option<Policy>, ifIndex: nat, p: Packet, q: Packet, out: seq<Attempt>, k: nat,
    later: Host, laterPolicy: Option<Policy>, at: int, reply: Packet, q': Packet, out': seq<Attempt>)
    requires ValidConfig(cfg) && Consistent(host) && 0 < ifIndex < 0x1_0000_0000
    requires p.op.Request? && p.hops == 0
    requires Receives(cfg, host, policy, ifIndex, p, q, out) && k < |out|
    requires Echoes(out[k].what.pkt, reply)
    requires StillServes(host, later, ifIndex) && KeepsIngress(laterPolicy, reply) && at >= 1
    requires Receives(cfg, later, laterPolicy, at, reply, q', out')
    ensures |out'| == 1 && out'[0].what == ClientFrame(cfg, later.nics[ifIndex], Filtered(reply))
    ensures out'[0].what.pkt.giaddr == NoIP
    ensures forall o :: o in out'[0].what.pkt.options ==> o.typ != RELAY_AGENT_INFORMATION
    ensures Clean(reply.options) ==> out'[0].what.pkt.options == Without(reply.options, RELAY_AGENT_INFORMATION)
  {
    hide Receives, Consistent, StillServes, KeepsIngress, Holds, HasMessageType;
    FirstHop(cfg, host, policy, ifIndex, p, q, out, k);
    ReplyReachesIngress(cfg, host, policy, ifIndex, p, q, out, k, later, laterPolicy, at, reply, q', out');
    if Clean(reply.options) {
      CleanIsFixed(reply.options);
    }
  }

  // ----- The policy on the way back -----

  /** The entry whose reply action an echo gets: its own if the tag was dropped, else the one the request matched. */
  function Reapplies(t: Table, p: Packet, echoedId: seq<Byte>, ifIndex: int, subnet: Option<Addr>): Action {
    var (matched, key) := LookupID(t, [ClientId(p.options), p.chaddr]);
    if key.Some? && !TagFits(ifIndex, subnet, key.value) then LookupID(t, [echoedId, p.chaddr]).0 else matched
  }

  lemma {:induction false} CopyKeepsAction(
    t: Table, p: Packet, resolved: Resolved, ifIndex: nat, pkt: Packet, reply: Packet)
    requires p.op.Request? && PolicyForPacket(Steady(t), p).Some?
    requires IsCopy(p, resolved, PolicyForPacket(Steady(t), p).value, ifIndex, pkt)
    requires Echoes(pkt, reply)
    requires
      ClientId(WithoutSplits(reply.options)) == ClientId(p.options) || ClientId(WithoutSplits(reply.options)) == []
    ensures
      var echoedId := ClientId(WithoutSplits(reply.options));
      var own := LookupID(t, [echoedId, p.chaddr]).0;
      var action := ReplyActionFrom(Steady(t), echoedId, reply.chaddr,
        Decoded(RelayAgentInformation(WithoutSplits(reply.options)).data));
      action == if own.kind.Blackhole? then own else Reapplies(t, p, echoedId, ifIndex, LinkSubnet(resolved))
  {
    hide LookupID, TagFits, WithoutSplits, HasMessageType, Holds;
    EchoNamesIngress(p, resolved, PolicyForPacket(Steady(t), p).value, ifIndex, pkt, reply);
    ReplyActionExact(
      t, ClientId(p.options), p.chaddr, ClientId(WithoutSplits(reply.options)), ifIndex, LinkSubnet(resolved));
  }

  /** The giaddr resolution a request under table `t` gets. */
  function ResolvedUnder(cfg: Config, host: Host, t: Table, ifIndex: int, p: Packet): Resolved {
    match PolicyForPacket(Steady(t), p)
    case None => Unresolved
    case Some(dec) => ResolveGiaddr(cfg, host, dec, ifIndex)
  }

  /**
   * Under one table and on any ingress, the decision for an echoing reply is to drop it if its own identifiers are
   * blackholed; otherwise it is the reply action of the entry the request matched, or, where Link Selection left no
   * room for the tag, of the reply's own entry.
   */
  lemma {:induction false} PolicyRoundTrip(
    cfg: Config, host: Host, t: Table, ifIndex: nat, p: Packet, q: Packet, out: seq<Attempt>, k: nat, reply: Packet)
    requires p.op.Request? && p.hops == 0
    requires Receives(cfg, host, Some(Steady(t)), ifIndex, p, q, out) && k < |out|
    requires Echoes(out[k].what.pkt, reply)
    requires ClientId(WithoutSplits(reply.options)) == ClientId(WithoutSplits(p.options)) ||
      ClientId(WithoutSplits(reply.options)) == []
    ensures
      var echoedId := ClientId(WithoutSplits(reply.options));
      var own := LookupID(t, [echoedId, p.chaddr]).0;
      var subnet := LinkSubnet(ResolvedUnder(cfg, host, t, ifIndex, Filtered(p)));
      var dec := PolicyForPacket(Steady(t), Filtered(reply));
      var reply := Reapplies(t, Filtered(p), echoedId, ifIndex, subnet).reply;
      if own.kind.Blackhole? then dec == None
      else
        && dec.Some? && (dec.value.dropReply <==> reply.DropReplies?)
        && dec.value.nicSelector == (if reply.ToMatching? then Some(reply.selector) else None)
        && dec.value.serverAddress == "" && dec.value.policyTag == []
  {
    hide Receives, Holds, HasMessageType, IsSetOption, RequestOpt82, Giaddrs, ResolveGiaddr, TagFits;
    hide LookupID, ReplyActionFrom, Decoded, RelayAgentInformation, ClientId, WithoutSplits;
    FirstHop(cfg, host, Some(Steady(t)), ifIndex, p, q, out, k);
    CopyKeepsAction(
      t, Filtered(p), ResolvedUnder(cfg, host, t, ifIndex, Filtered(p)), ifIndex, out[k].what.pkt, reply);
  }

  /** On a numbered ingress every key of a parsed table fits, so it is always the entry the request matched. */
  lemma {:induction false} NumberedReapplies(t: Table, p: Packet, echoedId: seq<Byte>, ifIndex: int)
    requires KeysFit(t)
    ensures Reapplies(t, p, echoedId, ifIndex, None) == LookupID(t, [ClientId(p.options), p.chaddr]).0
  {
    var key := LookupID(t, [ClientId(p.options), p.chaddr]).1;
    if key.Some? {
      NumberedTagFits(ifIndex, key.value);
    }
  }

  /**
   * Requests, first-hop or already relayed, go to the server of the entry their client matches, or to the default one
   * if that entry names none; a blackholed client causes nothing.
   */
  lemma {:induction false} PolicyPicksServer(
    cfg: Config, host: Host, policy: Policy, ifIndex: int, p: Packet, q: Packet, out: seq<Attempt>, k: nat)
    requires p.op.Request? && Receives(cfg, host, Some(policy), ifIndex, p, q, out) && k < |out|
    requires var t := policy.first;
      && (forall key :: key in t.entries && t.entries[key].kind.Server? ==> t.entries[key].server != "")
      && (t.fallback.kind.Server? ==> t.fallback.server != "")
    ensures
      var action := LookupID(policy.first, [ClientId(WithoutSplits(p.options)), p.chaddr]).0;
      && !action.kind.Blackhole?
      && out[k].what.ToServer?
      && out[k].what.server == if action.kind.Server? then action.server else cfg.serverAddress
  {
    hide HasMessageType, ResolveGiaddr, RequestOpt82, Giaddrs, IsSetOption, ClientId, WithoutSplits;
  }
}
