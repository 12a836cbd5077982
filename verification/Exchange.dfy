/** A whole exchange carried out with the handler itself: the premises of the round trips can be met, and how. */
module Exchange {
  import opened Packets
  import opened Chains
  import opened Handler
  import opened Hosts
  import opened Layers
  import opened MacPolicy
  import opened Options
  import opened RelayPolicy
  import opened Replies
  import opened Requests
  import opened RoundTrip

  /** A server that sends every option back and offers `lease`. */
  function EchoReply(pkt: Packet, hops: Byte, lease: Addr): Packet {
    pkt.(op := Reply, hops := hops, yiaddr := V4(lease), ciaddr := V4(0))
  }

  /** In a filtered list every option but End stands once, before any End. */
  lemma {:induction false} CleanHolds(opts: seq<DhcpOption>, o: DhcpOption)
    requires Clean(opts) && o in opts && o.typ != END
    ensures Holds(opts, o)
  {
    var k :| 0 <= k < |opts| && opts[k] == o;
    assert Unsplit(opts, opts[k]);
    assert k < FirstEnd(opts);
    assert opts[..FirstEnd(opts)][k] == o;
  }

  /** Whatever copy it got, such a server answers as the relay relies on it to. */
  lemma {:induction false} EchoReplyEchoes(
    p: Packet, resolved: Resolved, dec: Decision, ifIndex: int, pkt: Packet, hops: Byte, lease: Addr)
    requires Clean(p.options) && HasMessageType(p.options) && IsCopy(p, resolved, dec, ifIndex, pkt)
    ensures Echoes(pkt.(hops := hops), EchoReply(pkt, hops, lease))
    ensures TakenUp(pkt) && Filtered(pkt) == pkt
    ensures forall t: Byte :: t != RELAY_AGENT_INFORMATION ==> GetOption(pkt.options, t) == GetOption(p.options, t)
  {
    hide RequestOpt82, Clean, Holds, WithoutSplits, HasMessageType, GetOption, IsSetOption, Giaddrs;
    var o := RequestOpt82(resolved, dec, ifIndex);
    RequestOpt82Encodes(resolved, dec, ifIndex);
    SetOptionGet(p.options, o, pkt.options);
    SetOptionClean(p.options, o, pkt.options);
    CleanHolds(pkt.options, o);
    CopyTakenUp(p, o, pkt);
    forall t: Byte | t != RELAY_AGENT_INFORMATION
      ensures GetOption(pkt.options, t) == GetOption(p.options, t)
    {
      SetOptionGetOther(p.options, o, pkt.options, t);
    }
  }

  lemma {:induction false} WithoutGet(opts: seq<DhcpOption>, t: Byte, u: Byte)
    ensures GetOption(Without(opts, t), u) == if u == t then ZeroOption else GetOption(opts, u)
  {
    if opts != [] {
      WithoutGet(opts[1..], t, u);
      if opts[0].typ != t {
        assert Without(opts, t)[1..] == Without(opts[1..], t);
      } else {
        assert Without(opts, t) == Without(opts[1..], t);
      }
    }
  }

  function PolicyOf(t: Option<Table>): Option<Policy> {
    match t case None => None case Some(table) => Some(Steady(table))
  }

  /** The relay takes the request up, under a table that does not drop or redirect its reply, and can answer it. */
  ghost predicate CanServe(cfg: Config, host: Host, t: Option<Table>, ifIndex: nat, p: Packet) {
    && ValidConfig(cfg) && Consistent(host) && 0 < ifIndex < 0x1_0000_0000
    && p.op.Request? && p.hops == 0 && HasMessageType(WithoutSplits(p.options))
    && ifIndex in host.nics && CanCarry(host.nics[ifIndex]) && host.rawSocket
    && (t.Some? ==> Serves(t.value, p))
    && GiaddrsFor(cfg, host, t, ifIndex, p) != []
  }

  predicate Serves(t: Table, p: Packet) {
    var action := LookupID(t, [ClientId(WithoutSplits(p.options)), p.chaddr]).0;
    !action.kind.Blackhole? && action.reply.ToIngress?
  }

  /** A relay without a policy that the giaddrs of the first hop do not belong to. */
  ghost predicate PassesOn(x: Relay, giaddrs: seq<IP>) {
    && x.at >= 1 && x.policy.None?
    && forall k :: 0 <= k < |giaddrs| ==> !GiaddrIsLocal(x.cfg, x.host, giaddrs[k])
  }

  ghost predicate AllPassOn(path: seq<Relay>, giaddrs: seq<IP>) {
    forall k :: 0 <= k < |path| ==> PassesOn(path[k], giaddrs)
  }

  /** The giaddrs a request from `ifIndex` may go out under. */
  function GiaddrsFor(cfg: Config, host: Host, t: Option<Table>, ifIndex: int, p: Packet): seq<IP> {
    match DecisionFor(PolicyOf(t), Filtered(p))
    case None => []
    case Some(dec) => Giaddrs(ResolveGiaddr(cfg, host, dec, ifIndex))
  }

  lemma {:induction false} PathIsTransparent(path: seq<Relay>, giaddrs: seq<IP>, p: Packet)
    requires AllPassOn(path, giaddrs)
    requires p.op.Reply? ==> p.giaddr in giaddrs && UsableGiaddr(p.giaddr)
    ensures AllTransparent(path, p)
  {
    hide GiaddrIsLocal, UsableGiaddr;
    forall k | 0 <= k < |path|
      ensures Transparent(path[k], p)
    {
      assert PassesOn(path[k], giaddrs);
    }
  }

  /** The request goes out at least once. */
  lemma {:induction false} FirstHopHappens(
    cfg: Config, host: Host, t: Option<Table>, ifIndex: nat, p: Packet, q: Packet, out: seq<Attempt>)
    requires CanServe(cfg, host, t, ifIndex, p) && Receives(cfg, host, PolicyOf(t), ifIndex, p, q, out)
    ensures out != []
  {
    hide Receives, HasMessageType, WithoutSplits, GlobalAddrs, LookupID, Consistent, KeysFit;
    FirstHopSends(cfg, host, PolicyOf(t), ifIndex, p, q, out);
  }

  /** The policy lets the echo of a request it served through, to the ingress. */
  lemma {:induction false} EchoKeepsIngress(
    cfg: Config, host: Host, t: Option<Table>, ifIndex: nat, p: Packet, q: Packet, out: seq<Attempt>, reply: Packet)
    requires CanServe(cfg, host, t, ifIndex, p)
    requires Receives(cfg, host, PolicyOf(t), ifIndex, p, q, out) && 0 < |out|
    requires Echoes(out[0].what.pkt, reply)
    requires ClientId(WithoutSplits(reply.options)) == ClientId(WithoutSplits(p.options))
    ensures KeepsIngress(PolicyOf(t), reply)
  {
    hide Receives, HasMessageType, WithoutSplits, GlobalAddrs, LookupID, Consistent, KeysFit, ClientId, Holds;
    if t.Some? {
      PolicyRoundTrip(cfg, host, t.value, ifIndex, p, q, out, 0, reply);
    }
  }

  /** What the first copy of the request is, and that the echoes of it are as the round trips need them. */
  lemma {:induction false} FirstCopy(
    cfg: Config, host: Host, t: Option<Table>, ifIndex: nat, p: Packet, q: Packet, out: seq<Attempt>, h: Byte,
    lease: Addr)
    requires CanServe(cfg, host, t, ifIndex, p)
    requires Receives(cfg, host, PolicyOf(t), ifIndex, p, q, out) && 0 < |out|
    ensures var pkt := out[0].what.pkt;
      && Filtered(pkt) == pkt && TakenUp(pkt) && pkt.op.Request? && pkt.hops == 1 && pkt.chaddr == p.chaddr
      && pkt.giaddr in GiaddrsFor(cfg, host, t, ifIndex, p) && UsableGiaddr(pkt.giaddr)
      && Echoes(pkt.(hops := h), EchoReply(pkt, h, lease))
      && forall u: Byte :: u != RELAY_AGENT_INFORMATION ==>
           GetOption(pkt.options, u) == GetOption(WithoutSplits(p.options), u)
  {
    hide Receives, HasMessageType, WithoutSplits, Consistent, KeysFit, Clean, Echoes, RequestOpt82, ResolveGiaddr;
    hide Giaddrs, UsableGiaddr, GiaddrIsLocal, IsSetOption;
    FirstHop(cfg, host, PolicyOf(t), ifIndex, p, q, out, 0);
    var dec := DecisionFor(PolicyOf(t), Filtered(p)).value;
    WithoutSplitsClean(p.options);
    EchoReplyEchoes(Filtered(p), ResolveGiaddr(cfg, host, dec, ifIndex), dec, ifIndex, out[0].what.pkt, h, lease);
    CopyGiaddrIsLocal(cfg, host, dec, ifIndex, Filtered(p), out[0].what.pkt, host);
  }

  /** The echo of a copy crosses the path both ways. */
  lemma {:induction false} EchoCrosses(path: seq<Relay>, giaddrs: seq<IP>, pkt: Packet, lease: Addr)
    requires Filtered(pkt) == pkt && TakenUp(pkt) && pkt.op.Request? && pkt.hops == 1
    requires pkt.giaddr in giaddrs && UsableGiaddr(pkt.giaddr)
    requires AllPassOn(path, giaddrs) && RequestAdmitted(path, 1)
    ensures 1 + |path| <= 255
    ensures var p' := pkt.(hops := 1 + |path|); var reply := EchoReply(pkt, 1 + |path|, lease);
      && AllTransparent(path, pkt) && Travels(path, pkt, p')
      && AllTransparent(path, Filtered(reply)) && Travels(Reversed(path), reply, reply.(hops := 1))
  {
    hide HasMessageType, WithoutSplits, AllTransparent, AllPassOn, UsableGiaddr;
    if path != [] {
      assert 1 + (|path| - 1) < path[|path| - 1].cfg.maxHops;
    }
    var p', reply := pkt.(hops := 1 + |path|), EchoReply(pkt, 1 + |path|, lease);
    assert Filtered(reply) == reply;
    PathIsTransparent(path, giaddrs, pkt);
    PathIsTransparent(path, giaddrs, reply);
    RequestTravels(path, pkt, p');
    ReplyRetraces(path, pkt, p', reply);
  }

  // ----- The handler, relay by relay -----

  /** What a relay on the way up tries to send. */
  lemma {:induction false} HopUp(x: Relay, p: Packet, q: Packet, out: seq<Attempt>)
    requires Filtered(p) == p && TakenUp(p) && Transparent(x, p) && p.op.Request? && 0 < p.hops < x.cfg.maxHops
    requires Receives(x.cfg, x.host, x.policy, x.at, p, q, out)
    ensures |out| == 1 && out[0].what.ToServer? && out[0].what.pkt == p.(hops := p.hops + 1)
  {
    hide DecisionFor, GiaddrIsLocal, HasMessageType, RelaysRequest, WithoutSplits;
    assert WithoutSplits(p.options) == p.options;
  }

  /** What a relay on the way down tries to send. */
  lemma {:induction false} HopDown(x: Relay, p: Packet, q: Packet, out: seq<Attempt>)
    requires Filtered(p) == p && TakenUp(p) && Transparent(x, p) && p.op.Reply? && 1 <= p.hops <= x.cfg.maxHops
    requires Receives(x.cfg, x.host, x.policy, x.at, p, q, out)
    ensures |out| == 1 && out[0].what.ToRelay? && out[0].what.pkt == p.(hops := p.hops - 1)
  {
    hide DecisionFor, GiaddrIsLocal, HasMessageType, RelaysRequest, DeliversReply, WithoutSplits;
    assert WithoutSplits(p.options) == p.options;
  }

  /** A message that may be handed from relay to relay, whatever its hop count. */
  ghost predicate MayPass(path: seq<Relay>, p: Packet) {
    Filtered(p) == p && TakenUp(p) && AllTransparent(path, p)
  }

  lemma {:induction false} MayPassAt(path: seq<Relay>, p: Packet, h: Byte, k: nat)
    requires MayPass(path, p) && k < |path|
    ensures var p' := p.(hops := h); Filtered(p') == p' && TakenUp(p') && Transparent(path[k], p')
  {
    hide Transparent;
    TransparentIgnoresHops(path, p, h);
  }

  /** The request climbs the path: each relay handles what the one before it sent. */
  method Up(path: seq<Relay>, p: Packet) returns (p': Packet)
    requires MayPass(path, p) && p.op.Request? && p.hops > 0 && RequestAdmitted(path, p.hops)
    ensures p.hops + |path| <= 255 && p' == p.(hops := p.hops + |path|)
  {
    hide MayPass, Receives, TakenUp, Transparent, Filtered;
    p' := p;
    for k := 0 to |path|
      invariant p.hops + k <= 255 && p' == p.(hops := p.hops + k)
    {
      var x := path[k];
      assert p.hops + k < x.cfg.maxHops;
      MayPassAt(path, p, p.hops + k, k);
      var layer := new Dhcpv4Layer(p');
      var wire := new Wire();
      ghost var out := HandlePacket(x.cfg, x.host, x.policy, x.at, layer, wire);
      HopUp(x, p', layer.View(), out);
      p' := wire.log[0].what.pkt;
    }
  }

  /** The reply descends it, from the last relay to the first. */
  method Down(path: seq<Relay>, p: Packet) returns (p': Packet)
    requires MayPass(path, p) && p.op.Reply? && ReplyAdmitted(Reversed(path), p.hops)
    ensures |path| <= p.hops && p' == p.(hops := p.hops - |path|)
  {
    hide MayPass, Receives, TakenUp, Transparent, Filtered;
    p' := p;
    ghost var back := Reversed(path);
    for k := 0 to |path|
      invariant p' == p.(hops := p.hops - k)
    {
      var x := path[|path| - 1 - k];
      assert back[k] == x && p.hops - k <= x.cfg.maxHops;
      MayPassAt(path, p, p.hops - k, |path| - 1 - k);
      var layer := new Dhcpv4Layer(p');
      var wire := new Wire();
      ghost var out := HandlePacket(x.cfg, x.host, x.policy, x.at, layer, wire);
      HopDown(x, p', layer.View(), out);
      p' := wire.log[0].what.pkt;
    }
  }

  /**
   * A request from `ifIndex`, any chain of relays that pass it on, and a server that echoes it, with the handler run at
   * every relay, up and down, on what the one before tried to send. The server gets the message with one hop for each
   * relay; the exchange ends with one frame out of the client's interface, and the client gets the lease and finds
   * every option it sent as it sent it, and no Option 82.
   */
  method Run(cfg: Config, host: Host, t: Option<Table>, ifIndex: nat, p: Packet, path: seq<Relay>, lease: Addr)
    returns (atServer: Packet, frame: Datagram)
    requires CanServe(cfg, host, t, ifIndex, p)
    requires AllPassOn(path, GiaddrsFor(cfg, host, t, ifIndex, p)) && RequestAdmitted(path, 1)
    ensures atServer.op.Request? && atServer.hops == 1 + |path| && atServer.chaddr == p.chaddr
    ensures atServer.giaddr in GiaddrsFor(cfg, host, t, ifIndex, p)
    ensures frame.Frame? && frame.nic == host.nics[ifIndex]
    ensures frame.pkt.giaddr == NoIP && frame.pkt.chaddr == p.chaddr && frame.pkt.yiaddr == V4(lease)
    ensures forall u: Byte ::
      GetOption(frame.pkt.options, u) ==
        if u == RELAY_AGENT_INFORMATION then ZeroOption else GetOption(WithoutSplits(p.options), u)
  {
    hide Receives, CanServe, AllPassOn, GiaddrsFor, MayPass, RequestAdmitted, ReplyAdmitted;
    hide WithoutSplits, GetOption, Without;
    var layer := new Dhcpv4Layer(p);
    var wire := new Wire();
    ghost var out := HandlePacket(cfg, host, PolicyOf(t), ifIndex, layer, wire);
    ghost var q := layer.View();
    FirstHopHappens(cfg, host, t, ifIndex, p, q, out);
    var pkt := wire.log[0].what.pkt;
    ReadyToTravel(cfg, host, t, ifIndex, p, q, out, path, lease);
    atServer := Up(path, pkt);
    var arrived := Down(path, EchoReply(atServer, atServer.hops, lease));
    layer := new Dhcpv4Layer(arrived);
    wire := new Wire();
    ghost var out' := HandlePacket(cfg, host, PolicyOf(t), ifIndex, layer, wire);
    Delivered(cfg, host, t, ifIndex, p, q, out, path, lease, layer.View(), out');
    frame := wire.log[0].what;
    forall u: Byte
      ensures GetOption(frame.pkt.options, u) ==
        if u == RELAY_AGENT_INFORMATION then ZeroOption else GetOption(WithoutSplits(p.options), u)
    {
      WithoutGet(pkt.options, RELAY_AGENT_INFORMATION, u);
    }
  }

  /** The first copy may climb the path, and the echo of what comes out may descend it. */
  lemma {:induction false} ReadyToTravel(
    cfg: Config, host: Host, t: Option<Table>, ifIndex: nat, p: Packet, q: Packet, out: seq<Attempt>,
    path: seq<Relay>, lease: Addr)
    requires CanServe(cfg, host, t, ifIndex, p)
    requires AllPassOn(path, GiaddrsFor(cfg, host, t, ifIndex, p)) && RequestAdmitted(path, 1)
    requires Receives(cfg, host, PolicyOf(t), ifIndex, p, q, out) && 0 < |out|
    ensures 1 + |path| <= 255
    ensures var pkt := out[0].what.pkt; var reply := EchoReply(pkt, 1 + |path|, lease);
      && pkt.op.Request? && pkt.hops == 1 && pkt.chaddr == p.chaddr
      && pkt.giaddr in GiaddrsFor(cfg, host, t, ifIndex, p)
      && MayPass(path, pkt) && MayPass(path, reply) && ReplyAdmitted(Reversed(path), reply.hops)
  {
    hide Receives, AllPassOn, GiaddrsFor, AllTransparent, Travels, Echoes, CanServe;
    hide WithoutSplits, GetOption, RequestAdmitted, ReplyAdmitted, UsableGiaddr, HasMessageType;
    var pkt := out[0].what.pkt;
    FirstCopy(cfg, host, t, ifIndex, p, q, out, 1, lease);
    EchoCrosses(path, GiaddrsFor(cfg, host, t, ifIndex, p), pkt, lease);
    AdmittedBackwards(path, 1);
  }

  lemma {:induction false} Delivered(
    cfg: Config, host: Host, t: Option<Table>, ifIndex: nat, p: Packet, q: Packet, out: seq<Attempt>,
    path: seq<Relay>, lease: Addr, q': Packet, out': seq<Attempt>)
    requires CanServe(cfg, host, t, ifIndex, p)
    requires AllPassOn(path, GiaddrsFor(cfg, host, t, ifIndex, p)) && RequestAdmitted(path, 1)
    requires Receives(cfg, host, PolicyOf(t), ifIndex, p, q, out) && 0 < |out|
    requires Receives(cfg, host, PolicyOf(t), ifIndex, EchoReply(out[0].what.pkt, 1, lease), q', out')
    ensures var pkt := out[0].what.pkt;
      && pkt.chaddr == p.chaddr
      && |out'| == 1 && out'[0].what == ClientFrame(cfg, host.nics[ifIndex], EchoReply(pkt, 1, lease))
      && forall u: Byte :: u != RELAY_AGENT_INFORMATION ==>
           GetOption(pkt.options, u) == GetOption(WithoutSplits(p.options), u)
  {
    hide Receives, AllPassOn, GiaddrsFor, AllTransparent, Travels, Echoes, KeepsIngress, TakenUp;
    hide WithoutSplits, GetOption, ClientFrame, Consistent, LookupID, RequestAdmitted, UsableGiaddr, HasMessageType;
    hide ResolveGiaddr, GlobalAddrs, KeysFit;
    var pkt := out[0].what.pkt;
    FirstCopy(cfg, host, t, ifIndex, p, q, out, 1, lease);
    EchoCrosses(path, GiaddrsFor(cfg, host, t, ifIndex, p), pkt, lease);
    FirstCopy(cfg, host, t, ifIndex, p, q, out, 1 + |path|, lease);
    var arrived := EchoReply(pkt, 1, lease);
    assert pkt.(hops := 1) == pkt;
    EchoKeepsIngress(cfg, host, t, ifIndex, p, q, out, arrived);
    ChainRoundTrip(cfg, host, PolicyOf(t), ifIndex, p, q, out, 0, path, pkt.(hops := 1 + |path|),
      EchoReply(pkt, 1 + |path|, lease), arrived, host, PolicyOf(t), ifIndex, q', out');
  }

  /**
   * The same request, but the server sends its reply straight to the giaddr: the handler of the first relay delivers
   * it exactly when that relay's own limit covers the whole chain, and otherwise sends nothing.
   */
  method RunDirect(cfg: Config, host: Host, t: Option<Table>, ifIndex: nat, p: Packet, path: seq<Relay>, lease: Addr)
    returns (frame: Option<Datagram>)
    requires CanServe(cfg, host, t, ifIndex, p)
    requires AllPassOn(path, GiaddrsFor(cfg, host, t, ifIndex, p)) && RequestAdmitted(path, 1)
    ensures frame.Some? <==> 1 + |path| <= cfg.maxHops
    ensures frame.Some? ==>
      && frame.value.Frame? && frame.value.nic == host.nics[ifIndex]
      && frame.value.pkt.giaddr == NoIP && frame.value.pkt.chaddr == p.chaddr && frame.value.pkt.yiaddr == V4(lease)
  {
    hide Receives, CanServe, AllPassOn, GiaddrsFor, MayPass, RequestAdmitted, ReplyAdmitted, Without;
    var layer := new Dhcpv4Layer(p);
    var wire := new Wire();
    ghost var out := HandlePacket(cfg, host, PolicyOf(t), ifIndex, layer, wire);
    ghost var q := layer.View();
    FirstHopHappens(cfg, host, t, ifIndex, p, q, out);
    var pkt := wire.log[0].what.pkt;
    ReadyToTravel(cfg, host, t, ifIndex, p, q, out, path, lease);
    var atServer := Up(path, pkt);
    layer := new Dhcpv4Layer(EchoReply(atServer, atServer.hops, lease));
    wire := new Wire();
    ghost var out' := HandlePacket(cfg, host, PolicyOf(t), ifIndex, layer, wire);
    DirectlyDelivered(cfg, host, t, ifIndex, p, q, out, path, lease, layer.View(), out');
    frame := if wire.log == [] then None else Some(wire.log[0].what);
  }

  lemma {:induction false} DirectlyDelivered(
    cfg: Config, host: Host, t: Option<Table>, ifIndex: nat, p: Packet, q: Packet, out: seq<Attempt>,
    path: seq<Relay>, lease: Addr, q': Packet, out': seq<Attempt>)
    requires CanServe(cfg, host, t, ifIndex, p)
    requires AllPassOn(path, GiaddrsFor(cfg, host, t, ifIndex, p)) && RequestAdmitted(path, 1)
    requires Receives(cfg, host, PolicyOf(t), ifIndex, p, q, out) && 0 < |out| && 1 + |path| <= 255
    requires Receives(cfg, host, PolicyOf(t), ifIndex, EchoReply(out[0].what.pkt, 1 + |path|, lease), q', out')
    ensures var reply := EchoReply(out[0].what.pkt, 1 + |path|, lease);
      && reply.chaddr == p.chaddr
      && if 1 + |path| <= cfg.maxHops
         then |out'| == 1 && out'[0].what == ClientFrame(cfg, host.nics[ifIndex], reply) else out' == []
  {
    hide Receives, AllPassOn, GiaddrsFor, AllTransparent, Travels, Echoes, TakenUp;
    hide WithoutSplits, GetOption, ClientFrame, Consistent, LookupID, RequestAdmitted, UsableGiaddr, HasMessageType;
    hide ResolveGiaddr, GlobalAddrs, KeysFit, DecisionFor;
    var pkt := out[0].what.pkt;
    FirstCopy(cfg, host, t, ifIndex, p, q, out, 1, lease);
    EchoCrosses(path, GiaddrsFor(cfg, host, t, ifIndex, p), pkt, lease);
    FirstCopy(cfg, host, t, ifIndex, p, q, out, 1 + |path|, lease);
    var reply := EchoReply(pkt, 1 + |path|, lease);
    assert pkt.(hops := 1) == pkt;
    EchoKeepsIngress(cfg, host, t, ifIndex, p, q, out, EchoReply(pkt, 1, lease));
    DecisionIgnoresHops(PolicyOf(t), Filtered(reply), 1);
    assert Filtered(reply).(hops := 1) == Filtered(EchoReply(pkt, 1, lease));
    DirectReturnExactly(cfg, host, PolicyOf(t), ifIndex, p, q, out, 0, path, pkt.(hops := 1 + |path|), reply,
      host, PolicyOf(t), ifIndex, q', out');
  }

  /**
   * One client on one numbered interface and a policy of one entry, for any hop limit of the first relay and any
   * number of further ones: with two relays and a limit of sixteen, `RunDirect` delivers; with one and a limit of one,
   * it does not.
   */
  lemma {:induction false} SomeExchange(limit: Byte, n: nat)
    returns (cfg: Config, host: Host, t: Table, ifIndex: nat, p: Packet, path: seq<Relay>)
    requires limit >= 1 && n < 255
    ensures CanServe(cfg, host, Some(t), ifIndex, p) && cfg.maxHops == limit && |path| == n
    ensures AllPassOn(path, GiaddrsFor(cfg, host, Some(t), ifIndex, p)) && RequestAdmitted(path, 1)
  {
    hide WithoutSplits, HasMessageType, GlobalAddrs, LookupID, ClientId, GiaddrsFor, PassesOn, ResolveGiaddr;
    var a := NetAddr(V4(0x0A00_0001), 24);
    var chaddr: seq<Byte> := [2, 0, 0, 0, 0, 1];
    ifIndex := 3;
    host := Host(map[3 := Nic(3, "eth0", [2, 0, 0, 0, 0, 9], true, Some([a]))], Some([a]), [], map[], true);
    cfg := Config(None, (s, n, m) => false, "10.9.9.9", NoIP, limit, false, true);
    t := Table(map[chaddr := Action(Default, "", ToIngress)], DenyAction);
    p := Packet(Request, 0, 0, V4(0), V4(0), V4(0), chaddr, [Discover], []);
    var x := Relay(cfg.(maxHops := 255), Host(map[], Some([NetAddr(V4(0x0A01_0001), 24)]), [], map[], true), None, 1);
    path := seq(n, _ => x);
    DiscoverOnly();
    OneAddress(a);
    LookupChaddr(t, chaddr);
    OneGiaddr(cfg, host, Some(t), ifIndex, p, a);
    OtherAddress(x, a.ip, V4(0x0A01_0001));
  }

  /** A request the policy passes goes out under the one usable address of its interface. */
  lemma {:induction false} OneGiaddr(cfg: Config, host: Host, t: Option<Table>, ifIndex: int, p: Packet, a: IfAddr)
    requires ifIndex in host.nics && host.nics[ifIndex].addrs.Some?
    requires GlobalAddrs(host.nics[ifIndex].addrs.value) == [a]
    requires p.op.Request? && (t.Some? ==> Serves(t.value, p))
    ensures GiaddrsFor(cfg, host, t, ifIndex, p) == [a.ip]
  {
    hide GlobalAddrs, LookupID, ClientId, WithoutSplits;
  }

  const Discover := DhcpOption(MESSAGE_TYPE, 1, [1])

  lemma {:induction false} DiscoverOnly()
    ensures WithoutSplits([Discover]) == [Discover] && HasMessageType([Discover]) && ClientId([Discover]) == []
  {
    assert [Discover][..0] == [] && [Discover][1..] == [];
    assert Count([], MESSAGE_TYPE) == 0 && Count([Discover], MESSAGE_TYPE) == 1;
    CleanIsFixed([Discover]);
  }

  lemma {:induction false} LookupChaddr(t: Table, chaddr: seq<Byte>)
    requires chaddr != [] && chaddr in t.entries
    ensures LookupID(t, [[], chaddr]).0 == t.entries[chaddr]
  {
    assert [[], chaddr][1..] == [chaddr];
  }

  /** A relay with another address of its own passes on what goes by this giaddr. */
  lemma {:induction false} OtherAddress(x: Relay, giaddr: IP, own: IP)
    requires x.at >= 1 && x.policy.None? && x.cfg.giaddr.NoIP? && own != giaddr
    requires x.host.allAddrs == Some([NetAddr(own, 24)])
    ensures PassesOn(x, [giaddr])
  {
  }

  lemma {:induction false} OneAddress(a: IfAddr)
    requires KeepsAddr(a)
    ensures GlobalAddrs([a]) == [a]
  {
    assert [a][..0] == [];
  }
}
