/** The reply path: deliver to the client's segment, or forward towards the relay that owns the giaddr. */
module Replies {
  import opened Packets
  import opened Hosts
  import opened Layers
  import opened Opt82
  import opened Options
  import opened SubOptions

  datatype ReplyKind = UnicastReply | BroadcastReply

  const ETHERNET_BROADCAST: seq<Byte> := [0xFF, 0xFF, 0xFF, 0xFF, 0xFF, 0xFF]

  // ----- Reply targets -----

  /** The NICs of a list that can carry a reply and that the selector accepts, in order. */
  function Selected(cfg: Config, selector: string, nics: seq<Nic>): (r: seq<Nic>) {
    if nics == [] then []
    else
      var last := nics[|nics| - 1];
      Selected(cfg, selector, nics[..|nics| - 1]) +
      if CanCarry(last) && cfg.selects(selector, last.name, last.mac) then [last] else []
  }

  lemma {:induction false} SelectedMembers(cfg: Config, selector: string, nics: seq<Nic>, nic: Nic)
    ensures nic in Selected(cfg, selector, nics) <==>
      nic in nics && CanCarry(nic) && cfg.selects(selector, nic.name, nic.mac)
  {
    if nics != [] {
      SelectedMembers(cfg, selector, nics[..|nics| - 1], nic);
      assert nics == nics[..|nics| - 1] + [nics[|nics| - 1]];
    }
  }

  method SelectReplyInterfaces(cfg: Config, selector: string, nics: seq<Nic>) returns (matched: seq<Nic>)
    ensures matched == Selected(cfg, selector, nics)
  {
    matched := [];
    for k := 0 to |nics|
      invariant matched == Selected(cfg, selector, nics[..k])
    {
      assert nics[..k + 1][..k] == nics[..k];
      if !nics[k].up || |nics[k].mac| == 0 {
        continue;
      }
      if cfg.selects(selector, nics[k].name, nics[k].mac) {
        matched := matched + [nics[k]];
      }
    }
    assert nics[..|nics|] == nics;
  }

  /** Where a reply goes: the ingress, unless a selector picks at least one live NIC. */
  function Targets(cfg: Config, host: Host, selector: Option<string>, ingress: Nic): (r: seq<Nic>) {
    if selector.None? || !cfg.hasCache || Selected(cfg, selector.value, host.cached) == [] then [ingress]
    else Selected(cfg, selector.value, host.cached)
  }

  method ReplyTargets(cfg: Config, host: Host, selector: Option<string>, ingress: Nic) returns (targets: seq<Nic>)
    ensures targets == Targets(cfg, host, selector, ingress)
    ensures targets != []
    ensures forall nic :: nic in targets ==> nic == ingress || CanCarry(nic)
  {
    targets := [ingress];
    if selector.None? || !cfg.hasCache || |host.cached| == 0 {
      return;
    }
    var matched := SelectReplyInterfaces(cfg, selector.value, host.cached);
    if |matched| == 0 {
      return;
    }
    forall nic | nic in matched
      ensures CanCarry(nic)
    {
      SelectedMembers(cfg, selector.value, host.cached, nic);
    }
    return matched;
  }

  // ----- Addressing -----

  /** The client address of a unicast reply: a DHCPINFORM answer leaves yiaddr zero and uses ciaddr. */
  function UnicastDst(p: Packet): IP {
    if p.yiaddr.NoIP? || p.yiaddr.addr == 0 then p.ciaddr else p.yiaddr
  }

  /** The client's view of a reply: no giaddr and no Option 82. */
  function Stripped(p: Packet): Packet {
    p.(giaddr := NoIP, options := Without(p.options, RELAY_AGENT_INFORMATION))
  }

  method ReplyAddressing(kind: ReplyKind, srcIP: IP, layer: Dhcpv4Layer, ip4: Ipv4Layer, l2Unicast: bool)
    returns (ok: bool, dstMAC: seq<Byte>)
    modifies layer`flags, ip4
    ensures kind.UnicastReply? ==>
      ip4.srcIP == srcIP && (ok <==> UnicastDst(layer.View()).V4?) && (ok ==> ip4.dstIP == UnicastDst(layer.View()))
    ensures kind.BroadcastReply? ==> ok && ip4.srcIP == V4(0) && ip4.dstIP == V4(BROADCAST)
    ensures dstMAC == if kind.UnicastReply? || l2Unicast then layer.chaddr else ETHERNET_BROADCAST
    ensures !ok ==> layer.flags == old(layer.flags)
    ensures ok ==> (IsUnicast(layer.flags) <==> kind.UnicastReply?) && layer.flags % 0x8000 == old(layer.flags) % 0x8000
  {
    dstMAC := layer.chaddr;
    match kind {
      case UnicastReply =>
        ip4.srcIP := srcIP;
        var dstIP := layer.yiaddr;
        if dstIP.NoIP? || dstIP.addr == 0 {
          dstIP := layer.ciaddr;
        }
        if dstIP.NoIP? {
          return false, dstMAC;
        }
        ip4.dstIP := dstIP;
        layer.SetUnicast();
      case BroadcastReply =>
        ip4.srcIP, ip4.dstIP := V4(0), V4(BROADCAST);
        if !l2Unicast {
          dstMAC := ETHERNET_BROADCAST;
        }
        layer.SetBroadcast();
    }
    ok := true;
  }

  // ----- Delivery -----

  /** The sub-options of a reply: those the policy already decoded, or else decoded here. */
  function ReplySubOptions(dec: Decision, opts: seq<DhcpOption>): seq<DhcpOption> {
    if dec.subOpts != [] then dec.subOpts else Decoded(RelayAgentInformation(opts).data)
  }

  /** The interface the request came in on, if the reply names it, it exists and it can carry the reply. */
  function ReplyIngress(host: Host, dec: Decision, opts: seq<DhcpOption>): Option<Nic> {
    var i := ExtractCircuitId(ReplySubOptions(dec, opts));
    if i == 0 || i !in host.nics || !CanCarry(host.nics[i]) then None else Some(host.nics[i])
  }

  /** The reply is refused before the layer is touched. */
  predicate Refused(host: Host, dec: Decision, p: Packet) {
    dec.dropReply || !UsableGiaddr(p.giaddr) || ReplyIngress(host, dec, p.options).None?
  }

  function ReplyFlags(kind: ReplyKind, flags: Flags16): Flags16 {
    if kind.UnicastReply? then flags % 0x8000 else flags % 0x8000 + 0x8000
  }

  /** The state the DHCPv4 layer is left in. */
  function ReplyLayer(host: Host, dec: Decision, p: Packet, kind: ReplyKind): Packet {
    if Refused(host, dec, p) then p
    else if kind.UnicastReply? && UnicastDst(p).NoIP? then Stripped(p)
    else Stripped(p).(flags := ReplyFlags(kind, p.flags))
  }

  /** The source of the copy out of `nic`, or None when the NIC has no address for a unicast copy. */
  function CopySource(kind: ReplyKind, nic: Nic, ingress: Nic, giaddr: IP, yiaddr: IP): Option<IP> {
    if kind.BroadcastReply? then Some(V4(0))
    else if nic.index == ingress.index then Some(giaddr)
    else if nic.addrs.None? || GlobalAddrs(nic.addrs.value) == [] then None
    else Some(BestUnicastSrc(GlobalAddrs(nic.addrs.value), yiaddr))
  }

  /** What the per-NIC loop shares between its copies. */
  datatype ReplyPlan = ReplyPlan(kind: ReplyKind, ingress: Nic, giaddr: IP, dstIP: IP, dstMAC: seq<Byte>, pkt: Packet)

  function Copy(plan: ReplyPlan, nic: Nic): Option<Datagram> {
    match CopySource(plan.kind, nic, plan.ingress, plan.giaddr, plan.pkt.yiaddr)
    case None => None
    case Some(src) => if nic.mac == [] then None else Some(Frame(nic, src, plan.dstIP, plan.dstMAC, plan.pkt))
  }

  /** One frame per target that has a source and a hardware address, in target order. */
  function Copies(plan: ReplyPlan, targets: seq<Nic>): (r: seq<Datagram>) {
    if targets == [] then []
    else
      Copies(plan, targets[..|targets| - 1]) +
      match Copy(plan, targets[|targets| - 1]) case None => [] case Some(frame) => [frame]
  }

  ghost predicate Attempted(whats: seq<Datagram>, out: seq<Attempt>) {
    |out| == |whats| && forall k :: 0 <= k < |out| ==> out[k].what == whats[k]
  }

  predicate AllSent(out: seq<Attempt>) {
    forall k :: 0 <= k < |out| ==> out[k].outcome == Sent
  }

  function Plan(cfg: Config, host: Host, dec: Decision, p: Packet, kind: ReplyKind): (plan: ReplyPlan)
    requires !Refused(host, dec, p)
  {
    ReplyPlan(
      kind, ReplyIngress(host, dec, p.options).value, p.giaddr,
      if kind.UnicastReply? then UnicastDst(p) else V4(BROADCAST),
      if kind.UnicastReply? || cfg.l2Unicast then p.chaddr else ETHERNET_BROADCAST,
      ReplyLayer(host, dec, p, kind))
  }

  ghost predicate DeliversReply(cfg: Config, host: Host, dec: Decision, p: Packet, kind: ReplyKind, out: seq<Attempt>) {
    if Refused(host, dec, p) || (kind.UnicastReply? && UnicastDst(p).NoIP?) || !host.rawSocket then out == []
    else
      var plan := Plan(cfg, host, dec, p, kind);
      Attempted(Copies(plan, Targets(cfg, host, dec.nicSelector, plan.ingress)), out)
  }

  /** No error: every target got its copy, and every copy went out. */
  ghost predicate FullyDelivered(
    cfg: Config, host: Host, dec: Decision, p: Packet, kind: ReplyKind, out: seq<Attempt>)
  {
    && !Refused(host, dec, p) && host.rawSocket && (kind.UnicastReply? ==> UnicastDst(p).V4?)
    && |out| == |Targets(cfg, host, dec.nicSelector, ReplyIngress(host, dec, p.options).value)|
    && AllSent(out)
  }

  lemma {:induction false} NothingSent()
    ensures AllSent([])
  {
  }

  lemma {:induction false} AllSentStep(out: seq<Attempt>, a: Attempt)
    ensures AllSent(out + [a]) <==> AllSent(out) && a.outcome == Sent
  {
    var longer := out + [a];
    assert longer[|out|] == a && forall k :: 0 <= k < |out| ==> longer[k] == out[k];
  }

  lemma {:induction false} CopiesStep(plan: ReplyPlan, targets: seq<Nic>, k: nat)
    requires k <= |targets|
    ensures Copies(plan, []) == []
    ensures k < |targets| ==>
      Copies(plan, targets[..k + 1]) ==
        Copies(plan, targets[..k]) + match Copy(plan, targets[k]) case None => [] case Some(frame) => [frame]
  {
    if k < |targets| {
      assert targets[..k + 1][..k] == targets[..k];
    }
  }

  /**
   * The per-NIC loop. All copies share one IPv4 layer whose source is rewritten on the way, and a copy that fails or
   * is skipped does not stop the others.
   */
  method SendReplies(plan: ReplyPlan, targets: seq<Nic>, layer: Dhcpv4Layer, ip4: Ipv4Layer, wire: Wire)
    returns (ok: bool, ghost out: seq<Attempt>)
    requires layer.View() == plan.pkt && ip4.dstIP == plan.dstIP
    requires plan.kind.BroadcastReply? ==> ip4.srcIP == V4(0)
    modifies ip4`srcIP, wire
    ensures wire.log == old(wire.log) + out
    ensures Attempted(Copies(plan, targets), out)
    ensures ok <==> |out| == |targets| && AllSent(out)
  {
    hide GlobalAddrs, BestUnicastSrc, Copies, AllSent;
    ok, out := true, [];
    NothingSent();
    CopiesStep(plan, targets, 0);
    for k := 0 to |targets|
      invariant wire.log == old(wire.log) + out
      invariant plan.kind.BroadcastReply? ==> ip4.srcIP == V4(0)
      invariant Attempted(Copies(plan, targets[..k]), out)
      invariant |out| <= k
      invariant ok <==> |out| == k && AllSent(out)
    {
      CopiesStep(plan, targets, k);
      var nic := targets[k];
      if plan.kind.UnicastReply? && nic.index != plan.ingress.index {
        var addrs := InterfaceGlobalUnicastAddrs4(nic);
        if addrs.None? || addrs.value == [] {
          ok := false;
          continue;
        }
        ip4.srcIP := BestUnicastSrc(addrs.value, layer.yiaddr);
      } else if plan.kind.UnicastReply? {
        ip4.srcIP := plan.giaddr;
      }
      if nic.mac == [] {
        ok := false;
        continue;
      }
      var frame := Frame(nic, ip4.srcIP, ip4.dstIP, plan.dstMAC, layer.View());
      var outcome := wire.Try(frame);
      AllSentStep(out, Attempt(frame, outcome));
      out := out + [Attempt(frame, outcome)];
      if outcome != Sent {
        ok := false;
      }
    }
    assert targets[..|targets|] == targets;
  }

  /** The gates a local reply passes before anything is changed; the result is the NIC it came in on. */
  method CheckReply(host: Host, dec: Decision, layer: Dhcpv4Layer) returns (ingress: Option<Nic>)
    ensures ingress.None? <==> Refused(host, dec, layer.View())
    ensures ingress.Some? ==> ingress == ReplyIngress(host, dec, layer.options)
  {
    if dec.dropReply {
      return None;
    }
    var srcIP := layer.giaddr;
    if srcIP.NoIP? || IsLoopback(srcIP.addr) || srcIP.addr == 0 || srcIP.addr == BROADCAST {
      return None;
    }
    var subOpts := dec.subOpts;
    if subOpts == [] {
      var opt82 := RelayAgentInformation(layer.options);
      if !IsOption(opt82) {
        return None;
      }
      subOpts := DecodeRelayAgentInformationOption(opt82);
    }
    if |subOpts| == 0 {
      return None;
    }
    var ifIndex := ExtractCircuitId(subOpts);
    if ifIndex == 0 || ifIndex !in host.nics || !CanCarry(host.nics[ifIndex]) {
      return None;
    }
    ingress := Some(host.nics[ifIndex]);
  }

  /** Strips and addresses the reply, then sends one copy per target. */
  method DeliverReply(
    cfg: Config, host: Host, dec: Decision, layer: Dhcpv4Layer, kind: ReplyKind, ingress: Nic, wire: Wire)
    returns (ok: bool, ghost out: seq<Attempt>)
    requires !Refused(host, dec, layer.View()) && ReplyIngress(host, dec, layer.options) == Some(ingress)
    modifies layer`giaddr, layer`options, layer`flags, wire
    ensures wire.log == old(wire.log) + out
    ensures layer.View() == ReplyLayer(host, dec, old(layer.View()), kind)
    ensures DeliversReply(cfg, host, dec, old(layer.View()), kind, out)
    ensures ok <==> FullyDelivered(cfg, host, dec, old(layer.View()), kind, out)
  {
    hide ReplyIngress, Copies, Targets, Without, OthersInPlace;
    ghost var p := layer.View();
    var srcIP := layer.giaddr;
    layer.DeleteOption(RELAY_AGENT_INFORMATION);
    layer.giaddr := NoIP;
    assert layer.View() == Stripped(p);
    var ip4 := new Ipv4Layer();
    var dstMAC;
    ok, dstMAC := ReplyAddressing(kind, srcIP, layer, ip4, cfg.l2Unicast);
    if !ok {
      return false, [];
    }
    var targets := ReplyTargets(cfg, host, dec.nicSelector, ingress);
    if !host.rawSocket {
      return false, [];
    }
    var plan := ReplyPlan(kind, ingress, srcIP, ip4.dstIP, dstMAC, layer.View());
    assert plan == Plan(cfg, host, dec, p, kind);
    ok, out := SendReplies(plan, targets, layer, ip4, wire);
  }

  /** A reply the gates refuse leaves the layer untouched; otherwise it is stripped even if nothing can be sent. */
  method HandleGenericReply(cfg: Config, host: Host, dec: Decision, layer: Dhcpv4Layer, kind: ReplyKind, wire: Wire)
    returns (ok: bool, ghost out: seq<Attempt>)
    modifies layer`giaddr, layer`options, layer`flags, wire
    ensures wire.log == old(wire.log) + out
    ensures layer.View() == ReplyLayer(host, dec, old(layer.View()), kind)
    ensures DeliversReply(cfg, host, dec, old(layer.View()), kind, out)
    ensures ok <==> dec.dropReply || FullyDelivered(cfg, host, dec, old(layer.View()), kind, out)
  {
    var ingress := CheckReply(host, dec, layer);
    if ingress.None? {
      return dec.dropReply, [];
    }
    ok, out := DeliverReply(cfg, host, dec, layer, kind, ingress.value, wire);
  }

  // ----- Forwarding -----

  ghost predicate ForwardsReply(p: Packet, out: seq<Attempt>) {
    if !UsableGiaddr(p.giaddr) || p.hops < 1 then out == []
    else |out| == 1 && out[0].what == ToRelay(p.giaddr, p.(hops := p.hops - 1))
  }

  method ForwardRelayedReply(layer: Dhcpv4Layer, wire: Wire) returns (ok: bool, ghost out: seq<Attempt>)
    modifies layer`hops, wire
    ensures wire.log == old(wire.log) + out
    ensures ForwardsReply(old(layer.View()), out)
    ensures layer.hops == if out == [] then old(layer.hops) else old(layer.hops) - 1
    ensures ok <==> out != [] && out[0].outcome == Sent
  {
    var giaddr := layer.giaddr;
    if giaddr.NoIP? || giaddr.addr == 0 || IsLoopback(giaddr.addr) || giaddr.addr == BROADCAST {
      return false, [];
    }
    if layer.hops < 1 {
      return false, [];
    }
    layer.hops := layer.hops - 1;
    var outcome := wire.Try(ToRelay(giaddr, layer.View()));
    ok, out := outcome == Sent, [Attempt(ToRelay(giaddr, layer.View()), outcome)];
  }

  // ----- What the copies carry -----

  lemma {:induction false} CopiesFrom(plan: ReplyPlan, targets: seq<Nic>, k: nat) returns (nic: Nic)
    requires k < |Copies(plan, targets)|
    ensures nic in targets && Copy(plan, nic) == Some(Copies(plan, targets)[k])
  {
    var front := targets[..|targets| - 1];
    if k < |Copies(plan, front)| {
      nic := CopiesFrom(plan, front, k);
      assert nic in targets;
    } else {
      nic := targets[|targets| - 1];
    }
  }

  /** A global unicast address of the list, in the subnet of `yiaddr` if one of them is. */
  ghost predicate OwnSource(addrs: seq<IfAddr>, yiaddr: IP, src: IP) {
    && (exists a :: a in addrs && KeepsAddr(a) && a.ip == src)
    && (yiaddr.V4? && (exists a :: a in addrs && KeepsAddr(a) && Contains(a, yiaddr.addr)) ==>
          exists a :: a in addrs && KeepsAddr(a) && a.ip == src && Contains(a, yiaddr.addr))
  }

  lemma {:induction false} BestSourceIsOwn(addrs: seq<IfAddr>, yiaddr: IP)
    requires GlobalAddrs(addrs) != []
    ensures OwnSource(addrs, yiaddr, BestUnicastSrc(GlobalAddrs(addrs), yiaddr))
  {
    hide Contains, KeepsAddr, GlobalAddrs;
    var own := GlobalAddrs(addrs);
    forall a: IfAddr
      ensures a in own <==> a in addrs && KeepsAddr(a)
    {
      GlobalAddrsMembers(addrs, a);
    }
    var src := BestUnicastSrc(own, yiaddr);
    if yiaddr.V4? && exists a :: a in own && Contains(a, yiaddr.addr) {
      var k: nat :| IsFirstContaining(own, yiaddr.addr, k) && own[k].ip == src;
      assert own[k] in own;
    }
  }

  /**
   * Every frame of a delivered reply, whatever the order of the targets and whichever earlier copies failed: a
   * broadcast is sourced from 0.0.0.0; a unicast out of the ingress from the old giaddr; a unicast out of another NIC
   * from an address of that NIC, one whose subnet holds the leased address if there is any.
   */
  lemma {:induction false} ReplyFrameSource(
    cfg: Config, host: Host, dec: Decision, p: Packet, kind: ReplyKind, out: seq<Attempt>, k: nat)
    requires DeliversReply(cfg, host, dec, p, kind, out) && k < |out|
    ensures !Refused(host, dec, p) && out[k].what.Frame? && CanCarry(out[k].what.nic)
    ensures kind.BroadcastReply? ==> out[k].what.srcIP == V4(0) && out[k].what.dstIP == V4(BROADCAST)
    ensures var ingress := ReplyIngress(host, dec, p.options).value; var frame := out[k].what;
      kind.UnicastReply? ==>
        && frame.dstIP == UnicastDst(p) && frame.dstMAC == p.chaddr
        && (frame.nic.index == ingress.index ==> frame.srcIP == p.giaddr)
        && (frame.nic.index != ingress.index ==> frame.nic.addrs.Some? && SourcedFromNic(frame, p.yiaddr))
    ensures out[k].what.pkt == Stripped(p).(flags := ReplyFlags(kind, p.flags))
  {
    var plan := Plan(cfg, host, dec, p, kind);
    var targets := Targets(cfg, host, dec.nicSelector, plan.ingress);
    var nic := CopiesFrom(plan, targets, k);
    if nic != plan.ingress {
      SelectedMembers(cfg, dec.nicSelector.value, host.cached, nic);
    }
    if kind.UnicastReply? && nic.index != plan.ingress.index {
      BestSourceIsOwn(nic.addrs.value, p.yiaddr);
    }
  }

  /** The frame's source is a global unicast address of its NIC, in the subnet of `yiaddr` if one of them is. */
  ghost predicate SourcedFromNic(frame: Datagram, yiaddr: IP)
    requires frame.Frame? && frame.nic.addrs.Some?
  {
    OwnSource(frame.nic.addrs.value, yiaddr, frame.srcIP)
  }

  /**
   * A target with a source and a hardware address gets as many frames as it is listed, so none is left out and, in a
   * list without repeats, none is served twice; no frame goes out of any other interface.
   */
  lemma {:induction false} EveryTargetServed(plan: ReplyPlan, targets: seq<Nic>, nic: Nic)
    requires nic.mac != [] && CopySource(plan.kind, nic, plan.ingress, plan.giaddr, plan.pkt.yiaddr).Some?
    ensures Copy(plan, nic).Some?
    ensures multiset(Copies(plan, targets))[Copy(plan, nic).value] == multiset(targets)[nic]
    ensures forall f :: f in Copies(plan, targets) ==> f.Frame? && f.nic in targets && Copy(plan, f.nic) == Some(f)
  {
    hide CopySource;
    if targets != [] {
      var front, last := targets[..|targets| - 1], targets[|targets| - 1];
      assert targets == front + [last];
      EveryTargetServed(plan, front, nic);
    }
  }

  /** With no selector a reply that is delivered at all is exactly one frame, out of its ingress. */
  lemma {:induction false} ReplyToIngress(
    cfg: Config, host: Host, dec: Decision, p: Packet, kind: ReplyKind, out: seq<Attempt>)
    requires DeliversReply(cfg, host, dec, p, kind, out)
    requires !Refused(host, dec, p) && host.rawSocket && dec.nicSelector.None?
    requires kind.UnicastReply? ==> UnicastDst(p).V4?
    ensures |out| == 1 && out[0].what.Frame?
    ensures out[0].what.nic == ReplyIngress(host, dec, p.options).value
  {
    var plan := Plan(cfg, host, dec, p, kind);
    assert [plan.ingress][..0] == [];
    assert Copies(plan, [plan.ingress]) == [Copy(plan, plan.ingress).value];
  }
}
