/** What a relay puts on the wire, said on the fields of the message and on its host, not on what the handler calls. */
module OnTheWire {
  import opened Packets
  import opened Handler
  import opened Hosts
  import opened Layers
  import opened MacPolicy
  import opened Opt82
  import opened Options
  import opened RelayPolicy
  import opened Replies
  import opened Requests
  import opened RoundTrip
  import opened SubOptions

  // ----- Whose reply it is -----

  /** A reply in range that the relay's policy does not drop. */
  ghost predicate InPlay(cfg: Config, policy: Option<Policy>, at: int, p: Packet) {
    && at >= 1 && p.op.Reply? && HasMessageType(WithoutSplits(p.options)) && 1 <= p.hops <= cfg.maxHops
    && DecisionFor(policy, Filtered(p)).Some? && !DecisionFor(policy, Filtered(p)).value.dropReply
  }

  /** The giaddr is the override, or a global unicast address the enumeration lists. */
  ghost predicate NamesUs(cfg: Config, host: Host, giaddr: IP) {
    || (giaddr.V4? && cfg.giaddr == giaddr)
    || (IsGlobalUnicast(giaddr) && host.allAddrs.Some? && exists ones :: NetAddr(giaddr, ones) in host.allAddrs.value)
  }

  lemma {:induction false} NamesUsExactly(cfg: Config, host: Host, giaddr: IP)
    ensures GiaddrIsLocal(cfg, host, giaddr) <==> NamesUs(cfg, host, giaddr)
  {
    if host.allAddrs.Some? {
      var addrs := host.allAddrs.value;
      if k :| 0 <= k < |addrs| && KeepsAddr(addrs[k]) && addrs[k].ip == giaddr {
        assert addrs[k] == NetAddr(giaddr, addrs[k].ones);
      }
      if ones :| NetAddr(giaddr, ones) in addrs {
        var j :| 0 <= j < |addrs| && addrs[j] == NetAddr(giaddr, ones);
      }
    }
  }

  /**
   * A reply that names another relay is forwarded to it, filtered and with one hop less, and nothing else is sent, if
   * the giaddr is an address one can send to; a reply that names this relay is never forwarded.
   */
  lemma {:induction false} ForwardedExactly(
    cfg: Config, host: Host, policy: Option<Policy>, at: int, p: Packet, q: Packet, out: seq<Attempt>)
    requires InPlay(cfg, policy, at, p) && Receives(cfg, host, policy, at, p, q, out)
    ensures !NamesUs(cfg, host, p.giaddr) ==>
      if UsableGiaddr(p.giaddr)
      then |out| == 1 && out[0].what == ToRelay(p.giaddr, Filtered(p).(hops := p.hops - 1)) else out == []
    ensures NamesUs(cfg, host, p.giaddr) ==> forall k :: 0 <= k < |out| ==> out[k].what.Frame?
  {
    hide WithoutSplits, HasMessageType, RelaysRequest, GiaddrIsLocal, DecisionFor, UsableGiaddr;
    NamesUsExactly(cfg, host, p.giaddr);
    if GiaddrIsLocal(cfg, host, p.giaddr) {
      var dec := DecisionFor(policy, Filtered(p)).value;
      AllFrames(cfg, host, dec, Filtered(p), KindOf(p), out);
    }
  }

  lemma {:induction false} AllFrames(
    cfg: Config, host: Host, dec: Decision, p: Packet, kind: ReplyKind, out: seq<Attempt>)
    requires DeliversReply(cfg, host, dec, p, kind, out)
    ensures forall k :: 0 <= k < |out| ==> out[k].what.Frame?
  {
    forall k | 0 <= k < |out|
      ensures out[k].what.Frame?
    {
      ReplyFrameSource(cfg, host, dec, p, kind, out, k);
    }
  }

  // ----- The copies of a request -----

  /** The host has read the addresses of this interface. */
  predicate Reads(host: Host, ifIndex: int) {
    ifIndex in host.nics && host.nics[ifIndex].addrs.Some?
  }

  /** The giaddr an interface without usable addresses relays under, if there is one. */
  function Elsewhere(cfg: Config, host: Host, server: string): IP {
    if cfg.giaddr.V4? then cfg.giaddr
    else if server in host.sourceTowards && IsGlobalUnicast(host.sourceTowards[server]) then host.sourceTowards[server]
    else NoIP
  }

  /** The subnet the link map gives for an interface. */
  function Subnet(cfg: Config, nic: Nic): Option<Addr> {
    if cfg.linkMap.None? then None else cfg.linkMap.value(nic.name, nic.mac)
  }

  /** Resolution, case by case. */
  lemma {:induction false} ResolvesExactly(cfg: Config, host: Host, dec: Decision, ifIndex: int)
    ensures !Reads(host, ifIndex) ==> ResolveGiaddr(cfg, host, dec, ifIndex).Unresolved?
    ensures Reads(host, ifIndex) ==>
      var nic := host.nics[ifIndex];
      var r := ResolveGiaddr(cfg, host, dec, ifIndex);
      if exists a :: a in nic.addrs.value && KeepsAddr(a) then r == Numbered(GlobalAddrs(nic.addrs.value))
      else if Subnet(cfg, nic).None? || Elsewhere(cfg, host, EffectiveServer(cfg, dec)).NoIP? then r.Unresolved?
      else r == Unnumbered(Elsewhere(cfg, host, EffectiveServer(cfg, dec)), Subnet(cfg, nic).value)
  {
    if Reads(host, ifIndex) {
      var addrs := host.nics[ifIndex].addrs.value;
      forall a: IfAddr
        ensures a in GlobalAddrs(addrs) <==> a in addrs && KeepsAddr(a)
      {
        GlobalAddrsMembers(addrs, a);
      }
      if GlobalAddrs(addrs) != [] {
        assert GlobalAddrs(addrs)[0] in GlobalAddrs(addrs);
      }
    }
  }

  /**
   * On an interface with usable addresses there is one copy for each of them, in their order: the one for the address
   * at `k` stands after those of the usable addresses before it, and has that address as its giaddr. Only a
   * serialization failure cuts the series short.
   */
  lemma {:induction false} NumberedCopies(
    cfg: Config, host: Host, policy: Option<Policy>, ifIndex: int, p: Packet, q: Packet, out: seq<Attempt>)
    requires p.op.Request? && p.hops == 0 && Receives(cfg, host, policy, ifIndex, p, q, out) && out != []
    requires Reads(host, ifIndex) && exists a :: a in host.nics[ifIndex].addrs.value && KeepsAddr(a)
    ensures var addrs := host.nics[ifIndex].addrs.value;
      && |out| <= KeptAddrs(addrs, |addrs|)
      && ((forall k :: 0 <= k < |out| ==> out[k].outcome != NotSerialized) ==> |out| == KeptAddrs(addrs, |addrs|))
      && (forall k :: 0 <= k < |out| && out[k].outcome == NotSerialized ==> k == |out| - 1)
      && forall k :: 0 <= k < |addrs| && KeepsAddr(addrs[k]) && KeptAddrs(addrs, k) < |out| ==>
           var what := out[KeptAddrs(addrs, k)].what; what.ToServer? && what.pkt.giaddr == addrs[k].ip
  {
    hide HasMessageType, WithoutSplits, IsRelayed, GlobalAddrs, KeepsAddr, Elsewhere, RequestOpt82, ResolveGiaddr;
    var dec := DecisionFor(policy, Filtered(p)).value;
    var addrs := host.nics[ifIndex].addrs.value;
    ResolvesExactly(cfg, host, dec, ifIndex);
    GlobalAddrsLength(addrs, |addrs|);
    assert addrs[..|addrs|] == addrs;
    forall k | 0 <= k < |addrs| && KeepsAddr(addrs[k])
      ensures KeptAddrs(addrs, k) < |GlobalAddrs(addrs)| && GlobalAddrs(addrs)[KeptAddrs(addrs, k)] == addrs[k]
    {
      GlobalAddrsPosition(addrs, k, |addrs|);
    }
  }

  /**
   * Which server a request goes to, first hop or relayed: without a policy the default one; with one, the server of
   * the entry of its Option 61, else of its hardware address, else of the catch-all, or the default one where that
   * names none.
   */
  lemma {:induction false} ServerOfRequest(
    cfg: Config, host: Host, policy: Option<Policy>, at: int, p: Packet, q: Packet, out: seq<Attempt>, k: nat)
    requires p.op.Request? && Receives(cfg, host, policy, at, p, q, out) && k < |out|
    ensures out[k].what.ToServer?
    ensures policy.None? ==> out[k].what.server == cfg.serverAddress
    ensures policy.Some? ==>
      var action := LookupID(policy.value.first, [ClientId(WithoutSplits(p.options)), p.chaddr]).0;
      && !action.kind.Blackhole?
      && out[k].what.server ==
           if action.kind.Server? && action.server != "" then action.server else cfg.serverAddress
  {
    hide HasMessageType, ResolveGiaddr, RequestOpt82, Giaddrs, IsSetOption, ClientId, WithoutSplits, LookupID;
  }

  /** The sub-options a message carries in its Option 82. */
  function Carried(pkt: Packet): seq<DhcpOption> {
    Decoded(GetOption(pkt.options, 82).data)
  }

  lemma {:induction false} CarriedByCopies(
    cfg: Config, host: Host, policy: Option<Policy>, ifIndex: nat, p: Packet, q: Packet, out: seq<Attempt>, k: nat)
    requires p.op.Request? && p.hops == 0 && Receives(cfg, host, policy, ifIndex, p, q, out) && k < |out|
    ensures DecisionFor(policy, Filtered(p)).Some?
    ensures var dec := DecisionFor(policy, Filtered(p)).value;
      Carried(out[k].what.pkt) ==
        RequestSubOptions(ifIndex, LinkSubnet(ResolveGiaddr(cfg, host, dec, ifIndex)), dec.policyTag)
  {
    hide ResolveGiaddr, RequestSubOptions, WithoutSplits, HasMessageType, Receives;
    FirstHop(cfg, host, policy, ifIndex, p, q, out, k);
    var dec := DecisionFor(policy, Filtered(p)).value;
    var resolved := ResolveGiaddr(cfg, host, dec, ifIndex);
    RequestCarriesIngress(resolved, dec, ifIndex, Filtered(p), out[k].what.pkt);
  }

  /** One sub-option on the wire. */
  lemma {:induction false} TlvBytes(o: DhcpOption, rest: seq<DhcpOption>)
    requires WellFormed(o)
    ensures var data := Tlvs([o] + rest); var n := |o.data|;
      && |data| >= n + 2 && data[0] == o.typ && data[1] == n && data[2..n + 2] == o.data && data[n + 2..] == Tlvs(rest)
  {
    TlvsHead([o] + rest);
    assert ([o] + rest)[0] == o && ([o] + rest)[1..] == rest;
  }

  /**
   * The bytes of the Option 82 a request is given: 82, its length, then 1 and the decimal interface index with its
   * length; then, for an interface the link map speaks for, 5, 4 and the four bytes of the subnet.
   */
  lemma {:induction false} RequestBytes(
    resolved: Resolved, dec: Decision, ifIndex: nat, a: Byte, b: Byte, c: Byte, d: Byte)
    requires LinkSubnet(resolved).Some? ==> LinkSubnet(resolved).value == Dotted(a, b, c, d)
    ensures var o := RequestOpt82(resolved, dec, ifIndex); var data := o.data;
      && o.typ == 82 && o.length == |data| && |data| >= 3 && data[0] == 1
      && var n := data[1];
         && 1 <= n <= 10 && |data| >= n + 2
         && AllDigits(data[2..n + 2]) && DigitsValue(data[2..n + 2]) == ifIndex % 0x1_0000_0000
         && (LinkSubnet(resolved).Some? ==> |data| >= n + 8 && data[n + 2..n + 8] == [5, 4, a, b, c, d])
  {
    hide RequestSubOptions, CircuitId, TagFits, WellFormed, Decode, AllDigits, DigitsValue, Encode, Tlvs, LinkSelection;
    var subnet := LinkSubnet(resolved);
    var subs := RequestSubOptions(ifIndex, subnet, dec.policyTag);
    RequestEncodes(ifIndex, subnet, dec.policyTag);
    EncodedBytes(subs);
    RoutingFirst(ifIndex, subnet, dec.policyTag);
    CircuitIdSize(ifIndex);
    assert subs == [subs[0]] + subs[1..];
    TlvBytes(subs[0], subs[1..]);
    if subnet.Some? {
      LinkSelectionBytes(a, b, c, d);
      assert subs[1..] == [subs[1]] + subs[2..];
      SixBytes(a, b, c, d, subs[2..]);
      SliceOfSlice(Tlvs(subs), |subs[0].data| + 2, 6);
    }
  }

  lemma {:induction false} SixBytes(a: Byte, b: Byte, c: Byte, d: Byte, rest: seq<DhcpOption>)
    ensures var data := Tlvs([DhcpOption(5, 4, [a, b, c, d])] + rest); |data| >= 6 && data[..6] == [5, 4, a, b, c, d]
  {
    var o := DhcpOption(5, 4, [a, b, c, d]);
    TlvBytes(o, rest);
    var data := Tlvs([o] + rest);
    assert data[..6] == [data[0], data[1]] + data[2..6];
  }

  lemma {:induction false} SliceOfSlice(s: seq<Byte>, k: nat, n: nat)
    requires k + n <= |s|
    ensures s[k..k + n] == s[k..][..n]
  {
  }

  lemma {:induction false} EncodedBytes(subs: seq<DhcpOption>)
    requires IsOption(Encode(subs))
    ensures Encode(subs).typ == 82 && Encode(subs).data == Tlvs(subs) && Encode(subs).length == |Tlvs(subs)|
  {
  }

  lemma {:induction false} CircuitIdSize(ifIndex: nat)
    ensures var o := CircuitId(ifIndex);
      && o.typ == 1 && WellFormed(o) && 1 <= |o.data| <= 10
      && AllDigits(o.data) && DigitsValue(o.data) == ifIndex % 0x1_0000_0000
  {
  }

  /** Link Selection for a subnet is its four bytes, most significant first. */
  lemma {:induction false} LinkSelectionBytes(a: Byte, b: Byte, c: Byte, d: Byte)
    ensures LinkSelection(Dotted(a, b, c, d)) == DhcpOption(5, 4, [a, b, c, d])
  {
    Quotients(a, b, c, d);
  }

  /** Which sub-options come first: the circuit id, and Link Selection for an interface the link map speaks for. */
  lemma {:induction false} RoutingFirst(ifIndex: int, subnet: Option<Addr>, tag: seq<Byte>)
    ensures var subs := RequestSubOptions(ifIndex, subnet, tag);
      && subs != [] && subs[0] == CircuitId(ifIndex) && subs[0].typ == 1
      && (subnet.Some? ==> |subs| >= 2 && subs[1] == LinkSelection(subnet.value))
      && (subnet.None? ==> forall o :: o in subs ==> o.typ != 5)
      && (if TagFits(ifIndex, subnet, tag) then subs[|subs| - 1] == DhcpOption(224, |tag|, tag)
          else forall o :: o in subs ==> o.typ != 224)
  {
    hide CircuitId, TagFits, PolicyTag;
    if TagFits(ifIndex, subnet, tag) {
      FittingTag(ifIndex, subnet, tag);
    }
  }

  lemma {:induction false} FittingTag(ifIndex: int, subnet: Option<Addr>, tag: seq<Byte>)
    requires TagFits(ifIndex, subnet, tag)
    ensures |tag| <= 253 && PolicyTag(tag) == DhcpOption(224, |tag|, tag)
  {
  }

  /**
   * An interface without usable addresses relays nothing unless the link map has its subnet and there is a giaddr from
   * elsewhere, the override before the server-facing address. Then it relays one copy, under that giaddr, and its
   * Option 82 tells the server the subnet.
   */
  lemma {:induction false} UnnumberedCopy(
    cfg: Config, host: Host, policy: Option<Policy>, ifIndex: nat, p: Packet, q: Packet, out: seq<Attempt>)
    requires p.op.Request? && p.hops == 0 && Receives(cfg, host, policy, ifIndex, p, q, out) && out != []
    requires Reads(host, ifIndex) && forall a :: a in host.nics[ifIndex].addrs.value ==> !KeepsAddr(a)
    ensures |out| == 1 && out[0].what.ToServer?
    ensures var pkt := out[0].what.pkt;
      && (cfg.giaddr.V4? ==> pkt.giaddr == cfg.giaddr)
      && (cfg.giaddr.NoIP? ==>
            && out[0].what.server in host.sourceTowards
            && pkt.giaddr == host.sourceTowards[out[0].what.server] && IsGlobalUnicast(pkt.giaddr))
    ensures Subnet(cfg, host.nics[ifIndex]).Some?
    ensures forall a: Byte, b: Byte, c: Byte, d: Byte ::
      Subnet(cfg, host.nics[ifIndex]).value == Dotted(a, b, c, d) ==>
        var subs := Carried(out[0].what.pkt);
        |subs| >= 2 && subs[0].typ == 1 && subs[1] == DhcpOption(5, 4, [a, b, c, d])
  {
    hide HasMessageType, WithoutSplits, IsRelayed, GlobalAddrs, KeepsAddr, RequestOpt82, ResolveGiaddr, Carried;
    hide Subnet, LinkSelection;
    var dec := DecisionFor(policy, Filtered(p)).value;
    ResolvesExactly(cfg, host, dec, ifIndex);
    CarriedByCopies(cfg, host, policy, ifIndex, p, q, out, 0);
    RoutingFirst(ifIndex, Subnet(cfg, host.nics[ifIndex]), dec.policyTag);
    forall a: Byte, b: Byte, c: Byte, d: Byte
      ensures LinkSelection(Dotted(a, b, c, d)) == DhcpOption(5, 4, [a, b, c, d])
    {
      LinkSelectionBytes(a, b, c, d);
    }
  }

  /** Copies from an interface with usable addresses carry no Link Selection. */
  lemma {:induction false} NumberedCarriesNoSubnet(
    cfg: Config, host: Host, policy: Option<Policy>, ifIndex: nat, p: Packet, q: Packet, out: seq<Attempt>, k: nat)
    requires p.op.Request? && p.hops == 0 && Receives(cfg, host, policy, ifIndex, p, q, out) && k < |out|
    requires Reads(host, ifIndex) && exists a :: a in host.nics[ifIndex].addrs.value && KeepsAddr(a)
    ensures forall o :: o in Carried(out[k].what.pkt) ==> o.typ != 5
  {
    hide Receives, HasMessageType, WithoutSplits, GlobalAddrs, KeepsAddr, ResolveGiaddr, Carried;
    CarriedByCopies(cfg, host, policy, ifIndex, p, q, out, k);
    var dec := DecisionFor(policy, Filtered(p)).value;
    ResolvesExactly(cfg, host, dec, ifIndex);
    RoutingFirst(ifIndex, None, dec.policyTag);
  }

  // ----- Where a reply goes -----

  /** The frames among these that leave by `nic`. */
  function FramesBy(whats: seq<Datagram>, nic: Nic): nat {
    if whats == [] then 0
    else
      var last := whats[|whats| - 1];
      FramesBy(whats[..|whats| - 1], nic) + if last.Frame? && last.nic == nic then 1 else 0
  }

  function Whats(out: seq<Attempt>): (whats: seq<Datagram>)
    ensures |whats| == |out| && forall k :: 0 <= k < |out| ==> whats[k] == out[k].what
  {
    seq(|out|, k requires 0 <= k < |out| => out[k].what)
  }

  /** A NIC has a source for a copy: any for a broadcast, and its own address unless it is the ingress. */
  ghost predicate HasSource(kind: ReplyKind, nic: Nic, ingress: Nic) {
    || kind.BroadcastReply? || nic.index == ingress.index
    || (nic.addrs.Some? && exists a :: a in nic.addrs.value && KeepsAddr(a))
  }

  lemma {:induction false} CopyExactly(plan: ReplyPlan, nic: Nic)
    ensures Copy(plan, nic).Some? <==> nic.mac != [] && HasSource(plan.kind, nic, plan.ingress)
    ensures Copy(plan, nic).Some? ==> Copy(plan, nic).value.Frame? && Copy(plan, nic).value.nic == nic
  {
    if nic.addrs.Some? {
      var addrs := nic.addrs.value;
      forall a: IfAddr
        ensures a in GlobalAddrs(addrs) <==> a in addrs && KeepsAddr(a)
      {
        GlobalAddrsMembers(addrs, a);
      }
      if GlobalAddrs(addrs) != [] {
        assert GlobalAddrs(addrs)[0] in GlobalAddrs(addrs);
      }
    }
  }

  lemma {:induction false} FramesPerTarget(plan: ReplyPlan, targets: seq<Nic>, nic: Nic)
    ensures FramesBy(Copies(plan, targets), nic) == if Copy(plan, nic).Some? then multiset(targets)[nic] else 0
  {
    hide Copy, Copies, FramesBy;
    CopiesLast(plan, targets);
    if targets == [] {
      assert FramesBy([], nic) == 0 by { NoFrames(nic); }
    } else {
      var front, last := targets[..|targets| - 1], targets[|targets| - 1];
      assert targets == front + [last];
      FramesPerTarget(plan, front, nic);
      CopyExactly(plan, last);
      if Copy(plan, last).Some? {
        OneMoreFrame(Copies(plan, front), Copy(plan, last).value, nic);
      }
    }
  }

  lemma {:induction false} NoFrames(nic: Nic)
    ensures FramesBy([], nic) == 0
  {
  }

  lemma {:induction false} OneMoreFrame(whats: seq<Datagram>, what: Datagram, nic: Nic)
    ensures FramesBy(whats + [what], nic) == FramesBy(whats, nic) + if what.Frame? && what.nic == nic then 1 else 0
  {
    assert (whats + [what])[..|whats|] == whats;
  }

  lemma {:induction false} CopiesLast(plan: ReplyPlan, targets: seq<Nic>)
    ensures targets == [] ==> Copies(plan, targets) == []
    ensures targets != [] ==>
      var front, copy := Copies(plan, targets[..|targets| - 1]), Copy(plan, targets[|targets| - 1]);
      Copies(plan, targets) == if copy.Some? then front + [copy.value] else front
  {
  }

  lemma {:induction false} SelectedCount(cfg: Config, selector: string, nics: seq<Nic>, nic: Nic)
    ensures multiset(Selected(cfg, selector, nics))[nic] ==
      if nic.up && nic.mac != [] && cfg.selects(selector, nic.name, nic.mac) then multiset(nics)[nic] else 0
  {
    if nics != [] {
      var front, last := nics[..|nics| - 1], nics[|nics| - 1];
      assert nics == front + [last];
      SelectedCount(cfg, selector, front, nic);
    }
  }

  /** A NIC the selector picks: up, with a hardware address, and accepted. */
  predicate Picks(cfg: Config, selector: string, nic: Nic) {
    nic.up && nic.mac != [] && cfg.selects(selector, nic.name, nic.mac)
  }

  /** The selector has something to pick from, and picks something. */
  ghost predicate PicksAny(cfg: Config, host: Host, selector: Option<string>) {
    selector.Some? && cfg.hasCache && exists nic :: nic in host.cached && Picks(cfg, selector.value, nic)
  }

  /** The reply is delivered rather than refused: it names a live interface and has somewhere to go. */
  ghost predicate CanLeave(host: Host, dec: Decision, p: Packet, kind: ReplyKind, ingress: Nic) {
    && !dec.dropReply && UsableGiaddr(p.giaddr) && ReplyIngress(host, dec, p.options) == Some(ingress)
    && host.rawSocket && (kind.UnicastReply? ==> UnicastDst(p).V4?)
  }

  /**
   * When a reply for this relay that no selector redirects sends nothing: its Option 82 does not name an interface
   * that is there, up and has a hardware address, its giaddr is no usable source, the raw socket fails, or a unicast
   * reply has no address to go to.
   */
  lemma {:induction false} SilentExactly(
    cfg: Config, host: Host, policy: Option<Policy>, at: int, p: Packet, q: Packet, out: seq<Attempt>)
    requires InPlay(cfg, policy, at, p) && Receives(cfg, host, policy, at, p, q, out)
    requires NamesUs(cfg, host, p.giaddr) && DecisionFor(policy, Filtered(p)).value.nicSelector.None?
    ensures var i := ExtractCircuitId(Decoded(RelayAgentInformation(WithoutSplits(p.options)).data));
      out == [] <==>
        || i == 0 || i !in host.nics || !host.nics[i].up || host.nics[i].mac == []
        || !UsableGiaddr(p.giaddr) || !host.rawSocket
        || (p.flags < 0x8000 && p.ciaddr.NoIP? && (p.yiaddr.NoIP? || p.yiaddr.addr == 0))
  {
    hide HasMessageType, GiaddrIsLocal, WithoutSplits, Decoded, ExtractCircuitId, UsableGiaddr, GetOption;
    NamesUsExactly(cfg, host, p.giaddr);
    PolicySubOptions(policy, Filtered(p));
    var dec := DecisionFor(policy, Filtered(p)).value;
    if !Refused(host, dec, Filtered(p)) && host.rawSocket && (KindOf(p).UnicastReply? ==> UnicastDst(p).V4?) {
      ReplyToIngress(cfg, host, dec, Filtered(p), KindOf(p), out);
    }
  }

  /** What no relay ever reacts to. */
  lemma {:induction false} Ignored(
    cfg: Config, host: Host, policy: Option<Policy>, at: int, p: Packet, q: Packet, out: seq<Attempt>)
    requires Receives(cfg, host, policy, at, p, q, out)
    requires
      || at < 1 || p.op.OtherOp? || !HasMessageType(WithoutSplits(p.options))
      || (p.op.Request? && p.hops >= cfg.maxHops)
      || (p.op.Reply? && (p.hops < 1 || p.hops > cfg.maxHops))
    ensures out == []
  {
    hide HasMessageType, WithoutSplits, DecisionFor, ResolveGiaddr, GiaddrIsLocal;
  }

  lemma {:induction false} TargetCount(cfg: Config, host: Host, selector: Option<string>, ingress: Nic, nic: Nic)
    ensures multiset(Targets(cfg, host, selector, ingress))[nic] ==
      if !PicksAny(cfg, host, selector) then (if nic == ingress then 1 else 0)
      else if Picks(cfg, selector.value, nic) then multiset(host.cached)[nic] else 0
  {
    if selector.Some? {
      SelectedCount(cfg, selector.value, host.cached, nic);
      SelectedAny(cfg, selector.value, host.cached);
    }
  }

  lemma {:induction false} SelectedAny(cfg: Config, selector: string, nics: seq<Nic>)
    ensures Selected(cfg, selector, nics) != [] <==> exists nic :: nic in nics && Picks(cfg, selector, nic)
  {
    hide Selected;
    if Selected(cfg, selector, nics) != [] {
      var nic := Selected(cfg, selector, nics)[0];
      assert nic in Selected(cfg, selector, nics);
      SelectedMembers(cfg, selector, nics, nic);
    }
    if nic :| nic in nics && Picks(cfg, selector, nic) {
      SelectedMembers(cfg, selector, nics, nic);
    }
  }

  /**
   * Where the frames of a reply go. With a selector, a cache and at least one live interface the selector accepts,
   * every such interface that has a source gets as many frames as the cache lists it, and no other gets any; otherwise
   * the ingress gets one and no other gets any.
   */
  lemma {:induction false} FramesExactly(
    cfg: Config, host: Host, dec: Decision, p: Packet, kind: ReplyKind, ingress: Nic, out: seq<Attempt>, nic: Nic)
    requires DeliversReply(cfg, host, dec, p, kind, out) && CanLeave(host, dec, p, kind, ingress)
    ensures FramesBy(Whats(out), nic) ==
      if !PicksAny(cfg, host, dec.nicSelector) then (if nic == ingress then 1 else 0)
      else if Picks(cfg, dec.nicSelector.value, nic) && HasSource(kind, nic, ingress) then multiset(host.cached)[nic]
      else 0
  {
    hide PicksAny, Targets, Copies, Copy, ReplyLayer, UnicastDst, ExtractCircuitId, UsableGiaddr;
    var plan := Plan(cfg, host, dec, p, kind);
    var targets := Targets(cfg, host, dec.nicSelector, ingress);
    assert Whats(out) == Copies(plan, targets);
    FramesPerTarget(plan, targets, nic);
    TargetCount(cfg, host, dec.nicSelector, ingress, nic);
    CopyExactly(plan, nic);
    assert CanCarry(ingress);
    assert nic == ingress ==> nic.mac != [] && HasSource(kind, nic, ingress);
  }

  // ----- What the policy does to a reply -----

  /** The entry a reply is under: its own if that denies it or the tag has none, and else the tag's. */
  function ReplyEntry(policy: Policy, p: Packet): Action {
    var own := LookupID(policy.first, [ClientId(p.options), p.chaddr]).0;
    var tag := ExtractPolicyTag(Decoded(RelayAgentInformation(p.options).data));
    if own.kind.Blackhole? || tag == [] || tag !in policy.second.entries then own else policy.second.entries[tag]
  }

  lemma {:induction false} ReplyDecided(policy: Policy, p: Packet)
    requires p.op.Reply?
    ensures var action := ReplyEntry(policy, p);
      if action.kind.Blackhole? then PolicyForPacket(policy, p).None?
      else
        && PolicyForPacket(policy, p).Some?
        && var dec := PolicyForPacket(policy, p).value;
           && (dec.dropReply <==> action.reply.DropReplies?)
           && dec.nicSelector == (if action.reply.ToMatching? then Some(action.reply.selector) else None)
  {
    hide LookupID, Decoded, ExtractPolicyTag, ClientId;
    ReplyActionCases(policy, ClientId(p.options), p.chaddr, Decoded(RelayAgentInformation(p.options).data));
  }

  /** A reply whose entry denies the client, or its replies, causes nothing, for this relay or for another. */
  lemma {:induction false} DeniedReplyIsSilent(
    cfg: Config, host: Host, policy: Policy, at: int, p: Packet, q: Packet, out: seq<Attempt>)
    requires p.op.Reply? && Receives(cfg, host, Some(policy), at, p, q, out)
    requires var action := ReplyEntry(policy, Filtered(p)); action.kind.Blackhole? || action.reply.DropReplies?
    ensures out == []
  {
    hide HasMessageType, GiaddrIsLocal, DeliversReply, WithoutSplits, ReplyEntry, PolicyForPacket;
    ReplyDecided(policy, Filtered(p));
  }

  /**
   * A reply for this relay under an entry that does not deny it: an entry with a selector sends it out of the
   * interfaces that selector picks, and any other entry out of the ingress.
   */
  lemma {:induction false} PolicyPicksInterfaces(
    cfg: Config, host: Host, policy: Policy, at: int, p: Packet, q: Packet, out: seq<Attempt>, ingress: Nic, nic: Nic)
    requires InPlay(cfg, Some(policy), at, p) && Receives(cfg, host, Some(policy), at, p, q, out)
    requires NamesUs(cfg, host, p.giaddr)
    requires CanLeave(host, DecisionFor(Some(policy), Filtered(p)).value, Filtered(p), KindOf(p), ingress)
    ensures var reply := ReplyEntry(policy, Filtered(p)).reply;
      FramesBy(Whats(out), nic) ==
        if reply.ToMatching? && PicksAny(cfg, host, Some(reply.selector)) then
          (if Picks(cfg, reply.selector, nic) && HasSource(KindOf(p), nic, ingress)
           then multiset(host.cached)[nic] else 0)
        else if nic == ingress then 1 else 0
  {
    hide HasMessageType, GiaddrIsLocal, DeliversReply, WithoutSplits, ReplyEntry, PolicyForPacket;
    hide FramesBy, CanLeave;
    NamesUsExactly(cfg, host, p.giaddr);
    ReplyDecided(policy, Filtered(p));
    var dec := DecisionFor(Some(policy), Filtered(p)).value;
    FramesExactly(cfg, host, dec, Filtered(p), KindOf(p), ingress, out, nic);
  }

  // ----- How a reply is addressed -----

  /**
   * The addresses of every frame of a reply, on the fields of the reply: without the broadcast flag it goes to the
   * lease, or to ciaddr if there is none, and to the client's hardware address; with the flag to 255.255.255.255 from
   * 0.0.0.0, and to the Ethernet broadcast address unless the configuration keeps the client's. The other flags stay.
   */
  lemma {:induction false} ReplyAddresses(
    cfg: Config, host: Host, policy: Option<Policy>, at: int, p: Packet, q: Packet, out: seq<Attempt>, k: nat)
    requires InPlay(cfg, policy, at, p) && Receives(cfg, host, policy, at, p, q, out)
    requires NamesUs(cfg, host, p.giaddr) && k < |out|
    ensures out[k].what.Frame?
    ensures var frame := out[k].what;
      && frame.pkt.flags == p.flags && frame.pkt.giaddr == NoIP && frame.pkt.hops == p.hops
      && frame.pkt.yiaddr == p.yiaddr && frame.pkt.ciaddr == p.ciaddr && frame.pkt.chaddr == p.chaddr
      && (p.flags < 0x8000 ==>
            && frame.dstIP == (if p.yiaddr.V4? && p.yiaddr.addr != 0 then p.yiaddr else p.ciaddr)
            && frame.dstMAC == p.chaddr)
      && (p.flags >= 0x8000 ==>
            && frame.dstIP == V4(0xFFFF_FFFF) && frame.srcIP == V4(0)
            && frame.dstMAC == if cfg.l2Unicast then p.chaddr else [0xFF, 0xFF, 0xFF, 0xFF, 0xFF, 0xFF])
  {
    hide HasMessageType, GiaddrIsLocal, WithoutSplits, Without, DecisionFor, ReplyIngress, SourcedFromNic;
    NamesUsExactly(cfg, host, p.giaddr);
    var dec := DecisionFor(policy, Filtered(p)).value;
    ReplyFrameSource(cfg, host, dec, Filtered(p), KindOf(p), out, k);
    AnyDestinationMac(cfg, host, dec, Filtered(p), KindOf(p), out, k);
  }

  lemma {:induction false} AnyDestinationMac(
    cfg: Config, host: Host, dec: Decision, p: Packet, kind: ReplyKind, out: seq<Attempt>, k: nat)
    requires DeliversReply(cfg, host, dec, p, kind, out) && k < |out|
    ensures out[k].what.Frame?
    ensures out[k].what.dstMAC == if kind.UnicastReply? || cfg.l2Unicast then p.chaddr else ETHERNET_BROADCAST
  {
    hide Refused, Targets, Copies, CopySource, UnicastDst, ReplyLayer;
    var plan := Plan(cfg, host, dec, p, kind);
    var nic := CopiesFrom(plan, Targets(cfg, host, dec.nicSelector, plan.ingress), k);
  }

  // ----- Which messages and which clients -----

  /** A message is one of the eight kinds exactly when its first option 53 has length one and a value from 1 to 8. */
  lemma {:induction false} EightTypes(opts: seq<DhcpOption>, k: nat)
    requires k < |opts| && opts[k].typ == 53 && forall j :: 0 <= j < k ==> opts[j].typ != 53
    ensures HasMessageType(opts) <==> opts[k].length == 1 && |opts[k].data| > 0 && 1 <= opts[k].data[0] <= 8
  {
    GetOptionFirst(opts, k);
  }

  lemma {:induction false} NoType(opts: seq<DhcpOption>)
    requires forall k :: 0 <= k < |opts| ==> opts[k].typ != 53
    ensures !HasMessageType(opts)
  {
  }

  /** A client goes by its Option 61, if that is not empty, and by its hardware address for what has no entry. */
  lemma {:induction false} MatchedBy(t: Table, p: Packet, k: nat)
    requires k < |p.options| && p.options[k].typ == 61 && forall j :: 0 <= j < k ==> p.options[j].typ != 61
    requires p.options[k].length > 0
    ensures var (action, key) := LookupID(t, [ClientId(p.options), p.chaddr]);
      var id := p.options[k].data;
      && (id != [] && id in t.entries ==> action == t.entries[id] && key == Some(id))
      && ((id == [] || id !in t.entries) && p.chaddr != [] && p.chaddr in t.entries ==>
            action == t.entries[p.chaddr] && key == Some(p.chaddr))
      && ((id == [] || id !in t.entries) && (p.chaddr == [] || p.chaddr !in t.entries) ==>
            action == t.fallback && key.None?)
  {
    GetOptionFirst(p.options, k);
    LookupTwo(t, p.options[k].data, p.chaddr);
  }

  /** Without an Option 61, or with an empty one, the hardware address alone counts. */
  lemma {:induction false} MatchedByAddress(t: Table, p: Packet)
    requires forall k :: 0 <= k < |p.options| ==> p.options[k].typ != 61
    ensures var (action, key) := LookupID(t, [ClientId(p.options), p.chaddr]);
      if p.chaddr != [] && p.chaddr in t.entries then action == t.entries[p.chaddr] && key == Some(p.chaddr)
      else action == t.fallback && key.None?
  {
    LookupTwo(t, [], p.chaddr);
  }

  lemma {:induction false} LookupTwo(t: Table, a: seq<Byte>, b: seq<Byte>)
    ensures LookupID(t, [a, b]) ==
      if a != [] && a in t.entries then (t.entries[a], Some(a))
      else if b != [] && b in t.entries then (t.entries[b], Some(b))
      else (t.fallback, None)
  {
    assert [a, b][1..] == [b];
    LookupOne(t, b);
  }
}
