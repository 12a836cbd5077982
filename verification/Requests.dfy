/** The request path: a first hop gets Option 82 and a giaddr, a relayed request only one more hop. */
module Requests {
  import opened Packets
  import opened Hosts
  import opened Layers
  import opened Opt82
  import opened Options
  import opened SubOptions

  /** The Option 82 a request from `ifIndex` carries. */
  function RequestOpt82(resolved: Resolved, dec: Decision, ifIndex: int): (o: DhcpOption) {
    Encode(RequestSubOptions(ifIndex, LinkSubnet(resolved), dec.policyTag))
  }

  /** Copies of `p`, one per giaddr and in that order; only a serialization failure ends the series early. */
  ghost predicate CopiesPerGiaddr(server: string, p: Packet, giaddrs: seq<IP>, out: seq<Attempt>) {
    && |out| <= |giaddrs|
    && (forall k :: 0 <= k < |out| ==> out[k].what == ToServer(server, p.(giaddr := giaddrs[k])))
    && (forall k :: 0 <= k < |out| - 1 ==> out[k].outcome != NotSerialized)
    && (|out| < |giaddrs| ==> |out| > 0 && out[|out| - 1].outcome == NotSerialized)
  }

  lemma {:induction false} CopiesIgnoreGiaddr(
    server: string, p: Packet, p': Packet, giaddrs: seq<IP>, out: seq<Attempt>)
    requires p' == p.(giaddr := p'.giaddr) && CopiesPerGiaddr(server, p, giaddrs, out)
    ensures CopiesPerGiaddr(server, p', giaddrs, out)
  {
  }

  /** The message of a relayed request before its giaddr is filled in, for some order of its sorted options. */
  ghost predicate IsRelayed(p: Packet, opt82: DhcpOption, q: Packet) {
    && p.hops < 255
    && IsSetOption(p.options, opt82, q.options)
    && q == p.(hops := p.hops + 1, options := q.options, giaddr := q.giaddr)
  }

  /** The request path once the giaddr is resolved. */
  ghost predicate RelaysResolved(
    server: string, resolved: Resolved, dec: Decision, ifIndex: int, p: Packet, q: Packet, out: seq<Attempt>)
  {
    IsRelayed(p, RequestOpt82(resolved, dec, ifIndex), q) && CopiesPerGiaddr(server, q, Giaddrs(resolved), out)
  }

  ghost predicate RelaysRequest(
    cfg: Config, host: Host, dec: Decision, ifIndex: int, p: Packet, q: Packet, out: seq<Attempt>)
  {
    var resolved := ResolveGiaddr(cfg, host, dec, ifIndex);
    if p.hops >= cfg.maxHops || resolved.Unresolved? then q == p && out == []
    else RelaysResolved(EffectiveServer(cfg, dec), resolved, dec, ifIndex, p, q, out)
  }

  /** Relays one copy under each giaddr; a failed send is only logged, a serialization failure ends the request. */
  method SendCopies(server: string, giaddrs: seq<IP>, layer: Dhcpv4Layer, wire: Wire)
    returns (ok: bool, ghost out: seq<Attempt>)
    modifies layer`giaddr, wire
    ensures wire.log == old(wire.log) + out
    ensures CopiesPerGiaddr(server, old(layer.View()), giaddrs, out)
    ensures ok <==> |out| == |giaddrs| && (out != [] ==> out[|out| - 1].outcome != NotSerialized)
    ensures layer.giaddr == if out == [] then old(layer.giaddr) else giaddrs[|out| - 1]
  {
    ghost var p := layer.View();
    out := [];
    for k := 0 to |giaddrs|
      invariant |out| == k && wire.log == old(wire.log) + out
      invariant layer.View() == p.(giaddr := layer.giaddr)
      invariant forall j :: 0 <= j < k ==> out[j].what == ToServer(server, p.(giaddr := giaddrs[j]))
      invariant forall j :: 0 <= j < k ==> out[j].outcome != NotSerialized
      invariant layer.giaddr == if k == 0 then p.giaddr else giaddrs[k - 1]
    {
      layer.giaddr := giaddrs[k];
      var outcome := wire.Try(ToServer(server, layer.View()));
      out := out + [Attempt(ToServer(server, layer.View()), outcome)];
      if outcome == NotSerialized {
        return false, out;
      }
    }
    ok := true;
  }

  /** Option 82, the hop and the copies. */
  method RelayResolved(server: string, resolved: Resolved, dec: Decision, ifIndex: int, layer: Dhcpv4Layer, wire: Wire)
    returns (ok: bool, ghost out: seq<Attempt>)
    requires layer.hops < 255
    modifies layer`hops, layer`options, layer`giaddr, wire
    ensures wire.log == old(wire.log) + out
    ensures RelaysResolved(server, resolved, dec, ifIndex, old(layer.View()), layer.View(), out)
    ensures ok <==> |out| == |Giaddrs(resolved)| && (out != [] ==> out[|out| - 1].outcome != NotSerialized)
    ensures layer.giaddr == if out == [] then old(layer.giaddr) else Giaddrs(resolved)[|out| - 1]
  {
    hide Encode, Decode, RequestSubOptions, Giaddrs, LinkSubnet, CopiesPerGiaddr, IsSetOption;
    var opt82 := BuildOpt82(ifIndex, LinkSubnet(resolved), dec.policyTag);
    layer.SetOption(opt82);
    layer.hops := layer.hops + 1;
    ghost var relayed := layer.View();
    ok, out := SendCopies(server, Giaddrs(resolved), layer, wire);
    CopiesIgnoreGiaddr(server, relayed, layer.View(), Giaddrs(resolved), out);
  }

  /** The layer is left as the last copy went out, or untouched if the request is refused. */
  method HandleGenericRequest(cfg: Config, host: Host, dec: Decision, ifIndex: int, layer: Dhcpv4Layer, wire: Wire)
    returns (ok: bool, ghost out: seq<Attempt>)
    modifies layer`hops, layer`options, layer`giaddr, wire
    ensures wire.log == old(wire.log) + out
    ensures RelaysRequest(cfg, host, dec, ifIndex, old(layer.View()), layer.View(), out)
    ensures ok <==>
      && old(layer.hops) < cfg.maxHops && !ResolveGiaddr(cfg, host, dec, ifIndex).Unresolved?
      && (out != [] ==> out[|out| - 1].outcome != NotSerialized)
    ensures out != [] ==> out[|out| - 1].what == ToServer(EffectiveServer(cfg, dec), layer.View())
  {
    if layer.hops >= cfg.maxHops {
      return false, [];
    }
    var resolved := ResolveGiaddr(cfg, host, dec, ifIndex);
    if resolved.Unresolved? {
      return false, [];
    }
    ok, out := RelayResolved(EffectiveServer(cfg, dec), resolved, dec, ifIndex, layer, wire);
  }

  ghost predicate ForwardsRequest(cfg: Config, dec: Decision, p: Packet, out: seq<Attempt>) {
    if p.hops >= cfg.maxHops then out == []
    else |out| == 1 && out[0].what == ToServer(EffectiveServer(cfg, dec), p.(hops := p.hops + 1))
  }

  method ForwardRelayedRequest(cfg: Config, dec: Decision, layer: Dhcpv4Layer, wire: Wire)
    returns (ok: bool, ghost out: seq<Attempt>)
    modifies layer`hops, wire
    ensures wire.log == old(wire.log) + out
    ensures ForwardsRequest(cfg, dec, old(layer.View()), out)
    ensures ok <==> old(layer.hops) < cfg.maxHops
    ensures layer.hops == if ok then old(layer.hops) + 1 else old(layer.hops)
  {
    if layer.hops >= cfg.maxHops {
      return false, [];
    }
    layer.hops := layer.hops + 1;
    var outcome := wire.Try(ToServer(EffectiveServer(cfg, dec), layer.View()));
    ok, out := true, [Attempt(ToServer(EffectiveServer(cfg, dec), layer.View()), outcome)];
  }

  // ----- What the copies have in common -----

  lemma {:induction false} RequestOpt82Encodes(resolved: Resolved, dec: Decision, ifIndex: int)
    ensures var o := RequestOpt82(resolved, dec, ifIndex);
      && o.typ == RELAY_AGENT_INFORMATION && IsOption(o) && o.data != []
      && Decoded(o.data) == RequestSubOptions(ifIndex, LinkSubnet(resolved), dec.policyTag)
  {
    RequestEncodes(ifIndex, LinkSubnet(resolved), dec.policyTag);
  }

  /**
   * When every copy serializes there is exactly one per giaddr, in order, whichever sends failed; each is the original
   * with one more hop, its own giaddr, and the same options, of which just one is Option 82.
   */
  lemma {:induction false} RequestCopies(
    server: string, resolved: Resolved, dec: Decision, ifIndex: int, p: Packet, q: Packet, out: seq<Attempt>)
    requires RelaysResolved(server, resolved, dec, ifIndex, p, q, out)
    requires forall k :: 0 <= k < |out| ==> out[k].outcome != NotSerialized
    ensures |out| == |Giaddrs(resolved)|
    ensures forall k :: 0 <= k < |out| ==>
      out[k].what == ToServer(server, p.(hops := p.hops + 1, options := q.options, giaddr := Giaddrs(resolved)[k]))
    ensures Count(q.options, RELAY_AGENT_INFORMATION) == 1
  {
    RequestOpt82Encodes(resolved, dec, ifIndex);
    SetOptionGet(p.options, RequestOpt82(resolved, dec, ifIndex), q.options);
  }

  /** Every copy of a request names, in its Option 82, the interface it came in on. */
  lemma {:induction false} RequestCarriesIngress(resolved: Resolved, dec: Decision, ifIndex: nat, p: Packet, q: Packet)
    requires IsRelayed(p, RequestOpt82(resolved, dec, ifIndex), q)
    ensures GetOption(q.options, RELAY_AGENT_INFORMATION) == RequestOpt82(resolved, dec, ifIndex)
    ensures var subs := Decoded(RequestOpt82(resolved, dec, ifIndex).data);
      && subs == RequestSubOptions(ifIndex, LinkSubnet(resolved), dec.policyTag)
      && subs != [] && ExtractCircuitId(subs) == ifIndex % 0x1_0000_0000
  {
    RequestOpt82Encodes(resolved, dec, ifIndex);
    SetOptionGet(p.options, RequestOpt82(resolved, dec, ifIndex), q.options);
    CircuitIdRoundTrip(ifIndex, LinkSubnet(resolved), dec.policyTag);
  }
}
