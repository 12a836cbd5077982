/** Dispatch of one received message: filter, policy, then the request or reply path. */
module Handler {
  import opened Packets
  import opened Hosts
  import opened Layers
  import opened Options
  import opened RelayPolicy
  import opened Replies
  import opened Requests

  function KindOf(p: Packet): ReplyKind {
    if IsUnicast(p.flags) then UnicastReply else BroadcastReply
  }

  /** A message `p` leaves the layer as `q` and causes the attempts `out`. */
  ghost predicate Handles(
    cfg: Config, host: Host, dec: Decision, ifIndex: int, p: Packet, q: Packet, out: seq<Attempt>)
  {
    if !HasMessageType(p.options) then q == p && out == []
    else match p.op
      case Request =>
        if p.hops > 0 then
          ForwardsRequest(cfg, dec, p, out) && q == if out == [] then p else p.(hops := p.hops + 1)
        else RelaysRequest(cfg, host, dec, ifIndex, p, q, out)
      case Reply =>
        if p.hops < 1 || p.hops > cfg.maxHops || dec.dropReply then q == p && out == []
        else if !GiaddrIsLocal(cfg, host, p.giaddr) then
          ForwardsReply(p, out) && q == if out == [] then p else p.(hops := p.hops - 1)
        else
          DeliversReply(cfg, host, dec, p, KindOf(p), out) && q == ReplyLayer(host, dec, p, KindOf(p))
      case OtherOp(_) => q == p && out == []
  }

  method Handle(cfg: Config, host: Host, dec: Decision, ifIndex: int, layer: Dhcpv4Layer, wire: Wire)
    returns (ghost out: seq<Attempt>)
    modifies layer, wire
    ensures wire.log == old(wire.log) + out
    ensures Handles(cfg, host, dec, ifIndex, old(layer.View()), layer.View(), out)
  {
    out := [];
    if !HasMessageType(layer.options) {
      return;
    }
    var ok;
    match layer.op {
      case Request =>
        if layer.hops > 0 {
          ok, out := ForwardRelayedRequest(cfg, dec, layer, wire);
          return;
        }
        ok, out := HandleGenericRequest(cfg, host, dec, ifIndex, layer, wire);
      case Reply =>
        if layer.hops < 1 || layer.hops > cfg.maxHops {
          return;
        }
        if dec.dropReply {
          return;
        }
        var local := IsGiaddrLocal(cfg, host, layer.giaddr);
        if !local {
          ok, out := ForwardRelayedReply(layer, wire);
          return;
        }
        if IsUnicast(layer.flags) {
          ok, out := HandleGenericReply(cfg, host, dec, layer, UnicastReply, wire);
        } else {
          ok, out := HandleGenericReply(cfg, host, dec, layer, BroadcastReply, wire);
        }
      case OtherOp(_) =>
    }
  }

  /** The message after split options are dropped. */
  function Filtered(p: Packet): Packet {
    p.(options := WithoutSplits(p.options))
  }

  /** The decision for a filtered message; None drops it. Without a policy nothing is dropped or overridden. */
  function DecisionFor(policy: Option<Policy>, p: Packet): Option<Decision> {
    match policy case None => Some(NoDecision) case Some(tables) => PolicyForPacket(tables, p)
  }

  ghost predicate Receives(
    cfg: Config, host: Host, policy: Option<Policy>, ifIndex: int, p: Packet, q: Packet, out: seq<Attempt>)
  {
    if ifIndex < 1 then q == p && out == []
    else if DecisionFor(policy, Filtered(p)).None? then q == Filtered(p) && out == []
    else Handles(cfg, host, DecisionFor(policy, Filtered(p)).value, ifIndex, Filtered(p), q, out)
  }

  /** One received message, once its frame has decoded and passed validation. */
  method HandlePacket(cfg: Config, host: Host, policy: Option<Policy>, ifIndex: int, layer: Dhcpv4Layer, wire: Wire)
    returns (ghost out: seq<Attempt>)
    modifies layer, wire
    ensures wire.log == old(wire.log) + out
    ensures Receives(cfg, host, policy, ifIndex, old(layer.View()), layer.View(), out)
  {
    out := [];
    if ifIndex < 1 {
      return;
    }
    layer.options := FilterOptions(layer.options);
    assert layer.View() == Filtered(old(layer.View()));
    var dec := NoDecision;
    if policy.Some? {
      var d := PolicyForPacket(policy.value, layer.View());
      if d.None? {
        return;
      }
      dec := d.value;
    }
    out := Handle(cfg, host, dec, ifIndex, layer, wire);
  }

  /** The filter on the layer's backing array. */
  method FilterOptions(options: seq<DhcpOption>) returns (r: seq<DhcpOption>)
    ensures r == WithoutSplits(options)
  {
    var a := new DhcpOption[|options|](k requires 0 <= k < |options| => options[k]);
    assert a[..] == options;
    var n := DeleteSplitOptions(a);
    r := a[..n];
  }
}
