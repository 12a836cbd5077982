/** The mutable layers a handler works on, and the log of what it sent. */
module Layers {
  import opened Packets
  import opened Hosts
  import opened Options

  datatype Datagram =
    | ToServer(server: string, pkt: Packet)
    | ToRelay(giaddr: IP, pkt: Packet)
    | Frame(nic: Nic, srcIP: IP, dstIP: IP, dstMAC: seq<Byte>, pkt: Packet)

  datatype Outcome = Sent | SendFailed | NotSerialized

  datatype Attempt = Attempt(what: Datagram, outcome: Outcome)

  /** Everything the handler tried to send, in order; how each attempt ends is up to the environment. */
  class Wire {
    var log: seq<Attempt>

    constructor ()
      ensures log == []
    {
      log := [];
    }

    method Try(what: Datagram) returns (outcome: Outcome)
      modifies this
      ensures log == old(log) + [Attempt(what, outcome)]
    {
      outcome := *;
      log := log + [Attempt(what, outcome)];
    }
  }

  /** The IPv4 header fields of a reply that change from copy to copy. */
  class Ipv4Layer {
    var srcIP: IP
    var dstIP: IP

    constructor ()
    {
      srcIP, dstIP := NoIP, NoIP;
    }
  }

  /** The DHCPv4 layer, updated in place. */
  class Dhcpv4Layer {
    var op: Operation
    var hops: Byte
    var flags: Flags16
    var ciaddr: IP
    var yiaddr: IP
    var giaddr: IP
    var chaddr: seq<Byte>
    var options: seq<DhcpOption>
    var rest: seq<Byte>

    constructor (p: Packet)
      ensures View() == p
    {
      op, hops, flags := p.op, p.hops, p.flags;
      ciaddr, yiaddr, giaddr := p.ciaddr, p.yiaddr, p.giaddr;
      chaddr, options, rest := p.chaddr, p.options, p.rest;
    }

    function View(): (p: Packet)
      reads this
    {
      Packet(op, hops, flags, ciaddr, yiaddr, giaddr, chaddr, options, rest)
    }

    /** Every option of this type is removed before the new one is appended and the list sorted. */
    method SetOption(o: DhcpOption)
      modifies this`options
      ensures IsSetOption(old(options), o, options)
    {
      options := Without(options, o.typ);
      options := SortByType(options + [o]);
    }

    method DeleteOption(t: Byte)
      modifies this`options
      ensures options == Without(old(options), t)
      ensures OthersInPlace(old(options), t, options)
    {
      hide OthersInPlace;
      WithoutInPlace(options, t);
      options := Without(options, t);
    }

    method SetUnicast()
      modifies this`flags
      ensures IsUnicast(flags) && flags % 0x8000 == old(flags) % 0x8000
    {
      flags := flags % 0x8000;
    }

    method SetBroadcast()
      modifies this`flags
      ensures !IsUnicast(flags) && flags % 0x8000 == old(flags) % 0x8000
    {
      flags := flags % 0x8000 + 0x8000;
    }
  }
}
