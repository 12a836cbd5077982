/** The values the relay works on: option lists, IPv4 addresses and decoded DHCPv4 messages. */
module Packets {

  datatype Option<+T> = None | Some(value: T)

  type Byte = x: nat | x < 0x100
  type Flags16 = x: nat | x < 0x1_0000
  type Addr = x: nat | x < 0x1_0000_0000

  /** A Go `net.IP`: nil (or not IPv4), or the four bytes of an IPv4 address read as one number. */
  datatype IP = NoIP | V4(addr: Addr)

  /** One DHCP option or Option 82 sub-option. `length` is the wire length byte; nothing ties it to `|data|`. */
  datatype DhcpOption = DhcpOption(typ: Byte, length: Byte, data: seq<Byte>)

  /** The length of an Ethernet address. */
  const MAC_LENGTH := 6

  const ZeroOption := DhcpOption(0, 0, [])

  const PAD: Byte := 0
  const MESSAGE_TYPE: Byte := 53
  const CLIENT_ID: Byte := 61
  const RELAY_AGENT_INFORMATION: Byte := 82
  const END: Byte := 255

  datatype Operation = Request | Reply | OtherOp(code: Byte)

  /** A decoded DHCPv4 message. `rest` stands for the fields no relay step reads or writes. */
  datatype Packet = Packet(
    op: Operation, hops: Byte, flags: Flags16,
    ciaddr: IP, yiaddr: IP, giaddr: IP,
    chaddr: seq<Byte>, options: seq<DhcpOption>, rest: seq<Byte>)

  predicate IsOption(o: DhcpOption) {
    o.length > 0
  }

  /** The first option of type `t`, or the zero option. */
  function GetOption(opts: seq<DhcpOption>, t: Byte): (o: DhcpOption)
    ensures IsOption(o) ==> o in opts && o.typ == t
    ensures (forall e :: e in opts ==> e.typ != t) ==> o == ZeroOption
  {
    if opts == [] then ZeroOption
    else if opts[0].typ == t then opts[0]
    else GetOption(opts[1..], t)
  }

  /** The broadcast flag test; the DHCPv4 flags word is 0x8000 plus bits nobody uses. */
  predicate IsUnicast(flags: Flags16) {
    flags < 0x8000
  }

  /** A message type option holding one of the eight types the relay handles. */
  predicate HasMessageType(opts: seq<DhcpOption>) {
    var o := GetOption(opts, MESSAGE_TYPE);
    IsOption(o) && |o.data| > 0 && o.length == 1 && 1 <= o.data[0] <= 8
  }
}
