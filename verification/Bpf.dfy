/** The classic BPF program on the receive socket, and the header checks made again after decoding. */
module Bpf {
  import opened Hosts
  import opened Numbers
  import opened Packets

  // ----- The machine -----

  datatype Size = OneByte | TwoBytes

  /** The instructions the filter uses. Jump offsets count from the next instruction and only go forward. */
  datatype Instruction =
    | LoadAbs(size: Size, k: nat)
    | LoadInd(size: Size, k: nat)
    | LoadLen
    | LoadXHeaderLength(k: nat)
    | AndK(k: nat)
    | JumpEq(k: nat, jt: nat, jf: nat)
    | JumpGe(k: nat, jt: nat, jf: nat)
    | JumpGt(k: nat, jt: nat, jf: nat)
    | JumpSet(k: nat, jt: nat, jf: nat)
    | Return(k: nat)

  /** Bitwise and. */
  function And(a: nat, b: nat): nat {
    if a == 0 || b == 0 then 0 else 2 * And(a / 2, b / 2) + (a % 2) * (b % 2)
  }

  function BigEndian(high: nat, low: nat): nat {
    0x100 * high + low
  }

  function Load(frame: seq<Byte>, size: Size, at: nat): Option<nat> {
    match size
    case OneByte => if at + 1 <= |frame| then Some(frame[at]) else None
    case TwoBytes => if at + 2 <= |frame| then Some(BigEndian(frame[at], frame[at + 1])) else None
  }

  /** The value returned to the kernel, or a jump out of the program. */
  datatype Result = Accept(snapLen: nat) | Crash

  /** Runs from `pc` with accumulator `a` and index register `x`. A load beyond the frame drops it. */
  function Exec(prog: seq<Instruction>, frame: seq<Byte>, pc: nat, a: nat, x: nat): (r: Result)
    decreases |prog| - pc
  {
    if pc >= |prog| then Crash
    else match prog[pc]
      case LoadAbs(size, k) =>
        (match Load(frame, size, k) case None => Accept(0) case Some(v) => Exec(prog, frame, pc + 1, v, x))
      case LoadInd(size, k) =>
        (match Load(frame, size, x + k) case None => Accept(0) case Some(v) => Exec(prog, frame, pc + 1, v, x))
      case LoadLen => Exec(prog, frame, pc + 1, |frame|, x)
      case LoadXHeaderLength(k) =>
        (match Load(frame, OneByte, k)
         case None => Accept(0)
         case Some(v) => Exec(prog, frame, pc + 1, a, 4 * And(v, 0x0F)))
      case AndK(k) => Exec(prog, frame, pc + 1, And(a, k), x)
      case JumpEq(k, jt, jf) => Exec(prog, frame, pc + 1 + if a == k then jt else jf, a, x)
      case JumpGe(k, jt, jf) => Exec(prog, frame, pc + 1 + if a >= k then jt else jf, a, x)
      case JumpGt(k, jt, jf) => Exec(prog, frame, pc + 1 + if a > k then jt else jf, a, x)
      case JumpSet(k, jt, jf) => Exec(prog, frame, pc + 1 + if And(a, k) != 0 then jt else jf, a, x)
      case Return(k) => Accept(k)
  }

  // ----- The program -----

  const ETHERNET_HEADER := 14
  /** The Ethernet, IPv4 and UDP headers of a frame without IPv4 options. */
  const HEADERS := ETHERNET_HEADER + 20 + 8
  const ETHER_TYPE_OFFSET := 12
  const FLAGS_OFFSET := ETHERNET_HEADER + 6
  const PROTOCOL_OFFSET := ETHERNET_HEADER + 9
  const SRC_OFFSET := ETHERNET_HEADER + 12
  const UDP_DST_PORT_OFFSET := ETHERNET_HEADER + 2

  const ETH_P_IP := 0x800
  const IPPROTO_UDP := 17
  const MIN_IHL := 5
  const SERVER_PORT := 67
  const MIN_MESSAGE_SIZE := 244

  function Filter(mtu: nat): (prog: seq<Instruction>)
    ensures |prog| == 18
  {
    [ LoadAbs(TwoBytes, ETHER_TYPE_OFFSET),
      JumpEq(ETH_P_IP, 0, 15),
      LoadAbs(OneByte, ETHERNET_HEADER),
      AndK(0x0F),
      JumpGe(MIN_IHL, 0, 12),
      JumpGt(MIN_IHL, 11, 0),
      LoadAbs(OneByte, PROTOCOL_OFFSET),
      JumpEq(IPPROTO_UDP, 0, 9),
      LoadAbs(TwoBytes, FLAGS_OFFSET),
      JumpSet(0x3FFF, 7, 0),
      LoadXHeaderLength(ETHERNET_HEADER),
      LoadInd(TwoBytes, UDP_DST_PORT_OFFSET),
      JumpEq(SERVER_PORT, 0, 4),
      LoadLen,
      JumpGe(MIN_MESSAGE_SIZE, 0, 2),
      JumpGt(mtu, 1, 0),
      Return(mtu),
      Return(0) ]
  }

  // ----- Header fields -----

  function Word(frame: seq<Byte>, at: nat): nat
    requires at + 2 <= |frame|
  {
    BigEndian(frame[at], frame[at + 1])
  }

  /** The IPv4 header length field, in words. */
  function Ihl(frame: seq<Byte>): nat
    requires ETHERNET_HEADER < |frame|
  {
    frame[ETHERNET_HEADER] % 0x10
  }

  /** The three flag bits and the thirteen-bit fragment offset, as a decoder splits them. */
  function IpFlags(frame: seq<Byte>): nat
    requires FLAGS_OFFSET + 2 <= |frame|
  {
    Word(frame, FLAGS_OFFSET) / 0x2000
  }

  function FragOffset(frame: seq<Byte>): nat
    requires FLAGS_OFFSET + 2 <= |frame|
  {
    Word(frame, FLAGS_OFFSET) % 0x2000
  }

  predicate MoreFragments(frame: seq<Byte>)
    requires FLAGS_OFFSET + 2 <= |frame|
  {
    IpFlags(frame) % 2 == 1
  }

  /** The destination port, after an IPv4 header of the length the header itself gives. */
  function DstPort(frame: seq<Byte>): nat
    requires ETHERNET_HEADER < |frame| && ETHERNET_HEADER + 4 * Ihl(frame) + 4 <= |frame|
  {
    Word(frame, ETHERNET_HEADER + 4 * Ihl(frame) + 2)
  }

  /** What the filter is for: whole, option-free IPv4/UDP frames to the DHCP server port, within the size limits. */
  predicate Wanted(frame: seq<Byte>, mtu: nat) {
    244 <= |frame| <= mtu && WantedHeaders(frame)
  }

  predicate WantedHeaders(frame: seq<Byte>)
    requires 42 <= |frame|
  {
    && frame[12] == 0x08 && frame[13] == 0x00
    && frame[14] % 16 == 5
    && frame[23] == 17
    && !MoreFragments(frame) && FragOffset(frame) == 0
    && frame[36] == 0 && frame[37] == 67
  }

  /** The same, on the fields a decoder splits the bytes into. */
  lemma {:induction false} WantedFields(frame: seq<Byte>)
    requires HEADERS <= |frame|
    ensures WantedHeaders(frame) <==>
      && Word(frame, ETHER_TYPE_OFFSET) == ETH_P_IP
      && Ihl(frame) == MIN_IHL
      && frame[PROTOCOL_OFFSET] == IPPROTO_UDP
      && !MoreFragments(frame) && FragOffset(frame) == 0
      && DstPort(frame) == SERVER_PORT
  {
    hide MoreFragments, FragOffset;
  }

  // ----- Bit masks -----

  lemma {:induction false} AndOdd(a: nat, m: nat)
    requires m >= 1
    ensures And(a, 2 * m - 1) == 2 * And(a / 2, m - 1) + a % 2
  {
    assert (2 * m - 1) / 2 == m - 1 && (2 * m - 1) % 2 == 1;
  }

  /** Masking with the low `k` bits is taking the remainder. */
  lemma {:induction false} AndMask(a: nat, k: nat)
    ensures Power(2, k) >= 1 && And(a, Power(2, k) - 1) == a % Power(2, k)
    decreases k
  {
    if k > 0 {
      AndMask(a / 2, k - 1);
      AndOdd(a, Power(2, k - 1));
      HalveRemainder(a, Power(2, k - 1));
    }
  }

  lemma {:induction false} HalveRemainder(a: nat, m: nat)
    requires m > 0
    ensures a % (2 * m) == 2 * (a / 2 % m) + a % 2
  {
    var q, r := a / 2 / m, a / 2 % m;
    assert a == 2 * (q * m + r) + a % 2;
    RemainderUnique(a, 2 * m, q, 2 * r + a % 2);
  }

  lemma {:induction false} RemainderUnique(a: nat, d: nat, q: nat, r: nat)
    requires a == q * d + r && r < d
    ensures a % d == r
  {
    var e := a / d - q;
    assert e * d == r - a % d;
    assert e >= 1 ==> e * d >= d;
    assert e <= -1 ==> e * d + d <= 0;
  }

  lemma {:induction false} MaskNibble(a: nat)
    ensures And(a, 0x0F) == a % 0x10
  {
    AndMask(a, 4);
    assert Power(2, 4) == 16;
  }

  /** The fragment mask covers More Fragments and the offset, and neither of the two other flags. */
  lemma {:induction false} MaskFragment(frame: seq<Byte>)
    requires FLAGS_OFFSET + 2 <= |frame|
    ensures And(Word(frame, FLAGS_OFFSET), 0x3FFF) == 0 <==> !MoreFragments(frame) && FragOffset(frame) == 0
  {
    AndMask(Word(frame, FLAGS_OFFSET), 14);
    Power2At14();
    FragmentBits(Word(frame, FLAGS_OFFSET));
  }

  lemma {:induction false} Power2At14()
    ensures Power(2, 14) == 0x4000
  {
    assert Power(2, 4) == 0x10;
    assert Power(2, 9) == 0x200;
  }

  lemma {:induction false} FragmentBits(w: nat)
    ensures w % 0x4000 == 0x2000 * (w / 0x2000 % 2) + w % 0x2000
  {
  }

  // ----- The filter is its specification -----

  lemma {:induction false} Tail(frame: seq<Byte>, mtu: nat, a: nat, x: nat)
    ensures Exec(Filter(mtu), frame, 17, a, x) == Accept(0)
    ensures Exec(Filter(mtu), frame, 13, a, x) == Accept(if MIN_MESSAGE_SIZE <= |frame| <= mtu then mtu else 0)
  {
    var p := Filter(mtu);
    assert Exec(p, frame, 17, a, x) == Accept(0);
    assert Exec(p, frame, 17, |frame|, x) == Accept(0);
    assert Exec(p, frame, 16, |frame|, x) == Accept(mtu);
    assert Exec(p, frame, 15, |frame|, x) == if |frame| > mtu then Accept(0) else Accept(mtu);
    assert Exec(p, frame, 14, |frame|, x) ==
      if |frame| >= MIN_MESSAGE_SIZE then Exec(p, frame, 15, |frame|, x) else Accept(0);
  }

  /** From the destination port on, with the header length known to be five words. */
  lemma {:induction false} PortOn(frame: seq<Byte>, mtu: nat, a: nat, x: nat)
    requires ETHERNET_HEADER < |frame| && Ihl(frame) == MIN_IHL
    ensures Exec(Filter(mtu), frame, 10, a, x) ==
      Accept(if MIN_MESSAGE_SIZE <= |frame| <= mtu && DstPort(frame) == SERVER_PORT then mtu else 0)
  {
    var p := Filter(mtu);
    MaskNibble(frame[ETHERNET_HEADER]);
    assert Exec(p, frame, 10, a, x) == Exec(p, frame, 11, a, 20);
    if |frame| >= 38 {
      var port := DstPort(frame);
      assert Exec(p, frame, 11, a, 20) == Exec(p, frame, 12, port, 20);
      assert Exec(p, frame, 12, port, 20) == Exec(p, frame, if port == SERVER_PORT then 13 else 17, port, 20);
      Tail(frame, mtu, port, 20);
    }
  }

  /** From the protocol on. */
  lemma {:induction false} ProtocolOn(frame: seq<Byte>, mtu: nat, a: nat, x: nat)
    requires ETHERNET_HEADER < |frame| && Ihl(frame) == MIN_IHL
    ensures Exec(Filter(mtu), frame, 6, a, x) ==
      Accept(if
        && MIN_MESSAGE_SIZE <= |frame| <= mtu
        && frame[PROTOCOL_OFFSET] == IPPROTO_UDP
        && !MoreFragments(frame) && FragOffset(frame) == 0
        && DstPort(frame) == SERVER_PORT
      then mtu else 0)
  {
    var p := Filter(mtu);
    if PROTOCOL_OFFSET < |frame| {
      var protocol := frame[PROTOCOL_OFFSET];
      assert Exec(p, frame, 6, a, x) == Exec(p, frame, 7, protocol, x);
      assert Exec(p, frame, 7, protocol, x) == Exec(p, frame, if protocol == IPPROTO_UDP then 8 else 17, protocol, x);
      Tail(frame, mtu, protocol, x);
      if protocol == IPPROTO_UDP {
        var flags := Word(frame, FLAGS_OFFSET);
        MaskFragment(frame);
        assert Exec(p, frame, 8, protocol, x) == Exec(p, frame, 9, flags, x);
        assert Exec(p, frame, 9, flags, x) == Exec(p, frame, if And(flags, 0x3FFF) != 0 then 17 else 10, flags, x);
        Tail(frame, mtu, flags, x);
        PortOn(frame, mtu, flags, x);
      }
    }
  }

  /**
   * On every byte sequence and for every size limit the program ends with a verdict: the limit as snapshot length
   * exactly for the wanted frames, and zero, which drops the frame, for all others.
   */
  lemma {:induction false} FilterMeetsSpec(frame: seq<Byte>, mtu: nat)
    ensures Exec(Filter(mtu), frame, 0, 0, 0) == Accept(if Wanted(frame, mtu) then mtu else 0)
  {
    hide WantedHeaders, DstPort, FragOffset;
    var p := Filter(mtu);
    if HEADERS <= |frame| {
      WantedFields(frame);
    }
    if ETHERNET_HEADER <= |frame| {
      var etherType := Word(frame, ETHER_TYPE_OFFSET);
      assert Exec(p, frame, 0, 0, 0) == Exec(p, frame, 1, etherType, 0);
      assert Exec(p, frame, 1, etherType, 0) == Exec(p, frame, if etherType == ETH_P_IP then 2 else 17, etherType, 0);
      Tail(frame, mtu, etherType, 0);
      if etherType == ETH_P_IP && ETHERNET_HEADER < |frame| {
        var first := frame[ETHERNET_HEADER];
        MaskNibble(first);
        var ihl := Ihl(frame);
        assert Exec(p, frame, 2, etherType, 0) == Exec(p, frame, 3, first, 0);
        assert Exec(p, frame, 3, first, 0) == Exec(p, frame, 4, ihl, 0);
        assert Exec(p, frame, 4, ihl, 0) == Exec(p, frame, if ihl >= MIN_IHL then 5 else 17, ihl, 0);
        assert Exec(p, frame, 5, ihl, 0) == Exec(p, frame, if ihl > MIN_IHL then 17 else 6, ihl, 0);
        Tail(frame, mtu, ihl, 0);
        if ihl == MIN_IHL {
          ProtocolOn(frame, mtu, ihl, 0);
        }
      }
    }
  }

  /** An accepted frame fits whole into a receive buffer of the same size: nothing is truncated. */
  lemma {:induction false} AcceptedFitsBuffer(frame: seq<Byte>, mtu: nat)
    requires mtu > 0 && Exec(Filter(mtu), frame, 0, 0, 0) != Accept(0)
    ensures Exec(Filter(mtu), frame, 0, 0, 0) == Accept(mtu) && |frame| <= mtu
  {
    FilterMeetsSpec(frame, mtu);
  }

  // ----- The size limits -----

  /**
   * The limits are on the frame: a message of `n` bytes without a trailer gets through exactly when `n` and the 42
   * header bytes together are within them.
   */
  lemma {:induction false} SizeExactly(frame: seq<Byte>, mtu: nat, n: nat)
    requires |frame| == HEADERS + n && WantedHeaders(frame)
    ensures Exec(Filter(mtu), frame, 0, 0, 0) != Accept(0) <==> MIN_MESSAGE_SIZE <= n + 42 <= mtu
  {
    FilterMeetsSpec(frame, mtu);
  }

  const TOTAL_LENGTH_OFFSET := ETHERNET_HEADER + 2
  const UDP_LENGTH_OFFSET := ETHERNET_HEADER + 20 + 4

  /** A frame with all the headers the filter asks for, for `n` bytes of message, and the lengths to go with them. */
  function FrameOf(n: nat): (frame: seq<Byte>)
    ensures |frame| == HEADERS + n && WantedHeaders(frame)
    ensures n + 28 < 0x1_0000 ==>
      Word(frame, TOTAL_LENGTH_OFFSET) == n + 28 && Word(frame, UDP_LENGTH_OFFSET) == n + 8
  {
    hide High, Low;
    var frame: seq<Byte> := seq(HEADERS + n, (k: nat) => HeaderByte(n, k));
    assert frame[12] == 0x08 && frame[13] == 0 && frame[14] == 0x45 && frame[20] == 0 && frame[21] == 0;
    assert frame[23] == IPPROTO_UDP && frame[36] == 0 && frame[37] == SERVER_PORT;
    assert frame[16] == High(n + 28) && frame[17] == Low(n + 28);
    assert frame[38] == High(n + 8) && frame[39] == Low(n + 8);
    SplitWord(n + 28);
    SplitWord(n + 8);
    frame
  }

  function High(w: nat): Byte {
    w / 0x100 % 0x100
  }

  function Low(w: nat): Byte {
    w % 0x100
  }

  lemma {:induction false} SplitWord(w: nat)
    ensures w < 0x1_0000 ==> BigEndian(High(w), Low(w)) == w
  {
  }

  function HeaderByte(n: nat, k: nat): Byte {
    if k == ETHER_TYPE_OFFSET then 0x08
    else if k == ETHERNET_HEADER then 0x45
    else if k == TOTAL_LENGTH_OFFSET then High(n + 28)
    else if k == TOTAL_LENGTH_OFFSET + 1 then Low(n + 28)
    else if k == PROTOCOL_OFFSET then IPPROTO_UDP
    else if k == 37 then SERVER_PORT
    else if k == UDP_LENGTH_OFFSET then High(n + 8)
    else if k == UDP_LENGTH_OFFSET + 1 then Low(n + 8)
    else 0
  }

  /**
   * The lower limit lets every message from 202 bytes on pass, below the minimum it is named for; the upper one drops
   * every IPv4 packet within 14 bytes of the MTU, full-size ones included.
   */
  lemma {:induction false} LimitsMissTheMessage(n: nat, mtu: nat)
    ensures 202 <= n < MIN_MESSAGE_SIZE <= n + 42 <= mtu ==> Exec(Filter(mtu), FrameOf(n), 0, 0, 0) == Accept(mtu)
    ensures mtu < n + 42 <= mtu + ETHERNET_HEADER ==> Exec(Filter(mtu), FrameOf(n), 0, 0, 0) == Accept(0)
  {
    FilterMeetsSpec(FrameOf(n), mtu);
  }

  // ----- Agreement with the validator -----

  /** The decoded IPv4 and UDP fields the validator looks at. */
  datatype Headers = Headers(flags: nat, fragOffset: nat, ihl: nat, src: Addr, dst: Addr, dstPort: nat)

  /** The decoded DHCPv4 fields it looks at: hardware type and length, and the size of the message. */
  datatype Message = Message(hardwareType: nat, hardwareLen: nat, len: nat)

  /** The limit, whether checksums are to be verified, and what the library then says of the two. */
  datatype Checks = Checks(mtu: nat, verify: bool, ipv4Sum: bool, udpSum: bool)

  const LINK_TYPE_ETHERNET := 1

  /** The validator, check by check. A limit of zero is none; one below the minimum is refused. */
  predicate Validates(checks: Checks, h: Headers, m: Message) {
    && !(checks.mtu != 0 && checks.mtu < MIN_MESSAGE_SIZE)
    && !(h.flags % 2 == 1 || h.fragOffset > 0)
    && !(h.ihl > MIN_IHL)
    && !IsMulticast(h.src)
    && !IsMulticast(h.dst)
    && h.dstPort == SERVER_PORT
    && m.hardwareType == LINK_TYPE_ETHERNET
    && m.hardwareLen == MAC_LENGTH
    && !(m.len < MIN_MESSAGE_SIZE || (checks.mtu > 0 && m.len > checks.mtu))
    && (checks.verify ==> checks.ipv4Sum && checks.udpSum)
  }

  /** The limit: zero is none, one below the minimum lets nothing pass. */
  lemma {:induction false} LimitRules(checks: Checks, h: Headers, m: Message)
    ensures 0 < checks.mtu < 244 ==> !Validates(checks, h, m)
    ensures checks.mtu == 0 ==>
      (Validates(checks, h, m) <==> m.len >= 244 && Validates(checks.(mtu := 65535), h, m.(len := 244)))
  {
  }

  /** The decoder takes a frame for IPv4 and UDP with a complete header. */
  predicate DecodesAsUdp(frame: seq<Byte>) {
    && ETHERNET_HEADER < |frame| && Ihl(frame) >= MIN_IHL
    && ETHERNET_HEADER + 4 * Ihl(frame) + 8 <= |frame|
    && Word(frame, ETHER_TYPE_OFFSET) == ETH_P_IP
    && frame[PROTOCOL_OFFSET] == IPPROTO_UDP
  }

  function AddrAt(frame: seq<Byte>, at: nat): Addr
    requires at + 4 <= |frame|
  {
    0x1_0000 * Word(frame, at) + Word(frame, at + 2)
  }

  function DecodeHeaders(frame: seq<Byte>): Headers
    requires DecodesAsUdp(frame)
  {
    Headers(IpFlags(frame), FragOffset(frame), Ihl(frame),
            AddrAt(frame, SRC_OFFSET), AddrAt(frame, SRC_OFFSET + 4), DstPort(frame))
  }

  /** Where the DHCPv4 message begins. */
  function MessageOffset(frame: seq<Byte>): nat
    requires DecodesAsUdp(frame)
  {
    ETHERNET_HEADER + 4 * Ihl(frame) + 8
  }

  /** The decoder also needs the fixed fields of a DHCPv4 message and its magic cookie. */
  predicate DecodesAsDhcp(frame: seq<Byte>) {
    DecodesAsUdp(frame) && MessageOffset(frame) + 240 <= |frame|
  }

  /** The fixed fields come from the frame; `len` is the size the library computes from the options. */
  function DecodeMessage(frame: seq<Byte>, len: nat): Message
    requires DecodesAsDhcp(frame)
  {
    Message(frame[MessageOffset(frame) + 1], frame[MessageOffset(frame) + 2], len)
  }

  /** An address is multicast exactly when its first byte starts with 1110. */
  lemma {:induction false} MulticastByte(frame: seq<Byte>, at: nat)
    requires at + 4 <= |frame|
    ensures IsMulticast(AddrAt(frame, at)) <==> 0xE0 <= frame[at] < 0xF0
  {
    assert AddrAt(frame, at) == 0x100_0000 * frame[at] + (0x1_0000 * frame[at + 1] + Word(frame, at + 2));
  }

  /**
   * On decodable frames within the size limits, the validator passes exactly those the filter accepts whose addresses
   * are not multicast, whose message, right after 42 header bytes, is for Ethernet and of a legal size, and whose
   * checksums, if asked for, are right. So the filter never drops such a frame the validator would pass, and those are
   * all the checks the filter leaves to it.
   */
  lemma {:induction false} FilterAgreesWithValidator(frame: seq<Byte>, checks: Checks, len: nat)
    requires DecodesAsDhcp(frame) && MIN_MESSAGE_SIZE <= |frame| <= checks.mtu
    ensures Validates(checks, DecodeHeaders(frame), DecodeMessage(frame, len)) <==>
      && Exec(Filter(checks.mtu), frame, 0, 0, 0) == Accept(checks.mtu)
      && !(0xE0 <= frame[SRC_OFFSET] < 0xF0) && !(0xE0 <= frame[SRC_OFFSET + 4] < 0xF0)
      && frame[HEADERS + 1] == LINK_TYPE_ETHERNET && frame[HEADERS + 2] == MAC_LENGTH
      && MIN_MESSAGE_SIZE <= len <= checks.mtu
      && (checks.verify ==> checks.ipv4Sum && checks.udpSum)
  {
    hide IsMulticast, AddrAt, Exec, Filter, WantedHeaders, DstPort, FragOffset;
    FilterMeetsSpec(frame, checks.mtu);
    WantedFields(frame);
    MulticastByte(frame, SRC_OFFSET);
    MulticastByte(frame, SRC_OFFSET + 4);
  }
}
