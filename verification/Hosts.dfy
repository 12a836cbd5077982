/** Interfaces, addresses and configuration of one relay host, and the tests on IPv4 addresses. */
module Hosts {
  import opened Packets
  import opened Numbers

  // ----- Address classes -----

  const BROADCAST: Addr := 0xFFFF_FFFF

  predicate IsLoopback(a: Addr) {
    a / 0x100_0000 == 127
  }

  predicate IsMulticast(a: Addr) {
    a / 0x1000_0000 == 0xE
  }

  predicate IsLinkLocal(a: Addr) {
    a / 0x1_0000 == 0xA9FE
  }

  /** The one predicate for a usable giaddr. */
  predicate IsGlobalUnicast(ip: IP) {
    && ip.V4?
    && ip.addr != 0 && ip.addr != BROADCAST
    && !IsLoopback(ip.addr) && !IsMulticast(ip.addr) && !IsLinkLocal(ip.addr)
  }

  /** The sanity check both reply paths make before they use a giaddr. */
  predicate UsableGiaddr(ip: IP) {
    ip.V4? && !IsLoopback(ip.addr) && ip.addr != 0 && ip.addr != BROADCAST
  }

  /** The number the four bytes of an address stand for, in network order. */
  function Dotted(a: Byte, b: Byte, c: Byte, d: Byte): Addr {
    0x100_0000 * a + 0x1_0000 * b + 0x100 * c + d
  }

  /** The address classes, byte by byte. */
  lemma {:induction false} AddressClasses(a: Byte, b: Byte, c: Byte, d: Byte)
    ensures IsLoopback(Dotted(a, b, c, d)) <==> a == 127
    ensures IsMulticast(Dotted(a, b, c, d)) <==> 224 <= a <= 239
    ensures IsLinkLocal(Dotted(a, b, c, d)) <==> a == 169 && b == 254
    ensures Dotted(a, b, c, d) == BROADCAST <==> a == b == c == d == 255
    ensures Dotted(a, b, c, d) == 0 <==> a == b == c == d == 0
  {
  }

  /** What may serve as a giaddr, and what a reply may name as one. */
  lemma {:induction false} GiaddrExactly(a: Byte, b: Byte, c: Byte, d: Byte)
    ensures IsGlobalUnicast(V4(Dotted(a, b, c, d))) <==>
      && !(a == b == c == d == 0) && !(a == b == c == d == 255)
      && a != 127 && !(224 <= a <= 239) && !(a == 169 && b == 254)
    ensures UsableGiaddr(V4(Dotted(a, b, c, d))) <==>
      !(a == b == c == d == 0) && !(a == b == c == d == 255) && a != 127
    ensures !IsGlobalUnicast(NoIP) && !UsableGiaddr(NoIP)
  {
    AddressClasses(a, b, c, d);
  }

  // ----- Interfaces -----

  /** An interface address: a bare address, or an address with its prefix length. */
  datatype IfAddr = PlainAddr(ip: IP) | NetAddr(ip: IP, ones: nat)

  /** `addrs` is None when reading the addresses of the interface fails. */
  datatype Nic = Nic(index: int, name: string, mac: seq<Byte>, up: bool, addrs: Option<seq<IfAddr>>)

  /**
   * What the relay reads from its host while handling one packet: interfaces by index, all addresses (None on error),
   * the cached interface list, the source address the kernel picks towards a server, and whether a raw socket opens.
   */
  datatype Host = Host(
    nics: map<int, Nic>, allAddrs: Option<seq<IfAddr>>, cached: seq<Nic>,
    sourceTowards: map<string, IP>, rawSocket: bool)

  /** A NIC that can carry an Ethernet reply. */
  predicate CanCarry(nic: Nic) {
    nic.up && nic.mac != []
  }

  predicate KeepsAddr(a: IfAddr) {
    a.NetAddr? && IsGlobalUnicast(a.ip)
  }

  /** The global unicast addresses of an address list, in order. */
  function GlobalAddrs(addrs: seq<IfAddr>): (r: seq<IfAddr>) {
    if addrs == [] then []
    else GlobalAddrs(addrs[..|addrs| - 1]) + if KeepsAddr(addrs[|addrs| - 1]) then [addrs[|addrs| - 1]] else []
  }

  lemma {:induction false} GlobalAddrsMembers(addrs: seq<IfAddr>, a: IfAddr)
    ensures a in GlobalAddrs(addrs) <==> a in addrs && KeepsAddr(a)
  {
    if addrs != [] {
      GlobalAddrsMembers(addrs[..|addrs| - 1], a);
      assert addrs == addrs[..|addrs| - 1] + [addrs[|addrs| - 1]];
    }
  }

  /** How many of the first `k` addresses are global unicast networks. */
  function KeptAddrs(addrs: seq<IfAddr>, k: nat): nat
    requires k <= |addrs|
  {
    if k == 0 then 0 else KeptAddrs(addrs, k - 1) + if KeepsAddr(addrs[k - 1]) then 1 else 0
  }

  lemma {:induction false} GlobalAddrsLength(addrs: seq<IfAddr>, k: nat)
    requires k <= |addrs|
    ensures |GlobalAddrs(addrs[..k])| == KeptAddrs(addrs, k)
  {
    if k > 0 {
      assert addrs[..k][..k - 1] == addrs[..k - 1];
      GlobalAddrsLength(addrs, k - 1);
    }
  }

  /** A kept address stands after exactly the kept ones before it. */
  lemma {:induction false} GlobalAddrsPosition(addrs: seq<IfAddr>, k: nat, n: nat)
    requires k < n <= |addrs| && KeepsAddr(addrs[k])
    ensures KeptAddrs(addrs, k) < |GlobalAddrs(addrs[..n])| && GlobalAddrs(addrs[..n])[KeptAddrs(addrs, k)] == addrs[k]
  {
    assert addrs[..n][..n - 1] == addrs[..n - 1];
    if k == n - 1 {
      GlobalAddrsLength(addrs, k);
    } else {
      GlobalAddrsPosition(addrs, k, n - 1);
    }
  }

  /** The request path and the reply path share this loop. */
  method InterfaceGlobalUnicastAddrs4(nic: Nic) returns (r: Option<seq<IfAddr>>)
    ensures nic.addrs.None? ==> r == None
    ensures nic.addrs.Some? ==> r == Some(GlobalAddrs(nic.addrs.value))
  {
    if nic.addrs.None? {
      return None;
    }
    var addrs := nic.addrs.value;
    var out: seq<IfAddr> := [];
    for k := 0 to |addrs|
      invariant out == GlobalAddrs(addrs[..k])
    {
      assert addrs[..k + 1][..k] == addrs[..k];
      match addrs[k]
      case PlainAddr(_) =>
      case NetAddr(ip, _) =>
        if IsGlobalUnicast(ip) {
          out := out + [addrs[k]];
        }
    }
    assert addrs[..|addrs|] == addrs;
    r := Some(out);
  }

  /** Whether `y` lies in the subnet of an interface address. */
  predicate Contains(a: IfAddr, y: Addr) {
    && a.NetAddr? && a.ip.V4? && a.ones <= 32
    && a.ip.addr / Power(2, 32 - a.ones) == y / Power(2, 32 - a.ones)
  }

  /** For the usual prefix lengths: the leading bytes agree. */
  lemma {:induction false} ContainsOctets(
    a: Byte, b: Byte, c: Byte, d: Byte, a': Byte, b': Byte, c': Byte, d': Byte)
    ensures var ip, y := V4(Dotted(a, b, c, d)), Dotted(a', b', c', d');
      && Contains(NetAddr(ip, 0), y)
      && (Contains(NetAddr(ip, 8), y) <==> a == a')
      && (Contains(NetAddr(ip, 16), y) <==> a == a' && b == b')
      && (Contains(NetAddr(ip, 24), y) <==> a == a' && b == b' && c == c')
      && (Contains(NetAddr(ip, 32), y) <==> a == a' && b == b' && c == c' && d == d')
  {
    hide Power;
    PowersOfTwo();
    Quotients(a, b, c, d);
    Quotients(a', b', c', d');
  }

  lemma {:induction false} PowersOfTwo()
    ensures Power(2, 0) == 1 && Power(2, 8) == 0x100 && Power(2, 16) == 0x1_0000
    ensures Power(2, 24) == 0x100_0000 && Power(2, 32) == 0x1_0000_0000
  {
    assert Power(2, 4) == 16;
    assert Power(2, 8) == 16 * Power(2, 4);
    assert Power(2, 12) == 16 * Power(2, 8);
    assert Power(2, 16) == 16 * Power(2, 12);
    assert Power(2, 20) == 16 * Power(2, 16);
    assert Power(2, 24) == 16 * Power(2, 20);
    assert Power(2, 28) == 16 * Power(2, 24);
    assert Power(2, 32) == 16 * Power(2, 28);
  }

  lemma {:induction false} Quotients(a: Byte, b: Byte, c: Byte, d: Byte)
    ensures var x := Dotted(a, b, c, d);
      && x / 1 == x && x / 0x100 == 0x1_0000 * a + 0x100 * b + c && x / 0x1_0000 == 0x100 * a + b
      && x / 0x100_0000 == a && x / 0x1_0000_0000 == 0
  {
  }

  /** The address at `k` is the first of the list whose subnet holds `y`. */
  predicate IsFirstContaining(addrs: seq<IfAddr>, y: Addr, k: nat) {
    && k < |addrs| && Contains(addrs[k], y)
    && forall j :: 0 <= j < k ==> !Contains(addrs[j], y)
  }

  lemma {:induction false} FirstContainingOfTail(addrs: seq<IfAddr>, y: Addr, r: IP)
    requires addrs != [] && !Contains(addrs[0], y)
    requires r.V4? ==> exists k: nat :: IsFirstContaining(addrs[1..], y, k) && addrs[1..][k].ip == r
    ensures r.V4? ==> exists k: nat :: IsFirstContaining(addrs, y, k) && addrs[k].ip == r
  {
    if r.V4? {
      var k: nat :| IsFirstContaining(addrs[1..], y, k) && addrs[1..][k].ip == r;
      forall j | 0 <= j < k + 1
        ensures !Contains(addrs[j], y)
      {
        if j > 0 {
          assert addrs[j] == addrs[1..][j - 1];
        }
      }
      assert IsFirstContaining(addrs, y, k + 1);
    }
  }

  function FirstContaining(addrs: seq<IfAddr>, y: Addr): (r: IP)
    ensures r.NoIP? <==> forall a :: a in addrs ==> !Contains(a, y)
    ensures r.V4? ==> exists k: nat :: IsFirstContaining(addrs, y, k) && addrs[k].ip == r
  {
    if addrs == [] then NoIP
    else if Contains(addrs[0], y) then
      assert IsFirstContaining(addrs, y, 0);
      addrs[0].ip
    else
      var r := FirstContaining(addrs[1..], y);
      assert forall a :: a in addrs <==> a == addrs[0] || a in addrs[1..];
      FirstContainingOfTail(addrs, y, r);
      r
  }

  /** The source of a unicast copy: the first address with the leased address in its subnet, else the first of all. */
  function BestUnicastSrc(addrs: seq<IfAddr>, yiaddr: IP): (r: IP)
    ensures addrs == [] ==> r == NoIP
    ensures addrs != [] ==> exists a :: a in addrs && a.ip == r
    ensures yiaddr.V4? && (exists a :: a in addrs && Contains(a, yiaddr.addr)) ==>
      exists k: nat :: IsFirstContaining(addrs, yiaddr.addr, k) && addrs[k].ip == r
    ensures addrs != [] && (yiaddr.NoIP? || forall a :: a in addrs ==> !Contains(a, yiaddr.addr)) ==> r == addrs[0].ip
  {
    if addrs == [] then NoIP
    else if yiaddr.V4? && FirstContaining(addrs, yiaddr.addr).V4? then FirstContaining(addrs, yiaddr.addr)
    else
      assert addrs[0] in addrs;
      addrs[0].ip
  }

  // ----- Configuration -----

  /**
   * Process-wide options. `linkMap` gives the client subnet of a NIC by name and MAC; `selects` is the glob match of
   * a policy's reply selector. `giaddr` is NoIP when the override is not set.
   */
  datatype Config = Config(
    linkMap: Option<(string, seq<Byte>) -> Option<Addr>>,
    selects: (string, string, seq<Byte>) -> bool,
    serverAddress: string, giaddr: IP, maxHops: Byte, l2Unicast: bool, hasCache: bool)

  /** The per-packet outcome of the policy; the zero value is the default relay behaviour. */
  datatype Decision = Decision(
    serverAddress: string, policyTag: seq<Byte>, nicSelector: Option<string>,
    subOpts: seq<DhcpOption>, dropReply: bool)

  const NoDecision := Decision("", [], None, [], false)

  function EffectiveServer(cfg: Config, dec: Decision): string {
    if dec.serverAddress != "" then dec.serverAddress else cfg.serverAddress
  }

  // ----- Locality -----

  /** The address is a global unicast address of this host; a failed enumeration says no. */
  predicate IsRelayLocalAddr(host: Host, ip: IP) {
    && ip.V4? && ip.addr != 0
    && host.allAddrs.Some?
    && exists k :: 0 <= k < |host.allAddrs.value| &&
         KeepsAddr(host.allAddrs.value[k]) && host.allAddrs.value[k].ip == ip
  }

  predicate GiaddrIsLocal(cfg: Config, host: Host, ip: IP) {
    IsRelayLocalAddr(host, ip) || (cfg.giaddr.V4? && cfg.giaddr == ip)
  }

  /** The loop over all addresses of the host. */
  method FindRelayLocalAddr(host: Host, ip: IP) returns (found: bool)
    ensures found <==> IsRelayLocalAddr(host, ip)
    ensures found <==>
      IsGlobalUnicast(ip) && host.allAddrs.Some? && exists ones :: NetAddr(ip, ones) in host.allAddrs.value
  {
    if ip.NoIP? || ip.addr == 0 || host.allAddrs.None? {
      return false;
    }
    var addrs := host.allAddrs.value;
    for k := 0 to |addrs|
      invariant forall j :: 0 <= j < k ==> !(KeepsAddr(addrs[j]) && addrs[j].ip == ip)
    {
      if addrs[k].PlainAddr? || !IsGlobalUnicast(addrs[k].ip) {
        continue;
      }
      if addrs[k].ip == ip {
        assert addrs[k] == NetAddr(ip, addrs[k].ones);
        return true;
      }
    }
    forall ones | NetAddr(ip, ones) in addrs
      ensures !IsGlobalUnicast(ip)
    {
      var j :| 0 <= j < |addrs| && addrs[j] == NetAddr(ip, ones);
    }
    return false;
  }

  method IsGiaddrLocal(cfg: Config, host: Host, ip: IP) returns (local: bool)
    ensures local <==> GiaddrIsLocal(cfg, host, ip)
  {
    local := FindRelayLocalAddr(host, ip);
    if !local && cfg.giaddr.V4? {
      local := cfg.giaddr == ip;
    }
  }

  /** Start-up checks on the options: a hop limit, and an override that is global unicast. */
  predicate ValidConfig(cfg: Config) {
    1 <= cfg.maxHops && (cfg.giaddr.V4? ==> IsGlobalUnicast(cfg.giaddr))
  }

  /** The host's views agree: enumeration works, covers every interface, and holds the probe's answers. */
  ghost predicate Consistent(host: Host) {
    && host.allAddrs.Some?
    && (forall i :: i in host.nics ==> host.nics[i].index == i)
    && (forall i, a :: i in host.nics && host.nics[i].addrs.Some? && a in host.nics[i].addrs.value ==>
          a in host.allAddrs.value)
    && (forall s :: s in host.sourceTowards && IsGlobalUnicast(host.sourceTowards[s]) ==>
          exists k :: 0 <= k < |host.allAddrs.value| && KeepsAddr(host.allAddrs.value[k]) &&
            host.allAddrs.value[k].ip == host.sourceTowards[s])
  }

  // ----- The giaddr of a request -----

  datatype Resolved =
    | Unresolved
    | Numbered(addrs: seq<IfAddr>)
    | Unnumbered(giaddr: IP, subnet: Addr)

  /** The local address towards the server, if it can serve as a giaddr. */
  function ServerFacing(host: Host, server: string): IP {
    if server in host.sourceTowards && IsGlobalUnicast(host.sourceTowards[server]) then host.sourceTowards[server]
    else NoIP
  }

  /** A numbered ingress uses its own addresses; an unnumbered one needs a link-map entry and another giaddr. */
  function ResolveGiaddr(cfg: Config, host: Host, dec: Decision, ifIndex: int): Resolved {
    if ifIndex !in host.nics || host.nics[ifIndex].addrs.None? then Unresolved
    else
      var nic := host.nics[ifIndex];
      var addrs := GlobalAddrs(nic.addrs.value);
      if addrs != [] then Numbered(addrs)
      else if cfg.linkMap.None? || cfg.linkMap.value(nic.name, nic.mac).None? then Unresolved
      else
        var giaddr := if cfg.giaddr.V4? then cfg.giaddr else ServerFacing(host, EffectiveServer(cfg, dec));
        if giaddr.NoIP? then Unresolved else Unnumbered(giaddr, cfg.linkMap.value(nic.name, nic.mac).value)
  }

  function Giaddrs(r: Resolved): seq<IP> {
    match r
    case Unresolved => []
    case Numbered(addrs) => seq(|addrs|, k requires 0 <= k < |addrs| => addrs[k].ip)
    case Unnumbered(giaddr, _) => [giaddr]
  }

  function LinkSubnet(r: Resolved): Option<Addr> {
    if r.Unnumbered? then Some(r.subnet) else None
  }

  /**
   * Whatever giaddr the request path writes (interface address, override, or server-facing address), the reply path
   * takes it for its own and accepts it as a source.
   */
  lemma {:induction false} RequestGiaddrIsLocal(cfg: Config, host: Host, dec: Decision, ifIndex: int, k: nat)
    requires ValidConfig(cfg) && Consistent(host)
    requires k < |Giaddrs(ResolveGiaddr(cfg, host, dec, ifIndex))|
    ensures var g := Giaddrs(ResolveGiaddr(cfg, host, dec, ifIndex))[k];
      IsGlobalUnicast(g) && GiaddrIsLocal(cfg, host, g) && UsableGiaddr(g)
  {
    match ResolveGiaddr(cfg, host, dec, ifIndex)
    case Numbered(addrs) =>
      var nic := host.nics[ifIndex];
      assert addrs[k] in addrs;
      GlobalAddrsMembers(nic.addrs.value, addrs[k]);
      assert addrs[k] in host.allAddrs.value;
      var m :| 0 <= m < |host.allAddrs.value| && host.allAddrs.value[m] == addrs[k];
    case Unnumbered(_, _) =>
  }
}
