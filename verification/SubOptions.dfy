/** The sub-options the relay writes: the decimal circuit id, Link Selection and the policy tag. */
module SubOptions {
  import opened Packets
  import opened Numbers
  import opened Opt82

  const CIRCUIT_ID: Byte := 1
  const LINK_SELECTION: Byte := 5
  const POLICY_TAG: Byte := 224

  const MAX_SUB_OPTION_SIZE := MAX_OPTION_SIZE - HEADER_SIZE
  const MAX_CIRCUIT_ID_SIZE := 10
  const MAX_POLICY_TAG_SIZE := MAX_OPTION_SIZE - 2 * HEADER_SIZE - MAX_CIRCUIT_ID_SIZE

  // ----- Decimal numbers -----

  const ZERO_CHAR: Byte := 48
  const PLUS_CHAR: Byte := 43
  const MINUS_CHAR: Byte := 45

  /** `strconv.FormatUint(n, 10)` as bytes. */
  function Digits(n: nat): (s: seq<Byte>) {
    if n < 10 then [ZERO_CHAR + n] else Digits(n / 10) + [ZERO_CHAR + n % 10]
  }

  predicate AllDigits(s: seq<Byte>) {
    forall k :: 0 <= k < |s| ==> ZERO_CHAR <= s[k] < ZERO_CHAR + 10
  }

  function DigitsValue(s: seq<Byte>): nat
    requires AllDigits(s)
  {
    if s == [] then 0 else 10 * DigitsValue(s[..|s| - 1]) + (s[|s| - 1] - ZERO_CHAR)
  }

  /** `strconv.Atoi` on a 64-bit platform: an optional sign, at least one digit, and a value that fits. */
  function Atoi(s: seq<Byte>): (r: Option<int>)
    ensures r.Some? ==> -0x8000_0000_0000_0000 <= r.value < 0x8000_0000_0000_0000
  {
    var signed := s != [] && (s[0] == PLUS_CHAR || s[0] == MINUS_CHAR);
    var digits := if signed then s[1..] else s;
    if digits == [] || !AllDigits(digits) then None
    else
      var v: int := DigitsValue(digits);
      var n := if signed && s[0] == MINUS_CHAR then -v else v;
      if -0x8000_0000_0000_0000 <= n < 0x8000_0000_0000_0000 then Some(n) else None
  }

  lemma {:induction false} DigitsRoundTrip(n: nat)
    ensures Digits(n) != [] && AllDigits(Digits(n)) && DigitsValue(Digits(n)) == n
  {
    if n < 10 {
      assert DigitsValue([]) == 0;
      assert Digits(n)[..0] == [];
    } else {
      DigitsRoundTrip(n / 10);
      assert Digits(n)[..|Digits(n)| - 1] == Digits(n / 10);
    }
  }

  lemma {:induction false} DigitsLength(n: nat, k: nat)
    requires 1 <= k && n < Power(10, k)
    ensures |Digits(n)| <= k
  {
    if n >= 10 {
      assert Power(10, 0) == 1 && Power(10, 1) == 10;
      DigitsLength(n / 10, k - 1);
    }
  }

  lemma {:induction false} DigitsAtLeast(n: nat, k: nat)
    requires 1 <= k && n >= Power(10, k - 1)
    ensures |Digits(n)| >= k
  {
    if k > 1 {
      PowerMonotone(10, 1, k - 1);
      assert Power(10, 1) == 10 * Power(10, 0);
      assert Power(10, k - 1) == 10 * Power(10, k - 2);
      DigitsAtLeast(n / 10, k - 1);
    }
  }

  lemma {:induction false} Digits32(n: nat)
    requires n < 0x1_0000_0000
    ensures |Digits(n)| <= MAX_CIRCUIT_ID_SIZE
  {
    assert Power(10, 5) == 100000;
    assert Power(10, 10) == 10 * (10 * (10 * (10 * (10 * Power(10, 5)))));
    DigitsLength(n, 10);
  }

  lemma {:induction false} AtoiDigits(n: nat)
    requires n < 0x8000_0000_0000_0000
    ensures Atoi(Digits(n)) == Some(n)
  {
    DigitsRoundTrip(n);
  }

  /** The number read, sign by sign: digits that fit 64 bits, and nothing else. */
  lemma {:induction false} AtoiExactly(digits: seq<Byte>)
    requires digits != [] && AllDigits(digits)
    ensures Atoi(digits) == if DigitsValue(digits) < 0x8000_0000_0000_0000 then Some(DigitsValue(digits)) else None
    ensures Atoi([43] + digits) == Atoi(digits)
    ensures Atoi([45] + digits) ==
      if DigitsValue(digits) <= 0x8000_0000_0000_0000 then Some(0 - DigitsValue(digits) as int) else None
  {
    assert ([43] + digits)[1..] == digits && ([45] + digits)[1..] == digits;
    assert ZERO_CHAR <= digits[0];
  }

  lemma {:induction false} AtoiRefuses(s: seq<Byte>, k: nat)
    requires k < |s| && !(48 <= s[k] <= 57) && (k > 0 || !(s[0] == 43 || s[0] == 45))
    ensures Atoi(s).None? && Atoi([]).None? && Atoi([43]).None? && Atoi([45]).None?
  {
    if s[0] == 43 || s[0] == 45 {
      assert s[1..][k - 1] == s[k];
    }
  }

  /** Decimal, with the least significant digit last. */
  lemma {:induction false} LastDigit(n: nat)
    ensures Digits(n) != [] && Digits(n)[|Digits(n)| - 1] == 48 + n % 10
    ensures n >= 10 ==> Digits(n)[..|Digits(n)| - 1] == Digits(n / 10)
    ensures n < 10 ==> |Digits(n)| == 1
  {
  }

  // ----- Sub-options -----

  function AddrBytes(a: Addr): (s: seq<Byte>) {
    [a / 0x100_0000, a / 0x1_0000 % 0x100, a / 0x100 % 0x100, a % 0x100]
  }

  /** The circuit id of an interface index, which is first cut to 32 bits. */
  function CircuitId(ifIndex: int): (o: DhcpOption)
    ensures o.typ == CIRCUIT_ID && WellFormed(o) && IsOption(o)
    ensures |o.data| <= MAX_CIRCUIT_ID_SIZE
    ensures AllDigits(o.data) && DigitsValue(o.data) == ifIndex % 0x1_0000_0000
  {
    var data := Digits(ifIndex % 0x1_0000_0000);
    Digits32(ifIndex % 0x1_0000_0000);
    DigitsRoundTrip(ifIndex % 0x1_0000_0000);
    DhcpOption(CIRCUIT_ID, |data|, data)
  }

  function LinkSelection(subnet: Addr): (o: DhcpOption)
    ensures o.typ == LINK_SELECTION && WellFormed(o) && IsOption(o)
  {
    DhcpOption(LINK_SELECTION, 4, AddrBytes(subnet))
  }

  function PolicyTag(tag: seq<Byte>): (o: DhcpOption)
    ensures IsOption(o) <==> 0 < |tag| <= MAX_SUB_OPTION_SIZE
    ensures IsOption(o) ==> o.typ == POLICY_TAG && WellFormed(o) && o.data == tag
  {
    if |tag| == 0 || |tag| > MAX_SUB_OPTION_SIZE then ZeroOption
    else DhcpOption(POLICY_TAG, |tag|, tag)
  }

  /** The interface index in the first circuit id sub-option; zero when there is none or it is no number. */
  function ExtractCircuitId(subs: seq<DhcpOption>): (n: int) {
    if subs == [] then 0
    else if subs[0].typ != CIRCUIT_ID then ExtractCircuitId(subs[1..])
    else match Atoi(subs[0].data) case None => 0 case Some(n) => n
  }

  function ExtractPolicyTag(subs: seq<DhcpOption>): (tag: seq<Byte>) {
    if subs == [] then []
    else if subs[0].typ == POLICY_TAG then subs[0].data
    else ExtractPolicyTag(subs[1..])
  }

  // ----- The Option 82 of a request -----

  /** The sub-options every request carries: the circuit id, and Link Selection on an unnumbered ingress. */
  function Routing(ifIndex: int, subnet: Option<Addr>): (subs: seq<DhcpOption>)
    ensures subs != [] && subs[0] == CircuitId(ifIndex)
    ensures subnet.Some? ==> LinkSelection(subnet.value) in subs
    ensures forall o :: o in subs ==> WellFormed(o) && IsOption(o) && o.typ != POLICY_TAG
    ensures TlvSize(subs) == |CircuitId(ifIndex).data| + 2 + if subnet.Some? then 6 else 0
  {
    var subs := [CircuitId(ifIndex)];
    assert subs[..0] == [];
    match subnet
    case None => subs
    case Some(s) =>
      var both := subs + [LinkSelection(s)];
      assert both[..1] == subs;
      both
  }

  /** The tag fits when the three sub-options together stay within one option. */
  predicate TagFits(ifIndex: int, subnet: Option<Addr>, tag: seq<Byte>) {
    0 < |tag| && TlvSize(Routing(ifIndex, subnet)) + HEADER_SIZE + |tag| <= MAX_OPTION_SIZE
  }

  /** The sub-options a request is relayed with. */
  function RequestSubOptions(ifIndex: int, subnet: Option<Addr>, tag: seq<Byte>): (subs: seq<DhcpOption>) {
    Routing(ifIndex, subnet) + if TagFits(ifIndex, subnet, tag) then [PolicyTag(tag)] else []
  }

  /**
   * Builds Option 82: with the tag if that encodes, otherwise without. It never fails, every sub-option the reply
   * path needs is there, and the tag is dropped exactly when it does not fit.
   */
  method BuildOpt82(ifIndex: int, subnet: Option<Addr>, tag: seq<Byte>) returns (opt82: DhcpOption)
    ensures opt82 == Encode(RequestSubOptions(ifIndex, subnet, tag))
    ensures IsOption(opt82) && opt82.typ == RELAY_AGENT_INFORMATION && WellFormed(opt82)
    ensures Decode(opt82.data) == Some(RequestSubOptions(ifIndex, subnet, tag))
  {
    var routing := [CircuitId(ifIndex)];
    if subnet.Some? {
      routing := routing + [LinkSelection(subnet.value)];
    }
    var full := routing;
    if |tag| > 0 {
      full := routing + [PolicyTag(tag)];
    }
    assert routing == Routing(ifIndex, subnet);
    RequestEncodes(ifIndex, subnet, tag);
    if |tag| > 0 {
      TaggedEncodes(ifIndex, subnet, tag);
    }
    opt82 := EncodeRelayAgentInformationOption(full);
    assert routing + [] == routing;
    if !IsOption(opt82) {
      opt82 := EncodeRelayAgentInformationOption(routing);
    }
  }

  lemma {:induction false} RoutingEncodes(ifIndex: int, subnet: Option<Addr>)
    ensures IsOption(Encode(Routing(ifIndex, subnet)))
  {
    TlvsSize(Routing(ifIndex, subnet));
  }

  /** With a tag the first attempt succeeds exactly when the tag fits. */
  lemma {:induction false} TaggedEncodes(ifIndex: int, subnet: Option<Addr>, tag: seq<Byte>)
    requires |tag| > 0
    ensures IsOption(Encode(Routing(ifIndex, subnet) + [PolicyTag(tag)])) <==> TagFits(ifIndex, subnet, tag)
  {
    var routing := Routing(ifIndex, subnet);
    var full := routing + [PolicyTag(tag)];
    assert full[..|routing|] == routing;
    TlvsSize(full);
    if !IsOption(PolicyTag(tag)) {
      assert full[|routing|] in full;
    }
  }

  lemma {:induction false} RequestEncodes(ifIndex: int, subnet: Option<Addr>, tag: seq<Byte>)
    ensures IsOption(Encode(RequestSubOptions(ifIndex, subnet, tag)))
    ensures Decode(Encode(RequestSubOptions(ifIndex, subnet, tag)).data) ==
      Some(RequestSubOptions(ifIndex, subnet, tag))
  {
    RoutingEncodes(ifIndex, subnet);
    if TagFits(ifIndex, subnet, tag) {
      TaggedEncodes(ifIndex, subnet, tag);
    } else {
      assert RequestSubOptions(ifIndex, subnet, tag) == Routing(ifIndex, subnet);
    }
    EncodeThenDecode(RequestSubOptions(ifIndex, subnet, tag));
  }

  /** On a numbered ingress every key a policy table can hold fits. */
  lemma {:induction false} NumberedTagFits(ifIndex: int, tag: seq<Byte>)
    requires 0 < |tag| <= MAX_POLICY_TAG_SIZE
    ensures TagFits(ifIndex, None, tag)
  {
  }

  /** The bound on policy keys is tight: one byte more does not fit beside a ten-digit circuit id. */
  lemma {:induction false} PolicyTagBoundTight(tag: seq<Byte>)
    requires |tag| > 0
    ensures (forall i: int :: TagFits(i, None, tag)) <==> |tag| <= MAX_POLICY_TAG_SIZE
  {
    if |tag| <= MAX_POLICY_TAG_SIZE {
      forall i: int
        ensures TagFits(i, None, tag)
      {
        NumberedTagFits(i, tag);
      }
    } else {
      TenDigits();
      assert !TagFits(0xFFFF_FFFF, None, tag);
    }
  }

  /** Only the first circuit id counts. */
  lemma {:induction false} FirstCircuitId(before: seq<DhcpOption>, o: DhcpOption, after: seq<DhcpOption>)
    requires o.typ == 1 && forall x :: x in before ==> x.typ != 1
    ensures ExtractCircuitId(before + [o] + after) == match Atoi(o.data) case None => 0 case Some(n) => n
    ensures ExtractCircuitId(before) == 0
  {
    var all := before + [o] + after;
    if before != [] {
      assert all[1..] == before[1..] + [o] + after;
      FirstCircuitId(before[1..], o, after);
    }
  }

  lemma {:induction false} TenDigits()
    ensures |CircuitId(0xFFFF_FFFF).data| == MAX_CIRCUIT_ID_SIZE
  {
    assert Power(10, 5) == 100000;
    assert Power(10, 9) == 10 * (10 * (10 * (10 * Power(10, 5))));
    DigitsAtLeast(0xFFFF_FFFF, 10);
  }

  lemma {:induction false} ExtractLeadingCircuitId(ifIndex: nat, subs: seq<DhcpOption>)
    requires subs != [] && subs[0] == CircuitId(ifIndex)
    ensures ExtractCircuitId(subs) == ifIndex % 0x1_0000_0000
  {
    AtoiDigits(ifIndex % 0x1_0000_0000);
  }

  /** A circuit id comes back as the index it was made from exactly when that index fits 32 bits. */
  lemma {:induction false} CircuitIdRoundTrip(ifIndex: nat, subnet: Option<Addr>, tag: seq<Byte>)
    ensures ExtractCircuitId(RequestSubOptions(ifIndex, subnet, tag)) == ifIndex % 0x1_0000_0000
    ensures ExtractCircuitId(RequestSubOptions(ifIndex, subnet, tag)) == ifIndex <==> ifIndex < 0x1_0000_0000
  {
    ExtractLeadingCircuitId(ifIndex, RequestSubOptions(ifIndex, subnet, tag));
  }

  /** The tag read back is the tag given, or none when it did not fit. */
  lemma {:induction false} PolicyTagRoundTrip(ifIndex: int, subnet: Option<Addr>, tag: seq<Byte>)
    ensures ExtractPolicyTag(RequestSubOptions(ifIndex, subnet, tag)) ==
      if TagFits(ifIndex, subnet, tag) then tag else []
  {
    ExtractPolicyTagAfter(Routing(ifIndex, subnet), if TagFits(ifIndex, subnet, tag) then [PolicyTag(tag)] else []);
  }

  lemma {:induction false} ExtractPolicyTagAfter(a: seq<DhcpOption>, b: seq<DhcpOption>)
    requires forall o :: o in a ==> o.typ != POLICY_TAG
    ensures ExtractPolicyTag(a + b) == ExtractPolicyTag(b)
  {
    if a == [] {
      assert a + b == b;
    } else {
      assert (a + b)[1..] == a[1..] + b;
      ExtractPolicyTagAfter(a[1..], b);
    }
  }
}
