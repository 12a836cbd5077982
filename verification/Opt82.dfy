/** The Relay Agent Information option: sub-options packed as type, length, data. */
module Opt82 {
  import opened Packets

  const MAX_OPTION_SIZE := 255
  const HEADER_SIZE := 2

  /** A sub-option whose length byte is the size of its data. */
  predicate WellFormed(o: DhcpOption) {
    o.length == |o.data|
  }

  function Tlv(o: DhcpOption): (r: seq<Byte>) {
    [o.typ, o.length] + o.data
  }

  function Tlvs(subs: seq<DhcpOption>): (r: seq<Byte>) {
    if subs == [] then [] else Tlvs(subs[..|subs| - 1]) + Tlv(subs[|subs| - 1])
  }

  /** `data` is a concatenation of complete sub-options, namely `subs`. */
  ghost predicate SplitsInto(data: seq<Byte>, subs: seq<DhcpOption>) {
    (forall o :: o in subs ==> WellFormed(o)) && Tlvs(subs) == data
  }

  predicate AllPresent(subs: seq<DhcpOption>) {
    forall o :: o in subs ==> IsOption(o)
  }

  /** The packed option, or the zero option when a sub-option is missing or the set is too large. */
  function Encode(subs: seq<DhcpOption>): (o: DhcpOption) {
    if !AllPresent(subs) || |Tlvs(subs)| > MAX_OPTION_SIZE then ZeroOption
    else DhcpOption(RELAY_AGENT_INFORMATION, |Tlvs(subs)|, Tlvs(subs))
  }

  method EncodeRelayAgentInformationOption(subs: seq<DhcpOption>) returns (o: DhcpOption)
    ensures o == Encode(subs)
  {
    var data: seq<Byte> := [];
    for k := 0 to |subs|
      invariant data == Tlvs(subs[..k])
      invariant AllPresent(subs[..k])
    {
      if subs[k].length == 0 {
        assert subs[k] in subs && !IsOption(subs[k]);
        return ZeroOption;
      }
      assert subs[..k + 1][..k] == subs[..k];
      data := data + [subs[k].typ, subs[k].length];
      data := data + subs[k].data;
    }
    assert subs[..|subs|] == subs;
    if |data| > MAX_OPTION_SIZE {
      return ZeroOption;
    }
    o := DhcpOption(RELAY_AGENT_INFORMATION, |data| % 0x100, data);
  }

  /** The sub-options packed in `data`, or nothing when a header or a payload is cut short. */
  function Decode(data: seq<Byte>): (r: Option<seq<DhcpOption>>) {
    if data == [] then Some([])
    else if |data| < HEADER_SIZE || |data| < HEADER_SIZE + data[1] then None
    else match Decode(data[HEADER_SIZE + data[1]..])
      case None => None
      case Some(tail) => Some([DhcpOption(data[0], data[1], data[HEADER_SIZE..HEADER_SIZE + data[1]])] + tail)
  }

  /** The decoder's result as the callers see it: the empty list stands for Go's nil. */
  function Decoded(data: seq<Byte>): (r: seq<DhcpOption>) {
    match Decode(data) case None => [] case Some(subs) => subs
  }

  /** Option 82 of a message, or the zero option when it is missing or empty. */
  function RelayAgentInformation(opts: seq<DhcpOption>): (o: DhcpOption) {
    var o := GetOption(opts, RELAY_AGENT_INFORMATION);
    if o.length == 0 || o.data == [] then ZeroOption else o
  }

  lemma {:induction false} TlvsConcat(a: seq<DhcpOption>, b: seq<DhcpOption>)
    ensures Tlvs(a + b) == Tlvs(a) + Tlvs(b)
  {
    if b == [] {
      assert a + b == a;
    } else {
      assert (a + b)[..|a + b| - 1] == a + b[..|b| - 1];
      TlvsConcat(a, b[..|b| - 1]);
    }
  }

  lemma {:induction false} TlvsHead(subs: seq<DhcpOption>)
    requires subs != []
    ensures Tlvs(subs) == Tlv(subs[0]) + Tlvs(subs[1..])
  {
    assert subs == [subs[0]] + subs[1..];
    TlvsConcat([subs[0]], subs[1..]);
    assert [subs[0]][..0] == [];
    assert Tlvs([subs[0]]) == Tlv(subs[0]);
  }

  /** `Some(front + r)` for a decoded remainder `r`. */
  function Prepend(front: seq<DhcpOption>, r: Option<seq<DhcpOption>>): Option<seq<DhcpOption>> {
    match r case None => None case Some(tail) => Some(front + tail)
  }

  lemma {:induction false} PrependAssoc(a: seq<DhcpOption>, b: seq<DhcpOption>, r: Option<seq<DhcpOption>>)
    ensures Prepend(a, Prepend(b, r)) == Prepend(a + b, r)
    ensures Prepend([], r) == r
  {
    if r.Some? {
      assert a + (b + r.value) == (a + b) + r.value;
      assert [] + r.value == r.value;
    }
  }

  /** A complete sub-option in front is peeled off whole. */
  lemma {:induction false} DecodeCons(o: DhcpOption, tail: seq<Byte>)
    requires WellFormed(o)
    ensures Decode(Tlv(o) + tail) == Prepend([o], Decode(tail))
  {
    var data := Tlv(o) + tail;
    assert data[HEADER_SIZE + data[1]..] == tail;
    assert data[HEADER_SIZE..HEADER_SIZE + data[1]] == o.data;
  }

  lemma {:induction false} DecodePrefix(subs: seq<DhcpOption>, tail: seq<Byte>)
    requires forall o :: o in subs ==> WellFormed(o)
    ensures Decode(Tlvs(subs) + tail) == Prepend(subs, Decode(tail))
  {
    if subs == [] {
      assert Tlvs(subs) + tail == tail;
      PrependAssoc([], [], Decode(tail));
    } else {
      TlvsHead(subs);
      assert Tlvs(subs) + tail == Tlv(subs[0]) + (Tlvs(subs[1..]) + tail);
      DecodeCons(subs[0], Tlvs(subs[1..]) + tail);
      DecodePrefix(subs[1..], tail);
      PrependAssoc([subs[0]], subs[1..], Decode(tail));
      assert [subs[0]] + subs[1..] == subs;
    }
  }

  lemma {:induction false} TlvsSnoc(subs: seq<DhcpOption>, o: DhcpOption, tail: seq<Byte>)
    ensures Tlvs(subs + [o]) + tail == Tlvs(subs) + (Tlv(o) + tail)
  {
    assert (subs + [o])[..|subs|] == subs;
  }

  /** The loop over a shrinking slice; a trailer that is not a complete sub-option rejects everything. */
  method DecodeRelayAgentInformationOption(option: DhcpOption) returns (subs: seq<DhcpOption>)
    ensures subs == Decoded(option.data)
  {
    var data := option.data;
    subs := [];
    while |data| > 0
      invariant forall o :: o in subs ==> WellFormed(o)
      invariant Tlvs(subs) + data == option.data
    {
      if |data| < HEADER_SIZE {
        DecodePrefix(subs, data);
        return [];
      }
      var length := data[1];
      if |data| < HEADER_SIZE + length {
        DecodePrefix(subs, data);
        return [];
      }
      var sub := DhcpOption(data[0], data[1], data[HEADER_SIZE..HEADER_SIZE + length]);
      var rest := data[HEADER_SIZE + length..];
      TlvsSnoc(subs, sub, rest);
      assert data == Tlv(sub) + rest;
      subs := subs + [sub];
      data := rest;
    }
    DecodePrefix(subs, []);
    assert data == [];
    assert subs + [] == subs;
  }

  // ----- Round trips -----

  lemma {:induction false} DecodeSound(data: seq<Byte>)
    ensures Decode(data).Some? ==> SplitsInto(data, Decode(data).value)
  {
    if Decode(data).Some? && data != [] {
      var n := HEADER_SIZE + data[1];
      DecodeSound(data[n..]);
      var subs := Decode(data).value;
      assert subs[1..] == Decode(data[n..]).value;
      TlvsHead(subs);
      assert data == Tlv(subs[0]) + data[n..];
    }
  }

  /** Decoding finds exactly the split of the data into complete sub-options; there is at most one. */
  lemma {:induction false} DecodeExact(data: seq<Byte>, subs: seq<DhcpOption>)
    ensures SplitsInto(data, subs) <==> Decode(data) == Some(subs)
    ensures Decoded(data) == subs && subs != [] <==> SplitsInto(data, subs) && data != []
  {
    if SplitsInto(data, subs) {
      DecodePrefix(subs, []);
      assert Tlvs(subs) + [] == data;
      assert subs + [] == subs;
    }
    DecodeSound(data);
  }

  /** Nil is returned exactly for empty data and for data that is no concatenation of complete sub-options. */
  lemma {:induction false} DecodedNil(data: seq<Byte>)
    ensures Decoded(data) == [] <==> data == [] || forall subs :: !SplitsInto(data, subs)
  {
    DecodeSound(data);
    forall subs | SplitsInto(data, subs)
      ensures Decode(data) == Some(subs)
    {
      DecodeExact(data, subs);
    }
    if Decode(data) == Some([]) {
      assert data == [];
    }
  }

  /** What was packed is unpacked, for every list that can be packed at all. */
  lemma {:induction false} EncodeThenDecode(subs: seq<DhcpOption>)
    requires forall o :: o in subs ==> WellFormed(o)
    requires IsOption(Encode(subs))
    ensures Decode(Encode(subs).data) == Some(subs)
    ensures subs != [] && Decoded(Encode(subs).data) == subs
  {
    DecodeExact(Tlvs(subs), subs);
  }

  /** Packing what was unpacked gives the same bytes exactly when no sub-option was empty and the bytes fit. */
  lemma {:induction false} DecodeThenEncode(data: seq<Byte>)
    requires Decoded(data) != []
    ensures Encode(Decoded(data)) == DhcpOption(RELAY_AGENT_INFORMATION, |data| % 0x100, data) <==>
      AllPresent(Decoded(data)) && |data| <= MAX_OPTION_SIZE
  {
    DecodeSound(data);
  }

  function TlvSize(subs: seq<DhcpOption>): nat {
    if subs == [] then 0 else TlvSize(subs[..|subs| - 1]) + HEADER_SIZE + |subs[|subs| - 1].data|
  }

  lemma {:induction false} TlvsSize(subs: seq<DhcpOption>)
    ensures |Tlvs(subs)| == TlvSize(subs)
  {
    if subs != [] {
      TlvsSize(subs[..|subs| - 1]);
    }
  }
}
