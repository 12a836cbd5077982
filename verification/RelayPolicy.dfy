/** Applying the per-client policy to packets, and reapplying it to the replies. */
module RelayPolicy {
  import opened Packets
  import opened Hosts
  import opened MacPolicy
  import opened Numbers
  import opened Opt82
  import opened SubOptions

  function ClientId(opts: seq<DhcpOption>): (id: seq<Byte>) {
    var o := GetOption(opts, CLIENT_ID);
    if IsOption(o) then o.data else []
  }

  /**
   * The policy as one packet sees it. A reply is looked up twice, and each lookup reads the snapshot of that moment: a
   * reload may fall between them.
   */
  datatype Policy = Policy(first: Table, second: Table)

  /** No reload between the lookups. */
  function Steady(t: Table): Policy {
    Policy(t, t)
  }

  /** The reply action: the reply's own identifiers first, so that no tag can lift a blackhole, then the tag. */
  function ReplyActionFrom(policy: Policy, clientId: seq<Byte>, chaddr: seq<Byte>, subs: seq<DhcpOption>): (a: Action)
    ensures LookupID(policy.first, [clientId, chaddr]).0.kind.Blackhole? ==>
      a == LookupID(policy.first, [clientId, chaddr]).0
  {
    var base := LookupID(policy.first, [clientId, chaddr]).0;
    if base.kind.Blackhole? then base
    else
      var tag := ExtractPolicyTag(subs);
      var tagged := LookupID(policy.second, [tag]);
      if tag != [] && tagged.1.Some? then tagged.0 else base
  }

  function RequestDecision(action: Action, key: Option<seq<Byte>>): (dec: Decision) {
    NoDecision.(
      policyTag := if key.Some? then key.value else [],
      serverAddress := if action.kind.Server? then action.server else "")
  }

  function ReplyDecision(action: Action): (dec: Decision) {
    match action.reply
    case ToIngress => NoDecision
    case DropReplies => NoDecision.(dropReply := true)
    case ToMatching(selector) => NoDecision.(nicSelector := Some(selector))
  }

  /** The decision for a packet, or None to drop it. */
  function PolicyForPacket(policy: Policy, p: Packet): (dec: Option<Decision>) {
    var clientId := ClientId(p.options);
    if p.op.Reply? then
      var subs := Decoded(RelayAgentInformation(p.options).data);
      var action := ReplyActionFrom(policy, clientId, p.chaddr, subs);
      if action.kind.Blackhole? then None else Some(ReplyDecision(action).(subOpts := subs))
    else
      var (action, key) := LookupID(policy.first, [clientId, p.chaddr]);
      if action.kind.Blackhole? then None else Some(RequestDecision(action, key))
  }

  // ----- Reapplication -----

  /** The tag a request is relayed with under this table. */
  function TagOf(t: Table, clientId: seq<Byte>, chaddr: seq<Byte>): seq<Byte> {
    var key := LookupID(t, [clientId, chaddr]).1;
    if key.Some? then key.value else []
  }

  lemma {:induction false} LookupOne(t: Table, id: seq<Byte>)
    ensures LookupID(t, [id]) == if id != [] && id in t.entries then (t.entries[id], Some(id)) else (t.fallback, None)
  {
    assert [id][1..] == [];
  }

  /**
   * The action a reply gets when it echoes the request's Option 82 and the policy may have been reloaded since, even
   * between the reply's two lookups: its own lookup in the first table if that is a blackhole, or if no tag came back
   * that has an entry in the second; otherwise that entry's action.
   */
  lemma {:induction false} ReplyActionAfterReload(
    t: Table, later: Policy, clientId: seq<Byte>, chaddr: seq<Byte>, echoedId: seq<Byte>,
    ifIndex: int, subnet: Option<Addr>)
    ensures
      var key := LookupID(t, [clientId, chaddr]).1;
      var base := LookupID(later.first, [echoedId, chaddr]).0;
      var subs := RequestSubOptions(ifIndex, subnet, TagOf(t, clientId, chaddr));
      ReplyActionFrom(later, echoedId, chaddr, subs) ==
        if !base.kind.Blackhole? && key.Some? && TagFits(ifIndex, subnet, key.value) &&
          key.value in later.second.entries
        then later.second.entries[key.value] else base
  {
    var tag := TagOf(t, clientId, chaddr);
    PolicyTagRoundTrip(ifIndex, subnet, tag);
    LookupOne(later.second, tag);
  }

  /**
   * With no reload in between, and with or without the client identifier in the reply: its own lookup if that is a
   * blackhole or the tag had to be dropped, and otherwise exactly the request's action.
   */
  lemma {:induction false} ReplyActionExact(
    t: Table, clientId: seq<Byte>, chaddr: seq<Byte>, echoedId: seq<Byte>, ifIndex: int, subnet: Option<Addr>)
    requires echoedId == clientId || echoedId == []
    ensures
      var (action, key) := LookupID(t, [clientId, chaddr]);
      var base := LookupID(t, [echoedId, chaddr]).0;
      var subs := RequestSubOptions(ifIndex, subnet, TagOf(t, clientId, chaddr));
      ReplyActionFrom(Steady(t), echoedId, chaddr, subs) ==
        if base.kind.Blackhole? || (key.Some? && !TagFits(ifIndex, subnet, key.value)) then base else action
  {
    ReplyActionAfterReload(t, Steady(t), clientId, chaddr, echoedId, ifIndex, subnet);
    if LookupID(t, [clientId, chaddr]).1.None? {
      assert clientId in [clientId, chaddr] && chaddr in [clientId, chaddr];
      assert LookupID(t, [echoedId, chaddr]).1.None?;
    }
  }

  /** Every key is one a policy file can hold. */
  ghost predicate KeysFit(t: Table) {
    forall key :: key in t.entries ==> 0 < |key| <= MAX_POLICY_TAG_SIZE
  }

  /** On a numbered ingress every key of a parsed table fits, so the request's action is always reapplied. */
  lemma {:induction false} ReplyActionNumbered(
    t: Table, clientId: seq<Byte>, chaddr: seq<Byte>, echoedId: seq<Byte>, ifIndex: int)
    requires echoedId == clientId || echoedId == []
    requires KeysFit(t)
    ensures
      var base := LookupID(t, [echoedId, chaddr]).0;
      var subs := RequestSubOptions(ifIndex, None, TagOf(t, clientId, chaddr));
      ReplyActionFrom(Steady(t), echoedId, chaddr, subs) ==
        if base.kind.Blackhole? then base else LookupID(t, [clientId, chaddr]).0
  {
    ReplyActionExact(t, clientId, chaddr, echoedId, ifIndex, None);
    var key := LookupID(t, [clientId, chaddr]).1;
    if key.Some? {
      NumberedTagFits(ifIndex, key.value);
    }
  }

  /** A reply without the client identifier gets the request's action, or is dropped for its own chaddr. */
  ghost predicate Reapplied(t: Table, clientId: seq<Byte>, chaddr: seq<Byte>, ifIndex: int, subnet: Option<Addr>) {
    var base := LookupID(t, [[], chaddr]).0;
    base.kind.Blackhole? ||
    ReplyActionFrom(Steady(t), [], chaddr, RequestSubOptions(ifIndex, subnet, TagOf(t, clientId, chaddr))) ==
      LookupID(t, [clientId, chaddr]).0
  }

  /** A table that sends one client to its own server and everyone else to the default one. */
  function OneClient(clientId: seq<Byte>): Table {
    Table(map[clientId := Action(Server, "s", ToIngress)], Action(Default, "", ToIngress))
  }

  const SOME_MAC: seq<Byte> := [2, 0, 0, 0, 0, 1]

  /** Without room for the tag, that client's reply gets the default action instead. */
  lemma {:induction false} TagLost(clientId: seq<Byte>, ifIndex: int, subnet: Option<Addr>)
    requires clientId != [] && !TagFits(ifIndex, subnet, clientId)
    ensures clientId != SOME_MAC ==>
      ReplyActionFrom(Steady(OneClient(clientId)), [], SOME_MAC,
        RequestSubOptions(ifIndex, subnet, TagOf(OneClient(clientId), clientId, SOME_MAC))) ==
      Action(Default, "", ToIngress)
    ensures LookupID(OneClient(clientId), [clientId, SOME_MAC]).0 == Action(Server, "s", ToIngress)
  {
    var t := OneClient(clientId);
    ReplyActionExact(t, clientId, SOME_MAC, [], ifIndex, subnet);
    assert LookupID(t, [clientId, SOME_MAC]) == (t.entries[clientId], Some(clientId));
    if clientId != SOME_MAC {
      assert LookupID(t, [[], SOME_MAC]).0 == t.fallback;
    }
  }

  /**
   * On an unnumbered ingress Link Selection may leave no room for the tag. A client matched by its identifier keeps
   * its action on replies that do not echo that identifier, for every table a file can hold and every Ethernet
   * address, exactly when the tag fits.
   */
  lemma {:induction false} ReappliedExactlyWhenTagFits(clientId: seq<Byte>, ifIndex: int, subnet: Option<Addr>)
    requires 0 < |clientId| <= MAX_POLICY_TAG_SIZE
    ensures
      (forall t: Table, chaddr: seq<Byte> :: KeysFit(t) && |chaddr| == MAC_LENGTH && clientId in t.entries ==>
        Reapplied(t, clientId, chaddr, ifIndex, subnet)) <==>
      TagFits(ifIndex, subnet, clientId)
  {
    forall t: Table, chaddr: seq<Byte> | clientId in t.entries && TagFits(ifIndex, subnet, clientId)
      ensures Reapplied(t, clientId, chaddr, ifIndex, subnet)
    {
      ReplyActionExact(t, clientId, chaddr, [], ifIndex, subnet);
    }
    if !TagFits(ifIndex, subnet, clientId) {
      TagLost(clientId, ifIndex, subnet);
      assert |clientId| > MAC_LENGTH;
      assert KeysFit(OneClient(clientId)) && |SOME_MAC| == MAC_LENGTH;
      assert LookupID(OneClient(clientId), [[], SOME_MAC]).0 == Action(Default, "", ToIngress);
      assert !Reapplied(OneClient(clientId), clientId, SOME_MAC, ifIndex, subnet);
    }
  }

  /** A concrete loss: a 241-byte identifier behind interface 10000 on an unnumbered ingress gets the wrong action. */
  lemma {:induction false} TagLostOnUnnumberedIngress(subnet: Addr) returns (t: Table, clientId: seq<Byte>)
    ensures |clientId| == MAX_POLICY_TAG_SIZE && KeysFit(t) && clientId in t.entries
    ensures
      var subs := RequestSubOptions(10000, Some(subnet), TagOf(t, clientId, SOME_MAC));
      var action := ReplyActionFrom(Steady(t), [], SOME_MAC, subs);
      !action.kind.Blackhole? && action != LookupID(t, [clientId, SOME_MAC]).0
  {
    clientId := seq(MAX_POLICY_TAG_SIZE, _ => 1);
    t := OneClient(clientId);
    assert |CircuitId(10000).data| >= 5 by {
      assert Power(10, 4) == 10000;
      DigitsAtLeast(10000, 5);
    }
    TagLost(clientId, 10000, Some(subnet));
  }

  /** No Option 82, whatever tag it holds, delivers a reply whose own identifiers are blackholed. */
  lemma {:induction false} TagCannotLiftBlackhole(policy: Policy, p: Packet)
    requires p.op.Reply?
    requires LookupID(policy.first, [ClientId(p.options), p.chaddr]).0.kind.Blackhole?
    ensures PolicyForPacket(policy, p).None?
  {
  }

  // ----- A reload between the lookups of one reply -----

  /** The action of the tag's entry, if it has one. */
  function Tagged(t: Table, subs: seq<DhcpOption>): Option<Action> {
    var tag := ExtractPolicyTag(subs);
    if tag != [] && tag in t.entries then Some(t.entries[tag]) else None
  }

  lemma {:induction false} ReplyActionCases(
    policy: Policy, clientId: seq<Byte>, chaddr: seq<Byte>, subs: seq<DhcpOption>)
    ensures
      var base := LookupID(policy.first, [clientId, chaddr]).0;
      ReplyActionFrom(policy, clientId, chaddr, subs) ==
        if base.kind.Blackhole? || Tagged(policy.second, subs).None? then base else Tagged(policy.second, subs).value
  {
    LookupOne(policy.second, ExtractPolicyTag(subs));
  }

  /** The reply is handled as one of the two tables alone would handle it. */
  ghost predicate AsOneTable(policy: Policy, clientId: seq<Byte>, chaddr: seq<Byte>, subs: seq<DhcpOption>) {
    var action := ReplyActionFrom(policy, clientId, chaddr, subs);
    || action == ReplyActionFrom(Steady(policy.first), clientId, chaddr, subs)
    || action == ReplyActionFrom(Steady(policy.second), clientId, chaddr, subs)
  }

  /**
   * When a reload between the lookups cannot be noticed. With `old` and `new` the two tables, it can be exactly if the
   * reply's own lookup in the old one passes and either the new entry of the tag applies although the new own lookup
   * is a blackhole, or the tag has lost its old entry and the old own lookup applies instead.
   */
  lemma {:induction false} AsOneTableExactly(
    policy: Policy, clientId: seq<Byte>, chaddr: seq<Byte>, subs: seq<DhcpOption>)
    ensures
      var base, base' := LookupID(policy.first, [clientId, chaddr]).0, LookupID(policy.second, [clientId, chaddr]).0;
      var entry, entry' := Tagged(policy.first, subs), Tagged(policy.second, subs);
      AsOneTable(policy, clientId, chaddr, subs) <==>
        || base.kind.Blackhole?
        || (entry'.Some? && (!base'.kind.Blackhole? || entry'.value == base' ||
                             entry'.value == if entry.Some? then entry.value else base))
        || (entry'.None? && (entry.None? || entry.value == base || base' == base))
  {
    ReplyActionCases(policy, clientId, chaddr, subs);
    ReplyActionCases(Steady(policy.first), clientId, chaddr, subs);
    ReplyActionCases(Steady(policy.second), clientId, chaddr, subs);
  }

  /** Each table alone drops the reply, and a reload between the lookups lets it pass, exactly under this condition. */
  lemma {:induction false} DeliveredByNeitherTable(
    policy: Policy, clientId: seq<Byte>, chaddr: seq<Byte>, subs: seq<DhcpOption>)
    ensures
      var entry, entry' := Tagged(policy.first, subs), Tagged(policy.second, subs);
      (&& ReplyActionFrom(Steady(policy.first), clientId, chaddr, subs).kind.Blackhole?
       && ReplyActionFrom(Steady(policy.second), clientId, chaddr, subs).kind.Blackhole?
       && !ReplyActionFrom(policy, clientId, chaddr, subs).kind.Blackhole?) <==>
      && !LookupID(policy.first, [clientId, chaddr]).0.kind.Blackhole?
      && LookupID(policy.second, [clientId, chaddr]).0.kind.Blackhole?
      && entry.Some? && entry.value.kind.Blackhole?
      && (entry'.Some? ==> !entry'.value.kind.Blackhole?)
  {
    ReplyActionCases(policy, clientId, chaddr, subs);
    ReplyActionCases(Steady(policy.first), clientId, chaddr, subs);
    ReplyActionCases(Steady(policy.second), clientId, chaddr, subs);
  }

  /** Two tables for which it happens: the first blackholes the tag's key, the second the client's address. */
  lemma {:induction false} ReloadBetweenLookups(ifIndex: int)
    returns (policy: Policy, chaddr: seq<Byte>, subs: seq<DhcpOption>)
    ensures |chaddr| == MAC_LENGTH && KeysFit(policy.first) && KeysFit(policy.second)
    ensures Decoded(Encode(subs).data) == subs && subs != []
    ensures ReplyActionFrom(Steady(policy.first), [], chaddr, subs).kind.Blackhole?
    ensures ReplyActionFrom(Steady(policy.second), [], chaddr, subs).kind.Blackhole?
    ensures !ReplyActionFrom(policy, [], chaddr, subs).kind.Blackhole?
  {
    var tag: seq<Byte> := [1, 9];
    chaddr := SOME_MAC;
    var pass := Action(Default, "", ToIngress);
    policy := Policy(Table(map[tag := DenyAction], pass), Table(map[chaddr := DenyAction], pass));
    subs := RequestSubOptions(ifIndex, None, tag);
    RequestEncodes(ifIndex, None, tag);
    NumberedTagFits(ifIndex, tag);
    PolicyTagRoundTrip(ifIndex, None, tag);
    assert LookupID(policy.first, [[], chaddr]).0 == pass;
    assert LookupID(policy.second, [[], chaddr]).0 == DenyAction;
    DeliveredByNeitherTable(policy, [], chaddr, subs);
  }
}
