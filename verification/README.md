# DHCPv4 relay: a verified model

A Dafny model of a DHCPv4 relay agent, kept beside the Go sources it describes. It covers what happens to a packet
between the receive socket and the wire, and the shared caches the handlers rely on:

- **Options and Option 82** (`Packets.dfy`, `Options.dfy`, `Opt82.dfy`, `SubOptions.dfy`): the in-place split-option filter, option
  replacement with an unstable sort, the sub-option codec, the decimal circuit id and the 255-byte budget.
- **The relay protocol** (`Hosts.dfy`, `Layers.dfy`, `Requests.dfy`, `Replies.dfy`, `Handler.dfy`): giaddr resolution,
  the request fan-out, reply gating, stripping and delivery, forwarding, and the dispatch between them. The DHCPv4 and
  IPv4 layers are objects the methods update; every send is an entry in a log with an outcome the environment picks.
- **What goes out** (`OnTheWire.dfy`): requests, replies and forwarded messages, said on the bytes and fields of the
  message, the addresses and interfaces of the host and the entries of the policy.
- **End to end** (`RoundTrip.dfy`, `Chains.dfy`, `Exchange.dfy`, `Termination.dfy`): a request through any chain of relays
  and its reply back to the ingress NIC, that exchange carried out with the handler itself, and termination of every run
  of any network of relays and servers.
- **The policy** (`ConfigLines.dfy`, `MacPolicy.dfy`, `RelayPolicy.dfy`): the file and how its lines are cut, its index, and
  reapplying a client's action to replies.
- **The receive filter** (`Bpf.dfy`): a classic BPF interpreter, the filter program, and the validator behind it.
- **Concurrency** (`Watcher.dfy`, `WatcherObject.dfy`, `WatcherRuns.dfy`, `InterfaceCache.dfy`, `CacheAttempts.dfy`,
  `HandlerPool.dfy`): each a machine whose steps interleave freely, with an inductive invariant and theorems over all
  runs, and an object whose methods are those steps. `WatcherRuns.dfy` and `CacheAttempts.dfy` also build the runs that
  show where the promises end.

`Numbers.dfy` holds the arithmetic they share. Each method is proved against a predicate or function on plain values
(`RelaysRequest`, `DeliversReply`, `Handles`, `Receives`, `WithoutSplits`, ...); the theorems are about those, and
`OnTheWire.dfy`, `MacPolicy.LineExactly` and the lemmas on address classes say what they come to without naming them.

What the environment is assumed to do is written as predicates: `RoundTrip.Echoes` (the server answers with the hop
count, giaddr, chaddr and Option 82 it was sent, as section 2.2 of RFC 3046 asks of it for Option 82),
`Hosts.Consistent` (address enumeration agrees with the interfaces and with the route probe), and, where a lemma about
the watcher asks for it, `Watcher.StatsTell` (a stat comes back only while the file has at most so many bytes). The file
steps of the watcher's machine do not assume it; all they ask of a version is that its stat has its size.

Findings the theorems make precise:

- A chained relay's hop limit matters on the way back only if the server replies straight to the giaddr: the reply then
  carries the hop count of the whole chain, and the first-hop relay accepts it exactly when its own limit covers the
  chain (`Chains.DirectReturnExactly`). A reply that retraces a chain whose policies pass it always gets through,
  filtered on the way (`Chains.ChainRoundTrip`).
- On an unnumbered ingress Link Selection may leave no room for the policy tag; a client matched by its identifier then
  keeps its action on the reply, under every table, exactly when the tag fits (`RelayPolicy.ReappliedExactlyWhenTagFits`);
  a 241-byte identifier behind interface 10000 gets another action (`RelayPolicy.TagLostOnUnnumberedIngress`).
- A reply is looked up twice and each lookup loads the snapshot, so a reload may fall between them. When the outcome is
  then that of neither table is stated exactly (`RelayPolicy.AsOneTableExactly`), and so is when a reply both tables
  drop is delivered (`RelayPolicy.DeliveredByNeitherTable`, with such tables in `RelayPolicy.ReloadBetweenLookups`).
- Re-encoding a decoded Option 82 gives the same bytes exactly when no sub-option is empty and the data is at most 255
  bytes (`Opt82.DecodeThenEncode`).
- The interface index is cut to 32 bits in the circuit id, so it comes back exactly when it fits
  (`SubOptions.CircuitIdRoundTrip`).
- The snapshot and the stat kept beside it are two assignments. They agree in every state outside those two, mutex held
  or not (`Watcher.EqualStatMeansCurrent`), and a run reaches a state in between where they do not
  (`WatcherRuns.DisagreementReached`).
- The watcher trusts stats. For every list of stats of one file, all runs publish only whole versions exactly when a stat
  comes back only over versions of at most one byte (`WatcherRuns.WholeExactly`), and an equal stat means a current
  snapshot in all runs exactly when it comes back only over empty ones (`WatcherRuns.CurrentExactly`). For files of two
  bytes or more both mean that no stat ever comes back (`WatcherRuns.DistinctExactly`); that the content comes back with
  it does not help (`WatcherRuns.TornRead`).
- Concurrent callers that find the interface list expired share one enumeration exactly if it succeeds and the last of
  them gets the lock within the lifetime (`CacheAttempts.OneAttemptServesAll`); after a failure a waiting caller
  enumerates again at once (`CacheAttempts.SecondAttempt`).
- The filter's length test counts the 42 bytes of Ethernet, IPv4 and UDP headers although the constant is the minimum
  size of the DHCP message: a message of n bytes passes exactly when n + 42 is within the limits (`Bpf.SizeExactly`), so
  messages of 202 to 243 bytes pass, for the decoder or the validator to reject, and IPv4 packets within 14 bytes of
  the MTU do not pass (`Bpf.LimitsMissTheMessage`).

## Model

| member | source | states |
|---|---|---|
| Options.DeleteSplitOptions | pkg/gpckt/dhcp/options.go:19-49 | in place, the array's front becomes the filtered list and nothing after the first End is touched |
| Options.CountTypes | pkg/gpckt/dhcp/options.go:20-28 | the count map agrees with the number of occurrences of every type except Pad and End |
| Options.WithoutSplitsPosition | pkg/gpckt/dhcp/options.go:30-48 | an option before the first End survives iff it is not Pad and its type occurs once in the whole list, and it stands after exactly the survivors before it; the End comes last |
| Options.WithoutSplitsClean | pkg/gpckt/dhcp/options.go:19-49 | the result has no Pad, no type twice and nothing after an End |
| Options.WithoutSplitsIdempotent | pkg/gpckt/dhcp/options.go:19-49 | filtering twice is filtering once |
| Options.GetOptionFirst | pkg/gpckt/dhcp/options.go:55-63 | lookup returns the first option of its type |
| Options.SortByType | pkg/gpckt/dhcp/options.go:79-81 | a sorted permutation, with no promise on equal types |
| Layers.Dhcpv4Layer.SetOption | pkg/gpckt/dhcp/options.go:71-82 | the options become a sorted permutation of the others plus the new one |
| Layers.Dhcpv4Layer.DeleteOption | pkg/gpckt/dhcp/options.go:65-69 | every option of the type goes, and each other moves up by the number of removed ones before it |
| Options.WithoutPosition | pkg/gpckt/dhcp/options.go:65-69 | the place of every option of another type after the deletion |
| Options.SetOptionGet | pkg/gpckt/dhcp/options.go:71-82 | the new option is found under its type and is the only one of it, whatever fragments were there |
| Options.SetOptionGetOther | pkg/gpckt/dhcp/options.go:71-82 | every other type looks up as before |
| Options.SetOptionClean | pkg/gpckt/dhcp/options.go:71-82 | on a filtered list types strictly ascend and the list stays filtered |
| Options.SetOptionDetermined | pkg/gpckt/dhcp/options.go:71-82 | after the filter, replacement has one possible result although the sort is unstable, and the next filter leaves it alone |
| Options.DeleteUndoesSet | pkg/gpckt/dhcp/options.go:65-82 | deleting the option just set restores a sorted, filtered list that lacked it |
| Opt82.EncodeRelayAgentInformationOption | pkg/gpckt/dhcp/opt82.go:46-63 | the loop packs the concatenated sub-options, or gives the zero option for an empty sub-option or more than 255 bytes |
| Opt82.DecodeRelayAgentInformationOption | pkg/gpckt/dhcp/opt82.go:65-92 | the loop over a shrinking slice returns the decoded list, or nil for any incomplete trailer |
| Opt82.DecodeExact | pkg/gpckt/dhcp/opt82.go:65-92 | decoding yields exactly the split of the data into complete sub-options, and that split is unique |
| Opt82.DecodedNil | pkg/gpckt/dhcp/opt82.go:65-92 | nil exactly when the data is empty or is no concatenation of complete sub-options |
| Opt82.EncodeThenDecode | pkg/gpckt/dhcp/opt82.go:46-92 | every list that encodes decodes to itself |
| Opt82.DecodeThenEncode | pkg/gpckt/dhcp/opt82.go:46-92 | decoded data re-encodes to the same bytes iff no member is empty and it fits |
| SubOptions.DigitsRoundTrip | pkg/gpckt/dhcp/sub-options.go:34-42 | the decimal form is digits only and denotes the number |
| SubOptions.CircuitId | pkg/gpckt/dhcp/sub-options.go:34-42 | a well-formed, non-empty sub-option whose data is the index modulo 2^32 in at most ten decimal digits |
| SubOptions.PolicyTag | pkg/gpckt/dhcp/sub-options.go:87-97 | a sub-option exactly for tags of 1 to 253 bytes, holding the tag |
| SubOptions.BuildOpt82 | pkg/dhcp4/request.go:148-175 | building Option 82 never fails; it decodes to the routing sub-options plus the tag iff the tag fits |
| SubOptions.TaggedEncodes | pkg/dhcp4/request.go:162-172 | the attempt with the tag encodes iff the summed sizes are at most 255 |
| SubOptions.NumberedTagFits | pkg/gpckt/dhcp/sub-options.go:25-32 | on a numbered ingress every key of up to 241 bytes fits |
| SubOptions.PolicyTagBoundTight | pkg/gpckt/dhcp/sub-options.go:29-31 | a tag fits beside every circuit id iff it has at most 241 bytes |
| SubOptions.CircuitIdRoundTrip | pkg/gpckt/dhcp/sub-options.go:34-59 | the extracted index is the written one modulo 2^32, hence equal iff it fits |
| SubOptions.PolicyTagRoundTrip | pkg/gpckt/dhcp/sub-options.go:86-108 | the tag read back is the tag given, or none when it did not fit |
| SubOptions.AtoiExactly | pkg/gpckt/dhcp/sub-options.go:50-55 | the index read from decimal digits with or without a sign, or an error beyond 64 bits |
| SubOptions.FirstCircuitId | pkg/gpckt/dhcp/sub-options.go:44-59 | only the first circuit id counts; none, or one that is no number, gives zero |
| Hosts.InterfaceGlobalUnicastAddrs4 | pkg/dhcp4/addrs.go:33-55 | the loop returns the global unicast networks of the interface in order, or the read error |
| Hosts.GlobalAddrsPosition | pkg/dhcp4/addrs.go:39-53 | a kept address stands after exactly the kept ones before it |
| Hosts.GiaddrExactly | pkg/dhcp4/addrs.go:14-16 | which addresses may serve as a giaddr, byte by byte |
| Hosts.ContainsOctets | pkg/dhcp4/addrs.go:106-110 | for the usual prefix lengths, containment is agreement of the leading bytes |
| Hosts.FindRelayLocalAddr | pkg/dhcp4/addrs.go:59-87 | the loop finds the address iff it is global unicast and the enumeration lists it as a network |
| Hosts.BestUnicastSrc | pkg/dhcp4/addrs.go:98-114 | the first address whose subnet holds yiaddr if there is any, else the first of all; nil only for an empty list |
| Hosts.RequestGiaddrIsLocal | pkg/dhcp4/request.go:89-128 | every giaddr the request path can write is taken as local, and accepted as a source, by the reply path |
| Requests.SendCopies | pkg/dhcp4/request.go:183-223 | one copy per giaddr in order; a failed send does not end the series, a serialization failure does |
| Requests.HandleGenericRequest | pkg/dhcp4/request.go:130-224 | refused at the hop limit or without a giaddr, untouched; otherwise one hop more, Option 82 set, and the copies |
| Requests.ForwardRelayedRequest | pkg/dhcp4/request.go:226-245 | below the limit exactly one copy that differs by one hop, at the limit none |
| Requests.RequestCopies | pkg/dhcp4/request.go:177-223 | as many copies as giaddrs, identical but for the giaddr, with exactly one Option 82 |
| Requests.RequestCarriesIngress | pkg/dhcp4/request.go:148-177 | the Option 82 of every copy decodes to the sub-options given and names the ingress |
| Replies.SelectReplyInterfaces | pkg/dhcp4/reply.go:333-352 | the matching NICs that are up and have a hardware address, in order |
| Replies.ReplyTargets | pkg/dhcp4/reply.go:281-330 | never empty; the ingress, unless the selector picks live NICs, each of which can carry the reply |
| Replies.ReplyAddressing | pkg/dhcp4/reply.go:186-227 | source, destination, hardware address and broadcast flag per reply type; fails only without any client address |
| Replies.SendReplies | pkg/dhcp4/reply.go:130-159 | one frame per target with an address and a MAC, whichever earlier ones failed, over one shared IPv4 layer |
| Replies.HandleGenericReply | pkg/dhcp4/reply.go:25-160 | a refused reply leaves the layer untouched and sends nothing; otherwise it is stripped and copied to its targets, without error iff every copy went out |
| Replies.ForwardRelayedReply | pkg/dhcp4/reply.go:164-183 | exactly one copy with one hop less to the giaddr, or nothing for an unusable giaddr or hop zero |
| Replies.ReplyFrameSource | pkg/dhcp4/reply.go:130-159 | broadcasts come from 0.0.0.0, unicasts out of the ingress from the old giaddr, others from an address of their NIC, in the subnet of yiaddr if possible |
| Replies.EveryTargetServed | pkg/dhcp4/reply.go:130-159 | a target with a source and a MAC gets exactly as many frames as it is listed, and every frame goes out of a target |
| Replies.ReplyToIngress | pkg/dhcp4/reply.go:107-159 | without a selector exactly one frame, out of the ingress |
| Handler.Handle | pkg/dhcp4/dhcp4.go:57-174 | the dispatch over message type, operation, hops, reply drop, locality and broadcast flag |
| Handler.HandlePacket | main.go:399-420 | a decoded, validated message is filtered in place, then dropped or decided by the policy, then handled under that decision |
| RoundTrip.DeliveredExactly | pkg/dhcp4/dhcp4.go:117-165 | a local reply that names a usable ingress is one frame iff its hop count is between one and the maximum |
| RoundTrip.FirstHopSends | pkg/dhcp4/request.go:130-224 | a first-hop request sends at least one copy iff it has a message type, the policy passes it, a hop is allowed and its ingress resolves to a giaddr |
| RoundTrip.SingleRelayRoundTrip | pkg/dhcp4/dhcp4.go:97-174 | every echoing reply leaves as one frame out of the request's ingress, giaddr cleared, Option 82 gone, other options in order |
| RoundTrip.ReplyReachesIngress | pkg/dhcp4/dhcp4.go:117-165 | the same for a reply with any hop count, which decides whether it is delivered |
| RoundTrip.PolicyRoundTrip | pkg/relay/relay.go:18-109 | through the wire and back on any ingress: dropped if the reply's own identifiers are blackholed, else the reply action of the entry the request matched, or of the reply's own entry if a matched key did not fit |
| RoundTrip.NumberedReapplies | pkg/relay/relay.go:62-82 | on a numbered ingress it is always the entry the request matched |
| OnTheWire.ForwardedExactly | pkg/dhcp4/dhcp4.go:142-151 | a reply that names neither a listed address of the host nor the override is exactly one message to its giaddr with one hop less, or nothing for an unusable giaddr; one that names this relay is never forwarded |
| OnTheWire.NumberedCopies | pkg/dhcp4/request.go:183-223 | one copy per usable address of the interface, the copy for address k after those of the usable addresses before it and under that address; only a serialization failure ends the series |
| OnTheWire.UnnumberedCopy | pkg/dhcp4/request.go:105-128 | one copy under the override, or else the server-facing address, whose Option 82 carries the four bytes of the link-map subnet |
| OnTheWire.ResolvesExactly | pkg/dhcp4/request.go:89-128 | which interfaces resolve to a giaddr, and to which |
| OnTheWire.NumberedCarriesNoSubnet | pkg/dhcp4/request.go:157-160 | copies from an interface with usable addresses carry no Link Selection |
| OnTheWire.RequestBytes | pkg/gpckt/dhcp/opt82.go:46-63 | the bytes of Option 82: 82, length, 1, the decimal index with its length, then 5, 4 and the subnet |
| OnTheWire.ServerOfRequest | pkg/relay/relay.go:42-47 | the server of the entry the client matches, or the default one; a blackholed client causes nothing |
| OnTheWire.FramesExactly | pkg/dhcp4/reply.go:281-352 | with a selector that accepts a live cached interface, each such interface with a source gets as many frames as it is listed and no other any; otherwise the ingress gets one |
| OnTheWire.PolicyPicksInterfaces | pkg/relay/relay.go:96-109 | the same from the entry the reply is under: its selector decides, and any other entry means the ingress |
| OnTheWire.DeniedReplyIsSilent | pkg/relay/relay.go:27-35 | a reply whose entry denies the client or its replies causes nothing, here or further on |
| OnTheWire.ReplyDecided | pkg/relay/relay.go:52-109 | drop and selector of a reply, from the own entry or the entry of its tag |
| OnTheWire.ReplyAddresses | pkg/dhcp4/reply.go:186-227 | addresses and flags of every frame of a reply on its flags, yiaddr and ciaddr |
| OnTheWire.SilentExactly | pkg/dhcp4/reply.go:43-85 | exactly when a reply for this relay that no selector redirects sends nothing |
| OnTheWire.Ignored | pkg/dhcp4/dhcp4.go:81-125 | what no relay reacts to: no type, another operation, hops out of range |
| OnTheWire.EightTypes | pkg/gpckt/dhcp/options.go:84-101 | the first option 53 decides, with length one and a value from 1 to 8 |
| OnTheWire.MatchedBy | pkg/relay/relay.go:22-25 | a client goes by its Option 61, and by its hardware address for what has no entry |
| Chains.EmitsRequest | pkg/dhcp4/request.go:226-245 | a relay passes any relayed request on, filtered and with one more hop, iff it is below its maximum |
| Chains.EmitsReply | pkg/dhcp4/reply.go:164-183 | a relay passes another relay's reply on, filtered and with one hop less, iff its hop count is in range |
| Chains.RequestTravels | pkg/dhcp4/request.go:226-245 | a request crosses a path of relays iff each admits it, gains one hop per relay and is filtered once |
| Chains.ReplyTravels | pkg/dhcp4/reply.go:164-183 | a reply crosses a path iff each relay admits it, loses one hop per relay and is filtered once |
| Chains.ReplyRetraces | pkg/dhcp4/reply.go:174-182 | where a request got through, the reply gets back through the same relays and ends with the request's first hop count |
| Chains.ChainRoundTrip | pkg/dhcp4/dhcp4.go:97-165 | through any chain and back, any echoing reply, padded and split options included, is one filtered, stripped frame out of the client's interface |
| Chains.HoldsStays | pkg/gpckt/dhcp/options.go:19-49 | an option that stands once before any End still does after the filter |
| Chains.DirectReturnExactly | pkg/dhcp4/dhcp4.go:118-125 | a reply sent straight to the giaddr is delivered iff the first relay's limit covers the chain |
| Exchange.Run | pkg/dhcp4/dhcp4.go:97-165 | with the handler run at the first hop, at every relay of any chain upwards and downwards and at the first hop again, the server sees one hop per relay and the client's interface gets one frame with the lease, every option the client sent and no Option 82 |
| Exchange.Up | pkg/dhcp4/request.go:226-245 | the handler, run relay by relay on what the one before sent, adds one hop each and nothing else |
| Exchange.Down | pkg/dhcp4/reply.go:164-183 | likewise downwards, taking one hop each |
| Exchange.RunDirect | pkg/dhcp4/dhcp4.go:118-125 | with a reply sent straight to the giaddr the first hop's handler delivers iff its limit covers the chain, and otherwise sends nothing |
| Exchange.EchoReplyEchoes | pkg/dhcp4/request.go:148-179 | a server that sends every option back meets what the relay relies on, whatever copy it got |
| Exchange.SomeExchange | pkg/dhcp4/dhcp4.go:97-165 | for any first-hop limit and any number of further relays, values that meet every premise of the round trips; both halves of the direct return are among them |
| Termination.RelayStepHops | pkg/dhcp4/request.go:139-179 | requests gain exactly one hop within the maximum, replies lose exactly one, and the byte never wraps |
| Termination.FanOutOnlyAtFirstHop | pkg/dhcp4/request.go:212-223 | a relay sends more than one message on only for a request at hop zero, and then at most one per giaddr |
| Termination.StepDecreases | pkg/dhcp4/dhcp4.go:101-125 | every relay or server step lowers the weight of the messages in flight |
| Termination.RunsAreFinite | pkg/dhcp4/dhcp4.go:101-125 | a run has at most as many steps as the weight of its first state |
| Termination.OnePacketTerminates | pkg/dhcp4/dhcp4.go:101-125 | what one packet causes is over within a bound that depends only on the fan-out |
| Termination.NoInfiniteRun | pkg/dhcp4/reply.go:174-182 | from any state, with any fan-out at each step, no run is infinite |
| MacPolicy.LookupID | pkg/macpolicy/macpolicy.go:89-101 | the entry of the first listed non-empty identifier that has one and that identifier, or the fallback when none has |
| MacPolicy.ParseAction | pkg/macpolicy/macpolicy.go:227-240 | an unknown keyword is an error and never a server; a server is the token itself |
| MacPolicy.ParseIdentifier | pkg/macpolicy/macpolicy.go:243-273 | keys have 1 to 241 bytes, and are a six-byte MAC or the decoded hex |
| MacPolicy.Parse | pkg/macpolicy/macpolicy.go:276-354 | a table iff no line of text is wrong and reading succeeded, and then it indexes the last line of every key |
| MacPolicy.LineExactly | pkg/macpolicy/macpolicy.go:286-333 | from the tokens: blank iff no fields, bad iff too many, an unknown word, a bad selector or a key that is neither form; otherwise key and actions are what the columns say, an absent one meaning the default |
| MacPolicy.IdentifierExactly | pkg/macpolicy/macpolicy.go:243-273 | a key is accepted iff it is prefixed hex of 1 to 241 bytes or a six-byte MAC, and denotes those bytes |
| MacPolicy.CatchAllDecides | pkg/macpolicy/macpolicy.go:318-328 | the last catch-all line is the fallback, and without one unlisted clients are denied |
| ConfigLines.Fields | pkg/cfgmatch/cfgmatch.go:89-100 | the words before the first that begins a comment |
| ConfigLines.FieldsExactly | pkg/cfgmatch/cfgmatch.go:89-100 | a list is what some line is cut into iff each member is non-empty, free of white space and no comment |
| ConfigLines.WordsExactly | pkg/cfgmatch/cfgmatch.go:90 | the words hold every character that is not white space, in order, one word for every beginning |
| MacPolicy.LookupIsScan | pkg/macpolicy/macpolicy.go:89-101 | looking up in the table is scanning the file backwards, for every identifier list |
| MacPolicy.LastLineWins | pkg/macpolicy/macpolicy.go:335-342 | spellings of the same bytes share one entry, decided by the last line |
| MacPolicy.LineRoundTrip | pkg/macpolicy/macpolicy.go:286-342 | every writable action, under every key of an allowed size or the catch-all, is read back from the line of text written for it |
| MacPolicy.TablesExactly | pkg/macpolicy/macpolicy.go:276-354 | a table is the parse of some text iff its keys have 1 to 241 bytes and each server and selector is a field of a line and no reserved word, the selector well formed, and only server actions name a server |
| MacPolicy.EveryKeyHasASpelling | pkg/macpolicy/macpolicy.go:243-260 | any identifier written in hex is read back as the same bytes, and accepted iff it has 1 to 241 of them |
| MacPolicy.HexCaseInsensitive | pkg/macpolicy/macpolicy.go:244-248 | upper and lower case hex spell the same key |
| RelayPolicy.ReplyActionCases | pkg/relay/relay.go:62-82 | with a table per lookup: the own lookup in the first if it is a blackhole or the tag has no entry in the second, else that entry |
| RelayPolicy.ReplyActionAfterReload | pkg/relay/relay.go:62-82 | the reply action under tables reloaded since the request, even between the two lookups, in every case |
| RelayPolicy.ReplyActionExact | pkg/relay/relay.go:62-82 | under one table the request's action, unless the reply's own lookup is a blackhole or the tag was dropped |
| RelayPolicy.ReplyActionNumbered | pkg/relay/relay.go:62-82 | on a numbered ingress the tag is never dropped, so the action is always reapplied |
| RelayPolicy.ReappliedExactlyWhenTagFits | pkg/dhcp4/request.go:162-172 | for a client matched by its identifier, reapplication under every table a file can hold and every Ethernet address is equivalent to the tag fitting |
| RelayPolicy.TagLost | pkg/relay/relay.go:68-81 | without room for the tag, a client with its own server gets the default action on the reply |
| RelayPolicy.TagLostOnUnnumberedIngress | pkg/dhcp4/request.go:162-172 | behind interface 10000 and Link Selection a 241-byte identifier gets an action other than the one its request matched |
| RelayPolicy.AsOneTableExactly | pkg/relay/relay.go:69-81 | exactly when a reply whose lookups read two tables is handled as one of them alone would |
| RelayPolicy.DeliveredByNeitherTable | pkg/relay/relay.go:69-81 | exactly when a reply that each table alone drops gets through because a reload fell between the lookups |
| RelayPolicy.ReloadBetweenLookups | pkg/relay/relay.go:69-81 | two tables and a reply for which that happens |
| Bpf.FilterMeetsSpec | pkg/bytecode/bpf.go:22-61 | on every frame and limit the program returns the limit iff the frame is wanted, else zero, and never leaves the program |
| Bpf.AndMask | pkg/bytecode/bpf.go:30-43 | masking low bits is taking a remainder |
| Bpf.MaskFragment | pkg/bytecode/bpf.go:40-43 | the fragment mask is clear iff More Fragments and the offset are |
| Bpf.AcceptedFitsBuffer | main.go:300-304 | an accepted frame fits whole into the receive buffer |
| Bpf.SizeExactly | pkg/bytecode/bpf.go:50-57 | a frame with the wanted headers and an n-byte message without trailer is accepted iff 244 <= n + 42 <= MTU |
| Bpf.LimitsMissTheMessage | pkg/bytecode/bpf.go:52-57 | frames with messages of 202 to 243 bytes pass, and frames of IPv4 packets within 14 bytes of the MTU, full-size ones included, are dropped |
| Bpf.FilterAgreesWithValidator | pkg/dhcp4/validate.go:29-103 | on decodable frames within the limits the validator passes exactly the frames the filter accepts that also have no multicast address, an Ethernet message of a legal size and, if asked for, right checksums |
| Watcher.NextKeepsInv | pkg/filewatch/watch.go:108-243 | every step of writers, readers, poller and Close keeps the invariant |
| Watcher.NeverTorn | pkg/filewatch/watch.go:119-160 | every published snapshot passed validation, and is the parse of one whole file version when stats come back over at most one byte |
| Watcher.EqualStatMeansCurrent | pkg/filewatch/watch.go:159-160 | outside the two assignments, mutex held or not, and with stats that come back only over empty versions, lastInfo describes the version of the snapshot; a stat equal to it means the snapshot is current |
| WatcherRuns.DisagreementReached | pkg/filewatch/watch.go:159-160 | a run to a state between the assignments in which snapshot and lastInfo speak of different versions |
| Watcher.SkippedTickIsCurrent | pkg/filewatch/watch.go:208-230 | a tick skips the reload iff its stat equals lastInfo, and then the snapshot is the parse of what it statted |
| Watcher.FailedReloadChangesNothing | pkg/filewatch/watch.go:107-144 | a reload that ends before publication changes neither snapshot nor lastInfo |
| Watcher.QuietReloadConverges | pkg/filewatch/watch.go:207-230 | while files rest, one successful reload makes the snapshot current, and it stays so |
| Watcher.QuietTickEndsCurrent | pkg/filewatch/watch.go:207-230 | while files rest, every tick taken to its end, among any other threads, leaves the snapshot current or its own reload could not read, parse or validate the file |
| Watcher.ClosedPollerIsSilent | pkg/filewatch/watch.go:191-243 | after Close returns the poller publishes nothing |
| WatcherRuns.SilentEditIsMissed | pkg/filewatch/watch.go:220-222 | a run in which a tick skips an edit that kept identity, size and time |
| WatcherRuns.TornRead | pkg/filewatch/watch.go:135-144 | for any three versions of which the third has the stat of the first, a run that publishes a mixture of the first two |
| WatcherRuns.WholeExactly | pkg/filewatch/watch.go:135-144 | for every list of stats of one file, all runs over such versions publish whole versions only iff a stat comes back only over versions of at most one byte |
| WatcherRuns.CurrentExactly | pkg/filewatch/watch.go:214-222 | for every list of stats of one file, an equal stat means a current snapshot in all runs iff a stat comes back only over empty versions |
| WatcherRuns.DistinctExactly | pkg/filewatch/watch.go:233-235 | for files of two bytes or more, and of one or more, these come down to pairwise distinct stats |
| WatcherObject.FileWatcher.Reload | pkg/filewatch/watch.go:108-169 | among any writers, it publishes what it read iff the path was there, the bytes parse, the two stats agree and validation passes, and is a path of the machine; a file left alone is published whole |
| WatcherObject.FileWatcher.ReadFile | pkg/filewatch/watch.go:119-128 | the parse of the bytes collected piece by piece from what the file holds at each read |
| WatcherObject.FileWatcher.Publish | pkg/filewatch/watch.go:146-160 | both fields change iff validation passes |
| WatcherObject.FileWatcher.Poll | pkg/filewatch/watch.go:208-230 | among any writers, nothing changes if the stat fails or equals lastInfo, and otherwise it is a reload |
| InterfaceCache.OneRefetchAtATime | pkg/dhcp4/ifcache.go:48-67 | at most one caller is refetching |
| InterfaceCache.ResultsAreJustified | pkg/dhcp4/ifcache.go:39-70 | a result is a snapshot young enough at a clock reading inside the call, the caller's own fetch, or with an error the newest snapshot there was |
| InterfaceCache.FetchRate | pkg/dhcp4/ifcache.go:44-67 | stored snapshots are at least a lifetime apart, so n of them take n - 1 lifetimes |
| CacheAttempts.AttemptsCounted | pkg/dhcp4/ifcache.go:48-67 | in every run attempts are the failures, the stored snapshots and the one under way |
| CacheAttempts.AttemptRate | pkg/dhcp4/ifcache.go:44-67 | failures and the one under way aside, attempts are rationed by the lifetime |
| CacheAttempts.OneAttemptServesAll | pkg/dhcp4/ifcache.go:28-54 | after an enumeration no other begins iff it succeeded and every call that looks again with the lock does so within the lifetime |
| CacheAttempts.SecondAttempt | pkg/dhcp4/ifcache.go:48-65 | a run in which a waiting caller enumerates again because the first enumeration failed |
| InterfaceCache.SnapshotIsNeverLost | pkg/dhcp4/ifcache.go:56-65 | once there is a snapshot no error loses it |
| InterfaceCache.NeverEmptyHanded | pkg/dhcp4/ifcache.go:56-65 | a call under way when there is a snapshot never comes back with nothing |
| InterfaceCache.StoreKeepsInv | pkg/dhcp4/ifcache.go:67 | storing keeps the invariant, spacing included |
| InterfaceCache.Cache.Load | pkg/dhcp4/ifcache.go:44 | the unlocked load is a step of the machine |
| InterfaceCache.Cache.CheckLoaded | pkg/dhcp4/ifcache.go:44-46 | the unlocked check hits iff the loaded snapshot is young enough |
| InterfaceCache.Cache.Acquire | pkg/dhcp4/ifcache.go:48-49 | the lock is taken iff it is free |
| InterfaceCache.Cache.CheckAgain | pkg/dhcp4/ifcache.go:51-54 | the check under the lock, on whatever snapshot is there by now |
| InterfaceCache.Cache.ServeStale | pkg/dhcp4/ifcache.go:56-65 | a failed fetch serves the snapshot there is |
| InterfaceCache.Cache.Publish | pkg/dhcp4/ifcache.go:67-69 | the fetched list is stored under the present time |
| HandlerPool.PoolIsBounded | main.go:415-424 | occupied slots never exceed the limit; a slot is released once, after being taken and before its handler leaves the wait group |
| HandlerPool.NoSendAfterClose | main.go:314-321 | the send socket is closed only by a completed drain, with no handler in flight |
| HandlerPool.NextKeepsInv | main.go:415-451 | counters agree with the handlers they count after every step |
| HandlerPool.Pool.HandOff | main.go:415-424 | a packet gets a handler iff a slot is free, and otherwise is dropped |
| HandlerPool.Pool.ReleaseSlot | main.go:418 | a returning handler gives its slot back |
| HandlerPool.Pool.Done | main.go:417-421 | the wait group entry ends after the slot is back |
| HandlerPool.Pool.EndDrain | main.go:314-323 | the socket is closed iff the wait completed, and then nothing runs |

## Left out

- Sockets, raw sends, BPF attachment and name resolution: a send is a log entry whose outcome is arbitrary.
- Frame decoding and serialization: a decoded message is the starting point, and whether a copy serializes is arbitrary.
- The library's part in validation: the checksum results and the message size it computes from the options are parameters.
- Panic recovery, logging, the debug server, the boot file name and the choice of IPv4 identification: no bearing on the results.
- Glob matching of NIC selectors and MAC address parsing: parameters (`Config.selects`, `Syntax`).
- The link map file: only that a lookup gives an IPv4 subnet address.
- Splitting a policy file into lines, and the warnings Parse collects.
- MacPolicy.TablesExactly: takes lines of any length; the limit of the line scanner shows only as a read error of `Parse`.
- WatcherObject.FileWatcher.Reload: writers act between its accesses; other threads, and accesses that fail, are in the machine it is a path of.
- WatcherObject.FileWatcher.Poll: likewise; ticks among other threads are `Watcher.SkippedTickIsCurrent` and `Watcher.QuietTickEndsCurrent`.
- Exchange.Run: takes what a relay tries to send as arriving; sends that fail are in the logs the relations speak of.
- Handler.HandlePacket: starts after decoding and validation (`Bpf.Validates` has the validator), and a packet dropped because the pool is full never reaches it; that case is in the handler pool alone.
- The interface cache with caching switched off, where every call enumerates.
- Clients and delays: a client's next message starts a new run, and a message in flight may be heard or lost at any time.
