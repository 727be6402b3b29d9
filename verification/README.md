# A verified model of the swu-go client

swu-go is an IKEv2 / EAP-AKA / ESP client for the ePDG tunnels of untrusted 3GPP access. This project models its
protocol core in Dafny and proves what the core is for: that requests are never lost or answered twice, that what one
side encodes the other decodes, that fragments and envelopes survive the way to the peer, that address ranges become
the right routes, and that keys, counters and sequence numbers are what they should be.

`dafny verify dfyconfig.toml` checks the whole project.

## How the model is laid out

| files | subject |
|---|---|
| `Bytes` | byte strings, big-endian integers, results |
| `IkeSa`, `IkePayload`, `IkePacket` | the IKEv2 wire codec (sections 3.1 to 3.15 of RFC 7296) and the two payload walkers |
| `Window`, `WindowRuns`, `TaskManager` | the request window: steps as functions, whole runs, and the locked object |
| `MessageIds`, `Requests` | message-ID allocation, and allocation together with the window |
| `Envelope`, `FragmentBuffer`, `Fragmentation`, `FragmentPackets`, `FragmentTraffic`, `Session` | the SK envelope and IKE fragmentation (RFC 7383), from one session to its peer |
| `SaInit` | the IKE_SA_INIT retry loop with COOKIE and INVALID_KE_PAYLOAD |
| `Routes`, `Selector` | IPv4 ranges to CIDR routes, and the traffic-selector matcher they must agree with |
| `EapMac`, `SoftSim`, `FipsPrf` | AT_MAC (RFC 4187), the software SIM's sequence numbers, and the FIPS 186-2 generator |
| `KeyMaterial`, `DhExchange`, `Esp` | prf+ and the seven IKE keys, Diffie-Hellman, ESP packets (RFC 4303) |

Code that the source runs step by step is written as methods with loops, arrays and fields, each proved equal to a
function of its inputs or of the old state; the theorems are about those functions. Ciphers, MACs, hash functions and
the Milenage functions are parameters: the only laws used are decrypt-after-encrypt, determinism and output lengths.
Random bytes, clocks and received datagrams are arguments. Durations are real numbers. Each locked method of the
task manager is one atomic step, and map iteration is modelled as an arbitrary order, with a
result that does not depend on it.

## What the code does that one might not expect

These are facts about the code, each proved, with the exact condition wherever the intended property fails.

- `pumpQueue` admits one request per call, so a pass that frees two or more slots leaves the window underfilled exactly
  when at least two requests wait (`Window.UnderfilledWindow`); a waiting queue still always has something in flight
  before it.
- The in-flight map is keyed by message ID. Enqueueing keeps the window's invariant if and only if the ID is not
  already waiting (`WindowRuns.FreshnessExact`). The counter provides that between rekeys. After a rekey the counter
  restarts while the window keeps its requests: the sends that follow stay fresh exactly up to the smallest ID that is
  still waiting (`Requests.FreshUntilSmallestWaiting`, and `Requests.FreshAfterRekeyExactly` with other traffic).
- A request enqueued while the window has room is sent at once, even when others wait: it overtakes them exactly then
  (`WindowRuns.OvertakesExactly`). Waiting requests are sent in their order.
- A send draws its ID and later registers the counter less one. It registers its own ID if and only if nothing drew or
  moved the counter in between (`MessageIds.RegistersOwnExactly`).
- After cancellation no request times out any more: one that is enqueued later waits for its response for ever
  (`WindowRuns.UnresolvedAfterCancel`).
- The first payload type travels in fragment 1 only, but is read from the fragment that arrives last. The bytes are
  always reassembled in order, while the payloads come out if and only if fragment 1 completes the set; otherwise the
  message is taken for an empty one (`FragmentPackets.FragmentedMessageArrives`).
- In CBC mode the padding of a fragment is appended in place and lands on the first bytes of the next one. The
  fragments carry the message if and only if it already holds the padding bytes there
  (`Fragmentation.CbcSendsChainExactly`). With AEAD suites they always do.
- A fragment number outside 1..total is accepted. A set that reports completion can be reassembled if and only if it
  holds no such number (`FragmentBuffer.StrayNumber`).
- The decision to fragment counts neither the IP and UDP headers nor block padding, so an unfragmented packet may exceed
  the MTU by up to 28 bytes and, with a block cipher, one block (`Fragmentation.SealFitsExactly`).
- The GCM nonce is appended to the salt, which is the tail of a key that is a slice of the key material: encrypting
  overwrites the first eight bytes of SK_er, decrypting those of SK_pi
  (`KeyMaterial.GcmEncryptKeepsKeysExactly`, `KeyMaterial.GcmDecryptKeepsKeysExactly`). So after sending, the reply is
  opened with the peer's key if and only if the IV sent equals those bytes (`Session.ReplyAfterSending`). The keys of a
  Child SA are neighbours in the same way (`Esp.InboundAfterSending`).
- The sender cuts up to 255 fragments, but a receiver never completes a message of more than 65536 bytes
  (`FragmentBuffer.ReceivableExactly`); a duplicate that arrives after completion opens a new set
  (`FragmentTraffic.DuplicateOpensNewSet`).
- An IPv6 selector whose range holds an IPv4-mapped address accepts packets to that IPv4 address, for which it adds no
  IPv4 route (`Selector.InstalledListAgrees`).
- prf+ refuses a request that needs a 255th block, which section 2.13 of RFC 7296 would allow
  (`KeyMaterial.PrfPlusPrefix`).
- One MESSAGE_ID_SYNC to the top of the range makes the counter wrap, and IDs repeat under the same keys
  exactly as `MessageIds.RepeatsAfterWrapExactly` says, for any number of draws. Below the wrap they never do.
- A DH private key may be drawn as zero, and every peer refuses its public value (`DhExchange.ZeroKeyIsRefused`).
- The AUTS that reports loss of synchronisation masks the rejected sequence number, where section 6.3.3 of TS 33.102
  has the SIM's own (`SoftSim.GeneratedAcceptedExactly`).
- A payload length below four, and an SA payload without proposals in an IKE_SA_INIT response, are slice or index
  errors in the code; the model treats them as a failed decode.

## Model

| member | source | states |
|---|---|---|
| Routes.GreedyCovers | pkg/swu/routes.go:56-81 | The networks listed for a range are well-formed, ascending and disjoint, and an address matches one of them by prefix iff it lies in the range, up to 255.255.255.255 |
| Routes.GreedyMinimal | pkg/swu/routes.go:56-81 | No list of aligned power-of-two networks, overlapping or not, whose union is exactly the range is shorter |
| Routes.GreedyAtMost62 | pkg/swu/routes.go:56-81 | No range needs more than 62 routes |
| Routes.GreedyFullRange | pkg/swu/session.go:1669-1674 | The full address space decomposes to exactly 0.0.0.0/0, so the shortcut adds what the loop would |
| Routes.LargestBlock | pkg/swu/routes.go:61-71 | Starting from the alignment (or 2^32 at zero) and halving finds the largest aligned block that stays in the range |
| Routes.CidrLoop | pkg/swu/routes.go:56-81 | The loop yields the greedy decomposition, with prefix lengths in 0..32 |
| Routes.RangeToCidrs | pkg/swu/routes.go:51-82 | An inverted range is an error, any other gives its greedy decomposition |
| Selector.Ipv4RangeToCidrs | pkg/swu/routes.go:45-82 | The same on addresses, including IPv4-mapped ones; a non-IPv4 address is an error |
| Selector.RoutesFor | pkg/swu/session.go:1662-1682 | With policy routing a selector's routes are its decomposition, with or without the full-range shortcut; without it the full range is skipped; an error adds none |
| Selector.MatchSelectors | pkg/swu/selector.go:34-73 | A packet matches iff some non-nil selector accepts its protocol, port and address |
| Selector.LexIsNumeric | pkg/swu/selector.go:62-69 | Comparing byte strings of one length is comparing the numbers they denote |
| Selector.AcceptsExactly | pkg/swu/selector.go:34-73 | For a 4- or 16-byte destination: accepted iff the protocol is any or equal, a TCP or UDP selector has the port in its range, and the address as a number lies between the ends, IPv4 selectors among the IPv4-mapped addresses |
| Selector.OtherLengthsRefused | pkg/swu/selector.go:52-66 | A destination of any other length is accepted by no selector |
| Selector.CidrsExactly | pkg/swu/routes.go:45-82 | A pair of addresses, IPv4 or mapped, has networks iff both are IPv4 and in order, and then they hold exactly the addresses from the first to the second |
| Selector.Ipv6Accepts | pkg/swu/selector.go:62-69 | An any-protocol IPv6 selector accepts exactly the addresses numerically between its ends |
| Selector.RoutesAgreeWithMatcher | pkg/swu/selector.go:34-61 | An address lies in the routes of an any-protocol IPv4 selector iff the matcher accepts it; an inverted range gives no routes and matches nothing |
| Selector.InstalledRoutesAgree | pkg/swu/session.go:1662-1682 | The installed routes hold exactly the addresses the matcher accepts iff policy routing is available or the range is not the full one |
| Selector.InstallRoutes | pkg/swu/session.go:1656-1682 | The loop over the selectors collects the routes of each in order |
| Selector.InstalledListAgrees | pkg/swu/session.go:1656-1682 | For a whole list: a routed address is matched, and routes and matcher agree on an address iff it is routed or no selector accepts it without adding a route |
| IkeSa.AttrsRoundTrip | pkg/ikev2/payload_sa.go:113-143 | Any list of TV and TLV attributes decodes to itself, up to the unused `Val` of TLV ones |
| IkeSa.AttrWire | pkg/ikev2/payload_sa.go:113-143 | Type, format bit, and value or length of an attribute as numbers at their offsets |
| IkeSa.AttrReencodes | pkg/ikev2/payload_sa.go:273-313 | On every input: an attribute is refused iff its header or value is cut off, and one that is read is written again as the same bytes, but for a TLV without a value |
| IkeSa.TransformRoundTrip | pkg/ikev2/payload_sa.go:79-104 | A transform decodes to itself with all its attributes, Last flag included |
| IkeSa.TransformWire | pkg/ikev2/payload_sa.go:79-104 | A transform field by field: 0 or 3, length, type, ID, attributes |
| IkeSa.TransformsRoundTrip | pkg/ikev2/payload_sa.go:232-255 | Any list of transforms decodes to itself, with Last set on exactly the final one |
| IkeSa.TransformsWire | pkg/ikev2/payload_sa.go:39-50 | In a transform list each transform is followed by the next, and the first byte is 0 on the final one and 3 on the others |
| IkeSa.ProposalRoundTrip | pkg/ikev2/payload_sa.go:39-67 | A proposal decodes to itself: SPI, counts and transforms |
| IkeSa.ProposalWire | pkg/ikev2/payload_sa.go:39-67 | A proposal field by field: 0 or 2, length, number, protocol, counts, SPI, transforms |
| IkeSa.ProposalsRoundTrip | pkg/ikev2/payload_sa.go:15-26 | Any list of proposals decodes to itself, Last flags normalised |
| IkeSa.ProposalsWire | pkg/ikev2/payload_sa.go:15-26 | The same for a proposal list, with 0 and 2 |
| IkeSa.EncodeTransform | pkg/ikev2/payload_sa.go:79-104 | The encoding loop equals the recursive encoder that the round trips are about |
| IkeSa.EncodeProposal | pkg/ikev2/payload_sa.go:39-67 | The same, and it leaves Last set on exactly the final transform |
| IkeSa.EncodeSa | pkg/ikev2/payload_sa.go:15-26 | The same, and it leaves Last set on exactly the final proposal and final transforms |
| IkeSa.MarkedAsDecoded | pkg/ikev2/payload_sa.go:39-50 | The Last flags that encoding leaves on the transforms are those a decoder reads: set on exactly the final one |
| IkeSa.ProposalsMarkedAsDecoded | pkg/ikev2/payload_sa.go:15-26 | The same for proposals |
| IkeSa.DecodeTransform | pkg/ikev2/payload_sa.go:260-316 | The offset loop equals the recursive decoder on every input, errors included |
| IkeSa.DecodeProposal | pkg/ikev2/payload_sa.go:211-258 | The offset loop equals the recursive decoder on every input, errors included |
| IkeSa.DecodeSa | pkg/ikev2/payload_sa.go:171-209 | The offset loop equals the recursive decoder on every input, stopping at the first Last proposal |
| IkePayload.SelectorsRoundTrip | pkg/ikev2/payload_ts.go:73-155 | Any list of IPv4 and IPv6 selectors decodes to itself |
| IkePayload.SelectorWire | pkg/ikev2/payload_ts.go:73-96 | A selector field by field |
| IkePayload.SelectorReencodes | pkg/ikev2/payload_ts.go:117-150 | On every input: a selector is read iff its type and length agree and fit, and is written again as the same bytes |
| IkePayload.EncodeTs | pkg/ikev2/payload_ts.go:22-48 | The encoding loop equals the recursive encoder |
| IkePayload.DecodeTs | pkg/ikev2/payload_ts.go:98-155 | The decoding loop equals the recursive decoder on every input |
| IkePayload.CpAttrsRoundTrip | pkg/ikev2/payload_cp.go:68-136 | Any list of configuration attributes decodes to itself |
| IkePayload.CpAttrWire | pkg/ikev2/payload_cp.go:68-80 | A configuration attribute field by field |
| IkePayload.CpAttrReencodes | pkg/ikev2/payload_cp.go:108-136 | On every input: an attribute is refused iff it is cut off, and is written again as the same bytes; the TV form is read as a two-byte value |
| IkePayload.EncodeCp | pkg/ikev2/payload_cp.go:43-66 | The encoding loop equals the recursive encoder |
| IkePayload.DecodeCp | pkg/ikev2/payload_cp.go:82-106 | The decoding loop equals the recursive decoder on every input |
| IkePayload.NotifyRoundTrip | pkg/ikev2/payload_notify.go:24-58 | A notify decodes to itself, without its encoder-only type override |
| IkePayload.NotifyReencodes | pkg/ikev2/payload_notify.go:39-58 | On every input: a notify is refused iff its SPI is cut off, and is written again byte for byte |
| IkePayload.DeleteRoundTrip | pkg/ikev2/payload_delete.go:18-51 | A delete decodes to itself when its SPI bytes are count times size |
| IkePayload.DeleteReencodes | pkg/ikev2/payload_delete.go:31-51 | On every input: a delete is refused iff its SPIs are cut off, and is written again as the same bytes, without what follows them |
| IkePayload.BodyRoundTrip | pkg/ikev2/packet.go:105-145 | Every well-formed payload decodes, under its own type, to itself normalised |
| IkePayload.BodyWire | pkg/ikev2/packet.go:34-57 | Every payload body field by field, as numbers at offsets |
| IkePayload.TypeNumbers | pkg/ikev2/constants.go:8-31 | The payload type each payload is sent under |
| IkePayload.DecodeBody | pkg/ikev2/packet.go:105-145 | The switch over payload types with its loops equals the recursive decoder |
| IkePayload.EncodeBody | pkg/ikev2/packet.go:41-45 | The payload's bytes, and the Last flags its encoding writes in place |
| IkePacket.HeaderRoundTrip | pkg/ikev2/header.go:31-60 | Every IKE header decodes to itself, whatever follows it |
| IkePacket.HeaderWire | pkg/ikev2/header.go:31-42 | Every header field as a number at its offset |
| IkePacket.ChainRoundTrip | pkg/ikev2/packet.go:34-57 | Any list of payloads, including none, is recovered from its chain by the next-type links |
| IkePacket.ChainWire | pkg/ikev2/packet.go:34-57 | In front of every payload stand the type of the next one, a zero, and its own length |
| IkePacket.PacketRoundTrip | pkg/ikev2/packet.go:20-159 | A packet decodes to its header with next type and length filled in, and its payloads normalised |
| IkePacket.PacketWire | pkg/ikev2/packet.go:20-66 | The header names the first payload type and the length of the whole packet, and the chain follows |
| IkePacket.IKEPacket.Encode | pkg/ikev2/packet.go:20-66 | Encoding writes the packet, the header's next type and length, and the Last flags, and nothing else |
| IkePacket.DecodePacket | pkg/ikev2/packet.go:68-159 | The strict walking loop equals the recursive walker on every datagram |
| IkePacket.ParsePayloads | pkg/swu/msg_handler.go:115-175 | The lenient walking loop equals the recursive walker on every chain |
| IkePacket.WalkersAgree | pkg/swu/msg_handler.go:115-175 | Wherever the strict walker succeeds the lenient one gives the same payloads |
| IkePacket.WalkersDiffer | pkg/swu/msg_handler.go:121-123 | The lenient walker accepts what the strict one rejects iff one to three bytes are left over |
| Window.Init | pkg/swu/window.go:69-94 | A new manager satisfies the invariant for every configured window size |
| Window.EnqueueInv | pkg/swu/window.go:101-125 | Enqueueing a fresh ID keeps the invariant, sent or queued |
| Window.RespondInv | pkg/swu/window.go:144-160 | Any response keeps the invariant |
| Window.PumpInv | pkg/swu/window.go:162-171 | Admitting one request restores "a waiting queue has something in flight" |
| Window.PassInv | pkg/swu/window.go:204-247 | A timeout pass keeps the invariant, however many requests die in it |
| Window.CancelInv | pkg/swu/window.go:182-194 | Cancellation keeps the invariant: nothing is left waiting, and no channel is closed twice |
| Window.UnderfilledWindow | pkg/swu/window.go:204-247 | For every pass: it ends with the queue empty or the window full iff it closes nothing and that was so before, or at most one request was waiting, or it closes exactly one request of a full window |
| WindowRuns.RunSafety | pkg/swu/window.go:101-247 | In every run: at most windowSize in flight, each under its own ID; every request in exactly one of flight, queue and resolution; no second close, send after close or blocking send |
| WindowRuns.FreshnessExact | pkg/swu/window.go:112-130 | Enqueueing keeps the invariant iff the ID is neither in flight nor queued |
| WindowRuns.LosesExactly | pkg/swu/window.go:116-130 | An enqueue loses an earlier request iff the window has room and the ID is in flight |
| WindowRuns.ResolvedOnce | pkg/swu/window.go:143-247 | Once answered, timed out or cancelled, a request never changes again in any run |
| WindowRuns.ResolutionCauses | pkg/swu/window.go:143-247 | In one step a request is answered only by a response to its own ID with that data, timed out only by a pass at which it is due without retries left, and cancelled only by cancellation while in flight |
| WindowRuns.ServedInTurn | pkg/swu/window.go:112-125 | Every step sends waiting requests in the order in which they were queued |
| WindowRuns.OvertakesExactly | pkg/swu/window.go:112-125 | A new request overtakes waiting ones iff the window has room while some wait |
| WindowRuns.AnswerDelivers | pkg/swu/window.go:144-160 | A response reaches the request registered under its ID and no other channel |
| WindowRuns.PassProgress | pkg/swu/window.go:204-247 | A pass never adds retry credit, and strictly reduces it when something is due |
| WindowRuns.AnswerProgress | pkg/swu/window.go:144-160 | A response strictly reduces the credit |
| WindowRuns.DrainBound | pkg/swu/window.go:204-247 | There are at most as many expiring passes as credit, and requests leave only by timing out |
| WindowRuns.NeverStuck | pkg/swu/window.go:174-202 | Before cancellation, while any request is unresolved, some pass that the loop may run, as late as wished, expires something |
| WindowRuns.Drained | pkg/swu/window.go:204-247 | Without answers, once expiring passes have gone on until nothing is left to expire, every unresolved request has timed out, however many each pass expired; the passes are at most as many as the credit |
| WindowRuns.DrainExists | pkg/swu/window.go:174-247 | Before cancellation such a series of passes exists from every state, along any clock |
| WindowRuns.PassesAreRun | pkg/swu/window.go:174-202 | Until cancellation any series of passes is a run of the loop |
| WindowRuns.UnresolvedAfterCancel | pkg/swu/window.go:101-125 | A request enqueued after cancellation stays unresolved over every run without a response to its ID |
| WindowRuns.CancelIsFinal | pkg/swu/window.go:182-194 | Cancelling resolves every request there is, and no pass and no second cancellation follows in any run |
| WindowRuns.TimeoutClosed | pkg/swu/window.go:222-228 | Without a cap the r-th timeout is the initial one times the r-th power of the factor; with a cap and a factor of at least one the smaller of that and the cap, but for the first; with a smaller factor the capped first backoff shrinks geometrically |
| WindowRuns.GeometricSum | pkg/swu/window.go:222-228 | Without a cap the timeouts of a request add up as a geometric series |
| WindowRuns.DefaultSchedule | pkg/swu/window.go:28-41 | The default configuration waits 4, 7.2, 12.96, ... seconds, 165.06112 in all |
| WindowRuns.RetransmissionBound | pkg/swu/window.go:128-239 | In every run with passes at most gap apart: a request is in flight only while the last pass is within the sum of its (clamped, backed-off) timeouts plus one gap per retry; one that timed out was sent MaxRetries+1 times and closed between that sum and the sum plus one gap per transmission |
| WindowRuns.ClosedInTime | pkg/swu/window.go:128-239 | A request that was sent is resolved by the first pass after that bound, answered or not |
| TaskManager.TaskManager.constructor | pkg/swu/window.go:69-94 | The new object is the initial state |
| TaskManager.TaskManager.EnqueueRequest | pkg/swu/window.go:101-125 | The whole new state of the object is that of the enqueue step |
| TaskManager.TaskManager.ActivateMessage | pkg/swu/window.go:128-141 | The whole new state is that of an activation |
| TaskManager.TaskManager.HandleResponse | pkg/swu/window.go:144-160 | The whole new state is that of the response step, and the result tells whether the ID was in flight |
| TaskManager.TaskManager.PumpQueue | pkg/swu/window.go:162-171 | The whole new state is that of the pump step |
| TaskManager.TaskManager.ExpireOne | pkg/swu/window.go:212-238 | One request is left alone, closed iff it is due without retries left, or retransmitted with the timeout times the backoff factor, cut at a positive maximum |
| TaskManager.TaskManager.ExpireAll | pkg/swu/window.go:211-239 | Visiting the map in any order expires every due request once and reports exactly the dead ones |
| TaskManager.TaskManager.CheckTimeouts | pkg/swu/window.go:204-247 | The whole new state is that of a timeout pass with its two clock readings |
| TaskManager.TaskManager.ClosePending | pkg/swu/window.go:185-187 | Closing in any map order closes exactly the channels in flight |
| TaskManager.TaskManager.CancelAll | pkg/swu/window.go:182-194 | The whole new state is that of cancellation |
| MessageIds.NeverReissued | pkg/swu/msg_handler.go:280-282 | Over any run of draws, sync jumps and rekeys below the wrap no (key epoch, ID) pair is issued twice |
| MessageIds.ReissuedAfterWrap | pkg/swu/ike_control.go:187-192 | A run that shows it: after one sync jump to the top the third draw repeats the first |
| MessageIds.DrawsRepeatExactly | pkg/swu/msg_handler.go:280-282 | From any state, each of the next draws up to the wrap repeats an ID of the same keys iff that ID was drawn before |
| MessageIds.DrawsFreshExactly | pkg/swu/msg_handler.go:280-282 | From any state the next k draws are all fresh iff none of the k IDs from the counter on was drawn before under the same keys |
| MessageIds.RepeatsAfterWrapExactly | pkg/swu/ike_control.go:187-192 | Draws after the wrap start at the largest ID asked for since, or zero, and the first k are all fresh iff none of the k IDs from there on was drawn before under the same keys, for every k up to the next wrap |
| MessageIds.RegistersOwnExactly | pkg/swu/session.go:2006-2008 | A send registers the ID it drew iff between its draw and its load nothing was drawn, the keys were not switched and no jump moved the counter |
| MessageIds.SyncReachedExactly | pkg/swu/ike_control.go:162-192 | The first sync notify with twelve bytes or more moves the counter to the larger of its value and EXPECTED_RECV, whatever the other two numbers, iff no payload before it ends the processing |
| MessageIds.NoSyncNoJump | pkg/swu/ike_control.go:162-192 | A message without such a notify leaves the counter alone |
| MessageIds.ShortSyncIgnored | pkg/swu/ike_control.go:166-171 | A sync notify of fewer than twelve bytes changes nothing |
| MessageIds.EndsExactly | pkg/swu/ike_control.go:162-329 | Processing ends early iff some payload is a usable sync, an address update under MOBIKE, or a Delete that is answered |
| MessageIds.PayloadEnds | pkg/swu/ike_control.go:162-329 | The same for one payload, and the outbound SA is dropped iff an ESP Delete with 4-byte SPIs names it |
| MessageIds.DeleteExactly | pkg/swu/ike_control.go:290-308 | A Delete drops the outbound SA iff one of its words is that SPI, and is answered iff one is the inbound SPI and none before it the outbound one |
| MessageIds.Allocator.Next | pkg/swu/msg_handler.go:280-282 | A draw returns an ID not issued before under the current keys |
| MessageIds.Allocator.HandleSync | pkg/swu/ike_control.go:162-329 | Payloads are handled in order until a sync notify, an address update under MOBIKE or an answered Delete ends the processing; a sync notify that is reached moves the counter, forward only |
| MessageIds.Allocator.DeleteChildren | pkg/swu/ike_control.go:290-308 | The SPI loop drops the outbound SA it names and reports whether the Delete is to be answered |
| MessageIds.Allocator.SwitchKeys | pkg/swu/state_rekey_ike.go:199-204 | A rekey starts a new epoch at ID zero |
| Requests.NextIsFresh | pkg/swu/session.go:1986-2025 | The next ID drawn is neither in flight nor queued, so it meets the window's precondition |
| Requests.SendsAreFresh | pkg/swu/session.go:1986-2025 | After any run of sends, replies, passes, jumps and quiet rekeys the next send is fresh and no request has been lost |
| Requests.RekeyKeepsExactly | pkg/swu/state_rekey_ike.go:199-204 | After a rekey and any number of sends with nothing in between, the next ID is fresh iff it was neither in flight nor queued when the keys were switched |
| Requests.FreshUntilSmallestWaiting | pkg/swu/state_rekey_ike.go:199-204 | The sends after a rekey are all fresh iff their number does not exceed the smallest ID that was waiting |
| Requests.FreshAfterRekeyExactly | pkg/swu/state_rekey_ike.go:199-204 | After a rekey, with sends, replies, passes, cancellation and jumps in any order below the wrap, the next ID is fresh iff no request that had it when the keys were switched is still waiting |
| Requests.SendAfterRekeyLosesExactly | pkg/swu/state_rekey_ike.go:199-204 | The first send after a rekey loses a request iff the window has room and ID 0 is still in flight |
| FragmentBuffer.AddAccounted | pkg/swu/fragment.go:54-90 | Every stored set keeps its length equal to the bytes it holds and at most 65536 |
| FragmentBuffer.DeliverAccounted | pkg/swu/fragment.go:54-90 | The same over any series of deliveries with duplicates and changing totals |
| FragmentBuffer.TotalsChange | pkg/swu/fragment.go:67-74 | A smaller total changes nothing, a larger one starts the set afresh, other messages are untouched |
| FragmentBuffer.FirstFragment | pkg/swu/fragment.go:58-66 | The first fragment of a message starts a set, unless it is too large alone |
| FragmentBuffer.NextFragment | pkg/swu/fragment.go:76-89 | A number that is there changes nothing whatever its bytes, a new one is kept, and one beyond 65536 bytes drops the whole set |
| FragmentBuffer.DeliverPieces | pkg/swu/fragment.go:54-90 | In any order and duplication the buffer holds exactly the pieces seen, and completion is reported exactly when the last missing number arrives |
| FragmentBuffer.ReassembledInAnyOrder | pkg/swu/fragment.go:93-114 | After completion, reassembly gives the pieces in fragment order and removes the entry |
| FragmentBuffer.ReassemblesExactlyWhenFull | pkg/swu/fragment.go:93-114 | Reassembly succeeds iff all fragments have arrived, and changes nothing otherwise |
| FragmentBuffer.TooLargeNeverCompletes | pkg/swu/fragment.go:81-86 | A message of more than 65536 bytes is never reported complete, in any order and with any duplication |
| FragmentBuffer.ReceivableExactly | pkg/swu/fragment.go:54-90 | Some order of arrivals completes a message iff it is at most 65536 bytes |
| FragmentBuffer.StrayNumber | pkg/swu/fragment.go:88-108 | When a delivery reports completion, the message can be reassembled iff all its numbers lie in 1..total (total 0 needs none, total 65535 never can) |
| FragmentBuffer.FragmentBuffer.AddFragment | pkg/swu/fragment.go:54-90 | The buffer after the call and the answer are those of the add step |
| FragmentBuffer.FragmentBuffer.ReassembleFragments | pkg/swu/fragment.go:93-114 | The loop with its 16-bit counter gives the pieces 1..total, or leaves the buffer at the first gap |
| Envelope.PadRoundTrip | pkg/swu/msg_handler.go:215-231 | For every text length, hence every padding residue, unpadding gives the text back |
| Envelope.PadBytes | pkg/swu/msg_handler.go:215-231 | CBC padding fills the block with zeros and ends with their number |
| Envelope.EnvelopeRoundTrip | pkg/swu/msg_handler.go:182-278 | The peer with mirrored keys opens what was sealed to the same payloads and message ID, for every list that fits 16 bits, empty included; the length field matches |
| Envelope.SealsExactly | pkg/swu/msg_handler.go:182-278 | Sealing succeeds iff the cipher accepts the padded chain under the header |
| Envelope.SealedWire | pkg/swu/msg_handler.go:233-278 | A sealed packet field by field: header with flags and length, payload header, IV, ciphertext bound to the header, and the MAC of everything before it |
| Envelope.OpenChecksMac | pkg/swu/msg_handler.go:79-93 | Under CBC and HMAC no datagram is opened unless the last bytes its SK payload covers are the MAC of everything before them |
| Envelope.SealedAcceptsExactly | pkg/swu/msg_handler.go:79-93 | A sealed packet whose ICV is replaced opens to the payloads iff the new bytes are the MAC of the rest |
| Fragmentation.PmtuRange | pkg/swu/session.go:730-736 | After any events the MTU lies in [500,1280] and is the default or the smallest usable report |
| Fragmentation.SealFitsExactly | pkg/swu/fragment.go:365-388 | An unfragmented packet with its IP and UDP headers fits the MTU iff the estimate, those headers and the padding do together; one that passes the estimate exceeds it by at most 28 bytes and, with a block cipher, one block |
| Fragmentation.ChunksConcat | pkg/swu/fragment.go:181-196 | The chunks cut from a chain concatenate to it |
| Fragmentation.FragmentingCuts | pkg/swu/fragment.go:139-170 | Whenever fragmenting is decided, cutting yields at least two chunks, all non-empty and within the room |
| Fragmentation.AeadSendsChunks | pkg/swu/fragment.go:217-233 | With an AEAD suite the fragments carry exactly the chain |
| Fragmentation.CbcSendsChainExactly | pkg/swu/fragment.go:181-233 | With a block cipher they carry the chain iff it already holds the padding bytes after every cut |
| Fragmentation.CbcCorrupts | pkg/swu/fragment.go:229-230 | A whole family of chains for which they do not |
| FragmentPackets.SkfRoundTrip | pkg/swu/fragment.go:205-362 | The peer recovers a fragment's text, numbers and message ID; both length fields match; only fragment 1 names the first payload type |
| FragmentPackets.BuildsExactly | pkg/swu/fragment.go:205-285 | Building a fragment succeeds iff the cipher accepts its text under the header |
| FragmentPackets.SkfWire | pkg/swu/fragment.go:236-285 | A fragment field by field, with number, total, IV, ciphertext bound to the header, and MAC |
| FragmentPackets.OpenSkfChecksMac | pkg/swu/fragment.go:329-342 | Under CBC and HMAC no datagram is opened as a fragment unless its last bytes are the MAC of everything before them |
| FragmentPackets.SkfAcceptsExactly | pkg/swu/fragment.go:329-342 | A fragment whose ICV is replaced is opened iff the new bytes are the MAC of the rest |
| FragmentPackets.SkfFitsMtu | pkg/swu/fragment.go:205-285 | Every built packet with 28 bytes of IP and UDP fits the MTU, AEAD or CBC |
| FragmentPackets.FullFragmentFills | pkg/swu/fragment.go:150-163 | A full fragment fills the MTU, exactly under AEAD and up to less than a block under CBC |
| FragmentPackets.ReceiveChecksMac | pkg/swu/msg_handler.go:12-113 | Under CBC and HMAC an encrypted datagram yields something, or touches the fragment buffer, only with the right MAC |
| FragmentPackets.ReceivesSealed | pkg/swu/msg_handler.go:58-112 | A sealed message is received as its payloads under its ID |
| FragmentPackets.ReceivesPlain | pkg/swu/msg_handler.go:50-56 | So is a message in the clear |
| FragmentPackets.CollectsUntilFull | pkg/swu/msg_handler.go:30-37 | While a fragment is missing the receiver only collects, whatever the order |
| FragmentPackets.FragmentedMessageArrives | pkg/swu/msg_handler.go:19-48 | The last arrival completes the message in any order; its payloads are recovered iff fragment 1 is that arrival |
| FragmentTraffic.ArrivesAmongOthers | pkg/swu/msg_handler.go:12-113 | The same with any other datagrams in between: fragments of other messages, whole messages, or rubbish |
| FragmentTraffic.DuplicateOpensNewSet | pkg/swu/fragment.go:58-65 | A duplicate that arrives after completion opens a new set holding that fragment alone |
| Session.EncodeChain | pkg/swu/msg_handler.go:185-202 | The serialising loop equals the recursive chain encoder |
| Session.AppendPadding | pkg/swu/fragment.go:229-230 | Appending padding to a sub-slice overwrites exactly the bytes the capacity allows |
| Session.CutInPlace | pkg/swu/fragment.go:181-196 | The cutting loop over the chain's own buffer encrypts exactly the disturbed chunks that the exact condition is about |
| Session.CompleteNeverLoops | pkg/swu/fragment.go:89-109 | A set that reported completion never sends the reassembly loop around its 16-bit counter |
| Session.Session.OnPathMtu | pkg/swu/session.go:730-736 | The MTU is only lowered, never below 500 |
| Session.Session.NextSequenceNumber | pkg/swu/msg_handler.go:280-282 | Draws the counter and increments it modulo 2^32 |
| Session.Session.FragmentMessage | pkg/swu/fragment.go:119-202 | One ID for all fragments, none drawn when there is nothing to cut or more than 255, each packet built from its chunk as really sent; under AEAD the last IV is left in SK_er |
| Session.Session.BuildAll | pkg/swu/fragment.go:181-196 | Every fragment is built under the sending keys, which building leaves alone; the last IV is left in SK_er |
| Session.Session.EncryptAndWrap | pkg/swu/msg_handler.go:177-180 | Seals under a newly drawn ID; under AEAD the IV is left in SK_er whenever the cipher was applied |
| Session.Session.SendEncrypted | pkg/swu/session.go:1981-2019 | A success draws exactly one ID and registers the one that every packet header carries, fragmented or not; under AEAD the last IV is left in SK_er, and no other key byte changes in any case |
| Session.Session.DecryptAndParse | pkg/swu/msg_handler.go:12-113 | Equals the receiving function on every datagram; adopts the header's SPI; keeps the fragment accounting; under AEAD an attempted decryption leaves its IV in SK_pi |
| Session.Session.CollectFragment | pkg/swu/msg_handler.go:30-47 | Collects, and on completion reassembles and parses |
| Session.SealedIv | pkg/swu/msg_handler.go:68-76 | The IV that decryption leaves in SK_pi is the one the message was sealed with |
| Session.FragmentIv | pkg/swu/fragment.go:315-322 | The same for a fragment |
| Session.ReplyAfterSending | pkg/crypto/encrypt.go:75-96 | After an AEAD send, the reply is opened with the peer's key iff the IV sent equals the first bytes of SK_er; then the payloads are recovered, otherwise the reply is refused unless the altered key happens to open it |
| Session.SentAreFragments | pkg/swu/fragment.go:181-196 | What a session sends are fragments of the chain, for AEAD always, for CBC under the exact condition |
| Session.FragmentedDelivery | pkg/swu/fragment.go:119-362 | From one session to its peer: any order, any duplication, payloads recovered iff fragment 1 comes last |
| SaInit.ConnectCoherent | pkg/swu/session.go:378-417 | Over every series of replies: requests are sent from states whose nonce and DH key are those in the buffered request, COOKIE causes at most five resends, and exactly five before the loop gives up for that reason, and keys are derived from exactly the nonce and key last sent |
| SaInit.CookieResend | pkg/swu/cookie.go:19-35 | The resend after the first COOKIE keeps nonce and KE, later ones draw both anew |
| SaInit.FirstRequest | pkg/swu/state_init.go:55-76 | A fresh session sends group 14, its first nonce and key, and no cookie |
| SaInit.CookieReturned | pkg/swu/cookie.go:19-35 | A reply whose first decisive payload is a COOKIE is answered with the request that carries the very bytes of it, after the first one with the old nonce and key, later with new ones |
| SaInit.GroupRetried | pkg/swu/state_init.go:292-304 | A reply whose first decisive payload is INVALID_KE_PAYLOAD is answered with a request for the group in it, with the same nonce and cookie; another group than 2 and 14 ends the connection |
| SaInit.OthersFail | pkg/swu/state_init.go:288-313 | Any other decisive payload ends the connection |
| SaInit.DerivesFromReply | pkg/swu/state_init.go:317-477 | Otherwise the reply succeeds iff its last SA payload opens with a supported proposal and its last key-exchange value is in range; derived from are the own nonce and key pair, the last nonce and value of the reply, and the SPI of its header |
| SaInit.MissingPayloadFails | pkg/swu/state_init.go:325-340 | Without an SA, KE or nonce payload it fails |
| SaInit.OtherExchangeFails | pkg/swu/state_init.go:234-249 | A reply that does not decode or belongs to another exchange fails and changes nothing |
| SaInit.NatFromReply | pkg/swu/state_init.go:343-401 | The socket moves to port 4500 iff the last hashes of both kinds came and not both are those computed here for the SPI of the reply |
| SaInit.RequestDecodes | pkg/swu/state_init.go:178-220 | Read by the decoder, the buffered request is an initiator's IKE_SA_INIT with ID 0 that holds the cookie first if there is one, then the proposals, that KE value and nonce |
| SaInit.CookieInFront | pkg/swu/state_init.go:178-195 | In either mode the COOKIE notify is the first payload behind the header, with its bytes, and the SA payload follows |
| SaInit.InitSession.EnsureNonce | pkg/swu/state_init.go:56-59 | A nonce is drawn only when there is none |
| SaInit.InitSession.EnsureDh | pkg/swu/state_init.go:61-76 | A key pair is generated only when the wanted group differs; an unsupported group leaves none |
| SaInit.InitSession.BuildInitPacket | pkg/swu/state_init.go:55-221 | The whole new state is that of the build step, with the payloads behind the nonce computed anew |
| SaInit.InitSession.OnCookie | pkg/swu/cookie.go:19-35 | Stores the cookie; from the second on drops nonce and key pair |
| SaInit.InitSession.ScanPayloads | pkg/swu/state_init.go:257-315 | The payload loop equals the recursive scan: state, payloads and NAT hashes seen, fragmentation support, and verdict |
| SaInit.InitSession.HandleResponse | pkg/swu/state_init.go:223-478 | The whole new state and the verdict are those of the response step |
| SaInit.InitSession.DeriveKeys | pkg/swu/state_init.go:325-477 | The part behind the payload loop: nonce, NAT detection, the chosen algorithms, and the derivation |
| SaInit.ReadAlgorithms | pkg/swu/state_init.go:406-429 | The two loops take the last transform of each type and the last key length |
| SaInit.ChosenExactly | pkg/swu/state_init.go:406-429 | Types 1 to 4 name cipher, PRF, MAC and group; of each the last transform counts, and zero where there is none |
| SaInit.LastKeyLength | pkg/swu/state_init.go:413-421 | The key length is that of the last attribute of type 14 of the last cipher transform that has one |
| SaInit.InitSession.ConcludeExchange | pkg/swu/state_init.go:439-477 | An unsupported PRF, cipher or MAC, or a refused peer key, ends the exchange; otherwise the algorithms are set and the keys derived |
| SaInit.InitSession.CheckNat | pkg/swu/state_init.go:343-401 | The socket moves to port 4500 iff both hashes came and one differs from the one computed here |
| SaInit.InitSession.ConnectOnce | pkg/swu/session.go:378-417 | The retry loop ends in the state and outcome of the recursive run |
| EapMac.PacketRoundTrip | pkg/eap/packet.go:70-141 | Every EAP packet decodes to itself, up to fields its code or type does not carry |
| EapMac.ParseExactly | pkg/eap/packet.go:70-108 | On every input: a packet is refused iff its header is cut off or its length exceeds the data; an AKA header that is cut short reads as zeros, and what follows the named length is dropped |
| EapMac.PacketWire | pkg/eap/packet.go:110-141 | An EAP packet field by field |
| EapMac.AttrWire | pkg/eap/packet.go:150-172 | An attribute field by field, padded with fewer than four zeros |
| EapMac.ParsesLast | pkg/eap/packet.go:174-208 | Of any list of attributes that fit, the last one of a type is found under it, with its padding |
| EapMac.FindsFirst | pkg/swu/state_auth.go:1027-1041 | The offset found for a type is that of its first attribute |
| EapMac.ParsedFits | pkg/eap/packet.go:174-208 | Whatever parses is small enough to be echoed |
| EapMac.ResponseAttrsFit | pkg/swu/challenge_mode.go:49-136 | In every mode the attributes before AT_MAC fit and none is an AT_MAC |
| EapMac.MacPosition | pkg/swu/state_auth.go:510-511 | Offset 8 + macOffset + 4 is where the MAC bytes sit, and patching there changes nothing else, for any packet with other attributes on both sides |
| EapMac.AcceptsExactly | pkg/swu/state_auth.go:987-1025 | A request or response with its AT_MAC among any other attributes is accepted iff its MAC bytes are the MAC of the packet with those bytes zeroed |
| EapMac.AcceptedHasMac | pkg/swu/state_auth.go:987-1025 | Of every packet that is accepted, the last sixteen bytes of an AT_MAC are the MAC of the packet with the first AT_MAC zeroed |
| EapMac.ResponseVerifies | pkg/swu/state_auth.go:468-511 | In every challenge mode and for any deterministic MAC the signed response verifies under the same key |
| EapMac.ResponseRead | pkg/swu/challenge_mode.go:40-136 | What the peer parses from the signed response: an AKA-Challenge response under the same identifier with RES and its length in bits, in each mode exactly the attributes it adds or echoes, whatever the order of the map, and AT_MAC |
| EapMac.ParseAttributes | pkg/eap/packet.go:174-208 | The offset loop equals the recursive parser on every input |
| EapMac.FindAttrOffset | pkg/swu/state_auth.go:1027-1041 | The search loop equals the recursive search on every input |
| EapMac.EchoAttrs | pkg/swu/challenge_mode.go:117-127 | The echo loop appends exactly the attributes to echo, in the order the map is visited |
| EapMac.BuildResponseAttrs | pkg/swu/challenge_mode.go:49-136 | The buffer built in each mode is the encoding of that mode's attribute list |
| EapMac.BuildSignedResponse | pkg/swu/state_auth.go:468-511 | Encoding with a zeroed MAC and patching the buffer in place gives the signed response |
| SoftSim.XorInvolutive | pkg/crypto/milenage.go:284-287 | Masking twice with one key stream gives the text back |
| SoftSim.XorBitwise | pkg/crypto/milenage.go:284-287 | A bit of the result is set iff it differs in the two numbers |
| SoftSim.SqnRoundTrip | pkg/crypto/milenage.go:363-379 | A 48-bit sequence number decodes to itself |
| SoftSim.GeneratedAcceptedExactly | pkg/crypto/milenage.go:246-327 | A generated token is accepted iff its number is at least the stored one; otherwise the AUTS carries the rejected number and the SIM is unchanged |
| SoftSim.ChallengeExactly | pkg/sim/softsim.go:39-59 | For every challenge: rejected iff the last eight bytes of the token are not MAC-A, accepted iff they are and the number is at least the stored one; an accepted answer is RES, CK and IK and stores the number plus one, an AUTS ends in MAC-S for AMF 00 00, and nothing else is stored |
| SoftSim.MalformedRejected | pkg/crypto/milenage.go:273-275 | A token or RAND of another length is rejected |
| SoftSim.ForgedRejected | pkg/crypto/milenage.go:291-302 | A generated token with its last eight bytes replaced by others is rejected |
| SoftSim.AutnParts | pkg/crypto/milenage.go:246-269 | A generated token carries its number, the AMF and MAC-A in their places |
| SoftSim.NoReplay | pkg/sim/softsim.go:39-59 | Over any series of challenges accepted numbers strictly increase, none is accepted twice, and a rejection changes nothing |
| SoftSim.SoftSIM.CalculateAKA | pkg/sim/softsim.go:39-59 | The answer and the new stored number are those of the challenge step |
| KeyMaterial.PrfPlusPrefix | pkg/crypto/prf.go:45-74 | prf+ succeeds iff at most 254 outputs are needed, and shorter results are prefixes of longer ones |
| KeyMaterial.PrfPlusBlocks | pkg/crypto/prf.go:45-74 | Every block of the result is the PRF of the block before it, the seed and its own number |
| KeyMaterial.PrfPlusFrom | pkg/crypto/prf.go:50-73 | Any number of blocks that is enough gives the same bytes |
| KeyMaterial.PrfPlusLoop | pkg/crypto/prf.go:45-74 | The loop refines the recursive T1, T2, ... of section 2.13 of RFC 7296 |
| KeyMaterial.PartitionUnique | pkg/swu/crypto_keys.go:63-83 | Two derivations that cut the same material agree on all seven keys |
| KeyMaterial.PartitionExactly | pkg/swu/crypto_keys.go:63-83 | A partition is these seven keys at these positions, and no other |
| KeyMaterial.CutKeys | pkg/swu/crypto_keys.go:63-83 | The moving cursor cuts the material into the seven keys without gap or overlap, AEAD or not |
| KeyMaterial.SizesOf | pkg/swu/crypto_keys.go:30-50 | AEAD suites have a salt behind each encryption key and no integrity keys; a missing cipher or a missing needed MAC is an error |
| KeyMaterial.ExpandKeys | pkg/swu/crypto_keys.go:52-83 | The keys partition prf+ of the seed over Ni, Nr, SPIi and SPIr in this order |
| KeyMaterial.GenerateInitialKeys | pkg/swu/crypto_keys.go:13-86 | Initial keys: the partition of prf+ under prf(Ni, Nr; g^ir) by the negotiated sizes; a missing secret, cipher or MAC is an error |
| KeyMaterial.GenerateRekeyKeys | pkg/swu/crypto_keys.go:91-176 | Rekey keys: the same layout under prf(old SK_d; g^ir, Ni, Nr); empty inputs and a missing cipher or MAC are errors |
| KeyMaterial.GcmNonce | pkg/crypto/encrypt.go:75-96 | The nonce is salt and IV, and the material behind the key is overwritten while it has capacity |
| KeyMaterial.GcmEncryptKeepsKeysExactly | pkg/crypto/encrypt.go:75-96 | Encrypting under SK_ei replaces the first eight bytes of SK_er by the IV; the keys survive iff they are equal |
| KeyMaterial.GcmDecryptKeepsKeysExactly | pkg/crypto/encrypt.go:98-120 | Decrypting under SK_er does the same to SK_pi |
| DhExchange.ExpCommutes | pkg/crypto/diffiehellman.go:60-77 | The two orders of exponentiation meet |
| DhExchange.Powers | pkg/crypto/diffiehellman.go:60-77 | What makes a power |
| DhExchange.KeyLenIsWidth | pkg/crypto/diffiehellman.go:81-81 | (BitLen + 7) / 8 is the least number of bytes that holds the modulus |
| DhExchange.LeftPadded | pkg/crypto/diffiehellman.go:84-89 | Left-padding the shortest encoding gives the fixed-width one |
| DhExchange.FixedWidth | pkg/crypto/diffiehellman.go:96-103 | The encoder's result has the modulus width and denotes its argument |
| DhExchange.Agreement | pkg/crypto/diffiehellman.go:47-104 | Public values denote powers of the generator; each party accepts the other iff that value is strictly between 1 and P-1, and then both hold one secret: the generator to the product of the keys, exactly as wide as the modulus |
| DhExchange.ZeroKeyIsRefused | pkg/crypto/diffiehellman.go:55-74 | A private key of zero, which can be drawn, is refused by every peer |
| DhExchange.GroupWidths | pkg/crypto/diffiehellman.go:11-45 | Group 2 exchanges 128 bytes, group 14 exchanges 256 |
| DhExchange.DiffieHellman.Create | pkg/crypto/diffiehellman.go:30-45 | Exactly groups 2 and 14 are known |
| DhExchange.DiffieHellman.GenerateKey | pkg/crypto/diffiehellman.go:47-64 | The public key belongs to the private key drawn; a failed draw leaves no private key |
| DhExchange.DiffieHellman.ComputeSharedSecret | pkg/crypto/diffiehellman.go:66-92 | Succeeds iff 1 < peer < P-1, returns and stores the power of the peer value at the modulus width, and stores nothing otherwise |
| DhExchange.DiffieHellman.PublicKeyBytes | pkg/crypto/diffiehellman.go:94-104 | The fixed-width encoding that denotes the public key |
| FipsPrf.AddMod20 | pkg/crypto/fips_prf.go:67-74 | The carry loop adds modulo 2^160, also when the destination is a summand |
| FipsPrf.RightAlignValue | pkg/crypto/fips_prf.go:12-20 | Aligning keys and seeds keeps their number modulo 2^160 |
| FipsPrf.RequestsCombine | pkg/crypto/fips_prf.go:22-37 | Requests for whole blocks followed by another give the bytes and the state of one request for both |
| FipsPrf.FirstBlock | pkg/crypto/fips_prf.go:39-65 | The first forty bytes and the state behind them, as hashes of state plus seed |
| FipsPrf.ShorterRequest | pkg/crypto/fips_prf.go:22-37 | A shorter request is the front of the request for whole blocks |
| FipsPrf.Generator.constructor | pkg/crypto/fips_prf.go:12-20 | The initial state is the key modulo 2^160 |
| FipsPrf.Generator.Round | pkg/crypto/fips_prf.go:51-63 | One round gives out a word and moves the state to state + word + 1 modulo 2^160 |
| FipsPrf.Generator.Advance | pkg/crypto/fips_prf.go:60-62 | The two additions through a temporary move the state by word + 1 modulo 2^160 |
| FipsPrf.Generator.Block | pkg/crypto/fips_prf.go:39-65 | A block is two rounds |
| FipsPrf.Generator.Request | pkg/crypto/fips_prf.go:22-37 | A request returns a prefix of the stream and consumes whole blocks |
| Esp.PaddingRoundTrip | pkg/ipsec/esp.go:55-68 | Padding aligns every packet to the block size and comes off again |
| Esp.PaddedBytes | pkg/ipsec/esp.go:55-68 | What is encrypted byte by byte: the packet, 1, 2, 3, ..., their number, and 4 or 41 by the IP version |
| Esp.EspRoundTrip | pkg/ipsec/esp.go:12-161 | Decapsulating gives every inner packet back, AEAD or CBC with HMAC, for the same SPI or none |
| Esp.SealsExactly | pkg/ipsec/esp.go:12-95 | Encapsulation succeeds iff the cipher accepts the padded packet under SPI and number |
| Esp.EspWire | pkg/ipsec/esp.go:12-95 | A packet field by field: SPI, the low 32 bits of the number, IV, ciphertext bound to both, and the MAC of everything before it |
| Esp.DecapsulateChecksMac | pkg/ipsec/esp.go:114-139 | Under CBC and HMAC nothing is decapsulated unless the last bytes are the MAC of everything before them, nor under another SPI |
| Esp.EspAcceptsExactly | pkg/ipsec/esp.go:114-139 | A packet whose ICV is replaced is decapsulated iff the new bytes are the MAC of the rest |
| Esp.InboundAfterSending | pkg/swu/state_auth.go:1386-1397 | After an outbound AEAD packet the inbound association has the peer's key iff the IV sent equals its first bytes; then the peer's packets are given back, otherwise they are refused unless the altered key happens to open them |
| Esp.SequenceRepeatsExactly | pkg/ipsec/sa.go:52-54 | Two packets carry one number iff they are a multiple of 2^32 packets apart |
| Esp.SequenceFresh | pkg/ipsec/sa.go:52-54 | In the first 2^32-1 packets no number repeats and none is zero |
| Esp.PadBuffer | pkg/ipsec/esp.go:55-68 | The padding loop fills the buffer with the padded packet |
| Esp.SecurityAssociation.NextSequenceNumber | pkg/ipsec/sa.go:52-54 | The result is the low half of the number of packets so far |
| Esp.SecurityAssociation.Encapsulate | pkg/ipsec/esp.go:12-95 | One number per call, and the packet that the round trip is about; under AEAD the IV is left in the key material behind the key |

## Left out

- Window: a request is an index into the sequence of all requests, where the source holds a pointer; two references to one request are the same index.
- WindowRuns.RetransmissionBound: durations are real numbers, so the nanosecond truncation of the backed-off timeout is not modelled.
- Requests.SendsAreFresh: a draw and its enqueue are one step; MessageIds.RegistersOwnExactly says when interleaved sends behave like that. The counter starts at zero, and the jump to one after IKE_SA_INIT is an instance of a sync jump.
- FragmentBuffer.FragmentBuffer.ReassembleFragments: requires that the 16-bit counter does not go around; Session.CompleteNeverLoops shows that it never does where the code calls it.
- Envelope.EnvelopeRoundTrip: the cipher is a function of its arguments, so it is about one message; what a GCM nonce leaves in the key behind its own is in the contracts of Session.Session and in Session.ReplyAfterSending.
- SaInit.RequestDecodes: does not cover the non-standard mode in which the COOKIE notify is typed as an SA payload, since such a request does not decode as one; `SaInit.CookieInFront` says what it is on the wire.
- SaInit.ConnectCoherent: one connection from a fresh session. The address in a REDIRECT, the NAT keepalive and the algorithm fields set by a choice that is then refused are not part of it, and no bound on INVALID_KE_PAYLOAD retries is claimed, because there is none.
- Selector.RoutesFor: IPv4 selectors; routes are address and prefix length, not their text form.
- MessageIds.Allocator.HandleSync: what the other payloads of an INFORMATIONAL do to kernel state, policies and callbacks.
- Session.Session.DecryptAndParse: under AEAD the session's keys have the negotiated size, so decryption gets as far as building the nonce.
- SoftSim.SoftSIM.SetSQN: stores a number from outside, so the replay theorem is about series without it.
- Milenage f1 to f5*, AES, HMAC and SHA-1: parameters; nothing is claimed about their outputs but lengths.
- Peer-initiated IKE and Child SA rekeys, reauthentication, session resumption, MOBIKE and DPD.
- `selectOutgoingSA` and `extractDstTuple`: a first-match search over policies, and header fields at fixed offsets.
- The AUTH computation, EAP identity and notification handling, and the AKA' key derivation.
- Sockets, netlink, XFRM, TUN devices, logging, timers and keepalives.
