# A verified model of RainIRC's gossip core

RainIRC is a serverless chat: peers keep authenticated sessions with each other and flood signed
messages over them. This project models the parts of it that decide whether a message reaches
everyone, once, and unaltered, and proves what they promise. `dafny verify dfyconfig.toml` checks
everything.

| file | models |
|---|---|
| `SeenStore.dfy`, `SeenRuns.dfy` | the seen-ID cache, and whole runs of it |
| `Flood.dfy` | the flood of one message over a mesh: broadcasts, copies under way, loss, changing links |
| `Gossip.dfy` | many floods at once over bounded caches, refined to single floods |
| `GossipOnce.dfy` | at most once over time, for every node of a network |
| `Router.dfy` | `Handle`, and the gates in front of it |
| `Peers.dfy`, `CrossingDials.dfy` | the session table, and two peers that dial each other |
| `Message.dfy`, `Signing.dfy`, `Codec.dfy` | messages, signatures, framing |
| `Limiter.dfy`, `Backoff.dfy`, `DialGate.dfy` | rate limit, reconnect delays, concurrent dialling |
| `Directory.dfy`, `DirectorySave.dfy` | known peers, aliases, saving to disk |
| `Stun.dfy` | STUN Binding replies (RFC 5389, IPv4) |
| `Basics.dfy` | shared vocabulary |

## Main results

- **Coverage at an exact cost.** In a fixed, connected, lossless mesh a message is delivered exactly
  once by every node and costs exactly 2|E| - |V| + 1 copies, in every order of events
  (`FloodCoverage`); with any loss and any disconnects it still ends (`FloodTerminates`), and so it does
  unless links keep opening or caches keep forgetting (`FloodEnds`). The same holds
  of each of many concurrent messages over bounded, swept caches that do not drop it (`GossipCoverage`),
  as they do not while they have room and nothing expires (`RoomyCoverage`); because every run of the
  network, sessions opening and closing included, is for each message a run of a single flood in which a
  node forgets the ID whenever its cache drops it (`GossipRefines`, `GossipDeliveries`).
- **At most once over time.** Expiry never readmits a message that is still fresh exactly when the
  retention time covers the window of accepted timestamps plus the longest delay between the timestamp
  check and the cache: for one cache (`AtMostOnceExact`), and for every node of every network, with loss,
  sweeps and changing links (`NetworkAtMostOnceExact`).
- **Crossing dials agree** under every interleaving exactly when the smaller ID has dialled once, or
  only the larger one has and did so once (`AgreementExact`). Two sessions dialled in the same direction
  may both be lost (`TwoDialsMayBothBeLost`); but the two tables never end different (`NeverSplit`). The steps are those of the session table itself
  (`AdoptRefines`, `TablesFollow`), so two managers agree (`ManagersAgree`).
- **Forwarded frames arrive as they were sent** exactly when validation has nothing to rewrite, with no
  assumption about the signature scheme, and a rewritten frame gets through only if one signature is
  good for two payloads (`RelayExact`); a join signed for "General" under a working scheme is dropped at
  the second node (`CapitalIsDropped`).
- **The signed payload tells which fields were signed** exactly when none of them holds a line break
  (`PayloadExact`), and only then is every change noticed (`TamperExact`). The gates a frame
  passes do not exclude line breaks: a text of two lines can be read as an addressee and a text
  (`TextLineReadsAsAddressee`). When only the text may hold line breaks in both messages compared, the
  payload is unambiguous (`SignBytesUnambiguous`).
- **Framing does not depend on how the stream is cut** (`ReadLineLimited`, `Read`, `ReadLoop`), and
  undoes encoding, for every limit of the reader (`StreamRoundTrip`, `WholeStreamRoundTrip`).
- **A frame that is delivered was signed by the sender it names** (`SenderIsKey`, `RoutedSender`).
- **The rate limit is exact** over the requests that were allowed (`SlidingWindowExact`, `RunSpaced`), **back-off doubles up to its cap**
  exactly when the cap is below 2^62 (`BackoffExact`) and spaces attempts over every interleaving of
  users and keys (`GateExact`, `AttemptsSpread`), and **dialling** conserves claims, slots, places and
  results at every point, releases per call, cannot deadlock and ends (`DialGateConserves`,
  `CallReleases`, `DialFirstExact`, `NoDeadlock`, `SchedulesEnd`); a success and nothing else in a call
  cancels the rest, and without one every address is tried (`CancelledExact`, `EveryAddressTried`).
- **Saving**: whenever the directory is clean the file loads back to the table, exactly when there is
  no nameless record (`SaveProtocolExact`). **Lookup** is independent of iteration order exactly when
  the key is an ID or an undisputed alias (`LookupExact`); **aliases stay distinct** exactly when no
  nameless record shadows them (`AliasesExact`). The only caller of `SetAlias`
  (internal/node/connect.go:378-390) names a peer it has looked up and never creates a nameless record,
  so `NamelessShadows` and `NamelessIsLost` concern the directory's interface.

## Conventions

Clock readings, random choices and the network are parameters or nondeterministic steps. Time is an
integer number of nanoseconds; a clock never goes back. Text is a sequence of Unicode scalar values,
and byte lengths go through UTF-8 widths. Go's map iteration picks an arbitrary remaining key. Sections
that the source runs under one lock are atomic steps; a save, a dial and a session's life consist of
several.

Where the code and its documentation differ, the code is modelled. The architecture notes say that
closing a losing session cannot remove the winner; that is so for opposite sessions, and the exact
condition for any number of sessions is proved instead. The notes also say that gossiped frames stay
verifiable at two hops; validation rewrites the channel after the signature check, so this needs the
condition of `RelayExact`.

## Model

| member | source | states |
|---|---|---|
| Floods.FloodCoverage | internal/router/router.go:36-57 | in a fixed connected lossless mesh, once nothing is under way every node has delivered the message exactly once and exactly 2·links − nodes + 1 copies were sent and received, whatever the order of steps |
| Floods.FloodSafety | internal/router/router.go:46-55 | on any mesh with loss, opening and closing links and forgetting caches: a node delivers once per forgetting plus once if it holds the ID; copies sent = received + lost + under way |
| Floods.FloodTerminates | internal/peer/peer.go:451-469 | with loss and disconnects every flood ends within 3 steps per arc plus one |
| Floods.FloodEnds | internal/peer/peer.go:451-469 | in any run among n nodes, links opening and caches forgetting included, receives, broadcasts, losses and disconnects are at most n(n + 1) plus the initial arcs, plus n + 1 per forgetting and 2 per opening |
| Floods.MeasureDrops | internal/router/router.go:46-55 | each receive, broadcast, loss or disconnect strictly decreases copies under way plus broadcasts due plus arcs of nodes that have not broadcast |
| Floods.InvRun | internal/peer/peer.go:451-469 | every lossless run keeps the link invariant: across each link of a node that has the ID, the other end has it, a copy is on its way, or the broadcast is due |
| Floods.ArcsAreTwiceLinks | internal/peer/peer.go:451-469 | a mesh has two arcs per link, so degrees sum to twice the links |
| Floods.FloodProgress | internal/router/router.go:46-55 | while a copy or a broadcast is outstanding a lossless step is possible |
| Floods.LinkSteps | internal/peer/peer.go:390-449 | a session that opens or closes adds or takes both directions of its link and no other |
| Gossip.GossipRefines | internal/router/router.go:36-57 | at any point of any run of a network with bounded expiring caches, timestamp checks, loss, and sessions that open and close, each message is at a point of a single flood from its origin in which nodes forget as often as their caches drop the ID |
| Gossip.GossipDeliveries | internal/router/router.go:46-55 | a node has delivered a message exactly as often as its cache dropped the ID, plus once if it holds it; copies are conserved per message |
| Gossip.GossipCoverage | internal/router/router.go:36-57 | over fixed links without loss, each settled message that no cache has dropped was delivered exactly once everywhere at the exact cost, whatever else is sent, swept or dropped |
| Gossip.RoomyCoverage | internal/router/seen.go:35-53 | in particular with no more messages than cache entries and no sweep that meets an expired one |
| Gossip.RoomRun | internal/router/seen.go:35-86 | with no more messages than entries and sweeps within the retention time of the first record no cache ever drops an ID |
| GossipOnce.NetworkAtMostOnceExact | internal/router/router.go:36-57 | no node of any network accepts a message again without max different other IDs directly after the first time, in any run, if and only if the retention time is at least future skew + past skew + the longest delay from timestamp check to cache |
| GossipOnce.NetworkAtMostOnce | internal/router/router.go:40-48 | the sufficient half: a node's deliveries of a message are its acceptances, and two of them are that far apart |
| GossipOnce.RoomForOnce | internal/router/seen.go:35-53 | with that retention and no more messages than cache entries every node delivers each message at most once, in runs of any length with sweeps, loss and changing links |
| GossipOnce.NetworkReplay | internal/router/seen.go:74-86 | the necessary half: three linked nodes, one of which delivers a fresh message twice under shorter retention |
| GossipOnce.NodeCache | internal/router/seen.go:35-86 | a node's cache in the network is the one its own operations lead to |
| SeenStores.SeenStore.constructor | internal/router/seen.go:19-32 | defaults for a non-positive retention or bound; starts empty |
| SeenStores.SeenStore.Add | internal/router/seen.go:35-53 | false and no change for a present ID; otherwise room is made by expiry, then by age, and the ID is appended |
| SeenStores.SeenStore.Has | internal/router/seen.go:55-60 | membership of the ID |
| SeenStores.SeenStore.Sweep | internal/router/seen.go:68-72 | keeps exactly the entries not older than the retention time, in order |
| SeenStores.SeenStore.SweepLocked | internal/router/seen.go:74-86 | as Sweep |
| SeenStores.Compact | internal/router/seen.go:74-86 | compaction within one array, reader and writer sharing it, equals the plain filter |
| SeenStores.SweepQueue | internal/router/seen.go:74-86 | queue and map both end as those of the live entries, without duplicates |
| SeenStores.SeenStore.EvictLocked | internal/router/seen.go:44-48 | keeps the newest max − 1 entries |
| SeenStores.SeenStore.Append | internal/router/seen.go:51 | appends in place or after moving to a larger array |
| SeenStores.LiveToIsSuffix | internal/router/seen.go:74-86 | with nondecreasing times a sweep drops exactly a prefix |
| SeenStores.LiveToSound | internal/router/seen.go:74-86 | the filter keeps exactly the young enough entries |
| SeenRuns.SeenIsLogSuffix | internal/router/seen.go:35-53 | after any sequence of uses the cache is a contiguous suffix of the log of accepted IDs, distinct, in arrival order, within its bound |
| SeenRuns.AtMostOnceExact | internal/protocol/message.go:289-301 | routing one message twice takes max different other IDs directly after the first acceptance, in every run, if and only if the retention time is at least future skew + past skew + the longest delay from timestamp check to cache |
| SeenRuns.RoutedTwice | internal/router/router.go:40-48 | the sufficient half: expiry never readmits a fresh message |
| SeenRuns.Replay | internal/router/seen.go:74-86 | the necessary half: a concrete run in which a shorter retention readmits one |
| Routing.Router.Handle | internal/router/router.go:36-57 | accepts exactly a routable, valid, fresh message whose ID is not cached; delivers the validated message once, floods it except to its source unless addressed, otherwise changes nothing |
| Routing.HandleIsCacheStep | internal/router/router.go:40-48 | what the router does to its cache is the handle operation of the runs that `AtMostOnceExact` is about |
| Routing.Router.RememberAll | internal/node/handlers.go:125-134 | own joins are added to the cache in order |
| Routing.BatchRemembered | internal/node/handlers.go:125-134 | of a batch of new own joins exactly the last ones, as many as the cache has entries, are held afterwards, so that their echoes are dropped |
| Routing.Node.OnPeerMessage | internal/node/handlers.go:14-47 | a frame is delivered exactly when it passes the gates of a relayed frame, is still fresh, within its sender's rate and new; its sender is then the fingerprint of its key |
| Routing.Node.Gate | internal/node/handlers.go:27-45 | the rate is charged only for authentic frames |
| Routing.GatesExact | internal/node/handlers.go:27-46 | the gates in front of the router and its own checks together are the gates of a relayed frame: chat, join or leave, verified, fresh, valid |
| Routing.RoutedSender | internal/node/handlers.go:30-46 | a frame that passes is signed by the key whose fingerprint is its sender |
| Peers.Manager.Adopt | internal/peer/peer.go:322-437 | the decision and the new table; exactly the losing session is closed; self-connections and a full table are refused |
| Peers.Manager.Unregister | internal/peer/peer.go:439-449 | removes the entry only if it is this very session |
| Basics.LessExact | internal/peer/peer.go:404 | the order of IDs is that of strings: a proper prefix first, else the first difference decides |
| Peers.DecideExact | internal/peer/peer.go:390-419 | every decision with its exact condition; a session is replaced exactly by one dialled from the other end by the smaller ID |
| Peers.AdoptedExact | internal/peer/peer.go:396-412 | only the entry of the session's peer may change, to the session |
| Peers.UnregisteredExact | internal/peer/peer.go:439-449 | exactly the entry that is this session is removed; a late call for a replaced one removes nothing |
| Peers.Manager.Broadcast | internal/peer/peer.go:451-469 | one copy to each live session except the source; a full queue closes the session |
| Peers.Conn.Send | internal/peer/peer.go:97-106 | queued, refused when full, either on a closed session |
| Peers.Manager.Find | internal/peer/peer.go:479-498 | exact ID, else the only ID with a prefix of at least 4 bytes, else unknown or ambiguous |
| Peers.ByPrefix | internal/peer/peer.go:485-497 | the prefix walk in any order |
| Peers.ResolvesUnique | internal/peer/peer.go:479-498 | the answer does not depend on iteration order |
| Peers.ResolvesExact | internal/peer/peer.go:479-498 | what a key resolves to in terms of the IDs: itself, else the only ID it is a prefix of from 4 bytes on, else unknown or ambiguous |
| Peers.TableAccounting | internal/peer/peer.go:390-449 | over every run of adopts and unregisters, late ones included: ups − downs is 1 if the table holds the peer and 0 otherwise; the table stays within a positive bound and never holds the node itself |
| CrossingDials.AgreementExact | internal/peer/peer.go:390-449 | both tables end with the same open session under every interleaving if and only if the smaller ID dialled once, or not at all while the larger dialled once |
| CrossingDials.NeverSplit | internal/peer/peer.go:390-449 | for any number of sessions, once no step remains both tables hold the same open session or both are empty |
| CrossingDials.CrossingDialsAgree | internal/peer/peer.go:404-418 | the session dialled once by the smaller ID is never closed, and once no step remains both tables hold exactly it |
| CrossingDials.SchedulesEnd | internal/peer/peer.go:390-449 | no schedule is longer than six steps per session |
| CrossingDials.BothLost | internal/peer/peer.go:407-409 | two sessions that each end favours differently are both closed and both tables end empty |
| CrossingDials.TwoDialsMayBothBeLost | internal/peer/peer.go:407-409 | a concrete setup without agreement |
| CrossingDials.WinnerBeats | docs/architecture.md:115-128 | both ends rank the smaller ID's session above the other |
| CrossingDials.AdoptRefines | internal/peer/peer.go:390-426 | the entry that `Manager.Adopt` leaves and the session it closes are those of the adopt step, whatever other peers the table holds |
| CrossingDials.UnregisterRefines | internal/peer/peer.go:439-449 | the same for unregistering |
| CrossingDials.TablesFollow | internal/peer/peer.go:390-449 | over whole schedules the managers' tables show what the steps say, and other peers' entries stay |
| CrossingDials.ManagersAgree | internal/peer/peer.go:390-449 | so under every interleaving each manager ends with its end of the session the smaller ID dialled once |
| Messages.NormalizeFixpoint | internal/protocol/message.go:195-217 | normalization answers only normal forms and leaves exactly those alone |
| Messages.NormalizeIdempotent | internal/protocol/message.go:195-217 | normalizing twice is normalizing once |
| Messages.NormalizeInsensitive | internal/protocol/message.go:195-203 | case and surrounding space do not matter |
| Messages.NormalizeHashOptional | internal/protocol/message.go:200-202 | the number sign is optional |
| Messages.NormalizeExact | internal/protocol/message.go:195-217 | which name a text normalizes to; a name that is too long or has a bad character is refused, not cut |
| Messages.NormalChannelExact | internal/protocol/message.go:203-216 | the normal forms: a number sign and 1 to 31 small letters, digits, underscores, hyphens |
| Messages.TrimExact | internal/protocol/message.go:196 | trimming takes white space off both ends and nothing else |
| Messages.LowerExact | internal/protocol/message.go:203 | lower case leaves no ASCII capital, keeps small letters and maps each capital to its own |
| Messages.ByteLenExact | internal/protocol/message.go:226 | byte lengths are those of UTF-8 |
| Messages.ValidateExact | internal/protocol/message.go:235-285 | which messages validation accepts, for every type |
| Messages.FreshWindow | internal/protocol/message.go:289-301 | fresh from two minutes before the timestamp to ten minutes after |
| Messages.ValidGossip | internal/protocol/message.go:250-278 | which gossip messages validation accepts |
| Messages.ValidateStable | internal/protocol/message.go:235-285 | validation changes only the channel, exactly when a channel in use is not normal, and accepts its own output unchanged |
| Signing.PayloadExact | internal/protocol/sign.go:31-53 | for every message: no message with other signed fields has the same payload if and only if none of its signed fields holds a line break |
| Signing.PayloadDetermines | internal/protocol/sign.go:31-53 | the sufficient half, with no condition on the other message |
| Signing.Reread | internal/protocol/sign.go:39-52 | the necessary half: a line break in any field lets the payload be read as other fields, under the same identity if that is one line |
| Signing.SignBytesUnambiguous | internal/protocol/sign.go:31-53 | equal payloads of messages whose signed fields other than the text hold no line break mean equal signed fields, and conversely |
| Signing.FormatIntInjective | internal/protocol/sign.go:42 | decimal printing is injective and has no line break |
| Signing.JoinInjective | internal/protocol/sign.go:52 | the join can be taken apart while fields have no line break |
| Signing.PayloadLines | internal/protocol/sign.go:39-52 | the lines of a payload are the eleven fields in order |
| Signing.FormatNatDenotes | internal/protocol/sign.go:42 | the decimal digits denote the number, without leading zero |
| Signing.SignThenVerify | internal/protocol/sign.go:57-104 | signing fails exactly for a key of the wrong size; a signed message verifies exactly when the key it carries is well formed, may speak for the sender it claims and accepts the signature, as the signing key does |
| Signing.VerifyExact | internal/protocol/sign.go:72-104 | when a message verifies, field by field |
| Signing.SenderIsKey | internal/protocol/sign.go:86-95 | the key's fingerprint is the sender of a verified message, or its peer ID if it names no sender |
| Signing.OneKeyPerSender | internal/protocol/sign.go:86-95 | two verified messages that claim one sender up to case come from keys with one fingerprint |
| Signing.AlteredIsRejected | internal/protocol/sign.go:96-102 | a change to any signed field of a verified message without line breaks is noticed, whatever it puts there, unless the signature is good for two payloads |
| Signing.TamperExact | internal/protocol/sign.go:72-104 | every change to a verified message under its key and signature is noticed, up to such signatures, if no signed field holds a line break, and not if one outside the identity does; with a one-line identity this is an equivalence |
| Signing.TextLineReadsAsAddressee | internal/protocol/message.go:250-269 | every accepted channel message whose text has a first line and more has the payload and verdict of an accepted direct message to that line |
| Signing.BobIsAddressed | internal/protocol/sign.go:46-49 | a concrete pair of such messages |
| Signing.RelayExact | internal/node/handlers.go:30-46 | a frame accepted at the first node passes any path of two or more nodes unchanged if and only if its channel is unused or normal, and gets through at all only if so or if its signature is good for both payloads; no premise about the scheme |
| Signing.RelayStable | internal/protocol/message.go:258-278 | a frame in normal form passes every node of any path |
| Signing.ChannelIsSigned | internal/protocol/sign.go:47 | rewriting the channel changes the payload, and its length by the difference |
| Signing.CapitalIsDropped | internal/protocol/message.go:270-278 | a concrete join signed for "General" under a concrete working scheme is accepted at the first node and dropped at the second |
| Codec.Reader.ReadSlice | internal/protocol/codec.go:70 | a piece of the stream cut anywhere before or right after the next newline |
| Codec.ReadLineLimited | internal/protocol/codec.go:67-98 | for any cutting, the outcome of looking for the first newline in the whole stream: accepted exactly when it is within the limit; at most max + 1 bytes are held and the second size check cannot fire |
| Codec.Read | internal/protocol/codec.go:45-65 | the decoded message is a function of the stream alone and exactly one line is consumed |
| Codec.ReadLoop | internal/peer/peer.go:121-147 | what a session delivers, stopping after five bad frames in a row, is a function of the stream alone, and a stream that ended is used up |
| Codec.TrimCR | internal/protocol/codec.go:86-90 | a carriage return before the newline makes no difference |
| Codec.LineExact | internal/protocol/codec.go:67-98 | each outcome of reading a line in terms of where the newlines are |
| Codec.TrimExact | internal/protocol/codec.go:53 | what is decoded is the line without the white space at its ends |
| Codec.SpaceAgrees | internal/protocol/codec.go:53 | white space among bytes is the UTF-8 encoding of white space among characters |
| Codec.DecodeExact | internal/protocol/codec.go:53-64 | a line is a message exactly when it decodes to one with a valid envelope |
| Codec.DeliveredAreValid | internal/peer/peer.go:121-147 | a session delivers nothing with an invalid envelope, whatever the stream |
| Codec.BadLinesSkipped | internal/peer/peer.go:121-147 | fewer than five bad lines in a row are skipped |
| Codec.FifthBadLineEnds | internal/peer/peer.go:121-147 | the fifth ends the session |
| Codec.FrameRoundTrip | internal/protocol/codec.go:18-65 | for every reader limit, reading an encoded message gives it back if it fits and is refused as too large otherwise; what follows is left |
| Codec.StreamRoundTrip | internal/protocol/codec.go:18-65 | reading concatenated encodings delivers exactly the messages, then whatever follows; or, if one is over the reader's limit, exactly those before the first such |
| Codec.WholeStreamRoundTrip | internal/protocol/codec.go:18-65 | exactly the messages are delivered and the last read finds nothing left over, if and only if each fits the reader's limit |
| Codec.DefaultRoundTrip | internal/protocol/codec.go:45-48 | under the default limit every stream of encoded messages is delivered whole |
| Limiter.SlidingWindowExact | internal/limiter/limiter.go:34-59 | over any run for one key a request is refused exactly when limit requests in the window were allowed, and never more are |
| Limiter.RunSpaced | internal/limiter/limiter.go:34-59 | any limit + 1 successive requests that were allowed span more than the interval |
| Limiter.WindowExact | internal/limiter/limiter.go:42-49 | pruning leaves exactly the accepted events in the window |
| Limiter.BurstExact | internal/limiter/limiter.go:34-59 | of any number of requests at one moment exactly the first limit are allowed |
| Limiter.Window.Allow | internal/limiter/limiter.go:34-59 | the same for all keys at once: a request is counted exactly when it is allowed, other keys' counts stay, keys are bounded, queues non-empty and at most one key is dropped for a new one |
| Limiter.Window.MakeRoom | internal/limiter/limiter.go:54-56 | makes room by dropping a key whose first event is oldest |
| Limiter.DropOldest | internal/limiter/limiter.go:61-77 | drops one key with the oldest first event and every empty key |
| Limiter.Window.constructor | internal/limiter/limiter.go:19-32 | defaults for non-positive settings |
| Backoff.BackoffExact | internal/backoff/backoff.go:58-76 | the delay after k failures is min(initial·2^(k−1), max) for every k if and only if max < 2^62 |
| Backoff.DoubledIsPower | internal/backoff/backoff.go:65-73 | repeated doubling is multiplication by a power of two |
| Backoff.SecondDelayNegative | internal/backoff/backoff.go:69-72 | a concrete cap for which doubling overflows |
| Backoff.GateExact | internal/backoff/backoff.go:44-87 | after any run of Allow, Fail, Reset and refused dials on any keys a key may be retried exactly when it has no failure since its last reset or min(initial·2^(k−1), max) has passed since the last of its k failures |
| Backoff.AttemptsSpread | internal/node/connect.go:230-305 | over every such run, attempts of several users overlapping, the n-th round of attempts since a reset starts at least the sum of the first n − 1 delays after the first, less the clock's lag per round |
| Backoff.WaitedExact | internal/backoff/backoff.go:65-73 | that sum in closed form, below the cap and beyond it |
| Backoff.ProgramSpread | internal/node/node.go:138 | with the program's settings: 75 s for four delays, then one minute each |
| Backoff.Tracker.Allow | internal/backoff/backoff.go:44-55 | allowed exactly when the delay for the failures so far has passed |
| Backoff.Tracker.Fail | internal/backoff/backoff.go:58-76 | one more failure, recorded now |
| Backoff.Tracker.Reset | internal/backoff/backoff.go:79-87 | the key is forgotten |
| Backoff.Tracker.Reconnect | internal/node/connect.go:285-305 | tries exactly when the gate admits; a failure adds one to the key's streak, a success clears it, a refused dial and other keys change nothing |
| Backoff.Tracker.constructor | internal/backoff/backoff.go:20-34 | defaults and a cap of at least the initial delay |
| DialGate.DialGateConserves | internal/node/connect.go:92-218 | at every point of every interleaving claimed addresses are exactly those of claim holders and no two share one, slots and places in use are the workers holding them and at most four, and each call has received each result exactly as often as its workers have sent it |
| DialGate.CallReleases | internal/node/connect.go:92-121 | a call whose workers are done has released every place, claim and slot and received one result per worker, while other calls go on |
| DialGate.NoDeadlock | internal/node/connect.go:92-218 | until all workers are done some worker can go on |
| DialGate.SchedulesEnd | internal/node/connect.go:92-218 | no schedule has more steps than a bound fixed at the start |
| DialGate.DialFirstExact | internal/node/connect.go:118-148 | a call whose workers are done succeeds exactly when one of its attempts did, whatever other calls are doing |
| DialGate.CancelledExact | internal/node/connect.go:102-115 | a call is cancelled exactly if it was stopped from outside or one of its workers has succeeded |
| DialGate.ResultsExplained | internal/node/connect.go:170-218 | a result was dialled for, refused, or cancelled with its call |
| DialGate.RefusedOnlyInFlight | internal/node/connect.go:150-161 | a worker is refused only while another holds the claim on its address |
| DialGate.EveryAddressTried | internal/node/connect.go:92-148 | a call that is over without success and was not stopped has refused or dialled every address |
| DialGate.Collect | internal/node/connect.go:122-148 | success if any attempt succeeded, else the last real failure, else "already connecting", else "no addresses" |
| Directory.LookupExact | internal/directory/directory.go:311-342 | for every table lookup is independent of iteration order if and only if the key is an ID, or at most one named record carries it as alias and, if a nameless one does too, the prefix search finds that same record |
| Directory.LookupOrder | internal/directory/directory.go:321-342 | exact ID before alias before prefix |
| Directory.EqualFoldExact | internal/directory/directory.go:311-319 | aliases are compared character by character up to case |
| Directory.AliasesExact | internal/directory/directory.go:170-187 | a change keeps aliases distinct up to case if and only if it does not give a named peer an alias that a nameless record carries |
| Directory.AliasesStayDistinct | internal/directory/directory.go:147-205 | every sequence of changes that names peers keeps aliases distinct and lookup settled |
| Directory.NamelessShadows | internal/directory/directory.go:180-184 | a concrete table in which two records end with one alias |
| Directory.ObserveExact | internal/directory/directory.go:147-168 | each field after an observation; nothing is erased by empty news and no other record changes |
| Directory.SetAliasExact | internal/directory/directory.go:170-187 | which aliases are refused; one that goes through is carried by that peer, alone, and nothing else changes |
| Directory.AliasFound | internal/directory/directory.go:170-187 | lookup then finds the peer under the alias |
| Directory.ClearAliasExact | internal/directory/directory.go:189-205 | the record that lookup finds loses its alias, and nothing else changes |
| Directory.Peerbook.Lookup | internal/directory/directory.go:321-342 | exact ID before alias before unique prefix |
| Directory.Peerbook.IdByAlias | internal/directory/directory.go:311-319 | a record that carries the alias up to case, or none |
| Directory.Peerbook.Observe | internal/directory/directory.go:147-168 | non-empty news replace what is recorded; the directory becomes dirty |
| Directory.Peerbook.SetAlias | internal/directory/directory.go:170-187 | an invalid alias or one found with someone else is refused; dirty exactly when it is set |
| Directory.Peerbook.ClearAlias | internal/directory/directory.go:189-205 | the alias of the record that lookup finds is removed; dirty exactly when there was one |
| DirectorySave.SaveProtocolExact | internal/directory/directory.go:79-129 | for every interleaving of changes, snapshots, writes and failures, a clean directory's file loads back to the table if and only if the table has no nameless record |
| DirectorySave.ListingLoads | internal/directory/directory.go:55-77 | a sorted snapshot loads back as the table without its nameless record |
| DirectorySave.LoadToExact | internal/directory/directory.go:55-77 | of several records with one ID the last is loaded; a nameless one never is |
| DirectorySave.NamelessIsLost | internal/directory/directory.go:68-72 | a concrete run whose file does not load back |
| Stun.ParseBinding | internal/stun/stun.go:75-130 | the loop agrees with the list specification on every byte string; a reply is searched exactly when its header is right and it answers this transaction |
| Stun.FoldAttributes | internal/stun/stun.go:95-122 | the loop ends with the last address of each kind |
| Stun.ParseAddr | internal/stun/stun.go:132-158 | the IPv4 address, unmasked if asked |
| Stun.AddressExact | internal/stun/stun.go:132-158 | which values hold an address, and which; port and address are masked with the bytes of the cookie |
| Stun.LastAddressIsLast | internal/stun/stun.go:105-116 | the selected address is the last well-formed one of its type, or there is none |
| Stun.AttributesRoundTrip | internal/stun/stun.go:96-121 | decoding undoes encoding whatever the padding holds |
| Stun.PadExact | internal/stun/stun.go:104 | padding is the least number that completes a multiple of four |
| Stun.TruncatedEnds | internal/stun/stun.go:96-103 | decoding stops at a truncated attribute and keeps those before |
| Stun.UnpaddedCounts | internal/stun/stun.go:117-120 | a last attribute counts without its padding |
| Stun.ParseAgreesWithList | internal/stun/stun.go:75-130 | any list of attributes gives the last XOR-MAPPED-ADDRESS, else the last MAPPED-ADDRESS, else an error; bytes after the body are ignored |
| Stun.SelectExact | internal/stun/stun.go:123-129 | the answer is the last XOR-MAPPED-ADDRESS, else the last MAPPED-ADDRESS, and an error only if neither occurs |
| Stun.ParseExact | internal/stun/stun.go:75-95 | the exact condition of every rejection; a reply is searched exactly when its header is right and it answers this transaction |
| Stun.BodyExact | internal/stun/stun.go:89-94 | the body is as long as the header says, or as there are bytes |
| Stun.OtherTransaction | internal/stun/stun.go:86-88 | a reply to another request is refused |
| Stun.MappedRoundTrip | internal/stun/stun.go:132-158 | a lone plain address is read as it stands |
| Stun.BuildReply | internal/stun/stun.go:183-201 | the bytes of the server's reply |
| Stun.ReplyRoundTrip | internal/stun/stun.go:183-201 | the client recovers every address and port for every transaction |
| Stun.ReplyBytes | internal/stun/stun.go:183-201 | the reply byte by byte |

## Left out

- TLS, certificates, Ed25519, SHA-256, hex and JSON: functions with stated properties (`Works`, `GoodCodec`), not algorithms; that a scheme makes it hard to find one signature for two payloads is not a property a model can promise, so results name that case (`Twice`).
- Sockets, deadlines, keep-alive and ping timers, UDP multicast, UPnP: input and output around foreign calls.
- Terminal interface, commands, help, logging, configuration and identity files: presentation, or straight-line branches with easy properties.
- Channel rosters, history and event subscription: joins and leaves carry no order and delivery to subscribers is best effort, so there is no strong guarantee to state.
- The discovery table: its cap and eviction repeat the argument of the seen cache.
- Text of addresses, and `SanitizeAddrs`: depend on library parsing; addresses are opaque and the sanitized list is a parameter.
- Own joins resent to one new peer: part of `Routing` and `SeenRuns`, not of the network of `Gossip`, where every message starts as a broadcast.
- Nil receivers and nil messages: the model starts from existing objects.
- Order of the up, down and replace callbacks: they are called outside the lock; decisions are counted at the locked step.
- Unlocked overlap within one node: a message that is being handled reaches the seen cache in one step, after its timestamp check; the delay between the two is a parameter of `SeenRuns.AtMostOnceExact`, and the broadcast is a later step of `Floods`.
- Signing.TamperExact: is an equivalence only for a one-line identity; for a message whose peer ID, sender or key alone holds a line break it does not say whether a change could pass. Hexadecimal identities hold none, and `Signing.PayloadExact` does not assume it.
- Malformed UTF-8: text is made of Unicode scalar values, as JSON decoding yields.
