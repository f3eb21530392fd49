# Omnitun data plane and control plane: verified model

This Dafny project models the parts of a tunnelling service where bytes, tables and interleavings have to be right,
and proves what they guarantee for every input and every run:

- the **Vector Stream** frame codec, the agent's byte pump, the tunnel token and the connect handshake
  (`Frame.dfy`, `Pump.dfy`, `Token.dfy`, `Handshake.dfy`), with the relay's objects as classes (`Relay.dfy`) and many
  connections at once as a small-step machine (`Sessions.dfy`);
- the relay's **routing tables** as a whole-run characterisation (`Routing.dfy`);
- the gateway **hub** with its two queues, agent table and organisation index (`Hub.dfy`);
- the **STUN** binding exchange (`Stun.dfy`) and the **HTTP response** printer and its two readers (`HttpResponse.dfy`);
- **relay selection**, the **feature-flag cache**, **TURN** allocations, tunnel **quota** and the **topology** planner
  (`RelaySelection.dfy`, `FeatureFlags.dfy`, `Turn.dfy`, `Quota.dfy`, `Topology.dfy`);
- byte, number and string helpers shared by all of them (`Bytes.dfy`, `Text.dfy`).

Code that works in place is modelled as methods and classes, each proved against a function of its inputs or of the old
state; the properties are then lemmas about those functions and about all runs of them. Go strings that travel on the
wire are `seq<byte>`. HMAC, JSON decoding, hashing, hole punching, the clock, random ids and database contents are
parameters. Counters that wrap (`uint64`) wrap here too.

`dafny verify dfyconfig.toml` checks everything.

## Main results

1. **Handshake, end to end.** For any bytes in the first frame the relay admits an id if and only if the frame is a
   connect request for it with an authentic, unexpired token (`Handshake.AdmitsIffEntitled`); an agent's own request
   succeeds under its own id if and only if the id is non-empty and newline-free, the payload fits, and the token is
   authentic (`Relay.Establish`); pushed configuration, handshake and lookup together reach the acknowledged stream
   (`Relay.ConnectConfigured`). Over every interleaving of connections, acknowledgements are entitled and their stream
   ids are unique below 2^64 streams (`Sessions.AcksAreEntitled`, `Sessions.AckedStreamsAreDistinct`).
2. **Pump.** Whatever the chunking and whatever control frames (other than close) come between, the receiver writes exactly
   the relayed bytes and stops at the end mark (`Pump.PumpIdentity`); cut anywhere, it has written a prefix
   (`Pump.PumpPrefixSafe`).
3. **Codec.** Decoding and encoding are mutually inverse on streams of frames, and no strict prefix decodes.
4. **Routing and hub.** The content of every table after any run is characterised by the history alone
   (`Routing.RouteIff`, `Hub.ListedIff`), indexed lookup equals a scan of the live tunnels in steady runs, and the
   organisation lists partition the agents.
5. **STUN, HTTP.** Round trips with arbitrary foreign attributes, transaction ids, header orders and bodies.
6. **Schedulers, caches, allocators.** Optimal selection, cache agreement in serial runs and its exact rule in all others, expiry in time, a tight quota bound under
   concurrency, and monotone routes.

## Where the code falls short of a simple reading

Each of these is kept as the code has it, with the exact condition for all inputs, and with a concrete failing input
where the condition does not already name one.

- A read that returns bytes together with end of file loses those bytes (`Pump.BytesWithEOFAreDropped`); the pump is
  the identity exactly when that last read is empty (`Pump.RelayedIsSourceIff`). The agent passes a TCP connection,
  whose reads do not do this; the input needs another kind of `net.Conn`.
- A token generated for an id containing `:` is never accepted for that id, but for the part before the first `:`, and
  as long as the number behind it has not passed (`Tokens.GeneratedIsAcceptedIff`, `Tokens.GeneratedIsAcceptedFor`).
- An agent id with a newline is cut at it, and the rest of the id is read as the start of the token
  (`Handshake.PrefixIsAdmittedIff`). The agent does not compare the id in the acknowledgement with its own, so it
  counts itself connected under that prefix, exactly when the token so read is authentic for it
  (`Handshake.OtherIsAdmittedIff`, `Relay.Establish`); `Handshake.NewlineIdIsAdmittedAsPrefix` is a case under any
  secret.
- Registering an id again under another key leaves the old key behind, and unregistering removes a key even if another
  tunnel has taken it over (`Routing.ReregistrationLeavesStaleKey`, `Routing.UnregisterDropsSuccessorsKey`);
  `Routing.RouteIff` is the exact rule.
- A connection is registered twice and can stay listed after its unregistration
  (`Hub.SecondRegistrationOutlivesRemoval`); `Hub.UnregisteredStaysIff` is the exact rule.
- A listed connection may be cancelled: the second registration makes the hub cancel the very connection it then lists
  (`Hub.HubTable.RegisterTwice`), and a heartbeat timeout cancels one that stays listed until the loop gets to its
  unregistration (`Hub.TimeoutCancelsListed`). It is cancelled exactly when a timeout or its handler closed it or an
  add found it listed (`Hub.CancelledIff`, `Hub.ListedIsCancelledIff`).
- A status code survives the HTTP round trip exactly when its decimal form has three characters
  (`HttpResponse.StatusSurvivesIff`).
- An IPv6 address masked as section 15.2 of RFC 5389 says is read correctly exactly when the transaction id is all zeros
  (`Stun.StandardIPv6IsReadIff`).
- A flag written through the manager is cached with its own JSON spelling, which equals the row's text exactly when it
  is already in normal form (`FeatureFlags.CachedTextIsRowIff`).
- Overlapping flag calls can leave the cache wrong with nothing in flight any more: two updates whose cache writes cross,
  with or without a refresh in between (`FeatureFlags.CrossingUpdatesDisagree`), two updates that each read their row
  back after both have written it (`FeatureFlags.CrossedReadBackAgreesIff`), and a delete during a refresh
  (`FeatureFlags.DeleteDuringRefreshIsServed`). In every interleaving a key agrees with its row exactly when the row is
  what the origin of the key's last cache write took it to be: the row right after that statement or query, and for an
  update the content it stored under the id and times it read back (`FeatureFlags.KeyAgreesIff`,
  `FeatureFlags.OverlapAgreesIff`).
- Concurrent creations overshoot the tunnel limit by exactly one less than their number in flight
  (`Quota.QuotaBound`, `Quota.QuotaBoundIsReached`).
- Overlapping plans can replace a degraded route by a better one (`Topology.OverlappingPlanResetsRoute`); while a route
  exists it moves up exactly when an upgrade finds a better mode or a better plan is stored over it
  (`Topology.RouteRisesIff`).
- Addresses containing the separator can share a key with another pair (`Topology.KeysCollideWithSeparator`), exactly
  when the key can be divided in order at another separator (`Topology.KeyIsSharedIff`).

## Model

| member | source | states |
|---|---|---|
| Frames.Frame.WithEOF | internal/protocol/frame.go:207-236 | Setting the end mark makes `IsEOF` true and changes no other flag bit and no other field. |
| Frames.ConstructedFrames | internal/protocol/frame.go:154-236 | Constructors and predicates agree: version, type, flags, stream id, payload and subtype of data and error frames. |
| Frames.ControlSubTypeIs | internal/protocol/frame.go:214-224 | The subtype is the first payload byte of control and error frames, and zero otherwise. |
| Frames.HeaderLayout | internal/protocol/frame.go:88-110 | Seventeen bytes: "OT", version, type, flags, eight bytes of stream id, four of payload length. |
| Frames.EncodeFrame | internal/protocol/frame.go:88-110 | Fails exactly for payloads over 64 KiB, writing nothing; otherwise appends the 17-byte header and the payload. |
| Frames.DecodeFrame | internal/protocol/frame.go:114-150 | Takes from the stream exactly what the decoding function consumes, on success and on each of the five refusals. |
| Frames.DecodeOfEncode | internal/protocol/frame.go:88-150 | An encoded frame with anything behind it decodes to itself and leaves exactly the tail; another version is refused. |
| Frames.EncodeOfDecode | internal/protocol/frame.go:88-150 | Any accepted bytes are the encoding of the returned frame followed by the rest. |
| Frames.AcceptsIffEncodingInFront | internal/protocol/frame.go:114-150 | The decoder accepts if and only if the encoding of some legal frame is a prefix of the input. |
| Frames.NoStrictPrefixDecodes | internal/protocol/frame.go:88-150 | No strict prefix of an encoding decodes. |
| Frames.StreamRoundTrip | internal/protocol/frame.go:88-150 | Decoding the concatenated encodings of any list of legal frames returns that list and consumes all of it. |
| Frames.StreamDecomposes | internal/protocol/frame.go:114-150 | Every byte string is the encodings of the frames read from it followed by an undecodable rest, and in this one way only. |
| Frames.StreamEncodingInjective | internal/protocol/frame.go:88-110 | Two lists of legal frames with the same bytes are the same list. |
| Pump.ForwardLocalToRemote | internal/control/tunnel_conn.go:219-246 | Writes one data frame per read with a counting stream id, then the end frame on end of file; every frame is legal. |
| Pump.ForwardRemoteToLocal | internal/control/tunnel_conn.go:177-217 | Writes the data payloads in order and stops at the end mark, at close or at the first undecodable frame. |
| Pump.SentIsLegal | internal/control/tunnel_conn.go:219-246 | With reads of at most 32 KiB no frame of the pump fails the 64 KiB check. |
| Pump.SentFrames | internal/control/tunnel_conn.go:219-246 | Frame by frame: each read whole in an unflagged data frame whose stream id counts modulo 2^64, the end in one empty frame with the end mark alone. |
| Pump.ControlIsReadPast | internal/control/tunnel_conn.go:200-206 | A control frame stops the receiver if and only if its first payload byte is 3; none writes anything. |
| Pump.DeliverPastHarmless | internal/control/tunnel_conn.go:187-216 | After any data frames and control frames other than close, exactly the data payloads have been written. |
| Pump.PumpIdentity | internal/control/tunnel_conn.go:177-246 | For every chunking and any control frames other than close in between, the receiver writes exactly the relayed bytes, stops at the end mark and leaves what follows unread. |
| Pump.PumpRoundTrip | internal/control/tunnel_conn.go:177-246 | What the sending loop writes for any chunking, the receiving loop turns back into the relayed bytes. |
| Pump.Transfer | internal/control/tunnel_conn.go:177-246 | The two loops run over one stream write exactly the relayed bytes, consume the wire and stop at the end mark. |
| Pump.RelayedIsSourceIff | internal/control/tunnel_conn.go:224-243 | The relayed bytes are the source bytes if and only if the read that met end of file was empty. |
| Pump.BytesWithEOFAreDropped | internal/control/tunnel_conn.go:224-243 | A concrete input on which bytes read together with end of file are lost. |
| Pump.PumpPrefixSafe | internal/control/tunnel_conn.go:177-246 | With the wire cut anywhere and any control frames, close included, what was written is a prefix of what was relayed. |
| Text.SplitLast | internal/relay/token.go:66-75 | Cuts at the last separator, or returns the whole string. |
| Text.CutLastIff | internal/relay/token.go:66-75 | The cut yields `a` and `b` if and only if the string is `a`, the separator and a separator-free `b`. |
| Text.SplitN | internal/relay/token.go:77-90 | At most `n` parts, cut at the first separators. |
| Text.SplitInTwo | internal/relay/token.go:77-90 | In two parts: the cut is at the first separator, if there is one. |
| Text.ScanOfDecimal | internal/relay/token.go:24-31 | Scanning a printed int64 gives it back, negative values included. |
| Text.ScanReads | internal/relay/token.go:57-58 | The scan reads the longest digit run behind an optional sign, ignores what follows, and yields zero without a digit or beyond int64. |
| Text.SpaceIff | internal/relay/token.go:57-58 | Exactly the 24 white-space characters of package fmt other than newline count as space in front. |
| Text.SkipsSpace | internal/relay/token.go:57-58 | Each of them in front of a number is skipped. |
| Text.UnhexIff | internal/relay/token.go:44-47 | A string decodes as lower-case hexadecimal to given bytes if and only if it is their printed form. |
| Tokens.Validate | internal/relay/token.go:34-64 | Returns the checker's verdict, with each error in the code's order. |
| Tokens.AcceptsIffAuthentic | internal/relay/token.go:34-64 | Accepts for an id if and only if the token is the signed payload of that colon-free id with an expiry not passed. |
| Tokens.SignedIsChecked | internal/relay/token.go:34-64 | On a signed payload of a colon-free id the verdict depends on the expiry alone. |
| Tokens.TokenText | internal/relay/token.go:24-31 | A token is the id, a colon, the expiry second, a dot and the MAC of all in front of it in hexadecimal. |
| Tokens.SignatureIsCheckedIff | internal/relay/token.go:34-49 | The signature is refused if and only if what follows the last dot does not decode, as lower-case hexadecimal, to exactly the MAC of what is in front. |
| Tokens.AcceptedIsSigned | internal/relay/token.go:34-64 | Whatever is accepted ends in twice as many hexadecimal digits as the MAC has bytes, and they decode to it. |
| Tokens.GeneratedLivesForTTL | internal/relay/token.go:24-64 | In instants: a generated token of a colon-free id is accepted up to its expiry and expired a second later. |
| Tokens.GeneratedIsAcceptedFor | internal/relay/token.go:24-64 | For any id and any `x`: a generated token is accepted for `x` if and only if `x` is the id up to its first colon and the number read behind it has not passed. |
| Tokens.GeneratedIsAcceptedIff | internal/relay/token.go:24-64 | A generated token is accepted for its own id if and only if the id has no colon and the token has not expired; a token for `p:r` is accepted for `p` if and only if the number in front of `r:expiry` has not passed. |
| Tokens.GenerateInjective | internal/relay/token.go:24-31 | Equal tokens have the same id and the same expiry second. |
| Handshake.ParseTunnelConnectPayload | internal/relay/server.go:317-328 | Cuts the payload behind its first byte at the first newline; short payloads and missing newlines are errors. |
| Handshake.ParseConnectIff | internal/relay/server.go:317-328 | A payload names an id and token if and only if it is printed from them and the id has no newline. |
| Handshake.AdmitsFrameIffEntitled | internal/relay/server.go:244-289 | The relay's checks admit an id if and only if the frame is entitled to it. |
| Handshake.AdmitsIffEntitled | internal/relay/server.go:238-306 | For any bytes on the stream: admitted as an id if and only if they start with a connect request for that id with an authentic unexpired token. |
| Handshake.AckIsAccepted | internal/relay/server.go:291-306 | The acknowledgement of an admitted request fits one frame, and the agent decodes and accepts it whatever follows. |
| Handshake.ConnectIsAdmittedIff | internal/control/tunnel_conn.go:127-146 | The agent's frame gets its own id admitted if and only if id, size and token are acceptable. |
| Handshake.RequestIsParsed | internal/relay/server.go:317-328 | Out of the agent's request the relay reads the id up to its first newline, and all that follows as the token. |
| Handshake.PrefixIsAdmittedIff | internal/relay/server.go:238-306 | For an id `p`, newline, `q`: the relay admits `p` if and only if `q`, newline and the token together are an authentic token for `p`. |
| Handshake.OtherIsAdmittedIff | internal/relay/server.go:238-306 | The agent's frame gets an id other than its own admitted if and only if its id has a newline and the prefix is so entitled; it is then that prefix. |
| Handshake.NewlineIdIsAdmittedAsPrefix | internal/relay/token.go:24-64 | A concrete such agent, under any secret, with a generated token that is expired and names another id. |
| Handshake.GeneratedTokenConnects | internal/relay/token.go:24-64 | With a generated token, the agent's frame is admitted if and only if the id has no colon and the token has not expired. |
| Routing.LiveIff | internal/relay/dispatcher.go:77-153 | After any run an id is registered if and only if its last mention was a registration, and with that context. |
| Routing.RouteIff | internal/relay/dispatcher.go:85-153 | After any run a domain, port or slug maps to the last registration naming it, unless a live context carrying it was unregistered later. |
| Routing.OwnerAfterStep | internal/relay/dispatcher.go:85-153 | The effect of one operation on one index key. |
| Routing.ClearsIff | internal/relay/dispatcher.go:126-153 | An unregistration clears a key, told by the history, if and only if the context it removes carries the key. |
| Routing.WildcardKeyIsLongest | internal/relay/dispatcher.go:46-53 | The left-to-right dot scan finds the longest indexed wildcard suffix. |
| Routing.LookupKeyIsMostSpecific | internal/relay/dispatcher.go:35-56 | Lookup picks the exact name, else the longest matching wildcard, and nothing if and only if nothing matches. |
| Routing.LookupOverRun | internal/relay/dispatcher.go:35-153 | Any lookup answer is the current context of the tunnel that a matching pattern is routed to by the history. |
| Routing.BlankRegistrationKeepsRoutes | internal/relay/server.go:279-292 | The key-less registration of the handshake keeps every domain, port and slug with its tunnel; hosts of the tunnel now reach the new context, all others are answered as before. |
| Routing.SteadyIndexIsExact | internal/relay/dispatcher.go:85-153 | When ids keep their keys and share none, index entries are exactly the live tunnels' keys. |
| Routing.StepKeepsIndexExact | internal/relay/dispatcher.go:85-153 | One operation keeps the index exact under those conditions. |
| Routing.SteadyLookupIsBestLive | internal/relay/dispatcher.go:35-56 | In such runs lookup answers an entry if and only if it is the best match among all live tunnels. |
| Routing.ReregistrationLeavesStaleKey | internal/relay/dispatcher.go:85-114 | A concrete run that leaves an index entry of a key its tunnel no longer has. |
| Routing.UnregisterDropsSuccessorsKey | internal/relay/dispatcher.go:134-144 | A concrete run in which a live tunnel loses its route. |
| Relay.Dispatcher.Register | internal/relay/dispatcher.go:85-124 | Fails exactly for an empty id, changing nothing; otherwise all four maps make the routing step. |
| Relay.Dispatcher.Unregister | internal/relay/dispatcher.go:126-153 | All four maps make the routing step. |
| Relay.Dispatcher.LookupByID | internal/relay/dispatcher.go:77-83 | The registered context of an id, or none. |
| Relay.Dispatcher.Lookup | internal/relay/dispatcher.go:35-56 | The scanning loop answers as the lookup specification. |
| Relay.Dispatcher.LookupByPort | internal/relay/dispatcher.go:58-64 | The live context of the port's owner, or none. |
| Relay.Dispatcher.LookupBySlug | internal/relay/dispatcher.go:66-75 | The live context of the slug's owner, or none; none for the empty slug. |
| Relay.Dispatcher.OnConfigUpdate | internal/relay/dispatcher.go:155-191 | Registers fresh contexts for the pushed tunnels, in order. |
| Relay.StreamMultiplexer.NewStream | internal/relay/stream.go:33-54 | Hands out the counter's value, advances it modulo 2^64 and lists the stream. |
| Relay.StreamMultiplexer.CloseStream | internal/relay/stream.go:56-74 | Removes the stream and does not touch the counter. |
| Relay.Server.Authorize | internal/relay/server.go:238-277 | Consumes one frame and decides as the handshake specification, up to the empty id that registration refuses. |
| Relay.Server.Enter | internal/relay/server.go:279-292 | Registers a fresh context, opens a stream and puts its id into that context; an empty id changes nothing. |
| Relay.Server.HandleConnection | internal/relay/server.go:227-315 | Registers if and only if the request is admitted; the bytes it then writes decode to an acknowledgement with the context's id and stream id, those of a refusal to an error frame with the reason; a refusal changes nothing else. |
| Relay.AnswerSays | internal/relay/server.go:244-306 | On the wire: type, subtype, stream id and payload of an acknowledgement and of a refusal, field by field on the decoded frame. |
| Relay.AnswerFits | internal/relay/server.go:238-306 | No answer of the relay exceeds the frame size limit. |
| Relay.AgentAcceptsIffAdmitted | internal/control/tunnel_conn.go:148-175 | Of the relay's answers the agent accepts one if and only if the request was admitted. |
| Relay.SendConnectFrame | internal/control/tunnel_conn.go:127-146 | Writes one frame that decodes to the connect request for id and token on stream 0, or nothing when it exceeds 64 KiB. |
| Relay.WaitConnectAck | internal/control/tunnel_conn.go:148-175 | True exactly when the next frame is of control type and starts with 2; returns the frame read. |
| Relay.Exchange | internal/relay/server.go:238-315 | Whatever was sent, the agent reads an acknowledgement if and only if the relay registered a context, and the frame it read carries that context's id and stream id. |
| Relay.Establish | internal/control/tunnel_conn.go:38-63 | The exchange ends connected under the agent's id if and only if id, size and token are acceptable, and under another id if and only if a newline prefix is entitled; hosts routed to the tunnel then reach the new context, all others are answered as before; the frame the agent read carries id and stream id of the context; a refusal leaves the relay untouched. |
| Relay.ConnectConfigured | internal/relay/dispatcher.go:172-188 | After a push of any tunnels and a successful handshake of one of them, the domain it was last to name leads to the context with the acknowledged stream. |
| Sessions.AloneAsHandled | internal/relay/server.go:238-306 | One connection's four steps with nothing in between have the effect of the handler: nothing shared on refusal, else registration, next stream id in the context, acknowledgement with it. |
| Sessions.OthersAsHandled | internal/relay/dispatcher.go:155-191 | The effect of pushes, unregistrations, other streams and closes on contexts, table and streams. |
| Sessions.ArriveKeepsInv | internal/relay/server.go:238-289 | Judging and registering a connection keeps the invariant. |
| Sessions.IssueKeepsInv | internal/relay/stream.go:33-54 | Opening a stream, for a tunnel or for anything else, keeps the invariant. |
| Sessions.BindKeepsInv | internal/relay/server.go:291-292 | Writing the stream id into the context keeps the invariant. |
| Sessions.AckKeepsInv | internal/relay/server.go:294-306 | Sending the acknowledgement keeps the invariant. |
| Sessions.TableKeepsInv | internal/relay/stream.go:56-74 | Closes, pushes and unregistrations keep the invariant. |
| Sessions.RunKeepsInv | internal/relay/server.go:238-306 | The invariant holds after every interleaving of connections, closes, pushes and unregistrations. |
| Sessions.AcksAreEntitled | internal/relay/server.go:238-306 | In every interleaving each acknowledgement belongs to an entitled first frame, carries the stream id of the context it registered, and its bytes decode to that id and stream id. |
| Sessions.StreamIDsRepeatIff | internal/relay/stream.go:33-54 | Two issued stream ids are equal if and only if their positions differ by a multiple of 2^64. |
| Sessions.AckedStreamIsExclusive | internal/relay/stream.go:33-74 | Up to 2^64 streams, an acknowledged stream id was issued to that connection alone. |
| Sessions.AckedStreamsAreDistinct | internal/relay/stream.go:33-74 | Up to 2^64 streams, no two acknowledgements share a stream id. |
| Sessions.RoutedContextHasItsId | internal/relay/dispatcher.go:77-83 | In every interleaving the context found for an id is a context of that id. |
| Sessions.TableIsRoutingRun | internal/relay/dispatcher.go:85-153 | In every interleaving the routing table is that of the dispatcher after the admissions, pushes and unregistrations in their order, so its whole-run rules apply. |
| Sessions.ListedIff | internal/relay/stream.go:33-74 | At every point of every interleaving a stream is listed if and only if it was handed out and not closed since. |
| Hub.ListedIff | internal/gateway/hub.go:119-173 | After any run an agent is listed with a connection if and only if that is its last add and it was not removed since. |
| Hub.LateRemoveIsHarmless | internal/gateway/hub.go:153-173 | Removing a replaced connection changes neither table. |
| Hub.AddKeepsIndex | internal/gateway/hub.go:119-151 | Adding keeps the index equal to the agent table regrouped by organisation. |
| Hub.RemoveKeepsIndex | internal/gateway/hub.go:153-173 | So does removing. |
| Hub.RunKeepsIndex | internal/gateway/hub.go:119-173 | So does every run. |
| Hub.IndexedIffBelongs | internal/gateway/hub.go:119-173 | In every reachable state, indexed under an organisation if and only if listed with that non-empty organisation. |
| Hub.MembersAreTheFilter | internal/gateway/hub.go:224-285 | An organisation's list is the filter of the agent table, each connection once. |
| Hub.TotalIsUnion | internal/gateway/hub.go:119-173 | Sizes of disjoint inner maps add up to the size of their union. |
| Hub.OrganisationsPartitionAgents | internal/gateway/hub.go:119-173 | The inner map sizes sum to the number of agents with an organisation. |
| Hub.LoopAppliesInterleaving | internal/gateway/hub.go:106-117 | Whatever the loop picks, what it has applied plus what is queued is each queue in order, nothing lost or repeated. |
| Hub.UnregisteredStaysIff | internal/gateway/handler.go:40-54 | However often a connection is unregistered, it is listed in the end if and only if the agent's last add is its own and came after every removal of it. |
| Hub.SecondRegistrationOutlivesRemoval | internal/gateway/handler.go:40-54 | A concrete choice of the loop that takes the second registration after the unregistration and leaves the connection listed and cancelled. |
| Hub.ClosedIff | internal/gateway/hub.go:119-132 | The adds applied so far have closed a connection if and only if one of them, for its agent, found it listed. |
| Hub.CancelledIff | internal/gateway/hub.go:119-132 | Over every run of the loop a connection is cancelled if and only if a timeout or its handler closed it, or some add for its agent found it listed. |
| Hub.ListedIsCancelledIff | internal/gateway/hub.go:303-327 | A listed connection is cancelled if and only if a timeout or its handler closed it, or an add up to the one that lists it found it already listed. |
| Hub.SettledIsCancelledIff | internal/gateway/handler.go:96-102 | With every unregistering call returned, a connection is cancelled if and only if it was ever unregistered or an add found it listed. |
| Hub.TimeoutCancelsListed | internal/gateway/hub.go:303-327 | A concrete run with a timed-out connection that is listed and cancelled although no add found it. |
| Hub.HubTable.AddConn | internal/gateway/hub.go:119-151 | Makes the add step on both tables and closes whatever connection was listed, even the same one. |
| Hub.HubTable.RegisterTwice | internal/gateway/handler.go:40-54 | The handler's two registrations in a row end with the connection listed and closed. |
| Hub.HubTable.RemoveConn | internal/gateway/hub.go:153-173 | Makes the remove step on both tables. |
| Hub.HubTable.AgentsByOrg | internal/gateway/hub.go:271-285 | Returns exactly the organisation's members, each once. |
| Hub.HubTable.TimedOut | internal/gateway/hub.go:303-313 | Finds exactly the listed connections silent for more than 90 s. |
| Stun.BuildXorMappedAddrAttr | internal/network/stun_server.go:164-211 | Fills the attribute: type, length, family, masked port and masked address. |
| Stun.MaskInto | internal/network/stun_server.go:180-207 | The masking loop writes the address exclusive-ored with the key behind the first four bytes. |
| Stun.BuildBindingResponse | internal/network/stun_server.go:149-162 | Header with the attribute's length, cookie and transaction id, then the attribute. |
| Stun.FindFrom | internal/network/stun.go:210-236 | Advancing over padded attributes finds the first address attribute of the declarative sequence. |
| Stun.FindLoop | internal/network/stun.go:210-236 | The loop terminates on every byte string, stays in range and returns that attribute. |
| Stun.GetMappedFromResponse | internal/network/stun.go:203-238 | Decodes the first address attribute, or reports truncation, absence or malformation. |
| Stun.DecodeAddressAttribute | internal/network/stun.go:240-285 | Decodes both families and both attribute types by the decoding specification; short or foreign attributes are errors. |
| Stun.Unmask | internal/network/stun.go:256-279 | The unmasking loop exclusive-ors the address bytes with the key. |
| Stun.ParseXorMappedAddress | internal/network/stun.go:180-201 | Total on every byte string: length, type and cookie are checked first, in this order. |
| Stun.FindAddressIsFirst | internal/network/stun.go:210-236 | What is found is the first address attribute, and none is found if and only if there is none. |
| Stun.WalkRoundTrip | internal/network/stun.go:210-236 | Walking transmitted attributes with any padding bytes returns exactly them. |
| Stun.SkipOthers | internal/network/stun.go:210-236 | Attributes of other types in front do not change what is found. |
| Stun.DecodeOfValue | internal/network/stun.go:240-285 | An address masked with any key is read through the parser's own key, with its port intact. |
| Stun.AttributeIsParsed | internal/network/stun.go:180-285 | Behind any foreign attributes padded to multiples of four, an address attribute of either type is what the parser decodes. |
| Stun.PlainAddressIsRead | internal/network/stun.go:240-285 | An unmasked address attribute yields its bytes and its port as they are. |
| Stun.MalformedAddressIff | internal/network/stun.go:240-285 | Exactly which values are too short, of no known family, or decodable. |
| Stun.MappedFormComesBackAsIPv4 | internal/network/stun_server.go:164-190 | An IPv4 address, plain or in its sixteen-byte mapped form, comes back as its four bytes. |
| Stun.OtherFormComesBackWhole | internal/network/stun_server.go:190-211 | Every other sixteen-byte address comes back as it is. |
| Stun.AcceptsIff | internal/network/stun_server.go:111-129 | A request is answered if and only if it has twenty bytes, the binding type and the cookie; its transaction id is echoed. |
| Stun.HandleBindingRequest | internal/network/stun_server.go:111-133 | The three checks in order, then the response for the client's address. |
| Bytes.XorIsBitwise | internal/network/stun.go:256-279 | Each bit of the exclusive-or is set if and only if the operands differ in it. |
| Stun.ResponseRoundTrip | internal/network/stun_server.go:149-211 | For every address, port and transaction id, any foreign attributes in front and any bytes behind, parsing returns address and port. |
| Stun.RequestIsAccepted | internal/network/stun_server.go:111-129 | The client's request passes the server's checks and its transaction id is echoed. |
| Stun.BareResponseRoundTrip | internal/network/stun_server.go:149-162 | The response as the server builds it parses to the client's address. |
| Stun.ClientLearnsItsAddress | internal/network/stun.go:112-135 | Request, response and parse together give the client its address and port. |
| Stun.MaskedTwiceIff | internal/network/stun.go:262-279 | Masking with the standard's key and unmasking with this one restores the address if and only if the transaction id is zero. |
| Stun.StandardAttributeIsReadIff | internal/network/stun.go:240-285 | A standard-conforming IPv6 address attribute is decoded correctly if and only if the transaction id is zero. |
| Stun.StandardIPv6IsReadIff | internal/network/stun.go:180-285 | A whole standard-conforming IPv6 response, with any bytes behind it, is read correctly if and only if its transaction id is zero. |
| HttpResponse.SerializeHTTPResponse | internal/relay/proxy.go:594-616 | Prints status line, one line per header value, blank line and body. |
| HttpResponse.PrintValues | internal/relay/proxy.go:599-603 | The inner loop prints one line per value of a key. |
| HttpResponse.DeserializeHTTPResponse | internal/relay/proxy.go:455-520 | The reading loop computes the parse, errors included. |
| HttpResponse.ParseResponseStatusCode | internal/relay/proxy.go:234-255 | The scan computes the logged status. |
| HttpResponse.HeadersRoundTrip | internal/relay/proxy.go:474-511 | Printed headers parse to the last value of each canonical name, with the body untouched. |
| HttpResponse.ResponseRoundTrip | internal/relay/proxy.go:455-520 | The whole response round trip for any printable headers, with repeats, and any body. |
| HttpResponse.SetAllOfMap | internal/relay/proxy.go:600-606 | Setting a canonical single-valued map in any order rebuilds it. |
| HttpResponse.MapRoundTrip | internal/relay/proxy.go:594-616 | For three-digit statuses and canonical single-valued header maps in any order, parsing the printed response returns status, map and body. |
| HttpResponse.CodeIsReadIff | internal/relay/proxy.go:462-471 | The three bytes at the code's place read as the status if and only if its decimal form has three characters. |
| HttpResponse.StatusSurvivesIff | internal/relay/proxy.go:455-472 | So the status comes back if and only if it is in 100..999 or -99..-10. |
| HttpResponse.ReadersAgree | internal/relay/proxy.go:234-255 | On printed responses the log and the deserializer read the same code, and default to 0 and 200 when there is none. |
| HttpResponse.StatusOfAnyLine | internal/relay/proxy.go:461-468 | Any status line of any HTTP version: the number its tenth to twelfth bytes denote, else 200. |
| HttpResponse.ForeignStatusIsRead | internal/relay/proxy.go:455-520 | Any three version bytes and any three code bytes: the deserializer reads the number or 200, the log the number or 0. |
| HttpResponse.LoggedReads | internal/relay/proxy.go:234-255 | The log reads the three bytes behind the first space after "HTTP/", wherever that is. |
| HttpResponse.ForeignHeaderIsRead | internal/relay/proxy.go:480-503 | Header lines with or without carriage return and with or without a space behind the colon give name and value. |
| HttpResponse.NamelessIsSkipped | internal/relay/proxy.go:488-496 | Lines without a colon, or with one in front, give no header. |
| HttpResponse.CanonicalIs | internal/relay/proxy.go:497-503 | The key of a header is its name with capitals in front and behind dashes only, or the name itself when it holds a byte no name may hold. |
| HttpResponse.CanonicalIgnoresCase | internal/relay/proxy.go:497-503 | Names that differ in case alone share one key. |
| HttpResponse.PrintedBytes | internal/relay/proxy.go:594-616 | The bytes of a printed response with one header, written out. |
| RelaySelection.LessIsStrictWeakOrder | internal/tunnel/relay_selector.go:35-47 | The comparators are strict weak orders. |
| RelaySelection.RatioLessIsCrossProduct | internal/tunnel/relay_selector.go:35-47 | Comparing load ratios is comparing cross products. |
| RelaySelection.FirstIsLeast | internal/tunnel/relay_selector.go:35-54 | In any sorted order nothing is less than the first element. |
| RelaySelection.Collect | internal/tunnel/relay_selector.go:24-29 | The candidate loop keeps exactly the qualifying relays in order. |
| RelaySelection.Choose | internal/tunnel/relay_selector.go:24-54 | Nothing if and only if no relay qualifies; otherwise a best one. |
| RelaySelection.Select | internal/tunnel/relay_selector.go:18-55 | Fails if and only if no relay has room; otherwise preferred region first, least ratio in its class. |
| RelaySelection.SelectAlternative | internal/tunnel/relay_selector.go:57-102 | Never the failed relay; fails if and only if none qualifies; otherwise least ratio. |
| FeatureFlags.WriteKeepsAgreement | internal/featureflags/flags.go:203-256 | A statement followed by its cache write keeps every cached flag equal to its row. |
| FeatureFlags.StepKeepsAgreement | internal/featureflags/flags.go:68-256 | So does every call, and a refresh makes the cache the table. |
| FeatureFlags.SerialRunAgrees | internal/featureflags/flags.go:68-256 | Over every serial run the cache agrees with the table, and from the first refresh on it is the table. |
| FeatureFlags.CachedTextIsRowIff | internal/featureflags/flags.go:203-244 | After creating or updating a flag the cached text equals the row's if and only if it is already in the database's spelling. |
| FeatureFlags.Manager.RefreshCache | internal/featureflags/flags.go:68-81 | The cache becomes the table and expires five seconds later. |
| FeatureFlags.Manager.CreateFlag | internal/featureflags/flags.go:203-218 | Inserts and caches, or fails on a duplicate key without effect. |
| FeatureFlags.Manager.UpdateFlag | internal/featureflags/flags.go:220-244 | Updates row and cache keeping id and creation time, or has no effect without a row. |
| FeatureFlags.Manager.DeleteFlag | internal/featureflags/flags.go:246-256 | Removes row and cache entry. |
| FeatureFlags.Manager.IsEnabled | internal/featureflags/flags.go:104-151 | Off for a missing or disabled flag and an undecodable value; otherwise the boolean, the membership or the percentage of the served flag decides; fills the cache on a miss. |
| FeatureFlags.Manager.EvaluatePercentage | internal/featureflags/flags.go:153-164 | Off at 0 or below, on at 100 or above, else on if and only if the bucket is below the percentage. |
| FeatureFlags.EvaluatesByRule | internal/featureflags/flags.go:120-151 | What each rule answers for an enabled flag; a disabled one is off. |
| FeatureFlags.RolloutOnlyGrows | internal/featureflags/flags.go:153-164 | An organisation that is on at a percentage stays on at every higher one. |
| FeatureFlags.RolloutShare | internal/featureflags/flags.go:153-164 | A rollout at p percent is on in exactly p of the 100 buckets. |
| FeatureFlags.BucketDecides | internal/featureflags/flags.go:153-164 | An organisation is on if and only if its bucket is. |
| FeatureFlags.Manager.GetFlag | internal/featureflags/flags.go:178-187 | Returns the cached flag, else the row, else nothing. |
| FeatureFlags.Manager.ListFlags | internal/featureflags/flags.go:189-201 | Lists each flag of the fresh non-empty cache, else of the table, once, and nothing else. |
| FeatureFlags.ServedAsTable | internal/featureflags/flags.go:178-187 | While cache and table agree, the served flag is the row, and absent if and only if the row is. |
| FeatureFlags.EnabledAsTable | internal/featureflags/flags.go:104-151 | While they agree, evaluation gives what the table alone would. |
| FeatureFlags.CallersSeeTheTable | internal/featureflags/flags.go:104-201 | After every serial run from start-up, evaluation and listing answer as the table. |
| FeatureFlags.AloneAsSerial | internal/featureflags/flags.go:203-256 | A call whose statements and cache write have nothing in between is the serial step. |
| FeatureFlags.AwaitedIff | internal/featureflags/flags.go:220-238 | An update has its row to read back if and only if its UPDATE found a row and no read-back of the call came since. |
| FeatureFlags.DueIff | internal/featureflags/flags.go:203-256 | A cache write is due if and only if the last statement of its call settled it and the call has not finished since. |
| FeatureFlags.LoadedIff | internal/featureflags/flags.go:68-81 | A refresh is under way if and only if a query ran with no swap since, and it holds the rows of that moment. |
| FeatureFlags.CacheTellsLastWrite | internal/featureflags/flags.go:68-256 | In every interleaving of single statements and cache writes the cache says of a key what the origin of its last write took the row to be: the row right after the statement or query, for an update its content under the stamps read back; keys never written are not cached. |
| FeatureFlags.KeyAgreesIff | internal/featureflags/flags.go:68-256 | At every point of every interleaving cache and row agree on a written key if and only if the row is what that origin took it to be. |
| FeatureFlags.FreshWriteAgrees | internal/featureflags/flags.go:68-256 | They agree whenever no statement on the key came after the one, or the query, that the last cache write stems from. |
| FeatureFlags.OverlapAgreesIff | internal/featureflags/flags.go:68-256 | At every point of every interleaving the whole cache agrees with the table if and only if no cached key has a row other than its origin took it to be. |
| FeatureFlags.CrossingUpdatesDisagree | internal/featureflags/flags.go:220-244 | Two updates with crossing cache writes end, with nothing in flight, in a cache that holds the first and a row that holds the second, with or without a refresh in between. |
| FeatureFlags.CrossedReadBackAgreesIff | internal/featureflags/flags.go:220-244 | Two updates that both read back after both UPDATEs leave the first's content under the second's stamps in the cache; it agrees with the row if and only if both have the same content. |
| FeatureFlags.QuietRefreshRestores | internal/featureflags/flags.go:68-81 | From any disagreement a refresh with nothing in flight restores agreement, and serial calls keep it. |
| FeatureFlags.DeleteDuringRefreshIsServed | internal/featureflags/flags.go:68-81 | A concrete overlap after which a deleted flag is still served. |
| Turn.StepKeepsInv | internal/network/turn.go:90-178 | Each operation keeps keys equal to ids and one allocation per user. |
| Turn.RunKeepsInv | internal/network/turn.go:90-178 | So does every run, even when a random id repeats. |
| Turn.IdleSurvivesIff | internal/network/turn.go:359-377 | An idle allocation is present, unchanged, if and only if no cleanup ran more than the TTL after its last use. |
| Turn.IdleExpiresInTime | internal/network/turn.go:345-377 | With ideal ticks it is gone once TTL plus one cleanup interval have passed. |
| Turn.IdleIsKeptForTTL | internal/network/turn.go:345-377 | It is never expired while at most the TTL has passed. |
| Turn.UseRefreshes | internal/network/turn.go:125-130 | A repeated creation, a peer and traffic set the last activity to now, add the peer, and change nothing else. |
| Turn.OthersAreKept | internal/network/turn.go:90-209 | Operations that do not name an allocation or its user leave it as it is, but for cleanups and stops. |
| Turn.EndsExactly | internal/network/turn.go:90-178 | The effect of removal, of both kinds of stop and of a start, and that a stopped relay creates and removes nothing. |
| Turn.UsedIsKeptForTTL | internal/network/turn.go:345-377 | An allocation used at t survives every cleanup up to t plus the TTL. |
| Turn.UsedExpiresInTime | internal/network/turn.go:345-377 | With ideal ticks and no further use it is gone by t plus TTL plus one interval. |
| Turn.TURNRelay.RemoveAllocation | internal/network/turn.go:155-178 | Fails when stopped or unknown; otherwise ends exactly that allocation. |
| Turn.TURNRelay.RegisterPeer | internal/network/turn.go:192-209 | Adds the peer and refreshes the allocation, or fails for an unknown id. |
| Turn.TURNRelay.Stop | internal/network/turn.go:90-115 | Closes the relay and empties the table, keeping it when the socket cannot be closed. |
| Turn.TURNRelay.CreateAllocation | internal/network/turn.go:117-153 | Refuses when stopped; returns the user's allocation if there is one, with its last activity set to now; else creates one; keeps the invariant. |
| Turn.TURNRelay.CleanupExpired | internal/network/turn.go:359-377 | Removes exactly the allocations idle for more than the TTL. |
| Quota.StepCounts | internal/tunnel/service.go:70-115 | How each action moves a workspace's tunnels and creations in flight, exactly. |
| Quota.StepTotal | internal/tunnel/service.go:70-115 | Tunnels plus creations in flight grow only by a check that passes below the limit. |
| Quota.TotalBounded | internal/tunnel/service.go:70-115 | In every interleaving that total is at most limit - 1 + k, for at most k creations in flight. |
| Quota.QuotaBound | internal/tunnel/service.go:354-381 | Hence a workspace never holds more than limit - 1 + k tunnels, and at most the limit when creations are serial. |
| Quota.QuotaBoundIsReached | internal/tunnel/service.go:70-115 | For every limit and every k some run ends with exactly limit - 1 + k tunnels. |
| Quota.TunnelService.CheckQuota | internal/tunnel/service.go:354-381 | Passes if and only if the count is below the plan's limit, or below 25 when the plan gives none. |
| Quota.TunnelService.CreateTunnel | internal/tunnel/service.go:59-115 | Running alone: succeeds if and only if the request is complete, within quota and can be stored; no workspace is taken past its limit. |
| Quota.TunnelService.DeleteTunnel | internal/tunnel/service.go:230-253 | Removes exactly the tunnel, and reports an unknown id. |
| Topology.BeforeIff | internal/network/topology.go:66-71 | The order of addresses is decided by the first difference. |
| Topology.KeyIsSymmetric | internal/network/topology.go:66-71 | Both directions of a pair share one key. |
| Topology.JoinInjective | internal/network/topology.go:66-71 | A joined pair of separator-free addresses determines both. |
| Topology.KeyIsInjective | internal/network/topology.go:66-71 | Separator-free addresses share a key if and only if they are the same unordered pair. |
| Topology.KeyIsSharedIff | internal/network/topology.go:66-71 | For any addresses: another unordered pair has the same key if and only if the key can be divided, in order, at a separator other than the one put there. |
| Topology.KeysCollideWithSeparator | internal/network/topology.go:66-71 | Two different pairs with one key. |
| Topology.PlannedModeIs | internal/network/topology.go:83-92 | The mode planned for every pair of NAT types, with and without a hole punched and a TURN address. |
| Topology.DegradedIs | internal/network/topology.go:158-189 | One step down from each mode, and the failure count it leaves. |
| Topology.UpgradedIs | internal/network/topology.go:191-222 | One step up from each mode. |
| Topology.TickedIs | internal/network/topology.go:127-154 | A tick leaves a healthy route alone and takes one over five seconds or with three failures one step down; a relayed one has its failures counted. |
| Topology.ReachableModes | internal/network/topology.go:73-222 | Over all runs no route is DERP, and TURN occurs only with a TURN address. |
| Topology.StepMovesUpIff | internal/network/topology.go:73-222 | A step that keeps the route raises it if and only if it is an upgrade that finds a better mode or a store of a better plan; every other mode change goes down. |
| Topology.RouteOnlyDegrades | internal/network/topology.go:119-189 | With no such step a route only moves toward Relay, with at most two mode changes. |
| Topology.RouteRisesIff | internal/network/topology.go:73-222 | While a route exists its rank drops somewhere between two points if and only if one of those steps lies between them. |
| Topology.OverlappingPlanResetsRoute | internal/network/topology.go:73-117 | A concrete overlap of two plans in which a degraded route is put back to Direct. |
| Topology.TopologyPlanner.PlanRoute | internal/network/topology.go:73-117 | Returns the pair's stored route, planning it only if there is none. |
| Topology.TopologyPlanner.DegradeRoute | internal/network/topology.go:158-189 | Makes the degrade step on that route alone. |
| Topology.TopologyPlanner.UpgradeRoute | internal/network/topology.go:191-222 | Makes the upgrade step on that route alone. |
| Topology.TopologyPlanner.RemoveRoute | internal/network/topology.go:231-235 | Removes that route alone. |
| Topology.TopologyPlanner.MonitorTick | internal/network/topology.go:127-154 | Makes the tick step, in which the failure check sees the latency check's effect; stops without a route. |
| Topology.TickChangesModeOnce | internal/network/topology.go:127-154 | Although both checks may fire, one tick takes at most one step down. |

## Left out

- Transport errors, write failures, deadlines and context cancellation inside the forwarding loops; streams are reliable byte sequences.
- The WebSocket fallback with JSON frames, and the relay's WebSocket server.
- Goroutine scheduling below the modelled steps: Register, Unregister, add, remove and each database statement are atomic.
- HMAC-SHA256, FNV, JSON and zstd as algorithms: they are arbitrary functions here, so unforgeability is not claimed.
- Compressed frames between relay and agent as one pipeline, since the agent writes payloads without looking at the compressed flag.
- Pump.PumpIdentity: covers data and control frames; the receiver treats ping and error frames as data, so they are not inserted.
- Stream multiplexer Forward, ForwardFrame, Receive and StreamCount, and byte counters: they add easy members only.
- Hub queue capacities, message delivery, LastPing updates and shutdown; what follows a timeout is a pair of events of the loop, without a method.
- STUN address text (ip.String, JoinHostPort), NAT type detection, sockets and time-outs.
- RelaySelection.Select: loads are non-negative and ratios exact, without float64 rounding; sort.Slice is any sorted permutation; a failing repository query is not modelled.
- RelaySelection.SelectAlternative: the same.
- HttpResponse.ResponseRoundTrip: the reason phrase is an input; panics of WriteHeader on codes outside 100..999 are not modelled.
- HTTP requests over the tunnel, traffic logging and the reverse proxy around the response codec.
- FeatureFlags.Manager.UpdateFlag: the method runs alone, and its interleavings are those of the overlapping machine; failing database calls and callers that keep pointers into the cache are not modelled.
- Turn.TURNRelay.CreateAllocation: allocations are values, so a caller's pointer to one is not modelled; traffic and Start appear as steps of the machine, without methods.
- TURN relay data wrapping, whose opcodes differ between writer and parser.
- Quota.TunnelService.CreateTunnel: tunnel fields other than the workspace, slug generation, relay choice and events.
- Tunnel life cycle, slugs, passwords, mesh addresses, SQL handlers, CLI, SDKs, web pages, configuration, logging and metrics.
