# Verified model of the ESP32 platform adapters

This project models the stateful parts of the ESP32 platform layer and proves their protocol, framing and counting
properties: the raw 802.11 packet radio, the DNS server, the WebSocket endpoint and client, the HTTP response and server
registry, and the WiFi runtime. `dafny verify dfyconfig.toml` checks everything.

A component that changes state is a class with the source's fields and methods. Every method
either states its whole new state, keeping an invariant, or ties it to a pure step function; lemmas then speak about all runs
of those steps.

| module | component |
|---|---|
| `RadioTimestamp`, `RadioFrame`, `RadioRing`, `Raw80211Radio` | the raw 802.11 radio: receive times, frames, the lock-free ring under every interleaving, the object |
| `DnsName`, `DnsResponse`, `DnsServer` | name decoding, the response buffer, acceptance of queries |
| `WebSocketFragments`, `WebSocketEndpoint`, `BindingRegistry` | message reassembly, connection tracking, bindings shared by endpoints and server |
| `HeaderText`, `ClientHeaders`, `ClientLifecycle`, `ClientChunks`, `ClientChunkLoss`, `ClientFragments`, `WebSocketClient` | the WebSocket client: handshake headers, the two-thread lifecycle, chunk reassembly with and without losses, fragmented messages, the object |
| `HttpReader`, `HttpStatusText`, `HttpResponse` | how a client reads a response; the statuses and their texts; header block, body and declared length of the response object |
| `WiFiBackoff`, `WiFiStations`, `WiFiRuntime`, `WiFiCalls`, `WiFiPlatform` | reconnect delays and deadlines, station events, the polled runtime, what its calls come to, the object |
| `Bytes`, `Modular`, `Sequences`, `Wrappers` | fixed-width integers and byte order, remainders, concatenation, result types |

Reading guide:

- Native calls, clocks and allocation appear as parameters (what the call answers) or, for the partial sends of the HTTP
  response, as a nondeterministic choice. Nothing is claimed about the native side beyond what a parameter says.
- The ring treats every index load, every field store into a slot, every view and every index store as one atomic step of
  its thread, within one started period.
- The client treats every section under its mutex as one step, and native stop and destroy as steps of their own. Native
  events may arrive at any time, even where the native library would not send them, so the lemmas assume nothing about its
  scheduling. A decision is what a section decides to tell an attached sink.
- The WiFi runtime is one machine whose steps are the public calls. Revision counts without wrap.

Where a promise fails in a corner, the project states exactly when it holds:

- An answer repeats the query name exactly when the name used at most 7 of the 8 jumps, provided the name reads only bytes
  that a response repeats: the ID, the question count and the question. Three accepted queries whose answers have another
  owner show that neither condition can be dropped: one takes 8 jumps, one points at a header byte that the response
  overwrites, one points behind the question (`DnsResponse`).
- The name given to the dispatcher splits at its dots into the labels of the query exactly when no label has a dot in it;
  `1 'a' 1 'b' 0` and `3 'a.b' 0` are both accepted and give the same text (`DnsName`, `DnsServer`).
- When a `Disconnect` finishes, a Connected is unmatched exactly when the call had seen no link and nobody had told the
  link's end before its last section. It is then matched exactly when the native side still reports the end before a
  `Connect` makes the next client (`ClientLifecycle`).
- The client fills chunks by offset without tracking gaps. A dispatched frame of several chunks is zeros overlaid by the
  chunk events since the last one at offset 0. When chunks are lost, a frame is dispatched intact exactly when its last
  chunk arrives and the bytes of the lost ones are already there: zeros if its first chunk arrives, otherwise what an
  earlier unfinished frame of the same opcode and length left, which can also mix two frames (`ClientChunkLoss`).
- A message that arrives at the client in fragments is dispatched as its first fragment alone, although the code drops the
  other fragments so as not to deliver corrupted messages. So messages arrive as they were sent exactly when all their
  other fragments are empty (`ClientFragments`).
- From a completed response with a declared length and no failed send, a client reads the status, the fields with their
  values trimmed, and as body exactly the writes (none for HEAD), and leaves what follows for the next response, exactly
  when the text can be read and the body rule of section 6.3 of RFC 9112 gives it the writes. The text can be read when
  names and values contain no CR LF, and names no colon and no blank at either end; a client that refuses what section 5 of
  RFC 9110 calls invalid needs names that are tokens and values free of CR, LF and NUL. The body rule gives the writes for
  HEAD, for a status without body (to CONNECT also any 2xx) only if nothing was written, and otherwise below 2^32 bytes,
  because the count of written bytes has 32 bits. Values come back identical exactly when they have no blank at either end.
  `SetHeader` checks none of this: a name such as `Content-Length:9` reads as a second Content-Length. `Write` does not
  check the status: a body written with 100, 101, 204 or 304 stays on the connection where the next response should
  start. All this is about one particular client, as RFC 9112 leaves some choices open: it ends lines at CR LF only, drops
  blanks before a colon, and refuses lines that start with a blank (`HttpReader`, `HttpStatusText`, `HttpResponse`).
- Reconnecting tries once and does not back off. In every run whose polls see one link, every deadline is the initial delay
  away and the attempt limit never fails the client; after the attempt the runtime waits for the link to come up by itself.
  Attempts are counted further, and delays grow, only by polls whose first look misses a link that their refresh sees
  (`WiFiRuntime`).
- A reconnect delay above 2^31 milliseconds counts as due at once, and a deadline that wraps to 0 is never due
  (`WiFiBackoff`, `WiFiRuntime`).
- `Disable`, and `Apply` with a mode without radio, restart Revision at 1. A run has faithful revisions exactly when each
  such reset meets revision 0 or the very state it resets to (`WiFiRuntime`).
- The station events of a poll alternate exactly when no joining station is listed twice and no leaving station was known
  twice (`WiFiStations`).
- When the access point goes down, its stations are forgotten without a Disconnected event. Over a run their events
  alternate exactly when none of the forgotten stations is ever listed again; until then they stay connected for a listener
  (`WiFiRuntime`).

## Model

| member | source | states |
|---|---|---|
| `RadioTimestamp.RecoverReceiveTimestampNanoseconds` | src/ESPressio_Raw80211Radio.hpp:106-123 | the result is the true receive time, in nanoseconds, of every instant the clock can tell apart, with 64-bit wrap-around of the arithmetic included |
| `RadioTimestamp.RecoveredExactly` | src/ESPressio_Raw80211Radio.hpp:108-120 | recovery from the low 32 bits is exact if and only if the instant is closer than half a wrap to the clock (or exactly half a wrap away in the same epoch) |
| `RadioTimestamp.UnderflowOnlyWithoutInstant` | src/ESPressio_Raw80211Radio.hpp:113-114 | the subtraction underflows exactly in the first epoch with a timestamp more than half a wrap ahead, when no recoverable instant has that timestamp |
| `RadioTimestamp.OrderPreserved` | src/ESPressio_Raw80211Radio.hpp:106-123 | two frames keep their order whatever clock each callback reads, across a wrap |
| `RadioFrame.IsBroadcastMac` | src/ESPressio_Raw80211Radio.hpp:92-98 | true exactly for the all-ones address |
| `RadioFrame.ParsedIffCarried` | src/ESPressio_Raw80211Radio.hpp:84-90 | exactly the packets that a frame carries in its fields, for this node and within the payload limit, are taken from it |
| `RadioFrame.BuiltCarries` | src/ESPressio_Raw80211Radio.hpp:274-284 | a built frame carries its packet whatever duration, sequence control and trailing bytes the driver adds |
| `RadioFrame.RoundTrip` | src/ESPressio_Raw80211Radio.hpp:135-167 | parsing a frame built by Send gives source, destination and payload back at its destination or for broadcast, and nothing at any other node |
| `RadioFrame.AcceptedIsBuilt` | src/ESPressio_Raw80211Radio.hpp:138-152 | conversely every accepted frame is, up to the free header fields, the frame Send builds for its packet |
| `RadioRing.RunKeepsInvariant` | src/ESPressio_Raw80211Radio.hpp:154-168 | every interleaving of index loads, slot stores and index stores of callback and drain keeps the ring invariant, for depths 2 to 255 |
| `RadioRing.InOrderWithoutLoss` | src/ESPressio_Raw80211Radio.hpp:305-320 | in every interleaving the viewed packets are a prefix of the accepted ones, the rest is queued in order, at most depth - 1 are pending, and with a receiver attached all viewed packets are handed over |
| `RadioRing.ViewIsStable` | src/ESPressio_Raw80211Radio.hpp:309-318 | while the receiver holds a view no step of either thread changes that slot, and the view is the accepted packet |
| `RadioRing.RefusedOnlyWhenFull` | src/ESPressio_Raw80211Radio.hpp:154-171 | a frame is refused exactly when depth - 1 packets are queued, a drain ends exactly when none is, and with a work signal set throughout, packets waiting with both threads idle have raised it |
| `RadioRing.FrameAcceptedUnlessFull` | src/ESPressio_Raw80211Radio.hpp:154-168 | in every reachable world, a frame that the idle callback receives is refused exactly when depth - 1 packets are queued at the move that looks for room, and otherwise the following moves, with any drain moves in between, accept exactly this packet |
| `RadioRing.DrainTakesOldest` | src/ESPressio_Raw80211Radio.hpp:305-320 | in every reachable world, a drain that looks for a packet ends exactly when none is queued, and otherwise its following moves, with any callback moves in between, take exactly the oldest queued packet and release it |
| `RadioRing.DrainStarts` | src/ESPressio_Raw80211Radio.hpp:168-171 | a drain that is not under way starts with its next move, and the signal is up from being raised to the next start of a drain |
| `RadioRing.WaitingWorkIsSignalled` | src/ESPressio_Raw80211Radio.hpp:168-171 | with a work signal set throughout, unread packets always have a drain under way, the signal raised since the last drain began, or the callback about to raise it |
| `RadioRing.HandedIsTaken` | src/ESPressio_Raw80211Radio.hpp:318 | with a receiver always attached, the packets handed over are the packets viewed |
| `RadioRing.QueuedIsUnreleased` | src/ESPressio_Raw80211Radio.hpp:307-308 | the packets between the indices are the accepted ones not yet released, in order |
| `Raw80211Radio.Raw80211Radio.Send` | src/ESPressio_Raw80211Radio.hpp:260-297 | each refusal and each driver result, and that exactly the built frame reaches the driver |
| `Raw80211Radio.Raw80211Radio.ArrivalCarried` | src/ESPressio_Raw80211Radio.hpp:135-167 | the packet queued for a frame is the one the frame carries for this node, with its signal strength and its true receive time wherever that can be recovered; there is none exactly when the frame carries none for this node |
| `Raw80211Radio.Raw80211Radio.PromiscuousReceive` | src/ESPressio_Raw80211Radio.hpp:125-172 | the queue grows by exactly the packet parsed from the frame, with its recovered timestamp, when there is room, and is unchanged otherwise |
| `Raw80211Radio.Raw80211Radio.DrainInbound` | src/ESPressio_Raw80211Radio.hpp:305-321 | hands over everything queued, in order, and leaves the queue empty |
| `Raw80211Radio.BuildFrame` | src/ESPressio_Raw80211Radio.hpp:274-284 | the field-by-field fill gives the frame of the format specification |
| `DnsName.DecodeDnsName` | src/ESPressio_DnsServerPlatform.hpp:61-110 | terminates on every packet, succeeds exactly when the recursive reading of section 4.1.4 of RFC 1035 gives a text of at most 253 bytes, and returns that text and the end of the in-place encoding |
| `DnsName.DecodesIffChain` | src/ESPressio_DnsServerPlatform.hpp:75-109 | a name decodes within a jump budget if and only if a finite chain of in-range offsets with at most that many pointers and labels of 1 to 63 bytes reaches a root byte |
| `DnsName.BudgetMonotone` | src/ESPressio_DnsServerPlatform.hpp:83 | a larger jump budget never changes a decoded name |
| `DnsName.UncompressedRoundTrip` | src/ESPressio_DnsServerPlatform.hpp:95-107 | every legal label list, encoded without compression anywhere in a packet, decodes to itself and ends where its encoding ends |
| `DnsName.CompressedRoundTrip` | src/ESPressio_DnsServerPlatform.hpp:82-93 | labels closed by a pointer decode to those labels followed by the name pointed at, and end behind the pointer |
| `DnsName.NameSurvives` | src/ESPressio_DnsServerPlatform.hpp:75-109 | a packet that agrees on the bytes a name reads holds the same name, for every jump budget |
| `DnsName.PrefixNoLonger` | src/ESPressio_DnsServerPlatform.hpp:99-103 | checking the text length after each label refuses exactly the names whose whole text is too long |
| `DnsName.DottedSplitsIff` | src/ESPressio_DnsServerPlatform.hpp:97-107 | splitting the text at byte 0x2E returns the labels if and only if no label has that byte in it |
| `DnsName.DotInLabel` | src/ESPressio_DnsServerPlatform.hpp:97-107 | the labels "a", "b" and the label "a.b" give the same text |
| `DnsName.TextSplitsIff` | src/ESPressio_DnsServerPlatform.hpp:61-110 | the text of every name that decodes, compressed or not, splits into its labels under that same condition |
| `DnsResponse.ESP32DnsResponsePlatform.constructor` | src/ESPressio_DnsServerPlatform.hpp:146-177 | when it is valid, and that it then holds the answered header and the unchanged question |
| `DnsResponse.ESP32DnsResponsePlatform.SetResponseCode` | src/ESPressio_DnsServerPlatform.hpp:181-187 | the buffer and result of one call, tied to the call semantics the run lemmas are about |
| `DnsResponse.ESP32DnsResponsePlatform.AddAddressAnswer` | src/ESPressio_DnsServerPlatform.hpp:189-225 | the buffer, count and result of one call, filled in place, tied to the same call semantics |
| `DnsResponse.ESP32DnsResponsePlatform.Complete` | src/ESPressio_DnsServerPlatform.hpp:227-245 | sends exactly the buffer and completes, or reports the failure and stays open |
| `DnsResponse.ESP32DnsResponsePlatform.Abort` | src/ESPressio_DnsServerPlatform.hpp:247 | completes the response without sending |
| `DnsResponse.BuildsMessage` | src/ESPressio_DnsServerPlatform.hpp:146-225 | after any calls the buffer is at most 512 bytes and is the header with the last response code, the question and exactly the successfully added answers |
| `DnsResponse.BuiltMessageReadsBack` | src/ESPressio_DnsServerPlatform.hpp:189-225 | after any calls, parsing ANCOUNT records (section 4.1.3 of RFC 1035) from the end of the question returns the added addresses and TTLs in order |
| `DnsResponse.RecordsAreHosts` | src/ESPressio_DnsServerPlatform.hpp:208-220 | each record read back is of class 1 and holds the added address, with type 1 and 4 bytes or type 28 and 16 bytes, and its TTL |
| `DnsResponse.WhenCallsSucceed` | src/ESPressio_DnsServerPlatform.hpp:181-247 | after any calls: which call succeeds, how each other one fails, and that a sent or aborted response never changes |
| `DnsResponse.HeaderAnswersQuery` | src/ESPressio_DnsServerPlatform.hpp:168-186 | after any calls the header has the query's ID, opcode and RD, QR and AA set, TC, RA and the reserved bits clear, one question, no authority or additional records, the last response code, and the question bytes unchanged |
| `DnsResponse.OwnerRepeatsQueryName` | src/ESPressio_DnsServerPlatform.hpp:208-211 | for an accepted query whose name reads only bytes that a response repeats, an owner pointer decodes to the query name exactly when that name used at most 7 of the 8 jumps |
| `DnsResponse.AnswersOwnQueryName` | src/ESPressio_DnsServerPlatform.hpp:153-220 | for an accepted query whose name reads only the ID, the question count and the question, each answer repeats it if and only if it used at most 7 jumps |
| `DnsResponse.HeaderPointerChangesOwner` | src/ESPressio_DnsServerPlatform.hpp:168-176 | an accepted query for "a" that points at a header byte the response overwrites is answered for the root name |
| `DnsResponse.TailPointerLosesOwner` | src/ESPressio_DnsServerPlatform.hpp:160-166 | an accepted query for "a" that points behind the question, which no response keeps, gets an answer whose owner is a pointer cycle and does not decode |
| `DnsResponse.EightJumpsLoseOwner` | src/ESPressio_DnsServerPlatform.hpp:83-93 | an accepted query whose name takes all eight jumps gets an answer that does not repeat it |
| `DnsResponse.QueryRepeated` | src/ESPressio_DnsServerPlatform.hpp:166-176 | after any calls the response agrees with the query on ID, question count and question |
| `DnsServer.ESP32DnsServerPlatform.ReceivePacket` | src/ESPressio_DnsServerPlatform.hpp:403-486 | which datagrams are dropped, which get the twelve-byte format error, and which question and initial response the rest dispatches |
| `DnsServer.AcceptedQuestionFits` | src/ESPressio_DnsServerPlatform.hpp:445-469 | an accepted question ends inside the datagram behind its header and its name has at most 253 bytes |
| `DnsServer.AcceptedIff` | src/ESPressio_DnsServerPlatform.hpp:432-469 | a datagram is accepted if and only if QR is clear, it has one question, its name chain reaches a root byte over at most 8 pointers with a text of at most 253 bytes, and type and class follow |
| `DnsServer.FormatErrorReads` | src/ESPressio_DnsServerPlatform.hpp:379-401 | the error reply has the query's ID, QR and AA, opcode 0, all other flags clear, RCODE 1 and no records |
| `DnsServer.UncompressedQueryAccepted` | src/ESPressio_DnsServerPlatform.hpp:445-470 | every query with one uncompressed legal name of at most 253 bytes is accepted with exactly that name, type and class, and the name splits at its dots into the labels if and only if no label has a dot |
| `DnsServer.UncompressedQueryAnswered` | src/ESPressio_DnsServerPlatform.hpp:208-220 | every answer to such a query, after any calls, is owned by that name |
| `DnsServer.OtherOwnersAreAccepted` | src/ESPressio_DnsServerPlatform.hpp:445-469 | the three queries whose answers have another owner pass the server's validation |
| `WebSocketFragments.ESP32WebSocketConnection.AccumulateFragment` | src/ESPressio_WebSocketEndpointPlatform.hpp:206-261 | the assembly state and outcome of one frame, tied to the step the run lemmas are about |
| `WebSocketFragments.ESP32WebSocketConnection.RememberPeerClose` | src/ESPressio_WebSocketEndpointPlatform.hpp:192-204 | closes the connection and keeps the peer's code, 1000 if absent, and reason |
| `WebSocketFragments.ESP32WebSocketConnection.Close` | src/ESPressio_WebSocketEndpointPlatform.hpp:134-178 | the first close sets code and reason, later ones change nothing |
| `WebSocketFragments.ESP32WebSocketConnection.HandleFrame` | src/ESPressio_WebSocketEndpointPlatform.hpp:595-746 | what one frame does to assembly, deliveries, errors, pongs and close state |
| `WebSocketFragments.AlwaysBounded` | src/ESPressio_WebSocketEndpointPlatform.hpp:228-251 | on arbitrary frames the buffer and every delivered message stay within the maximum, and the buffer is empty whenever no message is open |
| `WebSocketFragments.ControlIsTransparent` | src/ESPressio_WebSocketEndpointPlatform.hpp:635-672 | control frames, wherever interleaved, do not affect messages |
| `WebSocketFragments.FragmentationIsTransparent` | src/ESPressio_WebSocketEndpointPlatform.hpp:206-261 | any cutting of messages into frames with control frames interleaved delivers exactly the messages, whole and in order (section 5.4 of RFC 6455) |
| `WebSocketFragments.SameAsUnfragmented` | src/ESPressio_WebSocketEndpointPlatform.hpp:218-227 | a message cut in any way is delivered as its single unfragmented frame would be |
| `WebSocketFragments.PingsAnswered` | src/ESPressio_WebSocketEndpointPlatform.hpp:635-642 | every ping is answered with its payload, in order |
| `WebSocketFragments.DeliveredWasSent` | src/ESPressio_WebSocketEndpointPlatform.hpp:206-261 | conversely, frames that cause no error are exactly the frames of the delivered messages followed by those of the message still open |
| `WebSocketFragments.RefusalCodes` | src/ESPressio_WebSocketEndpointPlatform.hpp:206-261 | which frames are refused, which of them with 1009 and which with 1002, and that only a continuation of a message grown too large changes the assembly |
| `WebSocketFragments.RefusalCloses` | src/ESPressio_WebSocketEndpointPlatform.hpp:595-746 | a refusal closes an open connection with its code and text and changes nothing of a closed one |
| `WebSocketFragments.PeerCloseRemembered` | src/ESPressio_WebSocketEndpointPlatform.hpp:192-204 | a close frame is remembered with the code and reason that the peer put into it |
| `WebSocketEndpoint.BindingState.Prepare` | src/ESPressio_WebSocketEndpointPlatform.hpp:457-466 | the path is taken only when it starts with a slash and the binding is inactive |
| `WebSocketEndpoint.BindingState.FindConnection` | src/ESPressio_WebSocketEndpointPlatform.hpp:872-883 | finds the first connection with the id, or none exists |
| `WebSocketEndpoint.BindingState.EnsureConnection` | src/ESPressio_WebSocketEndpointPlatform.hpp:787-852 | one new connection and one notification for an untracked socket, nothing for a tracked one or without memory |
| `WebSocketEndpoint.BindingState.HandleWebSocketRequest` | src/ESPressio_WebSocketEndpointPlatform.hpp:515-557 | the connection handling of upgrades and of first frames, tied to the step the run lemma is about |
| `WebSocketEndpoint.BindingState.OnHttpSessionClosed` | src/ESPressio_WebSocketEndpointPlatform.hpp:749-784 | the tracked connection is erased in place and exactly one Disconnected told; unknown sockets change nothing |
| `WebSocketEndpoint.NotificationsMatchConnections` | src/ESPressio_WebSocketEndpointPlatform.hpp:515-784 | over every sequence of HTTPD calls tracked ids are distinct, each socket's notifications alternate starting with Connected, and the tracked ids are exactly those with an unmatched Connected |
| `WebSocketEndpoint.StepKeepsMatched` | src/ESPressio_WebSocketEndpointPlatform.hpp:749-852 | each single call keeps that correspondence |
| `WebSocketEndpoint.TrackedIffAdmitted` | src/ESPressio_WebSocketEndpointPlatform.hpp:515-852 | over every sequence of HTTPD calls, a session is tracked if and only if some request on it was admitted, with memory, since its last close |
| `WebSocketEndpoint.OneMoreCallTells` | src/ESPressio_WebSocketEndpointPlatform.hpp:515-852 | the close of a tracked session tells exactly one Disconnected, an admitted request on an untracked one exactly one Connected, any other call nothing |
| `BindingRegistry.ESP32HttpServerPlatform.AddWebSocketBinding` | src/ESPressio_HttpServerPlatform.hpp:546-566 | which bindings are refused, accepted silently or appended, decided by the first active binding that serves the path |
| `BindingRegistry.ESP32HttpServerPlatform.ReleaseWebSocketBinding` | src/ESPressio_HttpServerPlatform.hpp:568-582 | removes the binding and every inactive one unless the server runs |
| `BindingRegistry.ESP32HttpServerPlatform.Start` | src/ESPressio_HttpServerPlatform.hpp:585-688 | keeps the registry invariant: when it succeeds and how it fails; a successful start registers exactly the active bindings, which are then the list |
| `BindingRegistry.ESP32HttpServerPlatform.Stop` | src/ESPressio_HttpServerPlatform.hpp:690-717 | keeps the registry invariant: afterwards nothing is registered and only active bindings are listed |
| `BindingRegistry.ESP32WebSocketEndpointPlatform.Bind` | src/ESPressio_WebSocketEndpointPlatform.hpp:922-960 | keeps the registry invariant: every refusal, and otherwise the endpoint's binding is active and listed under a path no other active binding has |
| `BindingRegistry.ESP32WebSocketEndpointPlatform.Unbind` | src/ESPressio_WebSocketEndpointPlatform.hpp:962-987 | keeps the registry invariant: an active binding is given up for good and replaced by a fresh one |
| `BindingRegistry.ESP32WebSocketEndpointPlatform.Retire` | src/ESPressio_WebSocketEndpointPlatform.hpp:963-971 | the binding becomes inactive and is never used again |
| `BindingRegistry.KeptElements` | src/ESPressio_HttpServerPlatform.hpp:572-581 | erase-remove keeps exactly the other active bindings, still pairwise different |
| `BindingRegistry.PathsComparedWhole` | src/ESPressio_HttpServerPlatform.hpp:556-562 | paths without NUL are the same for the server if and only if they are equal |
| `HeaderText.HeaderNameEquals` | src/ESPressio_WebSocketClientPlatform.hpp:395-401 | equality up to ASCII capitals and small letters |
| `HeaderText.LowerIsSameButCase` | src/ESPressio_HttpServerPlatform.hpp:103-111 | two names have the same lower case if and only if they have the same length and at each index equal characters, or an ASCII capital and its small letter |
| `HeaderText.PrintedReadsBack` | src/ESPressio_WebSocketClientPlatform.hpp:511-518 | reading printed fields line by line returns exactly those fields |
| `HeaderText.ReadIsReadable` | src/ESPressio_WebSocketClientPlatform.hpp:511-518 | whatever the line-by-line reader returns has no CR LF in it and no ": " in a name |
| `ClientHeaders.IsReservedHandshakeHeader` | src/ESPressio_WebSocketClientPlatform.hpp:403-410 | true exactly for the six reserved names, ignoring case |
| `ClientHeaders.ReservedInAnyCase` | src/ESPressio_WebSocketClientPlatform.hpp:403-410 | exactly the six names, in any casing, are reserved |
| `ClientHeaders.ReservedNamesRefused` | src/ESPressio_WebSocketClientPlatform.hpp:412-419 | no list that holds one of them is accepted |
| `ClientHeaders.HeaderIsSafe` | src/ESPressio_WebSocketClientPlatform.hpp:412-419 | true exactly for nonempty unreserved names of visible characters without colon, with values free of CR and LF |
| `ClientHeaders.BuildNativeHeaders` | src/ESPressio_WebSocketClientPlatform.hpp:493-521 | succeeds exactly when at most 64 headers are all safe and fit the byte budget, and then prints them; otherwise the error is that of the first header that is unsafe or passes the budget |
| `ClientHeaders.AcceptedBlockReadsBack` | src/ESPressio_WebSocketClientPlatform.hpp:493-521 | an accepted block reads back line by line as exactly the supplied headers, none reserved |
| `ClientHeaders.DistinctListsPrintApart` | src/ESPressio_WebSocketClientPlatform.hpp:493-521 | distinct acceptable lists never print alike |
| `ClientLifecycle.RunKeepsInvariant` | src/ESPressio_WebSocketClientPlatform.hpp:159-345 | in every interleaving of both threads at most one Disconnect is under way and one native client live, each handle ever made is either that client or was destroyed exactly once, and every Disconnected directly follows a Connected of the same start |
| `ClientLifecycle.FinishMatchesIff` | src/ESPressio_WebSocketClientPlatform.hpp:314-331 | a finished Disconnect leaves no client and no live handle, and every Connected matched if and only if it had seen the link connected or the end had been told already |
| `ClientLifecycle.ConnectedDisconnectIsMatched` | src/ESPressio_WebSocketClientPlatform.hpp:286-331 | a Disconnect that saw the link connected ends with a Disconnected as last decision, with its own reason when it decides itself |
| `ClientLifecycle.LateConnectedOutlivesDisconnect` | src/ESPressio_WebSocketClientPlatform.hpp:286-331 | a run in which the link comes up after Disconnect looked and whose end nobody tells leaves the Connected unmatched when the call has finished |
| `ClientLifecycle.DisconnectedMatches` | src/ESPressio_WebSocketClientPlatform.hpp:642-672 | whenever the end of a link is handled, during a Disconnect or after it, it matches the open Connected with exactly one Disconnected, and tells nothing if none is open |
| `ClientLifecycle.EndIsToldWithReason` | src/ESPressio_WebSocketClientPlatform.hpp:642-663 | over every run: a lost link is told with 1006 "connection lost", a clean end with what the peer said last since the Connected unless that was 1000 without text, otherwise with what the application said last since the start, or 1000 without text |
| `ClientLifecycle.UnmatchedUntilDisconnected` | src/ESPressio_WebSocketClientPlatform.hpp:642-672 | a Connected left unmatched without a client is matched exactly when the native side still reports the end before the next client is made |
| `ClientLifecycle.NothingConnectsWithoutConnect` | src/ESPressio_WebSocketClientPlatform.hpp:625-640 | once no client is left, no Connected is decided until the next Connect starts one |
| `ClientLifecycle.StepKeepsHandles` | src/ESPressio_WebSocketClientPlatform.hpp:159-332 | each section and each native step keeps the ownership of handles |
| `ClientLifecycle.StepKeepsDecisions` | src/ESPressio_WebSocketClientPlatform.hpp:315-672 | each section keeps the pairing of decisions |
| `ClientLifecycle.DisconnectBeginsIff` | src/ESPressio_WebSocketClientPlatform.hpp:277-291 | over every run a Disconnect gets under way if and only if there is a client, no other call is under way, and it is not called on the thread of the first event since the client was started |
| `ClientLifecycle.ConnectStartsIff` | src/ESPressio_WebSocketClientPlatform.hpp:159-272 | over every run a Connect starts a client if and only if there is none and every native step succeeds; a client initialised but not started is destroyed |
| `WebSocketClient.ESP32WebSocketClientPlatform.Connect` | src/ESPressio_WebSocketClientPlatform.hpp:159-272 | each way to fail and to start, with the new state of object and handles in every case |
| `WebSocketClient.ESP32WebSocketClientPlatform.Launch` | src/ESPressio_WebSocketClientPlatform.hpp:247-271 | the fields are reset before the native start, and client and connection taken back when it fails |
| `WebSocketClient.ESP32WebSocketClientPlatform.BeginDisconnect` | src/ESPressio_WebSocketClientPlatform.hpp:277-291 | the refusals, and what the first section records and returns |
| `WebSocketClient.ESP32WebSocketClientPlatform.FinishDisconnect` | src/ESPressio_WebSocketClientPlatform.hpp:314-331 | the new state, and that the sink is told exactly when the link was seen connected and nobody told its end |
| `WebSocketClient.ESP32WebSocketClientPlatform.Disconnect` | src/ESPressio_WebSocketClientPlatform.hpp:274-345 | the refusals and the status of a call that no native event interrupts, which ends without client, connection or frame and tells the sink exactly when the link was connected |
| `WebSocketClient.ESP32WebSocketClientPlatform.DropConnection` | src/ESPressio_WebSocketClientPlatform.hpp:357-364 | the connection object is dropped, all else kept |
| `WebSocketClient.ESP32WebSocketClientPlatform.RememberEventTask` | src/ESPressio_WebSocketClientPlatform.hpp:601-604 | the first event task is remembered |
| `WebSocketClient.ESP32WebSocketClientPlatform.HandleConnected` | src/ESPressio_WebSocketClientPlatform.hpp:625-640 | the new state and decision, nothing without client or connection |
| `WebSocketClient.ESP32WebSocketClientPlatform.HandleDisconnected` | src/ESPressio_WebSocketClientPlatform.hpp:642-672 | the new state and, once per link, the decision with the peer's, the requested or the abnormal reason |
| `WebSocketClient.ESP32WebSocketClientPlatform.RememberPeerClose` | src/ESPressio_WebSocketClientPlatform.hpp:768-780 | code and reason of the peer's close payload, 1000 and empty by default |
| `WebSocketClient.PeerReasonReads` | src/ESPressio_WebSocketClientPlatform.hpp:768-780 | the close payload of any code and text reads as that code and text, and one without code as 1000 |
| `WebSocketClient.ESP32WebSocketClientPlatform.FillIncoming` | src/ESPressio_WebSocketClientPlatform.hpp:707-735 | the frame being filled and the completed frame after one chunk |
| `WebSocketClient.ESP32WebSocketClientPlatform.HandleData` | src/ESPressio_WebSocketClientPlatform.hpp:674-743 | the reception after one event, tied to the step the run lemmas are about; a completed close is remembered |
| `WebSocketClient.ESP32WebSocketClientPlatform.DispatchPayload` | src/ESPressio_WebSocketClientPlatform.hpp:745-766 | dispatches only while connected |
| `WebSocketClient.ESP32WebSocketClientPlatform.Connection` | src/ESPressio_WebSocketClientPlatform.hpp:352-355 | a connection handed out is open |
| `ClientChunks.CompletesAsBegun` | src/ESPressio_WebSocketClientPlatform.hpp:707-735 | a frame completes with the opcode and length its first chunk declared, within the maximum, and only a first chunk sets them |
| `ClientChunks.AlwaysBounded` | src/ESPressio_WebSocketClientPlatform.hpp:674-734 | on arbitrary events the frame being filled and every dispatched message stay within the maximum |
| `ClientChunks.CutArrives` | src/ESPressio_WebSocketClientPlatform.hpp:695-743 | the in-order chunks of one frame dispatch it once, with its opcode and bytes, whatever was being filled before |
| `ClientChunks.AsidesAreTransparent` | src/ESPressio_WebSocketClientPlatform.hpp:678-701 | pings, pongs, continuations, out-of-range events and whole frames of other opcodes change nothing that is filled or dispatched |
| `ClientChunks.AsideOpcodes` | src/ESPressio_WebSocketClientPlatform.hpp:675-691 | pings, pongs, continuations and events outside a message of at most 65536 bytes are among the events that change nothing |
| `ClientChunks.ChunkingIsTransparent` | src/ESPressio_WebSocketClientPlatform.hpp:674-743 | every split of text and binary frames with such events in between dispatches exactly the original frames, in order |
| `ClientFragments.ContinuationsArrive` | src/ESPressio_WebSocketClientPlatform.hpp:684-691 | continuation frames, however they are cut, change nothing that is filled or dispatched |
| `ClientFragments.FragmentsIntactIff` | src/ESPressio_WebSocketClientPlatform.hpp:684-743 | messages in fragments, with pings and other events without effect in between, are dispatched once each, in order, as their first fragments alone; they arrive as sent if and only if all other fragments are empty (section 5.4 of RFC 6455) |
| `ClientChunkLoss.DispatchesOverlays` | src/ESPressio_WebSocketClientPlatform.hpp:674-743 | for arbitrary events, the frame being filled is zeros overlaid by the chunk events that belong to it, and every dispatched message is a whole frame's payload or such a completed overlay |
| `ClientChunkLoss.SinceIsTail` | src/ESPressio_WebSocketClientPlatform.hpp:711-721 | the events of a frame being filled are all chunk events from the last one at offset 0 on |
| `ClientChunkLoss.OverlayIntactIff` | src/ESPressio_WebSocketClientPlatform.hpp:722-728 | chunks of one frame in any order, with losses and repetitions, show that frame if and only if every byte none of them covers is zero |
| `ClientChunkLoss.TransmissionArrives` | src/ESPressio_WebSocketClientPlatform.hpp:709-743 | for every loss pattern and whatever was being filled: nothing happens, the filling is given up, or the arriving chunks are blended in and dispatched when the last one arrives |
| `ClientChunkLoss.IntactIff` | src/ESPressio_WebSocketClientPlatform.hpp:709-743 | a frame is dispatched intact if and only if its last chunk arrives and what it is filled into holds the lost bytes already |
| `ClientChunkLoss.AnyRunIntactIff` | src/ESPressio_WebSocketClientPlatform.hpp:709-743 | a run with any losses arrives intact if and only if every frame does in the state the frames before it leave |
| `ClientChunkLoss.LossyRun` | src/ESPressio_WebSocketClientPlatform.hpp:674-743 | a run that loses no first chunk dispatches exactly the frames whose last chunk arrives, in order, lost bytes zeroed |
| `ClientChunkLoss.RunIntactIff` | src/ESPressio_WebSocketClientPlatform.hpp:674-743 | such a run arrives intact if and only if it loses no last chunk and only zero bytes |
| `ClientChunkLoss.LostFirstChunkMixesFrames` | src/ESPressio_WebSocketClientPlatform.hpp:711-734 | without the end of one frame and the start of the next of the same opcode and length, the dispatched message is the front of one and the end of the other |
| `HttpStatusText.DecimalReadsBack` | src/ESPressio_HttpServerPlatform.hpp:453-465 | the printed length reads back as the number |
| `HttpStatusText.StatusCodeReads` | src/ESPressio_HttpServerPlatform.hpp:73-102 | the text of every status reads as the code that RFC 9110 or RFC 6585 registers for it |
| `HttpStatusText.StatusTextReads` | src/ESPressio_HttpServerPlatform.hpp:73-102 | the text of every status can be read by a client, strict or not |
| `HttpStatusText.BodilessStatuses` | src/ESPressio_HttpServerPlatform.hpp:73-102 | which statuses have responses without body (section 6.3 of RFC 9112) |
| `HttpReader.PrintedFieldsRead` | src/ESPressio_HttpServerPlatform.hpp:467-479 | printed fields are read as they are, values trimmed, whatever follows, if names are one line without colon and without blanks at their ends and values are one line, and for a strict client also tokens and clean text |
| `HttpReader.TrimKeeps` | src/ESPressio_HttpServerPlatform.hpp:310-333 | cutting blanks off a value does not change whether a client can read it |
| `HttpReader.BlockReadsIff` | src/ESPressio_HttpServerPlatform.hpp:445-482 | a client that splits field lines at the first colon and trims values (section 5 of RFC 9112), refusing invalid text or not, reads status and fields of a header block as sent, values trimmed, if and only if status and fields can be read; it then reads up to the end of the block exactly |
| `HttpReader.ReadFieldsYieldsReadable` | src/ESPressio_HttpServerPlatform.hpp:475-479 | every field such a client reads, from any text, meets that condition and has a trimmed value |
| `HttpReader.ColonEndsName` | src/ESPressio_HttpServerPlatform.hpp:475-479 | of a name with a colon in it the client reads what stands before the first one |
| `HttpResponse.FramesOneLength` | src/ESPressio_HttpServerPlatform.hpp:445-482 | of fields with distinct names that start with Content-Length a client takes exactly that one length, and no transfer coding |
| `HttpResponse.BlockFramesBody` | src/ESPressio_HttpServerPlatform.hpp:445-482 | the fields a client reads are first Content-Length equal to the declared length, no Transfer-Encoding, and names that all differ ignoring case; if the text can be read, of the bytes behind the block the client takes none for a bodiless response, otherwise as many as declared, leaving the rest, and waits if there are fewer (section 6.3 of RFC 9112) |
| `HttpResponse.FieldsCarry` | src/ESPressio_HttpServerPlatform.hpp:451-480 | under each name a client reads exactly: the declared length, the content type if there is one, Connection: close unless the connection is kept alive, and otherwise the headers that were set |
| `HttpResponse.LineBreakAddsField` | src/ESPressio_HttpServerPlatform.hpp:310-333 | a value with CR LF in it, under any name SetHeader takes, prints as the lines of two fields, the second of any name |
| `HttpResponse.ColonNameReadsAsAnother` | src/ESPressio_HttpServerPlatform.hpp:310-333 | SetHeader takes every name with a colon in it, and a client, strict or not, reads what stands before the first colon as the name, Content-Length included |
| `HttpResponse.WrappedCountPassesLength` | src/ESPressio_HttpServerPlatform.hpp:377-380 | a write passes the declared length exactly where the 32-bit sum wraps |
| `HttpResponse.WithHeaderKeepsDistinct` | src/ESPressio_HttpServerPlatform.hpp:320-331 | setting a header keeps the stored names distinct and unreserved |
| `HttpResponse.WithHeaderCarries` | src/ESPressio_HttpServerPlatform.hpp:320-331 | after setting a header its name has the new value and no other, and every other name keeps its value, place and spelling |
| `HttpResponse.FramingInAnyCase` | src/ESPressio_HttpServerPlatform.hpp:113-117 | exactly the three framing names, in any casing, are refused |
| `HttpResponse.ESP32HttpResponsePlatform.SetStatus` | src/ESPressio_HttpServerPlatform.hpp:304-308 | refused once begun, and otherwise the new status |
| `HttpResponse.ESP32HttpResponsePlatform.SetHeader` | src/ESPressio_HttpServerPlatform.hpp:310-333 | the refusals, and otherwise the header list with the value replaced in place or appended |
| `HttpResponse.ESP32HttpResponsePlatform.SendRaw` | src/ESPressio_HttpServerPlatform.hpp:430-443 | for every pattern of partial sends, success unless a native send fails; success puts exactly the data on the wire and failure a prefix of it |
| `HttpResponse.ESP32HttpResponsePlatform.SendKnownLengthHeaders` | src/ESPressio_HttpServerPlatform.hpp:445-482 | success puts exactly the header block on the wire |
| `HttpResponse.ESP32HttpResponsePlatform.BuildHeaderText` | src/ESPressio_HttpServerPlatform.hpp:446-481 | the text appended piece by piece is the header block of the declared fields |
| `HttpResponse.ESP32HttpResponsePlatform.Begin` | src/ESPressio_HttpServerPlatform.hpp:335-371 | keeps the invariant that a response with no failed send has on the wire its header block and its counted writes |
| `HttpResponse.ESP32HttpResponsePlatform.Write` | src/ESPressio_HttpServerPlatform.hpp:373-406 | keeps that invariant; refuses what would exceed the declared length and counts exactly the successful writes, none of which is sent for HEAD |
| `HttpResponse.ESP32HttpResponsePlatform.Complete` | src/ESPressio_HttpServerPlatform.hpp:408-425 | first succeeds only when the counted bytes equal the declared length |
| `HttpResponse.ESP32HttpResponsePlatform.Abort` | src/ESPressio_HttpServerPlatform.hpp:427 | completes the response and gives up the claim about the wire |
| `HttpResponse.CompletedResponseReadsBack` | src/ESPressio_HttpServerPlatform.hpp:335-482 | from a completed known-length response with no failed send, whatever the partial sends and whatever follows on the connection, a client strict or not reads the status, the trimmed fields, which frame the declared length, and exactly the writes (none for HEAD), leaving what follows, if and only if the text can be read and it is HEAD, or nothing was written with a bodiless status, or fewer than 2^32 bytes were written with another |
| `HttpResponse.IdenticalIffTrimmed` | src/ESPressio_HttpServerPlatform.hpp:475-479 | values come back identical if and only if none has a blank at either end |
| `HttpResponse.BodilessStatusLeavesBody` | src/ESPressio_HttpServerPlatform.hpp:304-425 | the writes to a completed response with status 100, 101, 204 or 304 are not read as its body but stay on the connection before what follows |
| `HttpResponse.RespondNoContentWithBody` | src/ESPressio_HttpServerPlatform.hpp:304-425 | the calls that lead there: status 204, five declared bytes, five written, completed; only a failed send can stop them |
| `WiFiBackoff.DelaysGrowWithinBounds` | src/ESPressio_WiFiPlatform.hpp:478-491 | as a function of the count, every delay lies between the initial and the maximum delay, the first is the initial one, and none is shorter than an earlier one |
| `WiFiBackoff.BackoffSaturates` | src/ESPressio_WiFiPlatform.hpp:479-491 | the delay for a count at which initial * (count - 1) * (multiplier - 1) covers the distance to the maximum is the maximum; NoBackoffInRuns and FlickersBackOff say which runs reach such counts |
| `WiFiBackoff.DeadlineKeptIff` | src/ESPressio_WiFiPlatform.hpp:346-348 | across clock wrap a deadline is reached for 2^31 milliseconds from its time on, and not before it if and only if the delay is at most 2^31 milliseconds |
| `WiFiRuntime.RevisionIdentifiesState` | src/ESPressio_WiFiPlatform.hpp:92-206 | over any run without a reset Revision never decreases and equal revisions mean equal states |
| `WiFiRuntime.StepAdvances` | src/ESPressio_WiFiPlatform.hpp:92-206 | every call except a reset leaves the state as it was or raises Revision |
| `WiFiRuntime.ResetAdvancesIff` | src/ESPressio_WiFiPlatform.hpp:80-90 | a reset restarts Revision at 1, so it stays faithful exactly when nothing was counted yet or the state was already the reset one |
| `WiFiRuntime.RunFaithfulIff` | src/ESPressio_WiFiPlatform.hpp:80-206 | any run, resets included, has faithful revisions if and only if each step advances the state |
| `WiFiRuntime.FaithfulUnlessReset` | src/ESPressio_WiFiPlatform.hpp:80-206 | that is, if and only if each reset in the run meets revision 0 or the state it resets to |
| `WiFiRuntime.NoBackoffInRuns` | src/ESPressio_WiFiPlatform.hpp:466-529 | in every run whose polls see one link, at most one attempt is counted, every deadline a poll sets is the initial delay away, and no poll fails the client, whatever multiplier and attempt limit |
| `WiFiRuntime.RunCountsOnce` | src/ESPressio_WiFiPlatform.hpp:92-206 | over such a run at most one attempt is counted, and none while the link is up or a first attempt runs |
| `WiFiRuntime.FlickersBackOff` | src/ESPressio_WiFiPlatform.hpp:466-529 | each poll that misses a link its refresh sees counts one more attempt, up to the limit, and sets the deadline by the delay for that count |
| `WiFiRuntime.FlickersSaturate` | src/ESPressio_WiFiPlatform.hpp:478-491 | enough such polls in a row set the deadline the maximum delay away |
| `WiFiRuntime.AttemptsWithinLimit` | src/ESPressio_WiFiPlatform.hpp:472-477 | over any run attempts never pass a nonzero limit |
| `WiFiRuntime.LostLinkSchedules` | src/ESPressio_WiFiPlatform.hpp:510-513 | a lost link counts one attempt and sets its deadline by the policy's delay, or fails at the limit |
| `WiFiRuntime.AttemptBeginsWhenDue` | src/ESPressio_WiFiPlatform.hpp:523-528 | a scheduled attempt begins at a poll if and only if its time has come and its wrapped deadline is not 0 |
| `WiFiRuntime.ManualDisconnectHolds` | src/ESPressio_WiFiPlatform.hpp:125-134 | after DisconnectClient no call begins an attempt until ConnectClient or Apply |
| `WiFiRuntime.WaitingLastsUntilLink` | src/ESPressio_WiFiPlatform.hpp:523-528 | reconnecting with deadline 0, after an attempt or by wrap, no poll begins another attempt or leaves the state until the link comes up |
| `WiFiStations.PollReplaysIff` | src/ESPressio_WiFiPlatform.hpp:642-663 | the events of one poll turn the known stations into the listed ones, alternating per station, if and only if no joining station is listed twice and no leaving station was known twice |
| `WiFiStations.PollReplaysFrom` | src/ESPressio_WiFiPlatform.hpp:642-663 | the same for a listener to whom more stations are connected: additionally no joining station may still be connected to it |
| `WiFiStations.RunReplays` | src/ESPressio_WiFiPlatform.hpp:633-664 | replaying the events of any run of polls with duplicate-free lists gives the stations of the last list, alternating per station |
| `WiFiRuntime.RunEventsReplay` | src/ESPressio_WiFiPlatform.hpp:633-664 | over any run of calls while the access point stays up, replaying the station events gives the stations known at last, alternating per station |
| `WiFiRuntime.RunAlternatesIff` | src/ESPressio_WiFiPlatform.hpp:158-170 | over any run of calls, the access point going down included, station events alternate if and only if no station forgotten when it went down is listed again; the listener has the known stations and the forgotten ones |
| `WiFiRuntime.StepKeepsPromises` | src/ESPressio_WiFiPlatform.hpp:92-206 | every call keeps the attempt limit, and keeps the state or raises Revision unless it resets |
| `WiFiCalls.ValidIff` | src/ESPressio_WiFiPlatform.hpp:311-335 | which configurations are valid, limit by limit |
| `WiFiCalls.AttemptsBeginIff` | src/ESPressio_WiFiPlatform.hpp:21-123 | exactly which calls begin an attempt, with its time, the count started over unless a poll begins it, and the state it leaves |
| `WiFiCalls.FirstAttemptEnds` | src/ESPressio_WiFiPlatform.hpp:498-529 | over clock wrap, a first attempt without a link runs on exactly until the native side gives up or the timeout is reached, and then the next one is scheduled, the limit fails it, or reconnecting is off |
| `WiFiCalls.LinkUpEndsReconnecting` | src/ESPressio_WiFiPlatform.hpp:498-507 | a poll that finds the link up leaves nothing counted and nothing scheduled |
| `WiFiCalls.ManualIffTakenOff` | src/ESPressio_WiFiPlatform.hpp:80-134 | over every run the client is off the network by choice exactly when the last call that decides it was DisconnectClient or Disable |
| `WiFiCalls.RunKeepsChoices` | src/ESPressio_WiFiPlatform.hpp:21-123 | over every run the configuration in force is the last valid one applied, and the network name is that of the last call that chose one |
| `WiFiCalls.ScanningIffAwaited` | src/ESPressio_WiFiPlatform.hpp:172-188 | over every run a scan is running exactly when one was started and no poll has seen its end and neither Apply nor Disable gave it up |
| `WiFiCalls.PollEndsScan` | src/ESPressio_WiFiPlatform.hpp:581-612 | a poll ends a running scan exactly when the native one has ended: complete for a count, failed for an error |
| `WiFiCalls.RefreshShowsView` | src/ESPressio_WiFiPlatform.hpp:531-579 | after a refresh the state shows the reported link, name, signal, address, attempts and access point |
| `WiFiCalls.RefreshSettles` | src/ESPressio_WiFiPlatform.hpp:570-579 | a refresh raises Revision by one exactly when it shows anything new, and a second one with the same view changes nothing |
| `WiFiCalls.ApplyStartsOver` | src/ESPressio_WiFiPlatform.hpp:21-78 | a valid configuration clears attempts, deadline, profile, manual mode and scan whether or not it gets through, and a mode without radio leaves nothing of the state before |
| `WiFiCalls.StationsKnown` | src/ESPressio_WiFiPlatform.hpp:80-206 | exactly which calls forget or replace the known stations |
| `WiFiPlatform.WiFiPlatform.BeginClient` | src/ESPressio_WiFiPlatform.hpp:451-464 | the new runtime, tied to the step the run lemmas are about |
| `WiFiPlatform.WiFiPlatform.BoundedDelay` | src/ESPressio_WiFiPlatform.hpp:479-491 | the computed delay is the policy's and lies within its bounds |
| `WiFiPlatform.WiFiPlatform.ScheduleReconnect` | src/ESPressio_WiFiPlatform.hpp:466-496 | the new runtime: disconnected, failed or one more attempt with its wrapped deadline |
| `WiFiPlatform.WiFiPlatform.PollReconnect` | src/ESPressio_WiFiPlatform.hpp:498-529 | the new runtime in each client state |
| `WiFiPlatform.WiFiPlatform.RefreshState` | src/ESPressio_WiFiPlatform.hpp:531-579 | the refreshed state with a higher revision if it counts as changed, the old state otherwise |
| `WiFiPlatform.WiFiPlatform.PollScan` | src/ESPressio_WiFiPlatform.hpp:581-612 | the scan outcome, once |
| `WiFiPlatform.WiFiPlatform.BuildStationEvents` | src/ESPressio_WiFiPlatform.hpp:633-664 | the loops yield the joins in list order and then the leaves, and the list becomes the known stations |
| `WiFiPlatform.WiFiPlatform.Poll` | src/ESPressio_WiFiPlatform.hpp:191-206 | one poll is reconnect, refresh, scan and station events in that order; it keeps the limit and the returned state is the old one or has a higher Revision |
| `WiFiPlatform.WiFiPlatform.Apply` | src/ESPressio_WiFiPlatform.hpp:21-78 | the new runtime and the status for every configuration and native answer |
| `WiFiPlatform.WiFiPlatform.Disable` | src/ESPressio_WiFiPlatform.hpp:80-90 | the reset runtime, or only the disconnect request when the native side refuses |
| `WiFiPlatform.WiFiPlatform.ConnectClient` | src/ESPressio_WiFiPlatform.hpp:92-104 | the new runtime and each status; success clears the manual disconnect and begins one attempt |
| `WiFiPlatform.WiFiPlatform.ConnectProfile` | src/ESPressio_WiFiPlatform.hpp:106-123 | the same for a given profile |
| `WiFiPlatform.WiFiPlatform.DisconnectClient` | src/ESPressio_WiFiPlatform.hpp:125-134 | unless not supported, reconnecting is off afterwards |
| `WiFiPlatform.WiFiPlatform.StartAccessPoint` | src/ESPressio_WiFiPlatform.hpp:136-156 | the new runtime and each status; success means active |
| `WiFiPlatform.WiFiPlatform.StopAccessPoint` | src/ESPressio_WiFiPlatform.hpp:158-170 | the new runtime and each status; success means disabled with no known station |
| `WiFiPlatform.WiFiPlatform.StartScan` | src/ESPressio_WiFiPlatform.hpp:172-188 | the new runtime and each status; refused without radio or while a scan runs |

## Left out

- System providers (execution, queues, synchronization, clock, entropy, GPIO, byte streams, memory counters), storage backends, and the TCP, TLS, MQTT and UDP transports: thin mappings of native calls, or code whose core lives in another repository.
- Native libraries (lwIP, `httpd_*`, `esp_websocket_*`, `esp_wifi_*`): only the answers the code branches on are modelled; no scheduling, TLS, DHCP or radio behaviour.
- Hardware memory ordering of the ring: steps are sequentially consistent.
- Start and stop of the radio, and `Stop`, `Reset` or destruction while a callback, drain, send or request is in flight: the code does not guard these.
- BindingRegistry.ESP32HttpServerPlatform.Start: each API call is atomic, so the window between setting and clearing `_starting` is not modelled, nor is `Stop` between clearing `_server` and `httpd_stop`.
- BindingRegistry.ESP32WebSocketEndpointPlatform.Unbind: closing the remaining connections and its result are not modelled; the registry is.
- DnsResponse.ESP32DnsResponsePlatform.constructor: a question end below 12 is required away; the source would write past its buffer there, and its one caller never passes one (`DnsServer.AcceptedQuestionFits`).
- WebSocketFragments.ESP32WebSocketConnection.Close: the queued native close frame is not modelled; the connection's own state is.
- WebSocketFragments.ESP32WebSocketConnection.HandleFrame: an attached sink and a successful native read of the payload are assumed; the echo of a peer close and the triggered session close are not modelled.
- WebSocketEndpoint.BindingState.Prepare: the subprotocol is not modelled.
- ClientLifecycle.RunKeepsInvariant: decisions are ordered as the mutex orders them; the calls into the sink happen after the mutex is released and are not ordered by the model. Connection ids and credentials are not modelled.
- WebSocketClient.ESP32WebSocketClientPlatform.Disconnect: this is the call that no native event interrupts; interleavings are the subject of `ClientLifecycle`.
- WebSocketClient.ESP32WebSocketClientPlatform.Connect: validation of policy, credentials and trust store is one parameter; native option fields are not modelled.
- HttpResponse.ESP32HttpResponsePlatform.Begin: in chunked mode the native status, type and header calls are one accepted-or-not parameter.
- Transfer codings and chunk sizes of responses without a declared length: the native server writes them; the modelled client reads none.
- HTTP request side (`ReadHeader`, `ReadBody`, path and query split) and request dispatch: one native call each, no state beyond a read counter.
- WiFiBackoff.DelaysGrowWithinBounds: delays are computed over exact reals; rounding of `pow` and NaN multipliers are not modelled.
- WiFiRuntime.RevisionIdentifiesState: Revision is unbounded; its wrap is not modelled.
- WiFiPlatform.WiFiPlatform.PollScan: the copied scan results are not modelled.
- WiFiPlatform.WiFiPlatform.Apply: hostname, addressing, transmit power, power saving and DHCP settings reach the native side only and are not modelled. Default-constructed sibling-library records are distinct constants here.
- IP address acquired and lost events, radio state snapshots, activity traces, statistics, status texts and close-reason texts sent to observers.
- Types of sibling libraries (`WebResult`, `RadioAddress`, `WiFiRuntimeState` and others): only the fields the code touches.
