# usb_ncm_net: EDHOC/OSCORE session, CoAP codec and LED server, verified

A Dafny model of the device firmware's security core and of the host tools that
talk to it, with proofs over whole runs.

| file | what it models |
|---|---|
| `EdhocSession.dfy` | the critical section of `edhoc_post` as one atomic step on the file-scope session state |
| `Responder.dfy` | the handlers themselves, on flags, contexts and key buffers updated in place |
| `Interleaving.dfy`, `ConcurrentHistory.dfy` | any number of concurrent `edhoc_post` calls, statement by statement, under the mutex; whole-run results for every interleaving |
| `Handlers.dfy`, `HandlerResults.dfy` | the device as a state machine over handler calls, and what each call returns |
| `DeviceHistory.dfy`, `ReplayWindow.dfy`, `NonceFreshness.dfy` | what all runs of the device satisfy |
| `Handshake.dfy`, `WireHandshake.dfy` | any number of client runs against the device over a lossy, duplicating, reordering network, of terms and of bytes |
| `Cbor.dfy`, `Framing.dfy`, `Identifiers.dfy`, `Credentials.dfy` | transport framing, one-byte identifiers, credentials by kid |
| `CoapMessage.dfy` | the reference: serialiser and parser of sections 3 and 3.1 of RFC 7252 |
| `CoapClient.dfy`, `CoapServer.dfy` | `build_request` and `parse_response`; the hello/led server |
| `Measurement.dfy` | the sampling loop of the latency probe |

libedhoc, uoscore and the Zephyr CoAP stack are foreign code. A call into
libedhoc or uoscore is a member of a record of arbitrary functions that every
handler call brings along, so the theorems hold for every answer, every random
choice and every failure of these libraries. What is required of them is stated
where it is used: buffers keep their sizes, `edhoc_setup` does not depend on the
old context memory, the replay window opens a Partial IV at most once per
context, and, for the handshake over a network only, EDHOC messages are bound to
their transcript. Zephyr's packet parser and path matching are taken to be those
of RFC 7252 with exact path comparison. What Zephyr's CoAP service answers on its
own account is open; which datagrams it passes to `app_request` is
`CoapServer.ReachesHandler`.

Where code and documentation differ, the model follows the code:

- the comment in `edhoc_post` about an empty reply to message_3
  (src/edhoc_oscore.c:436-437) is stale; message_4 is composed and sent;
- `edhoc_post` may report an error although the OSCORE context is up, because
  the reply is built afterwards (`NoRoom` in `EdhocReply`);
- `parse_onoff` looks at a prefix of the payload only, so "1x" and "offline" are
  accepted, too;
- `build_led_put` changes the LED before it finds out whether the response fits.

## Model

| member | source | states |
|---|---|---|
| EdhocSession.FrameKeepsInv | src/edhoc_oscore.c:439-494 | between handler calls a live OSCORE context excludes a pending handshake and the key buffers hold what it was initialised with; kept by every frame under every library behaviour |
| EdhocSession.FrameEffect | src/edhoc_oscore.c:441-492 | what a frame does to the two flags and when it is answered, from the POST's own library answers |
| EdhocSession.FreshContext | src/edhoc_oscore.c:304-345 | only a completing message_3 makes the session ready; the new context has the exported secret, salt and both identifiers at their exported lengths, an empty replay window and SSN 0, whatever was there before |
| EdhocSession.AnyFailureIsFatal | src/edhoc_oscore.c:441-492 | the failure of any single library call a frame needs leaves no reply, no pending handshake and no context; if none fails the frame is answered |
| Interleaving.RunOnMessage1 | src/edhoc_oscore.c:441-462 | the statements of the message_1 branch, run one by one, compute the atomic step |
| Interleaving.RunOnMessage3 | src/edhoc_oscore.c:463-492 | the statements of the message_3 branch including `derive_and_init_oscore`, run one by one, compute the atomic step |
| Interleaving.Serialisable | src/edhoc_oscore.c:388-528 | every interleaving of any number of calls gives the session state of the serial run in lock-acquisition order, also half-way through, and every call returns the packet or error of that run, the late error of reply building included |
| Interleaving.QuiescentSerialisable | src/edhoc_oscore.c:97-104 | once all calls have returned, each accepted POST occurs in that serial order exactly once and got its serial answer |
| Interleaving.Progress | src/edhoc_oscore.c:439-494 | no deadlock: while a call is unfinished some thread can step, and gets closer to its return |
| Interleaving.BothFlagsUp | src/edhoc_oscore.c:342-490 | under every schedule both flags are up iff the mutex holder stands between raising `oscore_ready` and clearing `edhoc_ctx_active` |
| ConcurrentHistory.ConcurrentIsSequential | src/edhoc_oscore.c:388-528 | whatever the interleaving, in every lock-free state the session is that of the sequential run of the handler machine in lock-acquisition order, and each returned call got the very return value of its step there |
| ConcurrentHistory.ConcurrentHistoryHolds | src/edhoc_oscore.c:97-104 | flag history, aliasing safety and context ledger in every lock-free state of every interleaving |
| Handshake.InitiatorAgreement | host_client/src/client.cpp:362-434 | a client run that completed message_4 has exactly one context initialisation on the device for its transcript, with equal secret and salt and mirrored IDs |
| Handshake.ResponderAgreement | src/edhoc_oscore.c:463-498 | every context initialised for a client run is for the one transcript that run committed to, and is the only one for that run |
| Handshake.LiveContextIsLatest | src/edhoc_oscore.c:320-342 | a ready device uses the keys of its latest initialisation, with Sender ID C_I behind the pointer |
| Handshake.SupersededNeverInstalls | docs/edhoc-oscore-plan.md:61-65 | once the device has moved past a transcript, no continuation ever initialises a context for it |
| Handshake.RetransmissionDerails | docs/edhoc-oscore-plan.md:61-65 | once the device handles any message_1, no client ever completes with a transcript opened before and not installed, whether it awaits message_2 or message_4 at that time |
| Handshake.CommittedClientDerails | docs/edhoc-oscore-plan.md:61-65 | in particular a client that awaits message_4 for such a transcript never completes at all |
| Handshake.HandshakeCompletes | host_client/src/client.cpp:13-15 | for every C_I, C_R and exporter there is a run that completes on both ends and delivers only what the two ends have sent |
| Handshake.ClientDecides | host_client/src/client.cpp:382-434 | over every run, two answers decide a client run one way or the other, and a decided run never changes |
| WireHandshake.SameReachableWorlds | src/edhoc_oscore.c:406-498 | for every faithful message encoding the worlds reachable over a network of framed payloads and response bodies are exactly the ones reachable over terms |
| WireHandshake.WireAgreement | host_client/src/client.cpp:362-434 | over bytes: a completed client run has exactly one mirrored context initialisation, a context for a client run is the only one and for its committed transcript, and a ready device uses its latest |
| WireHandshake.WireRetransmissionDerails | docs/edhoc-oscore-plan.md:61-65 | over bytes: any payload the device takes for a message_1 ends every transcript opened and not installed |
| WireHandshake.WireHandshakeCompletes | host_client/src/client.cpp:13-15 | some exchange of bytes completes on both ends |
| Handlers.RunKeepsInv | src/edhoc_oscore.c:83-93 | the session invariant, including the pointed-to Sender ID, after every sequence of handler calls |
| Handlers.ReplyReadBack | src/edhoc_oscore.c:507-527 | a 2.04 reply parses back to the request's token and id and the EDHOC message; building it fails iff header, token, marker and message exceed 256 bytes |
| Handlers.ErrorAfterSuccess | src/edhoc_oscore.c:494-527 | when the reply does not fit, the session has nevertheless taken the successful step |
| HandlerResults.EdhocResult | src/edhoc_oscore.c:406-527 | a payload without a frame is refused and changes nothing; any other POST gets -EBADMSG iff it fails, otherwise a 2.04 with its own id and token, or an error for want of room |
| HandlerResults.OscoreRejected | src/edhoc_oscore.c:543-565 | before the handshake, for other packets, on refusal and on replay: the respective error, no call and no change |
| HandlerResults.OscoreAnswered | src/edhoc_oscore.c:567-593 | a fresh request is answered by the seal, under the live keys and the nonce of the one protection made, of the serialised response to it; LED, calls, replay window and SSN follow |
| HandlerResults.ProtectedEndToEnd | src/edhoc_oscore.c:567-593 | a peer that can undo the seal reads what method, complete path, payload and LED demand |
| HandlerResults.PlainAnswered | src/coap_server.c:193-205 | a plain request is answered as method, path, payload and LED demand, and touches no session |
| HandlerResults.LedIsLastSet | src/coap_server.c:128-151 | over every run `led_state` is the value last written to the pin |
| DeviceHistory.AliasingSafety | src/edhoc_oscore.c:304-345 | while ready, the last call that touched keys or buffers was the initialisation of the live context, and the bytes it points at are the ones it was given |
| DeviceHistory.FlagsAreHistory | src/edhoc_oscore.c:406-494 | `edhoc_ctx_active` and `oscore_ready` are equivalent to properties of the events handled so far; nothing but successful message_1 and completing message_3 counts |
| DeviceHistory.ContextsMatchHandshakes | src/edhoc_oscore.c:441-492 | a handler call brings up an OSCORE context iff it completes a pending handshake, and message_1 and message_3 of the contexts correspond one to one |
| DeviceHistory.LiveContextUndisturbed | src/edhoc_oscore.c:463-466 | without a message_1, late or duplicated messages leave keys, buffers and pointer of a live context alone and forget no Partial IV |
| DeviceHistory.ContextLedger | src/edhoc_oscore.c:439-494 | at every point of every run successful setups minus deinits is 0 or 1, a deinit happens only at 1, and between handlers the balance is 1 iff active |
| DeviceHistory.LedFollowsRequests | src/edhoc_oscore.c:567-576 | plain and decrypted requests drive one register: the LED is the latest valid PUT among them, over every run |
| DeviceHistory.ProtectedLedChange | src/edhoc_oscore.c:553-576 | an LED change through `oscore_post` needs a completed handshake with no message_1 since, and an accepted, fresh, decrypted PUT |
| ReplayWindow.WindowIsHistory | src/edhoc_oscore.c:337-343 | over every run, while ready: the replay window is exactly the Partial IVs opened since the live context came up, and the SSN the number of own-nonce answers since then |
| ReplayWindow.ReplayExact | src/edhoc_oscore.c:553-565 | over every run, an opened packet is passed on iff its Partial IV was not opened since the live context came up; otherwise it is refused without effect |
| ReplayWindow.ReconnectAnswers | src/edhoc_oscore.c:439-494 | in any state a successful message_1 and message_3 are followed by an answer to any request the new context opens, under any Partial IV |
| NonceFreshness.NoNonceReuse | src/edhoc_oscore.c:553-582 | with fresh exported secrets no two responses of a run are protected under the same secret and nonce, within a context and across re-keying |
| NonceFreshness.DistinctIdsExact | src/edhoc_oscore.c:320-335 | from every reachable ready state without a reuse so far, all OSCORE continuations stay free of reuse iff Sender ID and Recipient ID differ |
| NonceFreshness.EqualIdsMeet | src/edhoc_oscore.c:553-582 | with equal IDs, every ready state has an OSCORE continuation in which two responses are protected under one secret and nonce |
| Responder.Responder.constructor | src/edhoc_oscore.c:79-104 | power-on state: no handshake, no context, and the invariant |
| Responder.Responder.DeriveAndInitOscore | src/edhoc_oscore.c:304-345 | the buffers, context, flag and calls left behind for each outcome of export and initialisation |
| Responder.Responder.HandleMessage1 | src/edhoc_oscore.c:441-462 | the in-place code is the message_1 step of the session machine and keeps the invariant |
| Responder.Responder.HandleMessage3 | src/edhoc_oscore.c:463-491 | the in-place code is the message_3 step, with the buffers aliased by the OSCORE context, and keeps the invariant |
| Responder.Responder.EdhocPost | src/edhoc_oscore.c:388-528 | the whole handler, framing and reply included, is one step of the device machine |
| Responder.Responder.OscorePost | src/edhoc_oscore.c:539-594 | the whole handler is one step of the device machine: gate, replay check, inner dispatch, protection |
| Responder.Responder.BuildReply | src/edhoc_oscore.c:507-527 | the reply is the serialised 2.04 with token, id and message, or an error iff it does not fit 256 bytes |
| Cbor.ItemLenExact | src/edhoc_oscore.c:350-386 | for every definite-length CBOR item followed by anything, the computed length is right iff the item is an integer, a simple value, a string with at most two length bytes, or empty |
| Cbor.CborItemLen | src/edhoc_oscore.c:350-386 | never exceeds 3 + 65535, and is 0 only for empty input |
| Cbor.ItemLenOfPrefix | src/edhoc_oscore.c:418-428 | cutting at the computed length leaves a prefix of that same computed length |
| Cbor.HeadCounted | src/edhoc_oscore.c:350-386 | of every item cut short anywhere, at least the whole head is counted |
| Framing.FramingRoundTrip | host_client/src/client.cpp:376-396 | the device recovers kind and message from the client's frame for every C_R in -24..23; only an empty message_3 is refused |
| Framing.PrefixIsCbor | host_client/src/client.cpp:376-396 | the client's prefixes are the CBOR encodings of `true` and of the integer C_R |
| Framing.TruncatedRefused | src/edhoc_oscore.c:418-428 | a CBOR prefix cut short, or with no message behind it, is refused |
| Framing.FramingUnambiguous | src/edhoc_oscore.c:412-428 | under one C_R equal payloads mean equal kind and message |
| Framing.StripsItemPrefix | src/edhoc_oscore.c:418-428 | any CBOR item as C_R is stripped correctly iff its length shows in its first bytes |
| Framing.AcceptedSplit | src/edhoc_oscore.c:412-428 | an accepted payload is a self-measuring prefix followed by the message |
| Framing.BytesRefineMessages | src/edhoc_oscore.c:412-492 | for every faithful message encoding, the device on the client's framed bytes takes the very step, makes the very calls and gives the very answer of the session machine on messages |
| Identifiers.WireIntInvertsCid | host_client/src/client.cpp:298-302 | `kid_wire_int` inverts `cid_to_cbor` on exactly -24..23 |
| Identifiers.CidInvertsWireInt | scripts/edhoc_keys.py:46-59 | every kid that compresses is restored by `cid_to_cbor` from its wire integer |
| Identifiers.DecompressCompress | scripts/edhoc_keys.py:46-59 | compact transport loses no kid |
| Credentials.AuthCreds.Fetch | src/edhoc_oscore.c:110-129 | the structure carries the own kid as byte string and the own credential, whether or not the key import succeeds |
| Credentials.AuthCreds.Verify | src/edhoc_oscore.c:135-179 | accepts iff the wire form decompresses to the configured kid; then the structure holds the byte-string ID_CRED and the peer's credential, otherwise it is unchanged |
| Credentials.ExchangeByKid | host_client/src/client.cpp:63-115 | fetch, either wire form, and verify lead to the very ID_CRED, credential and key of the sender |
| Credentials.AcceptedFormsAreTwo | src/edhoc_oscore.c:150-161 | a peer's kid is accepted in exactly two forms, the byte string and its compact integer |
| CoapMessage.ParseSerialize | scripts/coap_latency.py:35-51 | reference format: every well-formed message is parsed back from its serialisation |
| CoapMessage.SerializeParse | scripts/coap_latency.py:35-51 | reference format: whatever parses is the serialisation of the result, so the encoding is canonical |
| CoapClient.BuildRequest | scripts/coap_latency.py:35-51 | the loop emits exactly the wire form of the request, or raises |
| CoapClient.RequestRoundTrip | scripts/coap_latency.py:35-51 | an RFC 7252 parser recovers code, type, id, token, path and payload iff type and id fit, the token has at most 8 and every segment at most 12 bytes, and the payload is absent or non-empty |
| CoapClient.RaisesExactly | scripts/coap_latency.py:35-51 | the encoder raises iff type exceeds 15, token or a segment exceeds 255 bytes, or the id exceeds 16 bits |
| CoapClient.ResponseRoundTrip | scripts/coap_cli.py:42-54 | on every message the decoder reports the code, and the payload iff no option byte looks like a marker (save as last byte of a message without payload) |
| CoapClient.OptionFreeResponse | scripts/coap_cli.py:42-54 | code and payload of every option-free message are recovered, whatever the token |
| CoapClient.CodeTextInjective | scripts/coap_cli.py:50-51 | the "C.DD" notation distinguishes all codes |
| CoapServer.TruncationExact | src/coap_server.c:159-168 | looking at the first n segments decides equality with a path, for requests of any length, iff the path is shorter than n |
| CoapServer.RoutingExact | src/coap_server.c:170-181 | routing by two collected segments is routing by the complete path |
| CoapServer.OnOffMeaning | src/coap_server.c:87-104 | exactly the payloads that start with "1" or "on", respectively "0" or "off", are understood |
| CoapServer.Server.BuildContent | src/coap_server.c:50-126 | writes the serialised 2.05 response, or fails iff it does not fit |
| CoapServer.Server.BuildLedPut | src/coap_server.c:128-151 | updates the LED iff the payload is understood, also when the response does not fit |
| CoapServer.Server.DispatchInner | src/coap_server.c:156-186 | the new LED state, and the serialised response for the complete path or an error iff it does not fit |
| CoapServer.ResponseFits | src/coap_server.c:193-205 | every response is an option-free ACK, echoes token and id, and fits the smallest configured buffer of 64 bytes |
| CoapServer.LedIsRegister | src/coap_server.c:128-151 | after any requests the state is v iff v is the value of the latest valid PUT, or the initial value if there was none |
| CoapServer.AnswerPrints | src/coap_server.c:156-186 | every dispatched request, inside OSCORE or not, readable or not, is answered by a message the host decoder reads as method, complete path, payload and LED demand, and moves the LED accordingly |
| CoapServer.EndToEnd | src/coap_server.c:193-216 | host encoder, board and host decoder composed, for every encodable request: what is printed and the LED afterwards are the handler's, whatever the CoAP service answers otherwise, iff the request is CON or NON, fits the message size and is in the resource table |
| CoapServer.LedEndToEnd | scripts/coap_cli.py:105-124 | after any dispatched requests, GET led prints the value of the latest valid PUT, in both builds and with every token |
| Measurement.Receive | scripts/coap_latency.py:124-133 | credits the first datagram that carries the request's id |
| Measurement.CreditedIsFirst | scripts/coap_latency.py:127-131 | the credited datagram carries the id and no earlier one does; none is credited iff none carries it |
| Measurement.Measure | scripts/coap_latency.py:116-140 | samples are exactly the credited requests after warm-up, and samples plus losses equal count |
| Measurement.SamplesExact | scripts/coap_latency.py:124-139 | the samples are, in order of requests, exactly the first matching datagrams of all requests from warm-up on that received one |
| Measurement.AnsweredIsSampled | scripts/coap_latency.py:134-139 | a counted request with a matching datagram has a sample |
| Measurement.CreditIsDue | scripts/coap_latency.py:119-131 | a reply can be credited to the wrong request of a call iff the call sends more than 65536 requests |
| Measurement.SamplesAreOwn | scripts/coap_latency.py:119-139 | if only replies to the call's requests arrive and there are at most 65536, every sample replies to its own request |

## Left out

- Internals of libedhoc, uoscore-uedhoc, mbedTLS/PSA and compact25519: foreign code, present as arbitrary answers with the contracts named above.
- `edhoc_setup`: its seven library calls are one call that may fail leaving any context behind.
- `edhoc_hash_hw` and the SHA-256 device: a wrapper around one foreign call.
- Zephyr's CoAP service: retransmission and its own answers (4.04, 4.05, 4.13 and others) are left open; only which requests reach `app_request` is modelled, after the resource table and oscore.conf:87-91.
- The text of log messages; the one at src/edhoc_oscore.c:430-431 reads the first byte of an empty message_1.
- Reply matching in the C++ client: `edhoc_post` and `oscore_request` compare neither token nor message id, and nothing is claimed about it.
- `bench_endpoint`: its accounting is the simpler half of what is proved of `measure`.
- WireHandshake.WireAgreement: the bytes are EDHOC payloads and response bodies; the CoAP header around them is not part of this network.
- NonceFreshness.NoNonceReuse: requires different Sender and Recipient IDs if the library ever uses Partial IVs of its own; section 3.3.3 of RFC 9528 demands them to differ, and `DistinctIdsExact` shows that the condition is exact.
- CoapClient.BuildRequest: takes the path already split at "/" and encoded as UTF-8.
- Measurement.Measure: times are left out; a sample is the pair of request and datagram.
- GPIO pin level: the result of setting the pin is ignored by the code; only the LED state is modelled.
- DTLS, USB and network bring-up, key generation, argument parsing, statistics and printing.
