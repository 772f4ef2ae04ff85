# Verified model of the WAMR bridge

A Dafny 4.11 model of the bridge between HTTP/MQTT and a WebAssembly runtime, and of the
network viewer it feeds. `dafny verify dfyconfig.toml` checks the whole project.

- **IMRT link** (`Bytes`, `ImrtFrame`, `RecvContext`, `ReadLoop`, `LinkSender`). A frame is
  0x12 0x34, a 16-bit type, a 32-bit size, both big-endian, and a payload of at most 1 MiB.
  `ImrtFrame.Parse` reads a whole stream at once; the byte-at-a-time receive context, its
  payload buffer and the read loop are proved against it, whatever way the stream is cut.
- **Pending requests** (`PendingRequest`, `RequestRuns`, `ServedClients`). The HTTP thread, the main thread and
  the runtime as a transition system over all interleavings, with the mutex, unlocked reads,
  lost and spurious wakeups, and failed sends. What every run keeps, exactly when a state can
  still lead to a mismatch, a foreign answer, a set-back or the end of a wait, and what each
  client is told.
- **Module list** (`SinglyLinkedList`, `ModuleStore`, `ModuleList`, `Bridge`, `BridgeTrace`). Nested singly
  linked lists on the heap, proved against a value-level store that is a stack per id, and
  the start and stop events the bridge publishes from it.
- **Tail queue** (`TailQueue`). The tail-queue macros, with addresses of pointers as slots.
- **Attribute containers** (`AttrContainer`, `AttrReader`, `AttrRoundTrip`, `AttrWriter`, `AttrWritten`).
  The cursor loop of `attr2json` over the byte layout, `json2attr`, and their composition.
- **Viewers** (`Events`, `NetState`, `Agreement`, `Viewer`, `ViewerTrace`, `BridgeView`). The state service's
  dictionary, its agreement with the bridge, the browser's publisher-subscriber graph, and the
  graph of whole bridge runs.

Code that updates state is a class or a loop with invariants, tied by its `ensures` to a
function on values; the properties are then lemmas about that function.

## Where the code does not do what one would expect

Each is stated exactly, as a condition a caller can check before the call.

- The header asks that no request start while a response is pending
  (bridge-tool/src/runtime_conn.h:196). Nothing enforces it. The main loop can reach its
  mid-mismatch exit exactly once some request, MQTT or HTTP, starts while another with another
  mid is in flight (`OverlapExitsExactly`, `OneMidNeverMismatched`); a second such start is as
  bad (`OverlapMismatches`). The header's rule is stricter than needed for this
  (`DocumentedNeverOverlaps`).
- Yet under the header's rule an HTTP client may collect the answer to an MQTT request. It can
  exactly when an MQTT request starts while a client whose request was sent is being served
  (`MixUpExactly`). If MQTT requests also wait for such clients, or there are none, each client
  gets its own answer (`ClientGetsOwnResponse`, `HttpAloneIsExclusive`).
- Under the header's rule a client whose response has been processed may block again, for an
  MQTT response: exactly when an MQTT request has started and the client does not hold the
  mutex (`SetBackExactly`, `StartSetsBack`, `DocumentedSetBack`). If MQTT requests wait for clients it is never set
  back (`WaiterNeverSetBack`). Either way it can still finish, if nothing is lost
  (`WaiterCanFinish`).
- A failed send leaves its op type registered, and so does a read that held an event and then
  the response, which it ignores. Under the header's rule a waiting client can finish exactly
  when no send so far has failed and no read has ignored a response (`WaiterFinishesExactly`).
- A client whose request was never sent is served all the same, from whatever is stored.
  Without MQTT requests it is told of an error (`UnsentToldError`); with them it can be told the
  answer to one (`UnsentToldMqttAnswer`). No stored body is told twice (`HandedOutOnce`).
- `host_tool_send_data` compares a signed result with an unsigned length. Its answer is wrong
  exactly for 4294967295 bytes whose last write fails with an error other than a full wire,
  which it takes for success (`HostToolSendData`, `AnswerWrongExactly`). A request
  packed to zero bytes is reported as failed although its whole frame is on the wire
  (`SendRequest`).
- A read that completes a response or request before its last byte loses the rest of the
  buffer; nothing is lost exactly when no read does (`NothingIgnoredIff`, `DeliveredExactly`,
  `SecondIsIgnored`).
- The inner loop of `attr2json` counts in 16 bits: over a byte array longer than 65535, and no
  other, its guard holds after every number of rounds (`NeverEndsExactly`,
  `ByteArrayEndsExactly`, `ReadsLayout`).
- A publisher's and a subscriber's events of one module and topic share one id, so that
  unsubscribing takes a held topic off the viewer's list. The agreement is lost exactly then,
  if module names have no dots (`AgreementKeptExactly`, `AgreesThroughoutExactly`,
  `OnlyUnsubscribingBreaks`, `AgreementCanBeLost`).
- The browser joins publishers and subscribers only on their own events: a runtime or module
  start that brings back a listed id leaves edges out (`JoinKeptExactly`, `JoinCanBeLost`).
  The edges are the join all along a trace exactly when no event does so (`JoinThroughoutExactly`).
- `topic_list_del_all` always returns -1 where its comment promises 0, and no `pub-stop` event
  is ever published, although the repository's README.md describes one. The code is followed.

## Assumptions about code that is not in the repository

- The packet types and attribute type tags of WAMR's host_link.h and attr_container.h are not
  part of this model beyond being distinct; the numbers in `ReadLoop`, `LinkSender` and
  `AttrContainer` are those WAMR uses.
- Hosts are little-endian with 32-bit `long` and pointers (bridge-tool/CMakeLists.txt:50-53),
  and `char` is signed.
- Floating-point numbers are reals; the images of floats and doubles and the rounding of
  64-bit integers are parameters (`AttrReader.FloatingPoint`).
- The graph library rejects duplicate ids and edges without ends, and removes descendants and
  incident edges with a node. Edge ids are real strings; that they do not collide is the
  condition `Viewer.Separable`, met by ids with equally many dashes (`SameDashesSeparable`):
  those under one runtime's UUID (docker/start-bridged-runtime.sh:8), if names and topics have
  none (`BrowserShowsTheJoinUnderUuid`).
- Setting an attribute whose key a container does not have appends it (`AttrWriter.AppendsNew`);
  what setting a key again does is a parameter, `Setter`.
- The response statuses 2.01, 2.02 and 2.05 are 65, 66 and 69, as CoAP has them (section 12.1.2
  of RFC 7252).

## Model

| member | source | states |
|---|---|---|
| Bytes.SwapWritesNetworkOrder | bridge-tool/src/runtime_request.c:235-243 | a value stored after `htons`/`htonl` lies in memory in network order |
| Bytes.SwapReadsNetworkOrder | bridge-tool/src/runtime_conn.c:252-253 | four bytes filled in order and passed through `ntohl` give the number sent |
| ImrtFrame.ParseSplits | bridge-tool/src/runtime_conn.c:219-287 | a stream may be cut anywhere: completed messages stay, and only the open tail matters to what follows |
| ImrtFrame.ParseOneMore | bridge-tool/src/runtime_conn.c:219-287 | one more byte leaves the frame open, throws the open bytes away, or completes exactly one message |
| ImrtFrame.FramesInStream | bridge-tool/src/runtime_conn.c:219-287 | every stream consists of the encodings of exactly the messages reported, in order, with bytes thrown away between them, and the open tail |
| ImrtFrame.FramesFit | bridge-tool/src/runtime_conn.c:240-284 | every message reported has at most 1 MiB of payload and its frame in the stream, byte for byte, and all frames and the open tail fit in the stream |
| ImrtFrame.FrameLayout | bridge-tool/src/runtime_request.c:228-248 | the frame byte by byte: 0x12, 0x34, type and size with the high byte first, payload |
| ImrtFrame.DecodeInvertsEncode | bridge-tool/src/runtime_request.c:219-255 | the frames of any messages, followed by anything, decode to exactly these messages and then the rest |
| ImrtFrame.DecodesAfter | bridge-tool/src/runtime_conn.c:221-284 | the same from every state between frames, whatever was read before |
| ImrtFrame.EncodingIsPrefixFree | bridge-tool/src/runtime_request.c:228-248 | encodings of message lists extend or equal each other exactly as the lists do |
| ImrtFrame.OversizeRefused | bridge-tool/src/runtime_conn.c:267-270 | a size over the limit is refused at the eighth header byte and not before, and hunting resumes with the payload |
| ImrtFrame.OpenFrameShrinks | bridge-tool/src/runtime_conn.c:221-287 | a rank bounded by 1048583 strictly decreases on every byte taken inside a frame |
| ImrtFrame.SelfStabilising | bridge-tool/src/runtime_conn.c:221-287 | from every state, enough bytes without 0x12 leave the decoder between frames with at most one message completed |
| ImrtFrame.SettleIsTight | bridge-tool/src/runtime_conn.c:221-287 | one byte fewer than the bound can leave a frame open |
| ImrtFrame.NoiseParity | bridge-tool/src/runtime_conn.c:221-239 | after noise without 0x34 a leading byte is pending exactly when the trailing run of 0x12 is odd |
| ImrtFrame.ResyncParity | bridge-tool/src/runtime_conn.c:221-239 | a frame after such noise is recognised exactly when the run is even |
| RecvContext.Context.constructor | bridge-tool/src/bridge-tool.c:55 | the zeroed context is between frames and has seen nothing |
| RecvContext.Context.InNonStart | bridge-tool/src/runtime_conn.c:221-232 | between frames the old payload goes, and only 0x12 opens a frame |
| RecvContext.Context.InLeading | bridge-tool/src/runtime_conn.c:233-239 | 0x34 goes on to the type; any other byte is thrown away with the 0x12 before it |
| RecvContext.Context.InType | bridge-tool/src/runtime_conn.c:240-247 | the type's memory fills in place and holds the type in host order once full |
| RecvContext.Context.InSize | bridge-tool/src/runtime_conn.c:248-274 | the size's memory fills; zero completes, over 1 MiB is refused, else a buffer of that size is open |
| RecvContext.Context.InPayload | bridge-tool/src/runtime_conn.c:275-284 | the buffer fills in place, and its last byte completes the message it then holds |
| RecvContext.Context.ByteArrive | bridge-tool/src/runtime_conn.c:219-287 | after every byte of every stream the context stands for the parser's open tail, the code says what the byte did, and a completed message is in the context |
| RecvContext.StepTracksParse | bridge-tool/src/runtime_conn.c:219-287 | the step from tail to tail and its code follow the parser of the whole stream |
| RecvContext.WritesStayInside | bridge-tool/src/runtime_conn.c:241-276 | each write index is inside its field or buffer, and an open buffer has 1 to 1048576 bytes |
| ReadLoop.TakenIsShortest | bridge-tool/src/runtime_conn.c:333-348 | the handled part of a buffer is the shortest prefix that completes a response or request, else all of it |
| ReadLoop.ProcessRcvdData | bridge-tool/src/runtime_conn.c:319-349 | handles exactly that part, answers response or event exactly when it ends by completing a response or request packet, and then leaves that message in the context |
| ReadLoop.ServeReads | bridge-tool/src/bridge-tool.c:116-174 | a run of reads handles and delivers what the run's function says |
| ReadLoop.RunDelivers | bridge-tool/src/runtime_conn.c:319-349 | every response and request among the bytes handled is delivered once and in order |
| ReadLoop.DeliveredKinds | bridge-tool/src/runtime_conn.c:338-341 | over any reads, only responses and requests are delivered |
| ReadLoop.BridgedExactly | bridge-tool/src/runtime_conn.c:335-345 | of any messages exactly the responses and requests are handed on, as often as they occur |
| ReadLoop.NothingIgnoredIff | bridge-tool/src/runtime_conn.c:333-348 | all bytes read are handled exactly when no read completes a packet before its last byte |
| ReadLoop.FramesDelivered | bridge-tool/src/runtime_conn.c:319-349 | frames cut only at their packets are delivered in full and in order, other types skipped |
| ReadLoop.DeliveredExactly | bridge-tool/src/runtime_conn.c:319-349 | a stream of responses and requests is delivered in full and in order exactly when no read completes one before its last byte |
| ReadLoop.SecondIsIgnored | bridge-tool/src/runtime_conn.c:338-346 | of any two such packets in one read only the first is delivered |
| LinkSender.Connection.HostToolSendData | bridge-tool/src/runtime_conn.c:179-207 | at most eleven writes, all but the last refused as blocking; the last alone decides what went out and the answer, which is true exactly when the whole buffer went out, except for a failed write of 4294967295 bytes |
| LinkSender.AnswerWrongExactly | bridge-tool/src/runtime_conn.c:190-206 | the answer tells whether everything went out, except exactly for 4294967295 bytes whose last write fails and is not refused as blocking |
| LinkSender.Connection.SendRequest | bridge-tool/src/runtime_request.c:219-255 | the wire grows by a prefix of the frame, and 0 is returned exactly for the whole frame of a non-empty packet |
| LinkSender.SentIsReceived | bridge-tool/src/runtime_request.c:219-255 | a whole frame reaches the runtime as its message; a strict part leaves its frame open |
| PendingRequest.SynchronisedStep | bridge-tool/src/runtime_conn.c:461-497 | every step keeps mutual exclusion and leaves no waiter blocked without a reason |
| PendingRequest.NoLostWakeup | bridge-tool/src/runtime_conn.c:475-497 | in every run, a waiter blocked without a signal sees an op type other than NONE or its signal is the next main step |
| PendingRequest.OneInFlightStep | bridge-tool/src/runtime_conn.c:450-483 | if requests wait while one is pending, everything in flight belongs to the latest request and is in one place |
| PendingRequest.HandledRightStep | bridge-tool/src/bridge-tool.c:133-159 | each step keeps responses acted on in order, once, for the op type their request registered |
| PendingRequest.ServedRightStep | bridge-tool/src/http.c:221-229 | each step keeps a waiting client's request the latest, and answered exactly when the op type is NONE |
| PendingRequest.NeverMismatched | bridge-tool/src/bridge-tool.c:125-159 | under the header's rule no run takes the mismatch exit, and the unlocked reads never meet a write |
| PendingRequest.SendsApart | bridge-tool/src/runtime_request.c:219-255 | under the header's rule the two threads never register or send at once |
| PendingRequest.ClientGetsOwnResponse | bridge-tool/src/http.c:208-230 | if MQTT requests wait for such clients too, a client whose request was sent collects the answer to that request |
| PendingRequest.HttpAloneIsExclusive | bridge-tool/src/http.c:70-80 | without MQTT requests every run of the code as it is keeps the strictest discipline |
| PendingRequest.WaiterNeverSetBack | bridge-tool/src/runtime_conn.c:489-497 | if MQTT requests wait for clients too, then once the response is processed no step sets the waiter back, and each of its own brings it on |
| RequestRuns.WaiterCanFinish | bridge-tool/src/runtime_conn.c:489-497 | under the header's rule every waiting client, sent or not, whose response is processed or on its way can finish without a spurious wakeup or a new request, within six steps once the main thread is done |
| RequestRuns.WaiterFinishesExactly | bridge-tool/src/runtime_conn.c:461-497 | over every run under the header's rule, a waiting client can finish exactly when no send of the run has failed and no read has ignored a response |
| RequestRuns.WaiterFinishesUnlessLost | bridge-tool/src/runtime_conn.c:489-497 | the same by the state: it can finish exactly unless an op type is registered with nothing in flight |
| RequestRuns.SetBackExactly | bridge-tool/src/runtime_conn.c:461-497 | under the header's rule a client whose response is processed can block for another response exactly when an MQTT request has started and the client does not hold the mutex |
| RequestRuns.StartSetsBack | bridge-tool/src/runtime_request.c:139-164 | an MQTT request that the header's rule lets start can overtake a waiting client exactly when that client is blocked or about to lock |
| RequestRuns.DocumentedSetBack | bridge-tool/src/runtime_conn.c:489-497 | a concrete run under the header's rule blocks a client whose answer is stored for an MQTT response |
| RequestRuns.OneMidNeverMismatched | bridge-tool/src/bridge-tool.c:137-143 | if no start overlaps a request in flight with another mid, no run takes the mismatch exit |
| RequestRuns.DocumentedNeverOverlaps | bridge-tool/src/runtime_conn.h:195-196 | the header's rule lets no start overlap a request in flight |
| RequestRuns.OverlapMismatches | bridge-tool/src/runtime_request.c:139-164 | in every run of the code as it is, an MQTT or HTTP start that overlaps a request in flight with another mid can lead from there to the mismatch exit, though nothing else starts |
| RequestRuns.OverlapExitsExactly | bridge-tool/src/bridge-tool.c:125-159 | in every run without such a start so far, a start makes the exit reachable exactly when it is one |
| RequestRuns.UnguardedMismatch | bridge-tool/src/bridge-tool.c:137-143 | a concrete run of the code as it is takes the mismatch exit |
| RequestRuns.MixUpExactly | bridge-tool/src/http.c:208-230 | in every run under the header's rule, an MQTT start can lead to a client collecting an answer not its own exactly when a client whose request was sent is being served |
| RequestRuns.DocumentedMixup | bridge-tool/src/http.c:221-229 | a concrete run under the header's rule hands a client the answer to an MQTT request |
| ServedClients.BodyExactly | bridge-tool/src/http.c:222-229 | over every run, a body is stored exactly if it was the last one stored and no client has been replied to since |
| ServedClients.HandedOutOnce | bridge-tool/src/http.c:222-226 | between any two replies, a body told with the second is stored anew |
| ServedClients.OneReplyEach | bridge-tool/src/http.c:208-230 | over every run, whatever fails, each client but the one being served has had one reply |
| ServedClients.LetThroughExactly | bridge-tool/src/runtime_conn.c:489-497 | a client goes on to its reply only after seeing, under the mutex, that no response is pending |
| ServedClients.ToldOwnAnswer | bridge-tool/src/http.c:221-229 | if MQTT requests wait for clients, a client whose request was sent is told the status and body of the answer to it, or an error if it had none |
| ServedClients.UnsentToldError | bridge-tool/src/http.c:208-230 | without MQTT requests, a client whose request was not sent is told of an error |
| ServedClients.UnsentToldMqttAnswer | bridge-tool/src/http.c:221-226 | a concrete run tells such a client the answer to an MQTT request |
| ServedClients.FailedSendWaitsForEver | bridge-tool/src/runtime_conn.c:489-497 | under the header's rule a client whose send fails waits in every continuation |
| ServedClients.ThreadsAdvanceExactly | bridge-tool/src/runtime_conn.c:450-497 | a thread is held up exactly by the mutex in the other's hands, a signal not delivered, or want of work |
| ServedClients.AnnouncedExactly | bridge-tool/src/bridge-tool.c:137-155 | a response checked is recorded, and its module announced exactly for an install or uninstall that succeeded |
| ServedClients.HeldIsAnnounced | bridge-tool/src/mqtt.c:222-233 | in every run, an MQTT request that starts while a response is held finds such a success being announced |
| ServedClients.EveryResponseStored | bridge-tool/src/bridge-tool.c:133-159 | in every run, each response acted on but the one in hand is stored once and its waiter signalled once, MQTT requests that start meanwhile included |
| SinglyLinkedList.Slist.InsertHead | external/queue/queue.h:135-138 | the element comes first, the rest keeps its order |
| SinglyLinkedList.Slist.RemoveHead | external/queue/queue.h:144-146 | the first element goes |
| SinglyLinkedList.Slist.Remove | external/queue/queue.h:148-160 | the rescan finds the predecessor; exactly that element goes and keeps its own link |
| ModuleStore.FindsTop | bridge-tool/src/module_list.c:85-111 | a lookup finds the newest entry of the id, and none exactly when there is none |
| ModuleStore.DoRefinesStack | bridge-tool/src/module_list.c:33-77 | each operation pushes, pops or updates the top of the stack of its id and touches no other |
| ModuleStore.RunRefinesStack | bridge-tool/src/module_list.c:33-190 | every sequence of operations refines one stack per id |
| ModuleStore.OthersKeepOrder | bridge-tool/src/module_list.c:33-77 | the entries of all other ids stay as they are, in their order |
| ModuleStore.NoTopicTwiceStep | bridge-tool/src/module_list.c:120-141 | no operation gives a module a topic twice |
| ModuleStore.TopicsConserved | bridge-tool/src/module_list.c:120-190 | topics held after, plus those discarded, are those held before, plus one exactly when the add returns 1 |
| ModuleList.ModuleList.Add | bridge-tool/src/module_list.c:33-53 | the heap list gains the module at its head |
| ModuleList.ModuleList.Lookup | bridge-tool/src/module_list.c:85-94 | the traversal ends at the newest module of the id, or at the end |
| ModuleList.ModuleList.GetNameById | bridge-tool/src/module_list.c:102-111 | the name of the newest module of the id, if there is one |
| ModuleList.ModuleList.DelById | bridge-tool/src/module_list.c:61-77 | the newest module of the id goes with its topics; -1 and no change if there is none |
| ModuleList.ModuleList.TopicCheckAndAdd | bridge-tool/src/module_list.c:120-141 | adds the topic to the newest module unless held: 1, 0 or -1 accordingly |
| ModuleList.ModuleList.TopicListDel | bridge-tool/src/module_list.c:169-190 | removes the topic from the newest module, 0, or changes nothing, -1 |
| ModuleList.TopicListIsInList | bridge-tool/src/module_list.c:199-208 | true exactly when the list holds the topic |
| ModuleList.TopicListDelAll | bridge-tool/src/module_list.c:149-160 | removing while traversing empties the list; the result is -1 all the same |
| Bridge.Bridge.NotifyModuleEvent | bridge-tool/src/mqtt.c:222-233 | publishes one module event under the runtime's and module's name |
| Bridge.Bridge.NotifyPubsubEvent | bridge-tool/src/mqtt.c:235-253 | publishes one event named after the newest module of the id, or nothing if it is not listed |
| Bridge.Bridge.ProcessRuntimeEvent | bridge-tool/src/mqtt.c:160-220 | the new list and the events published for subscribe, unsubscribe and publish |
| Bridge.Bridge.HandleInstalled | bridge-tool/src/bridge-tool.c:146-149 | an install adds the module and announces it |
| Bridge.Bridge.HandleUninstalled | bridge-tool/src/bridge-tool.c:150-154 | an uninstall deletes the newest module of the id and announces whatever name the buffer holds |
| Bridge.EveryTopicAnnouncedOnce | bridge-tool/src/mqtt.c:206-208 | over every run, publish notifications equal the topics held plus those discarded, and none is held twice |
| BridgeTrace.PublishedExactly | bridge-tool/src/mqtt.c:160-253 | every run publishes exactly one event for each install, uninstall, and subscribe, unsubscribe or first publication of a listed module, in order, with its command, id, parent and name, and nothing else |
| BridgeTrace.StackAfterInput | bridge-tool/src/bridge-tool.c:146-154 | each input pushes, pops, changes the topics of, or leaves the stack of modules of an id |
| BridgeTrace.ReturnedExactly | bridge-tool/src/module_list.c:33-190 | what each list call returns, by the stack of its id |
| NetState.NodeState.HandleMqttMessage | net-viz/net-state.py:69-81 | the ordered dictionary after a message |
| NetState.NodeState.NetState | net-viz/net-state.py:36-43 | serves all values in insertion order |
| NetState.NodeState.NetDelete | net-viz/net-state.py:46-48 | empties the dictionary |
| NetState.ClosedForm | net-viz/net-state.py:69-81 | after every trace the dictionary is, in order, each first start after the id's last stop or clear |
| NetState.PresentExactly | net-viz/net-state.py:73-81 | an id is present exactly when a start of it has no later stop or clear |
| NetState.ReplayFromSnapshot | net-viz/net-state.py:35-48 | the served list replayed, then later events, gives what the full history gives, in the same order |
| Agreement.AgreementKeptExactly | bridge-tool/src/mqtt.c:160-253 | an input keeps every held topic in the viewer's dictionary exactly when it does not stop the id of one |
| Agreement.AgreesThroughoutExactly | net-viz/net-state.py:69-81 | over every run, every held topic has its entry after each input exactly when no input is such a stop |
| Agreement.ViewerMissesNothing | net-viz/net-state.py:69-81 | from the empty list, over every run without such inputs every held topic has its entry |
| Agreement.AgreementCanBeLost | bridge-tool/src/mqtt.c:174-208 | a concrete run: a module unsubscribes from the topic it publishes and still holds, and the viewer misses it |
| Agreement.PubSubIdInjective | bridge-tool/src/mqtt.c:245-246 | without dots in module names an event id tells name and topic apart |
| Agreement.OnlyUnsubscribingBreaks | bridge-tool/src/mqtt.c:174-179 | then the agreement breaks exactly by unsubscribing from a topic a module of the same name holds |
| AttrReader.SignedReadsLoseNothing | bridge-tool/src/bridge_tool_utils.c:42-64 | lengths read through signed integers are the lengths stored |
| AttrReader.NeverEndsExactly | bridge-tool/src/bridge_tool_utils.c:170-176 | with its 16-bit counter wrapping, the inner loop goes on after every number of rounds exactly when the length is over 65535 and the first 65536 bytes can be read; else it ends with all items or reads out of bounds |
| AttrReader.ByteArrayItems | bridge-tool/src/bridge_tool_utils.c:167-178 | the outcome of the loop taken round by round: the items, a read out of bounds, or rounds without end |
| AttrRoundTrip.ByteArrayEndsExactly | bridge-tool/src/bridge_tool_utils.c:167-178 | over the layout of a byte array the loop never ends exactly when the array is longer than 65535 |
| AttrReader.OneAttribute | bridge-tool/src/bridge_tool_utils.c:94-178 | one round reads the key, the tag and the value the tag calls for, and moves the cursor past them |
| AttrReader.Attr2Json | bridge-tool/src/bridge_tool_utils.c:70-185 | the loop's outcome for any bytes and any number of attributes |
| AttrRoundTrip.OtherTagAddsNothing | bridge-tool/src/bridge_tool_utils.c:94-178 | an attribute with a tag not handled adds no member, and its value is not skipped |
| AttrRoundTrip.OverrunsExactly | bridge-tool/src/bridge_tool_utils.c:102-160 | a value of fixed width is read, and the cursor passes it, exactly when all its bytes are in the buffer |
| AttrRoundTrip.NonZeroIsTrue | bridge-tool/src/bridge_tool_utils.c:154-160 | any boolean byte but 0 is true |
| AttrRoundTrip.ReadsAttr | bridge-tool/src/bridge_tool_utils.c:94-178 | the layout of a well-formed attribute of any of the ten types reads back as its key and value |
| AttrRoundTrip.ReadsLayout | bridge-tool/src/bridge_tool_utils.c:94-181 | every well-formed list is read in order with the cursor ending at its end, unless a byte array is longer than 65535: then the inner loop goes on for ever over one |
| AttrWriter.ArrayBytes | bridge-tool/src/bridge_tool_utils.c:220-227 | the truncated longest numeric prefix of an array |
| AttrWriter.Json2Attr | bridge-tool/src/bridge_tool_utils.c:187-239 | the container after setting each member's attribute in order, keys set again included, or failure for anything but an object and for an empty array |
| AttrWritten.WrittenExactly | bridge-tool/src/bridge_tool_utils.c:187-239 | the container has, for the members in order, a double for a number, a boolean, a string, and the truncated numeric head of an array as a byte array; only nulls, objects and arrays without such a head are left out; there is none exactly for no object or an empty array |
| AttrWriter.PassIsNormalisation | bridge-tool/src/bridge_tool_utils.c:70-239 | writing and reading back is exactly the normalisation, and fails exactly where that is undefined |
| AttrWriter.NormalisationIsIdempotent | bridge-tool/src/bridge_tool_utils.c:187-239 | the result of one pass can be written again and is a fixed point |
| Viewer.Page.LoadNode | net-viz/www/code.js:297-363 | the page's graph and lists after an event |
| Viewer.Page.Connect | net-viz/www/code.js:342-359 | the nested loops try every pair once |
| Viewer.Page.LoadNodesFromDataArray | net-viz/www/code.js:153-159 | loads the events in order |
| Viewer.JoinEffect | net-viz/www/code.js:342-359 | joining adds exactly the missing edges of matching pairs of present nodes |
| Viewer.DoomedAreDescendants | net-viz/www/code.js:329-331 | a removal dooms a node exactly when it is the one named or its parent is doomed |
| Viewer.RemoveEffect | net-viz/www/code.js:329-331 | a removal takes the doomed nodes and the edges that touch one, and nothing else |
| Viewer.JoinKeptExactly | net-viz/www/code.js:297-363 | an event keeps the edges the join exactly when it is not a runtime or module start that completes a listed pair |
| Viewer.JoinThroughoutExactly | net-viz/www/code.js:297-363 | for every trace, whatever the kinds of ids: the edges are the join after each event exactly when no event is such a start |
| Viewer.AlwaysTheJoin | net-viz/www/code.js:297-363 | from any well-formed graph that is the join, every trace with kinds of ids apart keeps it the join |
| Viewer.JoinCanBeLost | net-viz/www/code.js:315-363 | a concrete trace of four events after which a matching pair of present nodes has no edge |
| Viewer.PageShowsTheJoin | net-viz/www/code.js:297-363 | after every trace with kinds of ids apart, edges are exactly the pairs of equal topic with both nodes present |
| ViewerTrace.ListsAreLive | net-viz/www/code.js:315-341 | after every trace the two lists are, in order, the publisher and subscriber starts that no stop of their id has followed |
| ViewerTrace.DoomedExactly | net-viz/www/code.js:329-331 | a removal dooms exactly the nodes below the one named, along parents |
| ViewerTrace.NodesExactly | net-viz/www/code.js:300-331 | after every trace a node is there, under its parent, exactly if an event brought it in and no stop of it or of a node above has followed |
| ViewerTrace.PageShowsLivePairs | net-viz/www/code.js:297-363 | after every trace with kinds of ids apart, edges go exactly from live publishers to live subscribers of one topic with both nodes there |
| ViewerTrace.RemovesEdgeById | net-viz/www/code.js:329-331 | a stop under the id of an edge takes exactly that edge |
| ViewerTrace.AlwaysConsistent | net-viz/www/code.js:297-363 | after every trace, whatever its ids: no two elements of the graph have one id, and every edge has both its ends |
| Viewer.SameDashesSeparable | net-viz/www/code.js:350 | ids with equally many dashes make edge ids that never collide, with each other or with node ids |
| BridgeView.BrowserShowsTheJoin | net-viz/www/code.js:297-363 | for every run of the bridge with dot-free module names and edge ids that do not collide, the page that loads what is published shows exactly the edges between announced publishers and subscribers not stopped |
| BridgeView.BrowserShowsTheJoinUnderUuid | bridge-tool/src/mqtt.c:222-253 | the same whatever the runtime's id, if no module name or topic has a dash |
| TailQueue.TailQueue.InsertHead | external/queue/queue.h:468-476 | the element comes first; all forward and back links hold |
| TailQueue.TailQueue.InsertTail | external/queue/queue.h:478-483 | the element comes last, through the last slot |
| TailQueue.TailQueue.InsertAfter | external/queue/queue.h:485-493 | the element follows the one named |
| TailQueue.TailQueue.InsertBefore | external/queue/queue.h:495-500 | the element precedes the one named, whose slot it takes |
| TailQueue.TailQueue.Remove | external/queue/queue.h:502-511 | exactly that element goes |
| TailQueue.TailQueue.Replace | external/queue/queue.h:513-523 | the new element takes the place of the old |
| TailQueue.TailQueue.Concat | external/queue/queue.h:525-532 | the second queue's elements follow the first's, and the second is empty |
| TailQueue.TailQueue.Last | external/queue/queue.h:429-430 | the cast of the last slot finds the last element, or null |
| TailQueue.TailQueue.Prev | external/queue/queue.h:432-433 | the cast of the back slot finds the element before, or null |
| TailQueue.TailQueue.ForeachReverse | external/queue/queue.h:449-452 | reverse traversal visits the reversed sequence |

## Left out

- Sockets, UART set-up, `select`, reconnection, mongoose, Paho, Flask and the cJSON text form: foreign code; writes and reads appear only by their outcomes, JSON as trees.
- `pack_request`, `unpack_response` and `attr_container_*`: a packed request is an opaque byte sequence, a container a list with the layout `attr2json` reads.
- Memory release and allocation failure; topic nodes stay readable after removal, as `topic_list_del_all` needs.
- Truncation by `snprintf` in event messages, and the topic under which MQTT data messages are forwarded.
- PendingRequest: a failed send delivers nothing to the runtime, where the code may have sent part of a frame, and leaves the client waiting forever, as the code does.
- PendingRequest: a request goes out in one step, where `send_request` makes four writes; without the header's rule the writes of the two threads could interleave, under it they never send at once (`SendsApart`).
- PendingRequest: which reads hold an event and then a response is left to the environment; `ReadLoop` says which lose it.
- PendingRequest: a client collects the stored status and body in one step; that nobody writes them meanwhile is part of `ClientGetsOwnResponse`.
- AttrReader.Attr2Json: the sign extension of a type tag of 128 or more is not modelled, because no such tag is handled either way.
- Viewer: node types, layout, and the subscription made for a new runtime.
- Bridge.ProcessRuntimeEvent: leaves out the broker subscription and the forwarded data message, which change neither the module list nor the events published.
- HTTP and CoAP status tables, baud rates, configuration, URLs, the upload service and the demo applications: easy or input and output.
- `LIST_*`, `SIMPLEQ_*` and `XSIMPLEQ_*`: not used by this program.
