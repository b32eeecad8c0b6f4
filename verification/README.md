# Verified model of the module framework's core algorithms

The framework installs modules, orders them by their dependencies, and lets them call each other over
inter-process transports.  This project models the parts of it that are more than plumbing, in Dafny,
and proves what they are there for.  `dafny verify dfyconfig.toml` checks everything.

| files | subject |
|---|---|
| `ShmFrames`, `ShmProtocol`, `ShmCompletion`, `ShmQueue` | the lock-free single-producer single-consumer ring of length-prefixed messages in shared memory: interleaved byte-level steps with stale index views, and the same operations on an array |
| `Graphs`, `DependencyGraph`, `DependencyResolver` | the dependency graph, Kahn's algorithm, the two depth-first searches, guarded insertion, start and stop orders |
| `Wildcard` | the permission matcher with one backtrack point |
| `CallIds`, `CallProtocol`, `CallRuns`, `CallCompletion`, `ServiceProxies`, `CallStatistics` | remote calls: the race of callers, receive thread, timeout thread and disconnection on the map of pending calls, and that none of them blocks another for good; retries and their counters |
| `CrcTable`, `Crc32`, `Octets`, `Messages` | the table-driven CRC-32 and the message object |
| `Varint`, `ProtoBuf`, `ProtoBufRecords`, `ProtoBufMessages` | the Protocol Buffers wire format, record by record, with the address sums of its bounds checks |
| `BinaryCodec`, `BinaryMemory` | the length-prefixed binary format, with the 32-bit sums of its bounds checks, and its decoder in memory |
| `WireFormat` | both message formats, byte by byte |
| `EventFilter`, `FilterLayouts` | the recursive parser of event filters, and every way of writing one |
| `ConnectionPool`, `PoolRuns`, `PoolWaits`, `PoolLaws`, `PoolCompletion` | connection pools, the handles on them, acquiring with a deadline, what each operation does to which connection, and what a pool can always be brought to |
| `CircuitBreaker`, `CircuitRuns` | the circuit breaker |
| `Versions`, `ModuleRegistry` | the order of versions and the registry indexed by identifier and by name |
| `Bytes`, `Words`, `Clocks`, `Wrappers` | little-endian numbers, bitwise or, durations, options and results |

Code that changes things in place is a class or a method with its loops, proved against a function on
values; what holds over several calls, or over every run with several threads, is then proved of those
functions.  A thread's step is one section under a lock, one atomic operation, or one byte.  Random
numbers, clock readings, what a transport or a validator answers and what a factory makes are parameters.

Where the code says something other than its comments, the model follows the code:

- The shared ring is safe with stale views of the other side's index because a thread never sees an
  older store after a newer one (`ShmProtocol.OldViewIsCautious`).  Without that it would not be: a store
  shows too much room exactly when the turns made since hide bytes in flight
  (`ShmProtocol.ViewMisleadsExactly`), and a run of one turn leads to where the first store does
  (`ShmCompletion.FirstViewMisleads`).
- The matcher compares characters before it looks for a star, so a `*` in the target can use up a star
  of the pattern: `*` does not match `*a`
  (workspace/src/framework/impl/security/permission.cpp:136).
- A failed `buildGraph` leaves its cyclic graph behind
  (workspace/src/framework/impl/module/dependency_resolver.cpp:37-46), so acyclicity is stated of guarded
  insertion and of successful operations, not of the resolver's graph at all times.
- A successful call reports `retry_count` 0 even after retries
  (workspace/src/framework/impl/ipc/service_proxy.cpp:410), although the field is documented as the number
  of retry attempts made (workspace/src/framework/include/ipc/service_proxy.h:115).  The number is wrong
  exactly when the first attempt goes unanswered and a later one succeeds
  (`ServiceProxies.RetryCountIsWrongExactlyAfterALateSuccess`).
- Closing a circuit does not clear its rolling window
  (workspace/src/framework/impl/ipc/circuit_breaker.cpp:373-410).  A success opens a circuit exactly when it
  is closed and the failures still in the window are enough (`CircuitRuns.SuccessOpensExactly`).
- A released connection notifies a waiting caller
  (workspace/src/framework/impl/ipc/connection_pool.cpp:502-503), but the predicate it waits under is
  shutdown (line 254), so it goes on waiting.  It tries again not before its deadline, and gets a connection
  exactly when one is to be had then (`PoolWaits.AcquireSucceedsExactly`,
  `PoolWaits.ReleaseInTimeIsMissed`).
- The bounds checks of the decoders add in machine width, and a sum that wraps round passes.  In the binary
  format (workspace/src/framework/impl/ipc/serializer.cpp:180-225) the decoder goes on at the wrapped 32-bit
  offset: behind a metadata length within sixty bytes of 2^32 it reads the metadata that are there and then
  takes the rest from inside the header (`BinaryCodec.GoesOnWhereTheSumSays`), so it may accept what exact
  sums refuse (`BinaryCodec.LongMetadataIsAccepted`), or refuse it all the same
  (`BinaryCodec.LongMetadataMayBeRefused`).  `BinaryCodec.DecodesAsMeantExactly` says when the outcome is
  that of exact sums.  Only when a read passes the end of the buffer does the model call the outcome
  `Unspecified` (`BinaryMemory.UnspecifiedExactlyWhenReadPastTheEnd`).
- In the Protocol Buffers format (workspace/src/framework/impl/ipc/protobuf_serializer.cpp:294, 363, 633, 748)
  the sum is an address of 64 bits: a check is right exactly when it does not wrap round
  (`ProtoBuf.AddressCheckIsRight`).  Otherwise a text or a payload is refused after all, since nothing of that
  length can be stored (lines 395, 655 and the handler at 705-708); any other length takes the decoder back
  to an earlier address, which is undefined in C++, and eleven bytes can take it to where it began
  (`ProtoBuf.ElevenBytesGoRound`).  The model then says `Astray`.  Well-formed records lead no decoder astray
  (`ProtoBuf.WellFormedRecordsDoNotStray`).
- `compare` is a total order on whole versions: two versions compare equal only when they are the same.

## Model

| member | source | states |
|---|---|---|
| ShmProtocol.MessagesArriveInOrder | workspace/src/framework/impl/ipc/shared_memory_transport.cpp:664-800 | In every state of every interleaved run, with stale views of the other side's index, the popped messages are a byte-exact prefix of the pushed ones, and "Invalid message size" is never reached |
| ShmProtocol.NoUnreadByteIsOverwritten | workspace/src/framework/impl/ipc/shared_memory_transport.cpp:694-709 | The slot the producer is about to write holds no byte that is published and not yet given back |
| ShmProtocol.OnlyPublishedBytesAreRead | workspace/src/framework/impl/ipc/shared_memory_transport.cpp:755-781 | The byte the consumer is about to read was published by a store it has seen, and its slot still holds that byte of the stream |
| ShmProtocol.OnlyReleasedSlotsAreWritten | workspace/src/framework/impl/ipc/shared_memory_transport.cpp:680-709 | The slot the producer is about to write was last used for a byte that the consumer gave back with a store the producer has seen |
| ShmProtocol.NoRaceOnASlot | workspace/src/framework/impl/ipc/shared_memory_transport.cpp:664-781 | Producer and consumer are never at the same slot at the same time |
| ShmProtocol.RefinesMessageQueue | workspace/src/framework/impl/ipc/shared_memory_transport.cpp:664-800 | Every byte-level step is a step of a first-in first-out queue of messages, or leaves that queue alone |
| ShmProtocol.NextKeepsInv | workspace/src/framework/impl/ipc/shared_memory_transport.cpp:664-800 | Every step of either side keeps the invariant that ties indices, slots and local positions to the streams of pushed and popped frames |
| ShmProtocol.RunKeepsInv | workspace/src/framework/impl/ipc/shared_memory_transport.cpp:664-800 | The invariant holds in every state of every run |
| ShmProtocol.OldViewIsCautious | workspace/src/framework/impl/ipc/shared_memory_transport.cpp:684-691 | An old value of read_pos shows the producer at most the room there is |
| ShmProtocol.ViewMisleadsExactly | workspace/src/framework/impl/ipc/shared_memory_transport.cpp:684-691 | Any store of read_pos, however old, shows too much room exactly when the distance to it, whole turns left out, is less than the bytes in flight; such a store is a turn old and older than any the producer may see |
| ShmProtocol.FreshViewIsExact | workspace/src/framework/impl/ipc/shared_memory_transport.cpp:684-695 | With the newest value a push is accepted exactly when its frame fits while one byte stays free |
| ShmProtocol.PushIsDecided | workspace/src/framework/impl/ipc/shared_memory_transport.cpp:664-709 | With any value of read_pos that the producer may see: refused for its size exactly when it is empty or above 65536 bytes, refused as full exactly when its frame and one spare byte do not fit behind what that value shows as read, otherwise accepted |
| ShmProtocol.PopIsDecided | workspace/src/framework/impl/ipc/shared_memory_transport.cpp:733-760 | With any value of write_pos that the consumer may see: a pop begins exactly when that store published a message not yet popped, otherwise it finds no data |
| ShmProtocol.EqualIndicesMeanDrained | workspace/src/framework/impl/ipc/shared_memory_transport.cpp:738-745 | The two indices are equal exactly when everything pushed has been popped |
| ShmCompletion.PushCompletes | workspace/src/framework/impl/ipc/shared_memory_transport.cpp:664-718 | After any run in which the producer is idle, a message that fits can be pushed to the end, whatever the consumer is in the middle of |
| ShmCompletion.PopCompletes | workspace/src/framework/impl/ipc/shared_memory_transport.cpp:721-800 | After any run in which the consumer waits and something has been pushed, the oldest message can be popped to the end, whatever the producer is in the middle of |
| ShmCompletion.FirstViewMisleads | workspace/src/framework/impl/ipc/shared_memory_transport.cpp:684-691 | A run leads there: sixteen of the largest messages pushed, fifteen popped, and the first store of read_pos shows all but 64 bytes free |
| ShmFrames.AvailableIsRoom | workspace/src/framework/impl/ipc/shared_memory_transport.cpp:684-689 | The two-case formula for the available space is the ring size less one less the bytes in flight |
| ShmFrames.AvailableForgetsTurns | workspace/src/framework/impl/ipc/shared_memory_transport.cpp:684-689 | Over any distance the formula gives the ring size less one less what the distance leaves over whole turns |
| ShmFrames.FrameInStream | workspace/src/framework/impl/ipc/shared_memory_transport.cpp:697-706 | Frame number k stands in the stream at the sum of the earlier frames' lengths |
| ShmQueue.MessageQueue.PushToQueue | workspace/src/framework/impl/ipc/shared_memory_transport.cpp:664-718 | A push is refused for its size or for want of room, exactly when the frame does not fit; otherwise it appends its message and only that |
| ShmQueue.MessageQueue.PopFromQueue | workspace/src/framework/impl/ipc/shared_memory_transport.cpp:721-800 | A pop gives the oldest message, byte for byte, or finds no data exactly when there is none |
| ShmQueue.MessageQueue.PutByte | workspace/src/framework/impl/ipc/shared_memory_transport.cpp:697-706 | Writing one byte extends the stream in the ring and spoils none of the bytes in flight |
| DependencyGraphs.DependencyGraph.constructor | workspace/src/framework/impl/module/dependency_graph.cpp:37-39 | An empty graph is well kept |
| DependencyGraphs.DependencyGraph.Copy | workspace/src/framework/impl/module/dependency_resolver.cpp:121 | A copy has the same nodes and edges and is well kept |
| DependencyGraphs.DependencyGraph.Clear | workspace/src/framework/impl/module/dependency_graph.cpp:131-134 | Nothing is left, and the invariant holds |
| DependencyGraphs.DependencyGraph.AddNode | workspace/src/framework/impl/module/dependency_graph.cpp:44-58 | A known module is only renamed, a new one comes without edges; no edge changes |
| DependencyGraphs.DependencyGraph.AddEdge | workspace/src/framework/impl/module/dependency_graph.cpp:60-87 | Fails for an unknown end; otherwise adds exactly one edge, unless it was there; lists, degrees and edge count stay in step |
| DependencyGraphs.DependencyGraph.RemoveNode | workspace/src/framework/impl/module/dependency_graph.cpp:89-129 | Removes the module and exactly its edges, self-loop included, on both sides, and keeps the edge count the number of edges |
| DependencyGraphs.WithEdgeAddsOneEdge | workspace/src/framework/impl/module/dependency_graph.cpp:68-87 | The new state after an insertion has the old edges and the new one |
| DependencyGraphs.WithEdgeKeepsMirrored | workspace/src/framework/impl/module/dependency_graph.cpp:68-87 | Insertion keeps dependencies and dependents mirrored, free of duplicates and counted by the degrees, self-loops included |
| DependencyGraphs.WithoutNodeKeepsMirrored | workspace/src/framework/impl/module/dependency_graph.cpp:89-129 | Removal keeps the same invariant |
| DependencyGraphs.WithoutNodeEdges | workspace/src/framework/impl/module/dependency_graph.cpp:89-129 | Exactly the edges that avoid the removed module stay, so acyclicity does |
| DependencyGraphs.RemovalLeavesWithoutNode | workspace/src/framework/impl/module/dependency_graph.cpp:95-128 | The two loops of removeNode together leave exactly the graph without the module |
| Graphs.OutDegreeSumCountsEdges | workspace/src/framework/impl/module/dependency_graph.cpp:187-189 | In a mirrored graph the edge count is the sum of the out-degrees |
| DependencyGraphs.DependencyGraph.TopologicalSort | workspace/src/framework/impl/module/dependency_graph.cpp:195-244 | Succeeds exactly when the graph is acyclic, with all modules once and each dependency before its dependents; otherwise fails with cycles that are real, simple and at least one |
| DependencyGraphs.DependencyGraph.PlaceNode | workspace/src/framework/impl/module/dependency_graph.cpp:217-228 | One round of Kahn's algorithm keeps every counter equal to the number of dependencies not yet placed |
| DependencyGraphs.DependencyGraph.ModulesWithoutDependencies | workspace/src/framework/impl/module/dependency_graph.cpp:200-214 | The first queue holds exactly the modules that need nothing |
| DependencyGraphs.UnplacedModulesHaveCycle | workspace/src/framework/impl/module/dependency_graph.cpp:230-240 | If the queue runs dry with modules left over, they contain a cycle |
| DependencyGraphs.PlacedAll | workspace/src/framework/impl/module/dependency_graph.cpp:230-243 | If all modules were placed, the order is a start order and the graph is acyclic |
| Graphs.StuckSetHasCycle | workspace/src/framework/impl/module/dependency_graph.cpp:230-240 | A non-empty set of modules that each depend into the set contains a cycle |
| Graphs.OrderOfAllNodesShowsAcyclic | workspace/src/framework/impl/module/dependency_graph.cpp:230-243 | An order of all modules with dependencies first exists only in an acyclic graph |
| DependencyGraphs.DependencyGraph.HasCycle | workspace/src/framework/impl/module/dependency_graph.cpp:276-289 | True exactly when some module reaches itself by a non-empty path |
| DependencyGraphs.DependencyGraph.DfsHasCycle | workspace/src/framework/impl/module/dependency_graph.cpp:250-274 | The search ends, reports only real cycles, and keeps the finished modules in dependency order |
| DependencyGraphs.DependencyGraph.DetectCycles | workspace/src/framework/impl/module/dependency_graph.cpp:330-343 | Every reported cycle is a simple closed walk along real edges with its modules' names; the report is empty exactly when the graph is acyclic |
| DependencyGraphs.DependencyGraph.DfsFindCycles | workspace/src/framework/impl/module/dependency_graph.cpp:291-328 | The search visits each module once, restores its path and adds only simple cycles |
| DependencyGraphs.DependencyGraph.RecordCycle | workspace/src/framework/impl/module/dependency_graph.cpp:312-322 | What is cut from the path is a simple cycle |
| DependencyGraphs.DependencyGraph.CanAddEdge | workspace/src/framework/impl/module/dependency_graph.cpp:345-387 | True exactly when both modules are known and the edge is there or no path leads back; in an acyclic graph, exactly when the edge would leave it acyclic |
| DependencyGraphs.GuardedInsertionsStayAcyclic | workspace/src/framework/impl/module/dependency_graph.cpp:345-387 | Any sequence of insertions guarded by canAddEdge keeps an acyclic graph acyclic, inserts nothing else, and refuses a request between known modules only when it would close a cycle |
| Graphs.NewEdgeKeepsAcyclic | workspace/src/framework/impl/module/dependency_graph.cpp:345-387 | One more edge leaves an acyclic graph acyclic exactly when its target does not reach its source |
| DependencyResolvers.DependencyResolver.BuildGraph | workspace/src/framework/impl/module/dependency_resolver.cpp:20-47 | The rebuilt graph has exactly the listed modules and one edge for each hard resolved dependency; the call fails exactly when it is cyclic, and leaves that graph behind |
| DependencyResolvers.DependencyResolver.AddModuleToGraph | workspace/src/framework/impl/module/dependency_resolver.cpp:53-93 | Adds exactly one edge for each hard resolved dependency; without a manifest, none |
| DependencyResolvers.DependencyResolver.GetStartOrder | workspace/src/framework/impl/module/dependency_resolver.cpp:95-99 | Succeeds exactly when the graph is acyclic; the registered modules come once each, dependencies first |
| DependencyResolvers.DependencyResolver.GetStopOrder | workspace/src/framework/impl/module/dependency_resolver.cpp:101-106 | Succeeds exactly when the graph is acyclic; every dependent comes before what it depends on |
| DependencyResolvers.DependencyResolver.ValidateModule | workspace/src/framework/impl/module/dependency_resolver.cpp:116-159 | True exactly when there is a manifest, the hard dependencies are known and the graph with the module added is acyclic; the graph itself is unchanged |
| DependencyResolvers.TrialAddsTheDependencies | workspace/src/framework/impl/module/dependency_resolver.cpp:121-150 | The trial graph has exactly the old edges and one from the module to each hard dependency |
| DependencyResolvers.WithDependenciesEdges | workspace/src/framework/impl/module/dependency_resolver.cpp:60-92 | Going through a dependency list adds exactly its hard resolved entries |
| DependencyResolvers.ReverseTurnsOrder | workspace/src/framework/impl/module/dependency_resolver.cpp:101-106 | Reversing an order turns dependencies-first into dependents-first |
| DependencyResolvers.Reverse | workspace/src/framework/impl/module/dependency_resolver.cpp:103-104 | The in-place reversal holds the same elements the other way round |
| DependencyResolvers.Registered | workspace/src/framework/impl/module/dependency_resolver.cpp:179-196 | Keeps exactly the registered modules, in the same order |
| Wildcard.WildcardMatch | workspace/src/framework/impl/security/permission.cpp:130-160 | Ends, and is true exactly when the target can be cut into pieces that the pattern's characters cover in turn, a star taking a single '*' when its piece begins with one |
| Wildcard.LeftmostAttempt | workspace/src/framework/impl/security/permission.cpp:136-150 | One backtrack point is enough: trying the last star at the leftmost place loses no match |
| Wildcard.MatchesFromIsAlignment | workspace/src/framework/impl/security/permission.cpp:130-160 | Matching from a position is the existence of an alignment of the rest |
| Wildcard.MatcherIsSound | workspace/src/framework/impl/security/permission.cpp:130-160 | For all targets, whatever the matcher accepts matches the pattern in the ordinary sense |
| Wildcard.MatcherAgreesExactlyOnStarFreeTargets | workspace/src/framework/impl/security/permission.cpp:130-160 | The matcher agrees with the ordinary reading for all patterns exactly when the target has no '*' |
| Wildcard.StarInTargetIsMissed | workspace/src/framework/impl/security/permission.cpp:136 | Every target that holds a '*' has a pattern that matches it and is refused: what stands before its first star, then `*`, or `*?` if nothing follows that star |
| Wildcard.StarMissesATargetThatBeginsWithAStar | workspace/src/framework/impl/security/permission.cpp:136 | Pattern `*` refuses target `*a` |
| Wildcard.PatternCoversItself | workspace/src/framework/impl/security/permission.cpp:130-160 | Every pattern matches itself, stars included |
| CallRuns.EachPromiseIsFulfilledAtMostOnce | workspace/src/framework/impl/ipc/service_proxy.cpp:517-609 | In every run each call's promise is fulfilled at most once, by the thread that removed it: answered by the receive thread, broken by the timeout thread or by disconnections entry and never after the caller removed it |
| CallRuns.OutcomesAreFinal | workspace/src/framework/impl/ipc/service_proxy.cpp:286-609 | What a promise holds, who removed its entry and how a call ended never change |
| CallRuns.RegistrationNeverOverwrites | workspace/src/framework/impl/ipc/service_proxy.cpp:473-507 | Until 2^64 requests have been made, a registration finds its key unused |
| CallRuns.RegistrationOverwritesOnCollision | workspace/src/framework/impl/ipc/service_proxy.cpp:473-507 | Without that limit, a registration finds its key in use exactly when a listed request's number agrees modulo 2^64 and drew the same random number |
| CallRuns.ResponsesReachTheirCalls | workspace/src/framework/impl/ipc/service_proxy.cpp:517-545 | Over a network that drops, repeats and reorders, what a call receives carries its identifier, and what the server sent was sent in answer to that very request |
| CallRuns.WaitersEndAsDecided | workspace/src/framework/impl/ipc/service_proxy.cpp:346-387 | A call that waits ends with the response, or error 4, that its promise got, and gives up only if its promise was still empty |
| CallRuns.RepliesAreTaken | workspace/src/framework/impl/ipc/service_proxy.cpp:517-570 | A response or error taken off the network whose call is listed takes out exactly that entry and is then held for exactly that attempt; any other message changes nothing |
| CallRuns.TakenRepliesReachTheCaller | workspace/src/framework/impl/ipc/service_proxy.cpp:517-545 | Taken, delivered and awaited, a reply is what the waiting caller returns with |
| CallRuns.TimeoutsAreNotEarly | workspace/src/framework/impl/ipc/service_proxy.cpp:349-372 | A call runs out of time, by itself or by the timeout thread, only after at least its timeout |
| CallRuns.OnlyThrownCallsStayBehind | workspace/src/framework/impl/ipc/service_proxy.cpp:286-432 | A finished call is still in the map exactly when nobody removed it, which happens only if sending threw |
| CallRuns.OnlyThreadsHold | workspace/src/framework/impl/ipc/service_proxy.cpp:104-155 | In every run a message is held, and calls are taken out of the map by the receive or the timeout thread, only from connection until the threads have been joined |
| CallRuns.DisconnectReleasesEveryWaiter | workspace/src/framework/impl/ipc/service_proxy.cpp:139-152 | After disconnection has rejected the pending calls no entry is left, and a caller still waits without an outcome exactly when the receive thread holds the answer to its call |
| CallCompletion.WaitersCanBeAnswered | workspace/src/framework/impl/ipc/service_proxy.cpp:315-409 | After any run in which a caller waits and the threads run, any response or error with its identifier can reach it, whatever the receive thread holds; it then returns with that message, its entry and no other is gone, and the other waiters are as they were |
| CallCompletion.WaitersCanGiveUp | workspace/src/framework/impl/ipc/service_proxy.cpp:348-372 | A waiting caller can give up once its timeout has passed since its request was sent; its entry and no other is gone |
| CallCompletion.WaitersCanBeSwept | workspace/src/framework/impl/ipc/service_proxy.cpp:574-609 | The timeout thread can end a waiting call once its timeout has passed since it was registered; calls whose time is not up go on waiting |
| CallCompletion.SweepsHappen | workspace/src/framework/impl/ipc/service_proxy.cpp:574-609 | A round of the timeout thread breaks and erases exactly the waiting calls whose time is up |
| CallCompletion.ProxiesCanConnect | workspace/src/framework/impl/ipc/service_proxy.cpp:104-111 | A proxy that neither runs nor is being disconnected can be connected |
| CallCompletion.ProxiesCanDisconnect | workspace/src/framework/impl/ipc/service_proxy.cpp:113-155 | A running proxy can be disconnected after any run: every waiting call ends with its promise broken, once, the map is empty, and it can be connected again |
| CallCompletion.CallsCanBeMade | workspace/src/framework/impl/ipc/service_proxy.cpp:307-348 | After any run a call can be made: its request goes out and it waits, listed, with nothing else changed |
| CallCompletion.SendingCanFail | workspace/src/framework/impl/ipc/service_proxy.cpp:320-344 | If sending fails, the call ends and the map has no entry for it |
| CallCompletion.SendingCanThrow | workspace/src/framework/impl/ipc/service_proxy.cpp:319-419 | If sending throws, the call ends and its entry stays |
| CallCompletion.NewProxyServesACall | workspace/src/framework/impl/ipc/service_proxy.cpp:104-111 | A run leads from a new proxy to a call that was answered |
| CallRuns.RunKeepsInv | workspace/src/framework/impl/ipc/service_proxy.cpp:286-609 | The invariants on promises, entries, identifiers and times hold in every state of every run |
| CallRuns.RequestIdsCollide | workspace/src/framework/impl/ipc/service_proxy.cpp:473-484 | Two requests share an identifier exactly when their numbers agree modulo 2^64 and their random numbers agree |
| CallProtocol.NextKeepsInv | workspace/src/framework/impl/ipc/service_proxy.cpp:286-609 | Every step of callers, receive thread, timeout thread and disconnection keeps: an entry is live and under its own key; promise, remover and fulfiller agree |
| CallProtocol.BreakAll | workspace/src/framework/impl/ipc/service_proxy.cpp:139-152 | Breaking promises touches exactly the attempts listed under the given keys |
| CallProtocol.LateWhenTimeIsUp | workspace/src/framework/impl/ipc/service_proxy.cpp:582-589 | The timeout thread finds a call late exactly when its timeout has passed, to the nanosecond |
| CallIds.CallIdsDiffer | workspace/src/framework/impl/ipc/service_proxy.cpp:473-484 | Identifiers are equal exactly when counter and random number are |
| CallIds.KeysDiffer | workspace/src/framework/impl/ipc/service_proxy.cpp:24-30 | Two map keys are equal exactly when the identifiers are |
| CallIds.KeyIsHexadecimal | workspace/src/framework/impl/ipc/service_proxy.cpp:24-30 | A key is the identifier in base sixteen, two lower-case digits for each byte, the high one first |
| CallIds.CallIdToString | workspace/src/framework/impl/ipc/service_proxy.cpp:24-30 | The loop writes two lower-case hexadecimal digits for each byte |
| ServiceProxies.ServiceProxy.GenerateCallId | workspace/src/framework/impl/ipc/service_proxy.cpp:473-484 | The identifier holds the counter, which goes up by one modulo 2^64 |
| ServiceProxies.ServiceProxy.RegisterPendingCall | workspace/src/framework/impl/ipc/service_proxy.cpp:486-507 | The call, unfulfilled, is listed under its key; nothing else changes |
| ServiceProxies.ServiceProxy.UnregisterPendingCall | workspace/src/framework/impl/ipc/service_proxy.cpp:509-515 | Exactly the entry under that key goes |
| ServiceProxies.ServiceProxy.HandleResponse | workspace/src/framework/impl/ipc/service_proxy.cpp:517-545 | The entry the response answers goes, its promise gets the response, and no other promise changes |
| ServiceProxies.ServiceProxy.Receive | workspace/src/framework/impl/ipc/service_proxy.cpp:547-570 | A response or an error takes out the entry that it answers and sets its promise; a message of any other type changes nothing |
| ServiceProxies.ServiceProxy.FindTimedOut | workspace/src/framework/impl/ipc/service_proxy.cpp:582-589 | Collects exactly the keys of the calls that are late, each once |
| ServiceProxies.ServiceProxy.SweepTimeouts | workspace/src/framework/impl/ipc/service_proxy.cpp:577-606 | Exactly the calls whose timeout has passed, in nanoseconds, lose their entries and have their promises broken |
| ServiceProxies.ServiceProxy.RejectPending | workspace/src/framework/impl/ipc/service_proxy.cpp:139-152 | Every promise is broken and the map is empty |
| ServiceProxies.PendingCall.Fulfil | workspace/src/framework/impl/ipc/service_proxy.cpp:537-544 | A promise takes its first value and refuses the second |
| ServiceProxies.ServiceProxy.Wait | workspace/src/framework/impl/ipc/service_proxy.cpp:346-349 | While a caller waits, through the map and whatever else it lists, the first event that concerns its call decides |
| ServiceProxies.ServiceProxy.HandleEvent | workspace/src/framework/impl/ipc/service_proxy.cpp:517-609 | An event settles a listed call's promise and takes its entry out, or does neither |
| ServiceProxies.ServiceProxy.Exchange | workspace/src/framework/impl/ipc/service_proxy.cpp:319-353 | After one attempt, sent or not, its entry is gone and the others are as they were |
| ServiceProxies.ServiceProxy.Try | workspace/src/framework/impl/ipc/service_proxy.cpp:299-420 | An attempt asks to be repeated exactly when it went unanswered and a retry is left; either way the counters move as accounted |
| ServiceProxies.ServiceProxy.SendAndReceive | workspace/src/framework/impl/ipc/service_proxy.cpp:286-432 | Result, counters, identifiers used up and what is left in the map are those of the account of the call, exceptions before and after an answer included; active_calls is back where it was |
| ServiceProxies.ServiceProxy.CallOneWay | workspace/src/framework/impl/ipc/service_proxy.cpp:212-240 | A call without an answer is counted once, and keeps the balance of the counters |
| ServiceProxies.AccountBalances | workspace/src/framework/impl/ipc/service_proxy.cpp:286-432 | Every attempt counted is a success, a failure or a retry; at most max_attempts + 1 attempts are made; not being connected counts nothing |
| ServiceProxies.SuccessIsAnAnsweredAttempt | workspace/src/framework/impl/ipc/service_proxy.cpp:286-432 | A call succeeds with some data exactly when an attempt within the limit is answered with it by a non-error response that can be stored and all earlier ones went unanswered; it then reports no retries |
| ServiceProxies.CallEndsAsItsLastAttempt | workspace/src/framework/impl/ipc/service_proxy.cpp:286-432 | For every fate of the last attempt: the code reported, what is counted, the identifiers used up and the entry left behind; the attempts before it count as retries |
| ServiceProxies.ErrorAnswerFailsTheCall | workspace/src/framework/impl/ipc/service_proxy.cpp:388-400 | If an error message in answer to its request is the first event that concerns an attempt, the call fails with that message's code, counts one failure and makes no further attempt |
| ServiceProxies.FirstThatConcernsDecides | workspace/src/framework/impl/ipc/service_proxy.cpp:346-386 | The first response or error in answer, late round or disconnection decides a wait, and without any it times out |
| ServiceProxies.RetriesLeadToTheLastAttempt | workspace/src/framework/impl/ipc/service_proxy.cpp:286-365 | A call is its last attempt and as many retries as there were attempts before it |
| ServiceProxies.FailuresReportTheirRetries | workspace/src/framework/impl/ipc/service_proxy.cpp:286-432 | A call that fails reports as many retries as it made |
| ServiceProxies.SuccessIsReached | workspace/src/framework/impl/ipc/service_proxy.cpp:286-432 | A call succeeds exactly when it reaches an attempt that succeeds, and then reports no retries |
| ServiceProxies.RetryCountIsWrongExactlyAfterALateSuccess | workspace/src/framework/impl/ipc/service_proxy.cpp:410 | The reported number of retries differs from those made exactly when the first attempt goes unanswered and may be repeated, and a later attempt succeeds after others that went unanswered too |
| ServiceProxies.ALateSuccessReportsNoRetry | workspace/src/framework/impl/ipc/service_proxy.cpp:410 | There is such a call: the first request cannot be sent, the second is answered, and the result reports 0 |
| ServiceProxies.ResolutionNext | workspace/src/framework/impl/ipc/service_proxy.cpp:346-378 | The outcome of a wait is the first decisive event's, however the events are split |
| CallStatistics.CountersBalanceAtRest | workspace/src/framework/impl/ipc/service_proxy.cpp:299-424 | With any number of callers interleaved increment by increment: at rest total_calls = successful + failed + retries, active_calls is zero, timeouts are failures |
| CallStatistics.AttemptsAreLimited | workspace/src/framework/impl/ipc/service_proxy.cpp:329-363 | No caller makes more attempts than configured, and active_calls covers every call still to decrement it |
| CallStatistics.NextKeepsInv | workspace/src/framework/impl/ipc/service_proxy.cpp:299-424 | Every single increment or decrement keeps the counters equal to what was counted less what callers still owe |
| CallStatistics.RunKeepsInv | workspace/src/framework/impl/ipc/service_proxy.cpp:299-424 | That holds in every state of every run |
| CallStatistics.CallsCanEnd | workspace/src/framework/impl/ipc/service_proxy.cpp:299-424 | After any run of any number of callers a call can make as many retries as the policy allows and succeed, fail or time out; it adds exactly its attempts, its retries and its one ending to the counters |
| CallStatistics.OneWayCallsCanEnd | workspace/src/framework/impl/ipc/service_proxy.cpp:228-239 | A call without an answer adds one attempt and one success or failure |
| CallStatistics.CallsCanBeRefused | workspace/src/framework/impl/ipc/service_proxy.cpp:299-305 | Without a connection nothing is counted |
| Crc32.ComputeCrc32 | workspace/src/framework/impl/ipc/message.cpp:604-614 | The table-driven loop computes the bit-by-bit reflected CRC-32 of section 8 of RFC 1952 for every input |
| Crc32.CheckValue | workspace/src/framework/impl/ipc/message.cpp:604-614 | The digits 1 to 9 give CBF43926, the check value of this CRC, which fixes initial value, polynomial, bit order and final inversion |
| Messages.ChecksumCheckValue | workspace/src/framework/impl/ipc/message.cpp:482-488 | The same for the checksum of a payload; no payload gives zero |
| Crc32.TableStepFeedsByte | workspace/src/framework/impl/ipc/message.cpp:608-611 | One table step feeds the eight bits of a byte |
| CrcTable.TableHoldsShiftedIndices | workspace/src/framework/impl/ipc/message.cpp:23-60 | Each of the 256 table entries is its index shifted eight times through the polynomial |
| Crc32.FeedByteIsShiftByte | workspace/src/framework/impl/ipc/message.cpp:604-614 | Feeding a byte bit by bit is xoring it in and shifting eight times |
| Crc32.BurstIsDetected | workspace/src/framework/impl/ipc/message.cpp:604-614 | Inputs of one length that differ only within four consecutive bytes have equal checksums exactly when they are equal |
| Crc32.FiveBytesCanHideACorruption | workspace/src/framework/impl/ipc/message.cpp:604-614 | Five bytes are too many: every input has another that differs only within five given bytes and has the same checksum |
| Crc32.WindowsStayApart | workspace/src/framework/impl/ipc/message.cpp:604-614 | From one register, windows of at most four bytes lead to equal registers exactly when they are equal |
| Crc32.FeedKeepsDifference | workspace/src/framework/impl/ipc/message.cpp:604-614 | Feeding the same bytes keeps different registers different |
| Messages.CorruptionIsDetected | workspace/src/framework/impl/ipc/message.cpp:498-516 | A received payload that differs from the sent one within four consecutive bytes passes the check exactly when it is the sent one |
| Messages.ComputeChecksum | workspace/src/framework/impl/ipc/message.cpp:482-488 | Zero for no payload, else the CRC-32 |
| Messages.Message.constructor | workspace/src/framework/impl/ipc/message.cpp:147-152 | A new message has the default header, its type, an identifier and a time |
| Messages.Message.SetPayload | workspace/src/framework/impl/ipc/message.cpp:348-360 | Refused exactly above the size limit; else payload and payload size, and nothing else, change |
| Messages.Message.UpdateChecksum | workspace/src/framework/impl/ipc/message.cpp:490-496 | The header carries the checksum of the payload |
| Messages.Message.VerifyChecksum | workspace/src/framework/impl/ipc/message.cpp:498-516 | True exactly when the header carries the checksum of the payload |
| Messages.Message.Validate | workspace/src/framework/impl/ipc/message.cpp:458-480 | True exactly for a valid header, a size that agrees and, if set, a checksum that agrees |
| Messages.Message.CreateResponse | workspace/src/framework/impl/ipc/message.cpp:549-565 | The response carries the request's identifier and goes back the way it came |
| Varint.ReadEncoded | workspace/src/framework/impl/ipc/protobuf_serializer.cpp:79-112 | Every 64-bit value is read back from its varint, exactly its bytes are consumed, whatever follows |
| Varint.ReadPrefix | workspace/src/framework/impl/ipc/protobuf_serializer.cpp:93-112 | What follows a complete varint does not change how it is read |
| Varint.EncodeShape | workspace/src/framework/impl/ipc/protobuf_serializer.cpp:82-88 | An encoding has the continuation bit on all bytes but the last, and its base 128 digits make the value |
| Varint.NextGroup | workspace/src/framework/impl/ipc/protobuf_serializer.cpp:97-108 | Or-ing in the next seven bits adds the next digit modulo 2^64; only the tenth group can lose bits |
| Varint.OrAddsGroup | workspace/src/framework/impl/ipc/protobuf_serializer.cpp:97-99 | A shifted group of seven bits lies above the digits before it, so or-ing it in adds it |
| Words.OrAddsAbove | workspace/src/framework/impl/ipc/protobuf_serializer.cpp:97-99 | Or-ing a number into a word above the bits already there adds it: nothing is carried |
| Words.OrAddsByte | workspace/src/framework/impl/ipc/serializer.cpp:35-62 | Or-ing the next byte of a number in gives the number of one byte more |
| Varint.Write | workspace/src/framework/impl/ipc/protobuf_serializer.cpp:82-88 | The loop appends the varint |
| Varint.ReadAt | workspace/src/framework/impl/ipc/protobuf_serializer.cpp:93-112 | The loop reads what the specification reads, and fails on an incomplete varint or one of more than ten bytes |
| ProtoBuf.ReadEncodedFields | workspace/src/framework/impl/ipc/protobuf_serializer.cpp:117-170 | Fields come back in order from their encodings |
| ProtoBuf.ReadFieldsAppend | workspace/src/framework/impl/ipc/protobuf_serializer.cpp:279-525 | Reading behind a complete run of fields goes on as if it began there |
| ProtoBuf.UnknownFieldIsIgnored | workspace/src/framework/impl/ipc/protobuf_serializer.cpp:355-369 | A well-formed unknown field at a boundary is one more ignored field, or nothing decodes at all |
| ProtoBuf.AddressCheckIsRight | workspace/src/framework/impl/ipc/protobuf_serializer.cpp:294 | The check of a length against the end of the buffer is right exactly when the address sum does not wrap round; a sum that does always passes and leads backwards |
| ProtoBuf.WellFormedRecordsDoNotStray | workspace/src/framework/impl/ipc/protobuf_serializer.cpp:279-525 | At no address does a record that splits into fields make a sum wrap round |
| ProtoBuf.UnknownFieldMovesTheRest | workspace/src/framework/impl/ipc/protobuf_serializer.cpp:355-369 | With an unknown field inserted a decoder goes astray exactly when it would over what follows, read at a later address |
| ProtoBuf.LongUnknownFieldStrays | workspace/src/framework/impl/ipc/protobuf_serializer.cpp:359-364 | An unknown field whose length is too long leads its decoder astray exactly when the length reaches the end of the addresses; otherwise nothing decodes |
| ProtoBuf.ElevenBytesGoRound | workspace/src/framework/impl/ipc/protobuf_serializer.cpp:359-364 | Eleven bytes that take any decoder at any address back to where it began |
| ProtoBufRecords.UnknownFieldsAreSkipped | workspace/src/framework/impl/ipc/protobuf_serializer.cpp:279-525 | An unknown varint or length-delimited field at any boundary of a header, metadata or error record leaves what its fields decode to, or the failure, unchanged; for sums that wrap round see the next row |
| ProtoBufRecords.UnknownFieldLeavesAtAddress | workspace/src/framework/impl/ipc/protobuf_serializer.cpp:279-525 | The same for a record at an address: the outcome with the field is the outcome without it, but for what follows being read at a later address, and only that can lead the decoder astray |
| ProtoBufRecords.HeaderRoundTrip | workspace/src/framework/impl/ipc/protobuf_serializer.cpp:173-374 | A header comes back from its encoding, whatever was in the header decoded into |
| ProtoBufRecords.MetadataRoundTrip | workspace/src/framework/impl/ipc/protobuf_serializer.cpp:212-461 | Metadata come back, default values included |
| ProtoBufRecords.ErrorRoundTrip | workspace/src/framework/impl/ipc/protobuf_serializer.cpp:252-525 | Error information comes back |
| ProtoBufRecords.SerializeHeader | workspace/src/framework/impl/ipc/protobuf_serializer.cpp:173-207 | Writes the encoding of the header's fields |
| ProtoBufRecords.SerializeMetadata | workspace/src/framework/impl/ipc/protobuf_serializer.cpp:212-247 | Writes the encoding of the metadata's fields, empty texts left out |
| ProtoBufRecords.SerializeErrorInfo | workspace/src/framework/impl/ipc/protobuf_serializer.cpp:252-270 | Writes the encoding of the error's fields |
| ProtoBufRecords.Require | workspace/src/framework/impl/ipc/protobuf_serializer.cpp:294 | The 64-bit check: astray exactly when the address sum wraps round, else through exactly when the bytes are there |
| ProtoBufRecords.DeserializeHeader | workspace/src/framework/impl/ipc/protobuf_serializer.cpp:279-374 | At any address the loop goes astray exactly when the length of a skipped field wraps round before anything else fails, and else decodes what the specification decodes, or fails where it does |
| ProtoBufRecords.DeserializeMetadata | workspace/src/framework/impl/ipc/protobuf_serializer.cpp:379-461 | Likewise for metadata, whose texts fail when their length wraps round |
| ProtoBufRecords.DeserializeErrorInfo | workspace/src/framework/impl/ipc/protobuf_serializer.cpp:466-525 | Likewise for error information |
| ProtoBufMessages.RoundTrip | workspace/src/framework/impl/ipc/protobuf_serializer.cpp:545-704 | A message whose size and checksum agree with its payload comes back: header, metadata, payload and, for an error message, its error information |
| ProtoBufMessages.RoundTripAnywhere | workspace/src/framework/impl/ipc/protobuf_serializer.cpp:545-704 | And it comes back wherever its encoding lies in memory: no address sum wraps round |
| ProtoBufMessages.DecodablePartsDoNotStray | workspace/src/framework/impl/ipc/protobuf_serializer.cpp:593-704 | A message that decodes makes no sum of its decoder, or of its records' decoders, wrap round |
| ProtoBufMessages.PartsAreSpecified | workspace/src/framework/impl/ipc/protobuf_serializer.cpp:593-714 | Decoding with exact sums always has a definite outcome |
| ProtoBufMessages.LongFirstPart | workspace/src/framework/impl/ipc/protobuf_serializer.cpp:631-656 | A first part that is too long is insufficient data exactly when its length does not wrap round; a payload of a wrapping length is a deserialization error, and any other part leads astray |
| ProtoBufMessages.OtherWireTypesAreRefused | workspace/src/framework/impl/ipc/protobuf_serializer.cpp:622-625 | A first part that is not length-delimited is an invalid format, whatever follows |
| ProtoBufMessages.DecodableIsValid | workspace/src/framework/impl/ipc/protobuf_serializer.cpp:593-761 | Every buffer that deserialize accepts is accepted by validate, at every address, with no sum of it wrapping round |
| ProtoBufMessages.ValidDecodesExactly | workspace/src/framework/impl/ipc/protobuf_serializer.cpp:593-761 | What validate leaves open: a buffer that splits into fields decodes exactly when all of them are length-delimited with readable records, there is a header, the payload is within the limit and the header has its checksum |
| ProtoBufMessages.PartsDecodeExactly | workspace/src/framework/impl/ipc/protobuf_serializer.cpp:593-700 | The parts of a buffer decode exactly when each is length-delimited and its record splits into fields of the record's kinds, whatever was decoded before |
| ProtoBufMessages.FirstBadPartDecides | workspace/src/framework/impl/ipc/protobuf_serializer.cpp:605-668 | Behind good parts the first bad one decides which error is reported, whatever follows |
| ProtoBufMessages.ReadablePartsDecide | workspace/src/framework/impl/ipc/protobuf_serializer.cpp:673-704 | When all parts are readable: which error a missing header, a payload too large and a wrong checksum give, in this order, and otherwise every member of the message |
| WireFormat.ProtoHeader | workspace/src/framework/impl/ipc/protobuf_serializer.cpp:173-207 | The bytes of a header record, tags and all |
| WireFormat.ProtoMetadata | workspace/src/framework/impl/ipc/protobuf_serializer.cpp:212-247 | The bytes of a metadata record |
| WireFormat.ProtoError | workspace/src/framework/impl/ipc/protobuf_serializer.cpp:252-270 | The bytes of an error record |
| WireFormat.ProtoMessage | workspace/src/framework/impl/ipc/protobuf_serializer.cpp:545-579 | The bytes of a message around its records |
| ProtoBufMessages.Serialize | workspace/src/framework/impl/ipc/protobuf_serializer.cpp:545-592 | Writes the encoding of the message |
| ProtoBufMessages.Deserialize | workspace/src/framework/impl/ipc/protobuf_serializer.cpp:593-714 | At any address the loop decodes what the specification decodes, with the same error otherwise; where a sum wraps round, a payload or text is a deserialization error and any other length unspecified |
| ProtoBufMessages.Validate | workspace/src/framework/impl/ipc/protobuf_serializer.cpp:716-761 | At any address: true exactly for at least two bytes that split into fields, astray exactly when a sum wraps round before that fails |
| BinaryCodec.RoundTrip | workspace/src/framework/impl/ipc/serializer.cpp:100-256 | A valid, checksummed message comes back from its encoding followed by any bytes, in a buffer whose size fits in 32 bits |
| BinaryCodec.DecodesAsMeantExactly | workspace/src/framework/impl/ipc/serializer.cpp:148-256 | A buffer is decoded as with exact sums exactly when no sum wraps round, or the one over the metadata length does but the metadata are readable and what follows at the wrapped offset lacks data too |
| BinaryCodec.CheckIsRightBelowWord | workspace/src/framework/impl/ipc/serializer.cpp:186-192 | A bounds check is right exactly when its sum is below 2^32; a sum that wraps round always passes and goes on from an offset in front of the one checked |
| BinaryCodec.GoesOnWhereTheSumSays | workspace/src/framework/impl/ipc/serializer.cpp:185-200 | Behind any valid header and readable metadata, said to take their length or more, the rest is decoded at the offset that the sum gives, wrapped or not |
| BinaryCodec.LongMetadataIsAccepted | workspace/src/framework/impl/ipc/serializer.cpp:185-256 | For all valid headers without payload, checksum and error type, all metadata and all metadata lengths within sixty bytes of 2^32, the buffer is accepted with these metadata, although exact sums find insufficient data |
| BinaryCodec.NinetyTwoBytesAreAccepted | workspace/src/framework/impl/ipc/serializer.cpp:185-256 | A response without payload and default metadata, behind a length of 2^32 - 1, are such a buffer |
| BinaryCodec.LongMetadataMayBeRefused | workspace/src/framework/impl/ipc/serializer.cpp:185-206 | With a payload that does not fit behind the wrapped offset, the same buffers are refused as with exact sums |
| BinaryCodec.LongTextIsReadPastTheEnd | workspace/src/framework/impl/ipc/serializer.cpp:76-94 | With a first text that fits the claimed metadata length but not the buffer, a read passes the end |
| BinaryMemory.UnspecifiedExactlyWhenReadPastTheEnd | workspace/src/framework/impl/ipc/serializer.cpp:148-256 | Whatever lies in memory behind the buffer: the outcome is unspecified exactly when a run of the code in that memory reads past the end, and any other outcome is that of the run |
| BinaryMemory.MetadataTells | workspace/src/framework/impl/ipc/serializer.cpp:322-360 | The same for the metadata decoder, told any size, on a block at any offset |
| BinaryMemory.TextsTell | workspace/src/framework/impl/ipc/serializer.cpp:76-94 | The same for a row of texts |
| BinaryCodec.RestReadsRight | workspace/src/framework/impl/ipc/serializer.cpp:202-250 | From an offset inside the buffer, payload, error info and checksum are read as with exact sums exactly when no sum there wraps round |
| BinaryCodec.BlockOpensRight | workspace/src/framework/impl/ipc/serializer.cpp:179-192 | A length-prefixed block opens as with exact sums exactly when both its sums are below 2^32; otherwise exact sums find insufficient data and the code does not |
| BinaryCodec.OpenBlockAt | workspace/src/framework/impl/ipc/serializer.cpp:180-192 | The two 32-bit checks of a block, and the length between them |
| BinaryCodec.MetadataRoundTrip | workspace/src/framework/impl/ipc/serializer.cpp:301-360 | Metadata come back whatever follows and however much is said to follow, and the decoder consumes exactly what the encoder wrote |
| BinaryCodec.ErrorInfoRoundTrip | workspace/src/framework/impl/ipc/serializer.cpp:362-406 | Likewise for error information |
| BinaryCodec.HeaderRoundTrip | workspace/src/framework/impl/ipc/serializer.cpp:100-170 | The fixed-width header comes back whatever follows |
| BinaryCodec.ReadTextBack | workspace/src/framework/impl/ipc/serializer.cpp:65-94 | A length-prefixed text comes back and its reader stops behind it |
| BinaryCodec.TextsBack | workspace/src/framework/impl/ipc/serializer.cpp:65-94 | Any number of texts come back in order, whatever follows and however much is said to follow |
| BinaryCodec.TextComesBackExactly | workspace/src/framework/impl/ipc/serializer.cpp:65-94 | A text comes back from its encoding exactly when its length fits in 32 bits; longer ones are written with a length that is cut |
| WireFormat.BinaryHeader | workspace/src/framework/impl/ipc/serializer.cpp:100-116 | Every member of the header at its place in the 56 bytes, least significant byte first |
| WireFormat.BinaryRecords | workspace/src/framework/impl/ipc/serializer.cpp:301-374 | Metadata and error information: texts behind their lengths and numbers, in order |
| WireFormat.BinaryMessage | workspace/src/framework/impl/ipc/serializer.cpp:116-138 | The message around its records |
| BinaryCodec.WriteInteger | workspace/src/framework/impl/ipc/serializer.cpp:25-52 | The loop appends the lowest bytes, least significant first |
| BinaryCodec.ReadInteger | workspace/src/framework/impl/ipc/serializer.cpp:35-62 | The loop reads the number in the bytes |
| BinaryCodec.Serialize | workspace/src/framework/impl/ipc/serializer.cpp:100-146 | Writes the encoding of any message, lengths cut to 32 bits as the code cuts them |
| BinaryCodec.Deserialize | workspace/src/framework/impl/ipc/serializer.cpp:148-256 | Decodes what the specification decodes, with the same error otherwise, every check and every step adding modulo 2^32, and is unspecified where that reads past the end |
| BinaryCodec.SerializeMetadata | workspace/src/framework/impl/ipc/serializer.cpp:301-320 | Writes the encoding of the metadata |
| BinaryCodec.SerializeErrorInfo | workspace/src/framework/impl/ipc/serializer.cpp:362-374 | Writes the encoding of the error information |
| BinaryCodec.DeserializeMetadata | workspace/src/framework/impl/ipc/serializer.cpp:322-360 | Decodes what the specification decodes from a block said to be of any size, says how much it consumed, and goes astray where it reads past the end |
| BinaryCodec.DeserializeErrorInfo | workspace/src/framework/impl/ipc/serializer.cpp:376-406 | Likewise for error information |
| FilterLayouts.PrintedIsReadBack | workspace/src/framework/impl/core/event_filter.cpp:127-268 | Parsing the printed form of a filter tree of any depth gives the same tree, `*` read as the presence test |
| FilterLayouts.LayoutIsReadBack | workspace/src/framework/impl/core/event_filter.cpp:75-268 | However a filter tree is written, with blanks round every parenthesis, name and value and any white space between children, it is read as it is meant |
| FilterLayouts.ComparisonWithBlanks | workspace/src/framework/impl/core/event_filter.cpp:217-268 | A comparison with blanks at all four places |
| FilterLayouts.OperatorIsFirstOfTheList | workspace/src/framework/impl/core/event_filter.cpp:217-250 | In any text the operator is the first of the list != <= >= < > = that occurs, where it first occurs |
| FilterLayouts.CloseLengthIsTheFirst | workspace/src/framework/impl/core/event_filter.cpp:107-125 | The scanner finds the first place at which as many parentheses have been closed as were open, if there is one |
| FilterLayouts.NothingOrNotEnclosed | workspace/src/framework/impl/core/event_filter.cpp:127-148 | Blanks only are no filter; other text must begin and end with parentheses |
| FilterLayouts.NothingInside | workspace/src/framework/impl/core/event_filter.cpp:127-148 | Parentheses with blanks only are refused |
| FilterLayouts.NoOperands | workspace/src/framework/impl/core/event_filter.cpp:150-215 | A logical operator without operands is refused, NOT for the missing parenthesis |
| FilterLayouts.OperandNotEnclosed | workspace/src/framework/impl/core/event_filter.cpp:150-215 | An operand that is not in parentheses is refused |
| FilterLayouts.OperandStaysOpen | workspace/src/framework/impl/core/event_filter.cpp:150-215 | An operand whose parenthesis stays open is refused |
| FilterLayouts.NotAComparison | workspace/src/framework/impl/core/event_filter.cpp:217-250 | A text without `=`, `<` and `>` is refused |
| FilterLayouts.NoName | workspace/src/framework/impl/core/event_filter.cpp:252-262 | A comparison without a name is refused |
| FilterLayouts.BodiesAreReadBack | workspace/src/framework/impl/core/event_filter.cpp:150-195 | A run of written children, with white space between them, is read in order |
| FilterLayouts.BodyIsBalanced | workspace/src/framework/impl/core/event_filter.cpp:107-125 | The parenthesis scanner passes over a written filter as a whole, at any depth |
| FilterLayouts.ComparisonReadBack | workspace/src/framework/impl/core/event_filter.cpp:217-268 | Name, operator and value of a comparison are told apart, and the blanks round them go |
| FilterLayouts.OperatorFound | workspace/src/framework/impl/core/event_filter.cpp:217-250 | Between plain texts the operator search finds the operator written there, two-character operators first |
| EventFilter.FindMatchingParen | workspace/src/framework/impl/core/event_filter.cpp:107-125 | The scanner finds the parenthesis that closes the one given, or none when there is none |
| EventFilter.SkipWhitespace | workspace/src/framework/impl/core/event_filter.cpp:100-105 | Skips exactly the white space |
| EventFilter.ParseFilter | workspace/src/framework/impl/core/event_filter.cpp:127-215 | The recursive parser ends on every input with the tree, or the error, of the specification |
| EventFilter.ParseOperands | workspace/src/framework/impl/core/event_filter.cpp:150-195 | The loop over children reads them as the specification does |
| EventFilter.ParseChildAt | workspace/src/framework/impl/core/event_filter.cpp:150-195 | The child at a position, and the place behind it |
| PoolRuns.CountersDescribeThePool | workspace/src/framework/impl/ipc/connection_pool.cpp:209-504 | In every run total = created - destroyed = number of connections, at most the limit; active and idle count the connections in use and not; no counter is below zero; no more are active than acquisitions have not been given back |
| PoolRuns.ConnectionsAreNotShared | workspace/src/framework/impl/ipc/connection_pool.cpp:48-127 | In every run no two live handles share a transport, and a connection is in use exactly when a live handle holds it |
| PoolRuns.AcquisitionsReturnOnce | workspace/src/framework/impl/ipc/connection_pool.cpp:62-92 | However handles are moved, no acquisition is given back twice |
| PoolRuns.NextKeepsInv | workspace/src/framework/impl/ipc/connection_pool.cpp:209-504 | Acquiring, releasing, moving handles, prepopulating, both evictions and closing all keep the invariant |
| PoolRuns.RunKeepsInv | workspace/src/framework/impl/ipc/connection_pool.cpp:209-504 | The invariant holds in every state of every run |
| PoolCompletion.PeakIsTheMost | workspace/src/framework/impl/ipc/connection_pool.cpp:671-675 | In every run the peak is the highest number of connections that the pool has had |
| PoolCompletion.PoolsCanBeFilled | workspace/src/framework/impl/ipc/connection_pool.cpp:400-429 | After any run the pool can be filled up to its limit with idle connections, the others staying as they are |
| PoolCompletion.HandlesCanBeHad | workspace/src/framework/impl/ipc/connection_pool.cpp:209-261 | After any run in which a connection is free or the pool below its limit, one can be acquired that no live handle holds; none is made if one is free |
| PoolCompletion.HandlesCanBeGivenBack | workspace/src/framework/impl/ipc/connection_pool.cpp:48-92 | What a live handle holds can be given back: nobody holds or uses it then, and it is in the pool exactly when it was there and is kept |
| PoolCompletion.CallersCanTimeOut | workspace/src/framework/impl/ipc/connection_pool.cpp:246-251 | A caller whose time is up leaves one more timeout and nothing else |
| PoolRuns.IdleEvictionStopsAtMinimum | workspace/src/framework/impl/ipc/connection_pool.cpp:707-741 | Idle eviction never goes below the minimum size, and spares a connection idle too long only at the minimum |
| PoolRuns.IdleEvictionKeeps | workspace/src/framework/impl/ipc/connection_pool.cpp:707-741 | Idle eviction takes no connection in use |
| PoolRuns.ExpiredEvictionKeeps | workspace/src/framework/impl/ipc/connection_pool.cpp:743-773 | Nor does eviction by age |
| PoolLaws.ReturnedConnection | workspace/src/framework/impl/ipc/connection_pool.cpp:460-500 | A returned transport's connection becomes idle, used last now, when connected and not failing a test; otherwise it alone is closed; and every counter |
| PoolLaws.HealthyReturnIsReused | workspace/src/framework/impl/ipc/connection_pool.cpp:460-500 | After a healthy return a connection is to be had, and the next try hands out an existing one and creates none |
| PoolLaws.UnknownTransport | workspace/src/framework/impl/ipc/connection_pool.cpp:493-500 | A transport that the pool does not know changes nothing but the count of failed tests |
| PoolLaws.TryTakesWhatIsFree | workspace/src/framework/impl/ipc/connection_pool.cpp:229-279 | A try hands out an existing connection if one is free: it alone changes, and the counters of it |
| PoolLaws.TryMakesWhatIsMissing | workspace/src/framework/impl/ipc/connection_pool.cpp:229-279 | With none free, a new connection below the limit, or nothing |
| PoolLaws.RoundRobinSelects | workspace/src/framework/impl/ipc/connection_pool.cpp:544-560 | Round robin selects the first free connection from the next index on, going round |
| PoolLaws.OtherStrategiesSelect | workspace/src/framework/impl/ipc/connection_pool.cpp:562-628 | The least used, the least recently used, or any free connection; of equals the first |
| PoolLaws.WhatIsTested | workspace/src/framework/impl/ipc/connection_pool.cpp:544-646 | Failed tests are counted once for each idle connection looked at: round robin stops at the one it selects |
| PoolLaws.ExpiredEvictionExactly | workspace/src/framework/impl/ipc/connection_pool.cpp:743-773 | Eviction by age closes exactly the idle connections whose lifetime has passed, in nanoseconds |
| PoolLaws.IdleEvictionExactly | workspace/src/framework/impl/ipc/connection_pool.cpp:707-741 | Idle eviction closes as many overdue connections as there are above the minimum, the first ones, and keeps the others in order |
| PoolLaws.PrepopulationAdds | workspace/src/framework/impl/ipc/connection_pool.cpp:400-429 | Prepopulation adds idle connections of what the factory made, up to the limit, and counts them |
| PoolWaits.AcquireSucceedsExactly | workspace/src/framework/impl/ipc/connection_pool.cpp:225-261 | At most two tries, a second one not before the deadline; a caller gets a connection exactly when one is to be had at the first try, or, if it waits and is not stopped, at the second |
| PoolWaits.AcquireCounts | workspace/src/framework/impl/ipc/connection_pool.cpp:209-281 | One acquisition or one timeout is counted, in the pool that the caller finds last; nothing when the pool does not run or stops |
| PoolWaits.TrySucceedsExactly | workspace/src/framework/impl/ipc/connection_pool.cpp:229-238 | A try gives a connection exactly when an available one is there or the pool is below its limit and the factory makes one |
| PoolWaits.WakesInBetweenChangeNothing | workspace/src/framework/impl/ipc/connection_pool.cpp:254 | However often a waiting caller is woken before, and whatever the pool held then, only the wake at shutdown or the deadline counts |
| PoolWaits.ReleaseInTimeIsMissed | workspace/src/framework/impl/ipc/connection_pool.cpp:254 | A connection is released in time and the waiting caller notified, and still it leaves without one, as somebody else has it at the deadline |
| PoolWaits.BestExists | workspace/src/framework/impl/ipc/connection_pool.cpp:524-628 | Whatever the strategy, some connection comes first among the available ones |
| PoolWaits.WaitUntil | workspace/src/framework/impl/ipc/connection_pool.cpp:254 | Waiting leaves the pool as it is at the wake that ends it, and says whether that was shutdown |
| PoolWaits.Acquire | workspace/src/framework/impl/ipc/connection_pool.cpp:209-281 | The loop ends after at most two rounds with the outcome specified, timeouts counted |
| ConnectionPools.EndpointPool.constructor | workspace/src/framework/impl/ipc/connection_pool.cpp:36-43 | A new pool is empty and all its counters are zero |
| ConnectionPools.EndpointPool.ValidateConnection | workspace/src/framework/impl/ipc/connection_pool.cpp:630-646 | A connection is usable when connected and, if validated, valid; only a failed validation is counted |
| ConnectionPools.EndpointPool.FindRoundRobin | workspace/src/framework/impl/ipc/connection_pool.cpp:544-560 | Finds the first available connection in turn, or none exactly when none is available; counts the failures met on the way |
| ConnectionPools.EndpointPool.FindLeastLoaded | workspace/src/framework/impl/ipc/connection_pool.cpp:562-582 | Finds the first of the least used available connections |
| ConnectionPools.EndpointPool.FindRandom | workspace/src/framework/impl/ipc/connection_pool.cpp:584-606 | Finds some available connection |
| ConnectionPools.EndpointPool.FindLeastRecentlyUsed | workspace/src/framework/impl/ipc/connection_pool.cpp:608-628 | Finds the first of the available connections not used for longest |
| ConnectionPools.EndpointPool.Find | workspace/src/framework/impl/ipc/connection_pool.cpp:524-542 | Finds by the configured strategy |
| ConnectionPools.EndpointPool.Take | workspace/src/framework/impl/ipc/connection_pool.cpp:549-556 | Marks the connection and hands out its transport |
| ConnectionPools.EndpointPool.CreateNewConnection | workspace/src/framework/impl/ipc/connection_pool.cpp:648-680 | A factory's transport joins the pool in use, and the peak follows |
| ConnectionPools.EndpointPool.TryAcquire | workspace/src/framework/impl/ipc/connection_pool.cpp:229-279 | An existing connection if one is available, else a new one below the limit, else none |
| ConnectionPools.EndpointPool.CountTimeout | workspace/src/framework/impl/ipc/connection_pool.cpp:240-251 | Only the timeout counter moves |
| ConnectionPools.EndpointPool.ReleaseConnection | workspace/src/framework/impl/ipc/connection_pool.cpp:449-504 | A returned transport becomes idle, or is closed if it fails; one the pool no longer knows changes no counter but validation failures |
| ConnectionPools.EndpointPool.EvictIdleConnections | workspace/src/framework/impl/ipc/connection_pool.cpp:707-741 | The erasing loop leaves what the specification keeps, and the counters with it |
| ConnectionPools.EndpointPool.EvictExpiredConnections | workspace/src/framework/impl/ipc/connection_pool.cpp:743-773 | Likewise for age |
| ConnectionPools.EndpointPool.CloseAll | workspace/src/framework/impl/ipc/connection_pool.cpp:356-383 | Every connection is destroyed and counted, and none is left |
| ConnectionPools.EndpointPool.Prepopulate | workspace/src/framework/impl/ipc/connection_pool.cpp:400-429 | Adds idle connections until the wanted number or the limit is reached |
| ConnectionPools.RotatedAt | workspace/src/framework/impl/ipc/connection_pool.cpp:545-547 | The index computed by round robin is the connection in turn |
| ConnectionPools.PooledConnection.Release | workspace/src/framework/impl/ipc/connection_pool.cpp:86-92 | The transport goes back the first time only |
| ConnectionPools.PooledConnection.MoveFrom | workspace/src/framework/impl/ipc/connection_pool.cpp:70-80 | Move assignment gives back what was held and empties the source; from itself it does nothing |
| CircuitRuns.AdmittedOperationsWaited | workspace/src/framework/impl/ipc/circuit_breaker.cpp:157-198 | Every admitted operation begins at least the open timeout after every earlier opening, overlapping operations and forced openings included |
| CircuitRuns.RejectionsAreEarly | workspace/src/framework/impl/ipc/circuit_breaker.cpp:161-198 | An operation is admitted exactly when the circuit is not open or its timeout has passed |
| CircuitRuns.OpeningsBalance | workspace/src/framework/impl/ipc/circuit_breaker.cpp:373-410 | open_count = half_open_count, plus one exactly while open; open_count is the number of openings; closings never exceed half-openings |
| CircuitRuns.ClosedMeansBelowThreshold | workspace/src/framework/impl/ipc/circuit_breaker.cpp:242-354 | A closed circuit meets the opening condition only while nothing was recorded since it closed; without a rolling window its consecutive failures are below the threshold |
| CircuitRuns.OutcomeOpensExactly | workspace/src/framework/impl/ipc/circuit_breaker.cpp:242-354 | For every history: a recorded outcome opens the circuit exactly when it is a failure while half-open; or, while closed, when the latest outcomes hold failures enough, whatever the last one was; or, without a window, when the unbroken run of failures in the trace reaches the threshold |
| CircuitRuns.SuccessOpensExactly | workspace/src/framework/impl/ipc/circuit_breaker.cpp:260-268 | A success opens the circuit exactly when it is closed, there is a window, and the outcomes still in it are enough and failed often enough |
| CircuitRuns.ClosesExactly | workspace/src/framework/impl/ipc/circuit_breaker.cpp:270-277 | For every history: an event closes the circuit exactly when it records a success while half open, and the successes recorded since it became so, counted from the trace, reach the threshold |
| CircuitRuns.HalfOpensExactly | workspace/src/framework/impl/ipc/circuit_breaker.cpp:161-173 | It becomes half open exactly when an execution begins and the timeout has passed since it opened |
| CircuitRuns.ForcingOpens | workspace/src/framework/impl/ipc/circuit_breaker.cpp:87-93 | Forcing opens any circuit; outcomes of an open circuit, and executions begun while it is not open, leave it |
| CircuitRuns.RunsSinceTheLastChange | workspace/src/framework/impl/ipc/circuit_breaker.cpp:242-340 | The consecutive counters are the lengths of the unbroken runs in the trace since the circuit last changed, and the time of that change is kept |
| CircuitRuns.StatisticsCountTheHistory | workspace/src/framework/impl/ipc/circuit_breaker.cpp:373-410 | Rejections, openings, half-openings and closings are counted, and the times of the last opening and closing kept |
| CircuitRuns.SuccessMayReopen | workspace/src/framework/impl/ipc/circuit_breaker.cpp:260-268 | There is such a history: a circuit that a failure opened and a success closed is opened again by the next success |
| CircuitRuns.WindowHoldsLatestOutcomes | workspace/src/framework/impl/ipc/circuit_breaker.cpp:250-257 | The window holds exactly the latest outcomes and the rate is their share of failures; the totals count all outcomes |
| Clocks.LimitReached | workspace/src/framework/impl/ipc/circuit_breaker.cpp:167-173 | Whole milliseconds reach a limit exactly when the time does |
| CircuitBreakers.CircuitBreaker.constructor | workspace/src/framework/impl/ipc/circuit_breaker.cpp:16-26 | A valid configuration gives a closed circuit |
| CircuitBreakers.ValidateConfig | workspace/src/framework/impl/ipc/circuit_breaker.cpp:145-155 | The first of three faults of a configuration is reported, and no other configuration is refused |
| CircuitBreakers.CircuitBreaker.Enter | workspace/src/framework/impl/ipc/circuit_breaker.cpp:161-198 | The admission half of an execution, with its half-opening and its rejection count |
| CircuitBreakers.CircuitBreaker.Execute | workspace/src/framework/impl/ipc/circuit_breaker.cpp:157-236 | Admission and completion without anything between; an exception that is not caught records nothing |
| CircuitBreakers.CircuitBreaker.HandleSuccess | workspace/src/framework/impl/ipc/circuit_breaker.cpp:242-292 | The state after a success |
| CircuitBreakers.CircuitBreaker.HandleFailure | workspace/src/framework/impl/ipc/circuit_breaker.cpp:294-340 | The state after a failure |
| CircuitBreakers.CircuitBreaker.Transition | workspace/src/framework/impl/ipc/circuit_breaker.cpp:373-410 | A transition resets the consecutive counters and counts itself; to the same state it does nothing |
| CircuitBreakers.CircuitBreaker.PushOutcome | workspace/src/framework/impl/ipc/circuit_breaker.cpp:250-257 | The window moves on by one outcome and the rate follows |
| CircuitBreakers.CircuitBreaker.FailureRate | workspace/src/framework/impl/ipc/circuit_breaker.cpp:356-371 | The loop counts the failures in the window |
| CircuitBreakers.CircuitBreaker.ShouldOpenCircuit | workspace/src/framework/impl/ipc/circuit_breaker.cpp:342-354 | Decides by the window if there is one, else by consecutive failures |
| CircuitBreakers.CircuitBreaker.ForceOpenCircuit | workspace/src/framework/impl/ipc/circuit_breaker.cpp:87-93 | Opens the circuit unless it is open |
| ModuleRegistries.ModuleRegistry.FindCompatibleModule | workspace/src/framework/impl/module/module_registry.cpp:138-156 | Agrees with a scan of all modules by identifier: null exactly when none of the name is in range, else one of the highest version in range |
| ModuleRegistries.ModuleRegistry.FindCompatibleModules | workspace/src/framework/impl/module/module_registry.cpp:158-176 | Exactly the compatible modules, each once, highest version first |
| ModuleRegistries.ModuleRegistry.GetModule | workspace/src/framework/impl/module/module_registry.cpp:85-95 | A module of the highest version of the name, or null exactly when there is none |
| ModuleRegistries.ModuleRegistry.GetModuleVersion | workspace/src/framework/impl/module/module_registry.cpp:97-112 | A module of exactly that version, or null exactly when there is none |
| ModuleRegistries.ModuleRegistry.RegisterModule | workspace/src/framework/impl/module/module_registry.cpp:19-43 | Fails for null and for a known identifier; otherwise the module is listed under both keys and every list stays complete, sorted and free of duplicates |
| ModuleRegistries.ModuleRegistry.UnregisterModule | workspace/src/framework/impl/module/module_registry.cpp:45-72 | False exactly for an unknown identifier; otherwise the module, and only it, goes from both indexes |
| ModuleRegistries.ModuleRegistry.IndexesAgree | workspace/src/framework/impl/module/module_registry.cpp:19-72 | A name is kept exactly while a registered module has it, with each such module once and the highest version first |
| ModuleRegistries.ModuleRegistry.GenerateModuleId | workspace/src/framework/impl/module/module_registry.cpp:202-205 | Identifiers are handed out in ascending order |
| ModuleRegistries.ModuleRegistry.constructor | workspace/src/framework/impl/module/module_registry.cpp:8-13 | An empty registry is valid |
| ModuleRegistries.SortByVersion | workspace/src/framework/impl/module/module_registry.cpp:207-212 | Some permutation sorted by descending version |
| ModuleRegistries.Removed | workspace/src/framework/impl/module/module_registry.cpp:61-64 | Exactly the other modules, in the same order |
| ModuleRegistries.BestVersionIsUnique | workspace/src/framework/impl/module/module_registry.cpp:138-156 | All modules that may be returned have one version, so the order of ties does not show in it |
| Versions.OrderIsAntisymmetric | workspace/src/framework/impl/utils/version.cpp:79-114 | Versions compare equal exactly when they are the same, and turning a comparison round changes its sign |
| Versions.OrderIsTransitive | workspace/src/framework/impl/utils/version.cpp:79-114 | The order is transitive |
| Versions.FieldsDecideInTurn | workspace/src/framework/impl/utils/version.cpp:79-114 | Major, minor and patch number decide in this order whatever comes behind them, and with equal numbers the qualifier: none is above any, others in dictionary order |
| Versions.ReleasesAreAbovePreReleases | workspace/src/framework/impl/utils/version.cpp:94-113 | A release is above each of its pre-releases, and a longer qualifier above its beginnings |
| Versions.TextOrderIsLexicographic | workspace/src/framework/impl/utils/version.cpp:105-113 | A text is below another exactly when it is a proper beginning of it or has the smaller character where they first differ |
| Versions.TextOrderIsTransitive | workspace/src/framework/impl/utils/version.cpp:105-113 | Qualifiers are ordered lexicographically |
| Versions.RangeMeaning | workspace/src/framework/impl/utils/version_range.cpp:117-145 | A version is in a range exactly when it is between the bounds, a bound itself only if included |
| Versions.RangesHaveNoGaps | workspace/src/framework/impl/utils/version_range.cpp:117-145 | A version between two that are in a range is in it |
| Versions.MakeVersion | workspace/src/framework/impl/utils/version.cpp:12-17 | Negative numbers are refused |

## Left out

- ShmQueue.MessageQueue.PopFromQueue: the waits, the timeouts and the decoding of the received bytes into a message are not modelled; every way in which a wait ends without data is one result.
- BinaryCodec.RoundTrip: stated for lengths that fit in 32 bits, since longer ones are cut by the encoder and do not come back (`BinaryCodec.TextComesBackExactly`); the header is written field by field, without the padding of a particular compiler.
- BinaryCodec.Deserialize: what the code makes of bytes behind the end of the buffer is left to the memory (`BinaryMemory.Execute`); running out of memory for a text or payload is not modelled.
- ProtoBufMessages.Deserialize: what follows a pointer sum that wraps round is undefined in C++ and not modelled (`Unspecified`, `Astray`), but for texts and payloads, whose assignment throws; buffers lie in the lower half of the addresses.
- PoolWaits.AcquireSucceedsExactly: a pool that is started again while somebody still waits for its shutdown is excluded, and the average acquire time left out; a wait is taken to end.
- ProtoBufMessages.RoundTrip: lengths beyond 64 bits are excluded; `expiration` counts microseconds, so what a finer clock holds below that is not in the model.
- ProtoBufRecords.MetadataRoundTrip: `expiration` in microseconds, as for whole messages.
- ServiceProxies.ServiceProxy.SendAndReceive: one caller's view, with the other threads' actions as events during its wait; other callers at the same time are in CallProtocol and CallStatistics.
- PoolRuns.CountersDescribeThePool: one endpoint of a running pool with a fixed configuration; endpoints share nothing else, and a pool that is not running hands out nothing. A factory is taken to make a transport that nobody holds yet. `stop`, `resetStats` and `updateConfig`, which break the equations on purpose, are no steps.
- CircuitRuns.OpeningsBalance: `reset`, `forceHalfOpen`, `resetStatistics` and `updateConfig` are no steps, since they break the equations on purpose.
- CircuitRuns.WindowHoldsLatestOutcomes: the failure rate is an exact fraction, not a rounded double.
- CallStatistics.CountersBalanceAtRest: counters are unbounded numbers; `resetStats` is no step.
- Versions.RangeMeaning: ranges as values; reading them, and versions, from text by regular expressions is left out.
- Wrap-around of statistics counters and of module identifiers, and the running averages of response and acquire times.
- Locks as such: a section under a lock is one step.
- Connecting to a proxy's transport, two disconnections of one proxy at the same time, its automatic reconnection, callbacks, and the delay formulas of retries.
- `evaluate` of the event filter: a direct recursion over the tree that parsing produces, with no property beyond its own cases.
- The CRC of the shared-memory transport, whose table is not part of the source text, and the FlatBuffers serializer, which decodes error information only in part.
- The service registry: its ranking is unstable on ties and it gives up its lock in mid-operation; the module registry shows the same kind of index.
- Other permission code, other message setters, sockets, semaphores, mapped memory, gRPC, sandboxes, manifests, configuration, commands and logging: input and output, or direct assignments.
