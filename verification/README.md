# Verified model of the proxy core

A Dafny model of the parts of this SOCKS5-over-SSH proxy that hold state or parse bytes, with proofs of
what they are for. `dafny verify dfyconfig.toml` checks the whole project. One module models one component:

- **WebSocket connection** (`Bytes`, `WsFrame`, `WsWire`, `WsStream`, `WsConn`, `WsMessages`, `WsWriters`). `WsFrame` is the frame
  format of RFC 6455 sections 5.2 and 5.3 as this code reads and writes it; `WsConn.Conn` is the object with
  its read buffer and in-place unmasking; `WsWriters` lets any number of goroutines write, answer pings and
  close, one atomic step at a time. Main results: a byte stream written in frames is the byte stream read,
  for all fragmentations, buffer sizes and interleaved control frames; the wire holds whole frames, with the
  one exception exhibited by `CloseCanTearAFrame`; what was acknowledged before Close was called arrives.
- **Routing** (`Text`, `Spelling`, `SuffixTrie`, `DomainList`, `ListLines`, `RuleList`, `RuleKinds`, `RuleEngine`). A mutable trie over reversed
  labels refines "the longest listed dotted suffix"; a compiled rule set refines a declarative reading of the
  rule list (`RuleList.Decides`), also while other goroutines replace the rules.
- **Workers** (`Lifecycle`, `Reconnect`, `WorkerManager`). The run loop, its stopper, the parent context and
  the network as one transition system whose steps are the single atomic loads, stores and calls of the code;
  worker objects that move by those steps only; and reconciliation of the worker map with a configuration.
- **Connection accounting** (`ConnAccounting`). Dials, relays, deferred closes and foreign closes of tracked
  connections, with `sync.Once` as a lock that is taken, held through the counter update and finished.
- **Load balancers** (`Balancers`). Round robin, least connections and adaptive with hysteresis.
- **Payload templates** (`Template`, `TemplateLaws`, `TemplateTexts`). Scanner and segment builder, with compositionality
  (exactly when it holds) and both round trips.
- **SOCKS5 and the relay** (`Socks5`, `Socks5Conn`, `SocksBytes`, `Relay`). Message formats of RFC 1928 and RFC 1929, the
  whole session of one client, and the two copy loops in every interleaving.

Definitions that methods and statements share, such as which opcodes carry data or how a score weighs, are fixed
by laws that write opcodes, bytes, weights and texts out: `WsWire`, `WsMessages`, `SocksBytes`, `Spelling`,
`ListLines`, `RuleKinds`, `TemplateTexts` and the lemmas named InNumbers hold them. Safety statements about
transition systems come with lemmas that the systems get somewhere (`AttemptConnects`, `WriteCompletes`,
`SessionGetsThrough`, `RelayFinishes`).

The network, the dialer, random numbers, clocks, map iteration order and goroutine scheduling are inputs or
nondeterministic choices. Concurrency is a set of transition systems: a legal run is any sequence of enabled
actions, and the theorems hold of the state after every legal run.

Four properties one might expect are false of the code. Each is shown to fail by a lemma and then stated with
the exact condition under which it holds:

- templates compose at `[split]` (`OpenBracketDoesNotCompose`, `BuildComposesIffClosed`);
- the wire ends in whole frames after `Close` (`CloseCanTearAFrame`, `TornIffClosedMidFrame`);
- a SOCKS reply can be read back (`NilAddressIsUnreadable`, `ReplyReadableIff`); failing needs a dialer that
  hands out a connection whose local TCP address is nil, which the program's own dialer does not;
- a balancer returns one of the workers offered (`KeptWorkerMayBeElsewhere`, `ElsewhereIff`); a worker missing
  from the map at the time of a call has been stopped, and a stopped worker is not kept, so failing needs a
  dial that collected its list before a worker joined the map and selects after another dial chose that worker.

Where the repository's README describes `[raw]` more simply, the model follows the code, which adds headers.

## Model

| member | source | states |
|---|---|---|
| Bytes.XorInvolution | pkg/dataplane/websocket/conn.go:223-227 | applying the same mask byte twice gives the byte back |
| Bytes.XorBit | pkg/dataplane/websocket/conn.go:223-227 | each bit of the result is the sum without carry of the two bits in its place |
| Bytes.BigEndianRoundTrip | pkg/dataplane/websocket/conn.go:257-264 | an extended length that fits its 2 or 8 bytes is read back as written |
| Bytes.BigEndianAt | pkg/dataplane/websocket/conn.go:257-264 | the byte i places from the end is the digit of weight 256^i: most significant first |
| WsFrame.MaskUndo | pkg/dataplane/websocket/conn.go:223-227 | the reader's unmasking inverts the writer's masking for every key and length |
| WsFrame.LengthRoundTrip | pkg/dataplane/websocket/conn.go:193-207 | each of the three length forms the writer picks is read back as the same length, in front of any body |
| WsFrame.RoundTrip | pkg/dataplane/websocket/conn.go:185-287 | reading a written frame followed by anything gives the same opcode and payload and leaves exactly what followed, for every key, opcode below 16 and length below 2^63 |
| WsFrame.WholeConsumes | pkg/dataplane/websocket/conn.go:185-230 | a frame read takes at least two bytes off the input, leaves a true suffix, and could have been written |
| WsFrame.DecodeExtend | pkg/dataplane/websocket/conn.go:185-230 | bytes after a frame never change how it is read |
| WsFrame.StrictPrefixFails | pkg/dataplane/websocket/conn.go:185-221 | every strict prefix of the bytes of a frame, masked or not, fails for lack of input |
| WsFrame.FramesOfEncodeAll | pkg/dataplane/websocket/conn.go:185-287 | a sequence of frames is read back as that sequence, whatever undecodable bytes follow |
| WsFrame.FramesAppend | pkg/dataplane/websocket/conn.go:185-230 | reading on past bytes that end at a frame boundary gives the frames of both parts |
| WsFrame.FramesOfPrefix | pkg/dataplane/websocket/conn.go:185-230 | a stream cut anywhere yields a prefix of its frames |
| WsWire.MaskBit | pkg/dataplane/websocket/conn.go:273-276 | a masked byte is, bit by bit, the payload byte and key byte i mod 4 added without carry |
| WsWire.WireReads | pkg/dataplane/websocket/conn.go:185-230 | masked or not, in any of the three length forms, with any FIN and RSV bits: the opcode is the low four bits, the payload is read and the rest left |
| WsWire.WriterOnWire | pkg/dataplane/websocket/conn.go:246-276 | what is written, byte by byte: 128 + opcode, the mask bit with the shortest length form, the key, the masked payload |
| WsWire.CutOnWire | pkg/dataplane/websocket/conn.go:187-221 | a cut frame ends cleanly exactly where the header, length, key or payload was due to start |
| WsWire.StreamReads | pkg/dataplane/websocket/conn.go:185-230 | a stream of wire frames is read as their meanings in order |
| WsStream.DataOfConcat | pkg/dataplane/websocket/conn.go:161-171 | the byte stream of two runs of frames is the two byte streams joined, whatever control frames lie between |
| WsStream.StopsAtClose | pkg/dataplane/websocket/conn.go:177-178 | a reader that stops at the first close it meets has consumed exactly the frames up to the first close |
| WsStream.DataBeforeClose | pkg/dataplane/websocket/conn.go:161-178 | what is sent before the first close is all of the stream, and nothing after it is |
| WsStream.DataOfPrefix | pkg/dataplane/websocket/conn.go:161-178 | a reader that sees fewer frames is given a prefix of the bytes |
| WsMessages.FragmentsAreTheText | pkg/dataplane/websocket/conn.go:161-171 | a message whose first piece goes under opcode 1 or 2 and the rest under 0, with frames of any opcode but 0, 1, 2 and 8 between, carries its pieces joined |
| WsMessages.PongsAreAnswers | pkg/dataplane/websocket/conn.go:172-174 | a frame of opcode 9 is answered by one of opcode 10 with its payload, and no other frame is |
| WsMessages.ReadOfStream | pkg/dataplane/websocket/conn.go:177-178 | a stream ends at the first frame of opcode 8, whatever follows |
| WsConn.Conn.Unmask | pkg/dataplane/websocket/conn.go:223-227 | the in-place loop leaves the masked payload in the array |
| WsConn.Conn.ReadFull | pkg/dataplane/websocket/conn.go:187-218 | a full buffer from the front of the input, or end of file when nothing was there and unexpected end otherwise |
| WsConn.Conn.ReadLength | pkg/dataplane/websocket/conn.go:193-207 | the length announced by the 7-bit, 16-bit or 64-bit form, or the error of a cut one |
| WsConn.Conn.ReadPayload | pkg/dataplane/websocket/conn.go:209-229 | key and payload as the frame format says, with the same error where the input ends |
| WsConn.Conn.ReadFrame | pkg/dataplane/websocket/conn.go:185-230 | the object's frame reader agrees with the format in result, error and bytes left, on every input |
| WsConn.Conn.Serve | pkg/dataplane/websocket/conn.go:146-171 | what the caller gets followed by what stays buffered is exactly what there was, and nothing stays unless the buffer is full |
| WsConn.Conn.ReadBuffered | pkg/dataplane/websocket/conn.go:146-154 | buffered bytes are served first and without touching the wire |
| WsConn.Conn.NextPayload | pkg/dataplane/websocket/conn.go:156-181 | all frames skipped carry no data, pings among them are answered by one pong each with their payload, and the loop stops at the first payload, close or error |
| WsConn.Conn.Read | pkg/dataplane/websocket/conn.go:144-183 | keeps the stream invariant: bytes returned so far plus buffered bytes are the payloads of the data frames consumed; a nonempty buffer gets a byte or an error; errors come only with an empty buffer, at a close or at the end |
| WsConn.Conn.BuildFrame | pkg/dataplane/websocket/conn.go:246-276 | the appended header and masked bytes are those of the frame format under some key |
| WsConn.Conn.WriteFrame | pkg/dataplane/websocket/conn.go:242-287 | one more whole frame on the wire after whole frames, or nothing and an error on a closed socket |
| WsConn.Conn.Write | pkg/dataplane/websocket/conn.go:232-240 | a nonempty write is one binary frame with the caller's bytes, an empty one is nothing |
| WsConn.Conn.Close | pkg/dataplane/websocket/conn.go:289-292 | sends a close frame with status 1000 if the socket is open, and closes it |
| WsConn.ReadToEnd | pkg/dataplane/websocket/conn.go:144-183 | with nonempty buffers of any sizes a read loop ends, and by then has been given exactly the data before the first close and has answered the pings among it |
| WsMessages.ReadMessages | pkg/dataplane/websocket/conn.go:144-183 | messages in any pieces, with control frames anywhere between and every frame in any wire form, read with any buffer sizes: the loop returns the pieces joined and answers every ping |
| WsWriters.MutualExclusionKept | pkg/dataplane/websocket/conn.go:243-244 | at every step the threads between lock and unlock are the holder of writeMu, one at most |
| WsWriters.WireKept | pkg/dataplane/websocket/conn.go:278-286 | every step of every writer keeps the output as whole frames and then at most one header |
| WsWriters.OutputIsWholeFrames | pkg/dataplane/websocket/conn.go:242-292 | under every interleaving the output decodes to the frames completed, in order; it ends at a frame boundary whenever the socket is open and the lock free; a closed socket has a close frame on the wire |
| WsWriters.AcknowledgedFramesAreOnTheWire | pkg/dataplane/websocket/conn.go:232-287 | no frame acknowledged to a thread is lost, duplicated or reordered against the thread's others |
| WsWriters.WriteCompletes | pkg/dataplane/websocket/conn.go:242-292 | whenever the socket is open and the lock free, a thread's own steps are enabled in turn, put its whole frame out, acknowledge it and free the lock; after a close frame it can close the socket |
| WsWriters.PeerReads | pkg/dataplane/websocket/conn.go:144-292 | a peer reading the output of any run gets exactly the data of the frames before the first close |
| WsWriters.CompletedBeforeCloseArrives | pkg/dataplane/websocket/conn.go:144-292 | however a run goes on from a moment without a close frame on the wire, its peer gets the data of all frames completed up to then |
| WsWriters.AcknowledgedBeforeCloseArrives | pkg/dataplane/websocket/conn.go:232-292 | every frame acknowledged to a thread before anybody called Close is among those the peer gets, in the thread's order |
| WsWriters.CutStreamIsPrefix | pkg/dataplane/websocket/conn.go:144-292 | a peer whose stream is cut anywhere gets a prefix of that data |
| WsWriters.CloseCanTearAFrame | pkg/dataplane/websocket/conn.go:289-292 | a run in which closing the socket without the lock leaves another thread's header on the wire with no body |
| WsWriters.TornIffClosedMidFrame | pkg/dataplane/websocket/conn.go:278-292 | in every run that closes the socket, a frame stays torn if and only if some thread was between its two socket writes at that step |
| Text.NormalIdempotent | pkg/control/domain/trie.go:59 | trimming and lower-casing twice changes nothing, so the engine and the trie may both do it |
| Text.JoinSplit | pkg/control/domain/trie.go:40 | splitting a name at dots loses nothing |
| Text.SplitJoin | pkg/control/domain/trie.go:40 | splitting is injective: label lists without dots come back from the joined name |
| Text.DottedSuffixIsLabelSuffix | pkg/control/domain/trie.go:40-49 | a name is or ends in a dot and `s` exactly when its labels end in the labels of `s` |
| Text.PrefixIsDottedSuffix | pkg/control/domain/trie.go:43-49 | prefix of reversed labels is the same as dotted string suffix |
| Text.PrefixIsKey | pkg/control/domain/trie.go:66-77 | every nonempty prefix walked by a lookup is the key of some dotted suffix of the query |
| Text.KeyInjective | pkg/control/domain/trie.go:40-49 | different names have different keys |
| Text.LongerSuffixMoreLabels | pkg/control/domain/trie.go:66-77 | among dotted suffixes of one name, longer in characters is longer in labels |
| Spelling.LowerIff | pkg/control/domain/trie.go:35 | lower-casing makes two texts equal exactly when they differ in letter case only, and leaves no capitals |
| Spelling.TrimOf | pkg/control/domain/trie.go:35 | trimming takes the white space around a text and nothing of the text |
| Spelling.NormalOf | pkg/control/domain/trie.go:59 | a name in any case with any white space around it is normalised to its small letters |
| Spelling.DottedSuffixIff | pkg/control/domain/trie.go:40-49 | a dotted suffix of a name is the name or what follows one of its dots |
| Spelling.ContainsIff | pkg/control/domain/manager.go:84-88 | a keyword is contained exactly when the name is something, the keyword, something |
| SuffixTrie.LongestPrefixIsLongest | pkg/control/domain/trie.go:63-79 | the answer is the value at the longest stored nonempty prefix of the key, none if none is stored |
| SuffixTrie.EntryIsLatest | pkg/control/domain/trie.go:51-52 | a name is stored exactly when it was inserted, with the target of its latest insertion |
| SuffixTrie.LookupIsLongestSuffix | pkg/control/domain/trie.go:31-80 | over any insertions a lookup finds exactly the longest inserted name that equals the query or ends it after a dot, with its latest target |
| SuffixTrie.GraftShape | pkg/control/domain/trie.go:45-47 | linking a fresh node under an unused label keeps the nodes a finite tree with disjoint subtrees |
| SuffixTrie.MarkStored | pkg/control/domain/trie.go:51-52 | marking a node changes the value at its own path and no other |
| SuffixTrie.NothingBelow | pkg/control/domain/trie.go:68-71 | where a child is missing nothing is stored under any longer key, so the lookup may stop |
| SuffixTrie.DomainTrie.Child | pkg/control/domain/trie.go:44-48 | the walk reaches the node one label further, made if need be, and stores nothing |
| SuffixTrie.DomainTrie.Graft | pkg/control/domain/trie.go:45-47 | a new node joins the tree and the map from keys to targets stays as it was |
| SuffixTrie.DomainTrie.Mark | pkg/control/domain/trie.go:51-52 | sets the target at one path and keeps the tree |
| SuffixTrie.DomainTrie.Insert | pkg/control/domain/trie.go:31-53 | the heap stays a tree and the map it stands for changes at one key, the reversed labels of the normalised name; an empty name changes nothing |
| SuffixTrie.DomainTrie.Match | pkg/control/domain/trie.go:55-80 | returns the value at the longest stored prefix of the reversed query, and the empty string with false if there is none |
| ListLines.OneNameListed | pkg/control/domain/trie.go:31-80 | one listed name, however spelled, answers for itself and its subdomains, however spelled, and for nothing else |
| DomainList.TrieOrKeywordIsCovers | pkg/control/domain/manager.go:73-91 | trie hit or contained keyword holds exactly when some line of the file covers the name |
| DomainList.Manager.LoadListFile | pkg/control/domain/manager.go:32-71 | a load puts a matcher for exactly the file's lines in force, or on any error leaves the old one |
| DomainList.Manager.ReadList | pkg/control/domain/manager.go:39-66 | the scanner loop builds a matcher whose trie and keywords are those of the lines, skipping blank and comment lines |
| DomainList.Manager.Match | pkg/control/domain/manager.go:73-91 | found exactly for the names covered by the lines in force, with the list's target |
| ListLines.LineMeaning | pkg/control/domain/manager.go:44-56 | an empty line and a # line cover nothing, keyword: and a word every name containing it in any case, any other line its name and subdomains |
| RuleList.TableIsLast | pkg/control/rule/engine.go:67-73 | an exact-match table holds, for a value, the outbound of its last rule, and nothing for a value without one |
| RuleList.DefaultIsLast | pkg/control/rule/engine.go:60-88 | the default is the last match rule's outbound, DIRECT without one |
| RuleList.CidrsHitAlike | pkg/control/rule/engine.go:74-85 | some compiled address rule contains an address exactly when some valid rule of the list does |
| RuleList.FirstHitIsFirstRule | pkg/control/rule/engine.go:104-110 | the first compiled address rule that hits is the first of the list in configuration order |
| RuleList.SuffixLookup | pkg/control/rule/engine.go:123-125 | a trie lookup is the longest suffix rule that fits, the latest among equals, and misses only if none fits |
| RuleList.InNetIff | pkg/control/rule/engine.go:104-106 | a network contains an address exactly when family and leading prefix bits agree: everything of the family for /0, one address for the full prefix |
| RuleKinds.KindsBySpelling | pkg/control/rule/engine.go:63-89 | the five rule kinds are their names in any letter case |
| RuleKinds.EachKindYieldsToTheOneBefore | pkg/control/rule/engine.go:96-134 | where all speak, the exact rule decides, then the domain list, the suffix rule, the keyword rule, the match rule, and DIRECT |
| RuleKinds.AddressesGoByNetworks | pkg/control/rule/engine.go:103-111 | an address goes by the first listed network that contains it, else the match rule, whatever name rules say |
| RuleEngine.RuntimeRuleSet.Compile | pkg/control/rule/engine.go:63-89 | one more rule keeps the set in agreement with its rule list |
| RuleEngine.Engine.CompileAndApply | pkg/control/rule/engine.go:55-94 | a set of its own for exactly the given rules is put in force, and older sets are not touched |
| RuleEngine.Engine.MatchAddress | pkg/control/rule/engine.go:104-111 | for an address: the first valid containing rule in order, else the default |
| RuleEngine.Engine.MatchKeyword | pkg/control/rule/engine.go:127-131 | some keyword the host contains, with the outbound of its last rule, and none only if there is none |
| RuleEngine.Engine.MatchExact | pkg/control/rule/engine.go:113-115 | the last exact rule for the name, and none only if there is none |
| RuleEngine.Engine.MatchSuffix | pkg/control/rule/engine.go:123-125 | the longest suffix rule that fits, the latest among equals, and none only if none fits |
| RuleEngine.Engine.MatchName | pkg/control/rule/engine.go:113-133 | for a name, with rules replaced before any of its steps, the lookup equals the reading of the one rule set it was given |
| RuleEngine.Engine.Match | pkg/control/rule/engine.go:96-134 | undisturbed, the lookup equals the declarative reading of the rules in force together with the domain list's answer |
| RuleEngine.Engine.MatchWhileReloading | pkg/control/rule/engine.go:91-134 | however often rules are replaced before the pointer load and before each table read of a lookup, it answers by the whole rule set in force at the load |
| Lifecycle.StatusKept | pkg/control/worker/worker.go:78-146 | while nobody has cancelled, the position of the run loop determines the status at every step |
| Lifecycle.TransportsKept | pkg/control/worker/worker.go:148-232 | at every step of loop, stopper and network, client, connection and open transports fit the loop's position |
| Lifecycle.StepKeepsInv | pkg/control/worker/worker.go:78-232 | every atomic step of every party keeps the whole invariant |
| Lifecycle.UsableHasClient | pkg/control/worker/worker.go:132-135 | in every run a worker reporting Connected, Ready or Running and not cancelled has a client to dial through |
| Lifecycle.AtMostOneTransport | pkg/control/worker/worker.go:148-232 | in every run at most one transport is open, held by the running connect or by w.conn, and none once the loop is gone |
| Lifecycle.AttemptCountsFailures | pkg/control/worker/worker.go:103-132 | when a wait is computed, attempt is the number of earlier consecutive failures since the last success |
| Lifecycle.AttemptConnects | pkg/control/worker/worker.go:106-137 | from the top of an uncancelled loop, in every state the invariant allows, an attempt without failures runs through Connecting, Connected, Ready and Running to monitoring a client over a new transport, failures back at zero |
| Lifecycle.StartConnects | pkg/control/worker/worker.go:78-137 | so does a worker just started |
| Lifecycle.LostConnectionIsRetried | pkg/control/worker/worker.go:137-145 | a lost connection is cleaned up and the loop is at its top again, Degraded, with nothing held |
| Lifecycle.FailedAttemptIsRetried | pkg/control/worker/worker.go:115-130 | a failed attempt, wherever it failed, leaves nothing open, is counted, and after its wait the loop is at its top again, Reconnecting |
| Lifecycle.KeepaliveKeeps | pkg/control/worker/worker.go:383-392 | an answered keepalive changes nothing |
| Lifecycle.StopAnnounces | pkg/control/worker/worker.go:89-99 | stopping a worker whose loop is not running passes Stopping and ends at Stopped with everything released |
| Lifecycle.StopIsFinal | pkg/control/worker/worker.go:89-99 | once Stop has returned, in that and every later state the worker is Stopped, no loop is live, client and connection are nil and nothing is open |
| Lifecycle.CancelledLoopEnds | pkg/control/worker/worker.go:106-146 | a cancelled loop is never stuck, and each of its steps but a successful keepalive brings its end closer |
| Lifecycle.CancelledLoopIsShort | pkg/control/worker/worker.go:106-146 | a cancelled loop takes at most nineteen more steps besides successful keepalives, so Stop can return |
| Reconnect.Backoff.Duration | pkg/control/worker/reconnect.go:22-39 | a wait is never above the cap nor below a base within it, and never above the base doubled attempt times; it is the random share of that ceiling rounded down, or the base if that is more |
| Reconnect.Backoff.Grow | pkg/control/worker/reconnect.go:23-30 | leaving the doubling loop early gives the same as doubling to the end and capping |
| Reconnect.DoubledIsPower | pkg/control/worker/reconnect.go:23-30 | the ceiling before the cap is the base times two to the power of the attempt |
| Reconnect.DelayAfterFailure | pkg/control/worker/worker.go:115-121 | in every run, the wait after a failure that follows k others lies between the base and the smaller of base doubled k times and the cap |
| WorkerManager.SSHWorker.Start | pkg/control/worker/worker.go:78-87 | counts as the one start of the worker's run |
| WorkerManager.SSHWorker.Stop | pkg/control/worker/worker.go:89-99 | returns, whatever the loop and the network do meanwhile, with the worker stopped for good and everything released |
| WorkerManager.SSHWorker.WaitForLoop | pkg/control/worker/worker.go:96 | waiting for a cancelled loop ends with the loop gone |
| WorkerManager.Manager.Remove | pkg/control/worker/manager.go:30-36 | one worker is stopped for good and leaves the map, every other stays as it is |
| WorkerManager.Manager.Spawn | pkg/control/worker/manager.go:38-45 | a new worker, started once, joins the map and replaces nobody |
| WorkerManager.Manager.SyncWithConfig | pkg/control/worker/manager.go:26-46 | afterwards the ids are exactly the configured ones, workers present before are the same objects, others are new, and everyone ever spawned is running in the map or stopped for good |
| WorkerManager.Manager.StopAll | pkg/control/worker/manager.go:58-66 | the map is empty and every worker ever spawned is stopped for good |
| WorkerManager.Serve | pkg/control/worker/manager.go:26-66 | after any sequence of reloads and shutdowns the ids are those of the last request, and each worker ever spawned was started exactly once and is in the map or stopped |
| WorkerManager.ExecSnoc | pkg/control/worker/worker.go:78-146 | a worker object that takes one more step is in the state of the longer run, so theorems about runs hold of objects |
| ConnAccounting.StagesKept | pkg/dataplane/socks5/conn.go:62-77 | at every step a handler's position fits its connection and its own close call |
| ConnAccounting.CallsKept | pkg/control/outbound/manager.go:144-151 | at every step at most one caller is inside the once of a connection, and has decremented exactly if it is past that line |
| ConnAccounting.ConnsKept | pkg/control/outbound/manager.go:138-151 | at every step a connection's count is given back once, and a finished once means its inner connection is closed |
| ConnAccounting.BalanceKept | pkg/control/outbound/manager.go:124-151 | every step changes each counter by as much as it changes what the counter counts |
| ConnAccounting.Conservation | pkg/control/outbound/manager.go:124-151 | in every reachable state each worker's counter is its in-flight dials plus its connections not yet closed, and not negative, under concurrent and repeated closes |
| ConnAccounting.QuietMeansZero | pkg/dataplane/socks5/conn.go:62-77 | with no handler in progress every counter is zero and every connection is closed underneath, although relay and deferred close both close it |
| ConnAccounting.DialCounts | pkg/control/outbound/manager.go:124-136 | a dial that succeeds counts one and hands over an open connection |
| ConnAccounting.FailedDialUncounts | pkg/control/outbound/manager.go:124-130 | a dial that fails leaves the count as it was and no connection |
| ConnAccounting.SessionGetsThrough | pkg/dataplane/socks5/conn.go:62-77 | from any state, a whole session with its two closes can run to its end, closes the connection, and gives back exactly what it took |
| Balancers.RoundRobinBalancer.Select | pkg/control/outbound/balancer/strategies.go:20-34 | the counter moves on, modulo 2^64, exactly when some worker is ready, and then picks the ready worker at its remainder |
| Balancers.ReadyListIsFilter | pkg/control/outbound/balancer/strategies.go:21-26 | the ready list is the list, in order, without the workers neither Running nor Ready |
| Balancers.RoundRobinIsFair | pkg/control/outbound/balancer/strategies.go:32-33 | over any window two positions are picked equally often up to one, and over k rounds exactly k times each |
| Balancers.SelectWindow | pkg/control/outbound/balancer/strategies.go:20-34 | in any window of calls with an unchanged ready list and no wrap-around, whatever else changes between calls, the picks go round the list in order, counts of two positions differ by at most one, and over k rounds are exactly k |
| Balancers.BestIsFirstOfLeast | pkg/control/outbound/balancer/strategies.go:42-60 | the scan's result is the first ready worker of least score, and none only if no ready score is below the initial bound |
| Balancers.LeastConnBalancer.Select | pkg/control/outbound/balancer/strategies.go:42-61 | returns the first worker that is Running or Ready with the fewest connections among those that are |
| Balancers.SelectAndDial | pkg/control/outbound/manager.go:112-125 | over any serial run of select-then-increment with a fixed ready set and no closes, whatever lists, latencies and other statuses each call sees, the spread never exceeds the larger of its initial value and 1, and each worker has gained exactly the times it was picked |
| Balancers.AdaptiveHysteresisBalancer.Select | pkg/control/outbound/balancer/strategies.go:77-107 | result and memory are those of one step of the hysteresis rule |
| Balancers.SelectionInNumbers | pkg/control/outbound/balancer/strategies.go:77-107 | one step returns the remembered worker, if Running within the cooldown with ten times its connections plus its latency, less the ratio, below the least such sum, or else the first of least sum, remembered with the time |
| Balancers.OneConnectionIsTenMilliseconds | pkg/control/outbound/balancer/strategies.go:81-89 | one connection more outweighs up to nine milliseconds, ties with ten, which list order decides, and yields to eleven |
| Balancers.HysteresisOverRuns | pkg/control/outbound/balancer/strategies.go:77-107 | after any run, a worker returned is running or ready with the least score or, less the ratio, below it; within the cooldown a change means the old one stopped running or was no longer below the least |
| Balancers.NoChangeWhileSteady | pkg/control/outbound/balancer/strategies.go:95-101 | while the remembered worker qualifies every call returns it and none renews the cooldown |
| Balancers.MemoryIsLastResult | pkg/control/outbound/balancer/strategies.go:104-106 | the remembered worker is always the last one returned |
| Balancers.ElsewhereIff | pkg/control/outbound/balancer/strategies.go:95-101 | the worker returned was not offered if and only if the remembered one qualifies and was not offered |
| Balancers.KeptWorkerMayBeElsewhere | pkg/control/outbound/balancer/strategies.go:95-101 | two calls in a row, the second of which returns a worker offered only to the first |
| Template.ParseTemplate | pkg/control/payload/parser.go:31-84 | the scanning loop yields the parse of the whole pattern |
| Template.BuildSegments | pkg/control/payload/builder.go:28-62 | the building loop yields the segments of the token list |
| Template.SegmentsAreRuns | pkg/control/payload/builder.go:28-62 | the segments are the nonempty expansions of the token runs between splits, in order |
| Template.SegmentsTogether | pkg/control/payload/builder.go:28-62 | the segments joined are the full expansion: nothing is lost or added at the splits |
| TemplateTexts.BuiltTextIsWhatItSays | pkg/control/payload/builder.go:28-62 | what is built, joined, is the pattern with each of the nine tags and the alias, in any case, replaced by its text for the target, unknown brackets and other text kept |
| TemplateTexts.SegmentsAreWhatGroupsSay | pkg/control/payload/builder.go:28-62 | a pattern of groups between splits builds one segment for each group that says anything, with exactly what it says |
| TemplateLaws.ParseComposes | pkg/control/payload/parser.go:38-81 | after a pattern with no bracket left open, parsing goes on as if started anew, up to merging adjacent literals |
| TemplateLaws.SegmentsOfMerge | pkg/control/payload/builder.go:32-60 | merging adjacent literals does not change what is built |
| TemplateLaws.UnclosedSwallows | pkg/control/payload/parser.go:39-41 | past an open bracket the split becomes literal text |
| TemplateLaws.BuildComposesIffClosed | pkg/control/payload/builder.go:28-62 | building a, a split and b gives the segments of a then those of b if and only if a leaves no bracket open |
| TemplateLaws.OpenBracketDoesNotCompose | pkg/control/payload/parser.go:39-41 | a single open bracket before the split is a pattern that does not compose |
| TemplateLaws.PatternIsItsSpans | pkg/control/payload/parser.go:38-81 | every pattern is the concatenation of its tokens' source spans, literals verbatim and nonempty, tags up to case and alias |
| TemplateLaws.ParsePrinted | pkg/control/payload/parser.go:38-81 | printing and parsing any token list whose literals are nonempty, bracket-open-free and never adjacent gives it back |
| Socks5.RequestRoundTrip | pkg/dataplane/socks5/conn.go:151-198 | reading inverts the encoding of section 4 of RFC 1928 for all three address types, takes exactly its bytes, and ignores version and RSV |
| Socks5.WholeIsEncoded | pkg/dataplane/socks5/conn.go:151-198 | nothing but an encoded request is read as one |
| Socks5.ParseExtends | pkg/dataplane/socks5/conn.go:151-198 | bytes after a request never change how it is read |
| Socks5.RequestPrefixIsShort | pkg/dataplane/socks5/conn.go:151-198 | every truncation of a request is rejected |
| Socks5.AddressInjective | pkg/dataplane/socks5/protocol.go:43-45 | the dialled address determines host and port, colons in the host or not |
| Socks5.DecimalReads | pkg/dataplane/socks5/protocol.go:44 | the printed port reads in base ten as the port, with no leading zero unless it is zero |
| Socks5.AddressReads | pkg/dataplane/socks5/protocol.go:43-45 | what is before the last colon of the dialled address is the host, and what is after it reads as the port |
| Socks5.To4SameIp | pkg/dataplane/socks5/protocol.go:64-65 | the four-byte form put in a reply is the same address |
| Socks5.ReplyRoundTrip | pkg/dataplane/socks5/protocol.go:47-74 | a reply decodes, in front of anything, to its code, the same address and the port modulo 2^16 |
| Socks5.ReplyNamesTheAddress | pkg/dataplane/socks5/protocol.go:47-74 | for a TCP address the client reads that very address and port |
| Socks5.ReplyReadableIff | pkg/dataplane/socks5/protocol.go:53-68 | a reply can be decoded exactly when the bound address has four or sixteen bytes |
| Socks5.NilAddressIsUnreadable | pkg/dataplane/socks5/protocol.go:53-68 | a nil address is one such: no client can decode that reply |
| Socks5.NegotiatesIff | pkg/dataplane/socks5/conn.go:80-149 | a client is let in exactly when its bytes are a greeting offering the required method and, if both name and password are configured, a login with them; credentials of 256 bytes or more let nobody in |
| Socks5.NegotiatesAccepted | pkg/dataplane/socks5/conn.go:80-149 | an acceptable negotiation is read to its last byte, whatever follows, and answered by selection and success |
| Socks5Conn.SendReply | pkg/dataplane/socks5/protocol.go:47-74 | writes the encoded reply, or as much of it as the socket takes and an error |
| Socks5Conn.ContainsMethod | pkg/dataplane/socks5/conn.go:200-207 | true exactly for a method offered |
| Socks5Conn.ConnHandler.Authenticate | pkg/dataplane/socks5/conn.go:80-114 | succeeds exactly when the negotiation does and its answers were all written, leaving the bytes after it; otherwise sends what the socket takes of the refusal |
| Socks5Conn.ConnHandler.HandleUserPassAuth | pkg/dataplane/socks5/conn.go:116-149 | succeeds exactly for the configured name and password in a whole login whose answer was written |
| Socks5Conn.ConnHandler.ReadDest | pkg/dataplane/socks5/conn.go:163-189 | the address field by its type, or failure on truncation and unknown types |
| Socks5Conn.ConnHandler.ReadRequest | pkg/dataplane/socks5/conn.go:151-198 | succeeds exactly on a whole request and leaves the bytes after it |
| Socks5Conn.ConnHandler.Relay | pkg/dataplane/transport/pipe.go:57-58 | the relay's own closes come at its end, client first, after what it passes back |
| Socks5Conn.ConnHandler.Connect | pkg/dataplane/socks5/conn.go:53-77 | the steps and bytes after a request: one reply, a dial only for CONNECT, relaying and its closes only after a success reply the socket took, and the deferred close of a dialled connection |
| Socks5Conn.ConnHandler.Handle | pkg/dataplane/socks5/conn.go:39-78 | events and bytes of the whole session on every input, every point at which writing fails and every dialer, and the client connection closed |
| Socks5Conn.AskedIff | pkg/dataplane/socks5/conn.go:42-51 | a session acts on a request exactly when the client's bytes are an accepted negotiation followed by it |
| Socks5Conn.DialsIff | pkg/dataplane/socks5/conn.go:42-62 | an address is dialled exactly when a negotiation that succeeded and was fully answered is followed by a CONNECT request for it, and nothing else was sent before |
| Socks5Conn.TruncatedSessionDialsNothing | pkg/dataplane/socks5/conn.go:80-198 | a session cut anywhere before the end of its request dials nothing |
| Socks5Conn.AtMostOneReply | pkg/dataplane/socks5/conn.go:53-73 | a refused client is sent one of four short answers; an accepted one the welcome and at most one reply, which decodes to the right code, address and port with nothing left |
| SocksBytes.SessionInBytes | pkg/dataplane/socks5/conn.go:39-78 | byte for byte: greeting, login and request of any client, the selection, status and reply it gets, and the one address dialled for it |
| SocksBytes.RefusalsInBytes | pkg/dataplane/socks5/conn.go:96-148 | a greeting without the wanted method is answered 5, 255; a wrong name or password 5, 2, 1, 1 |
| SocksBytes.ReplyIsEncoded | pkg/dataplane/socks5/protocol.go:47-74 | the reply byte for byte, for IPv4, mapped and IPv6 addresses, no address and a malformed one |
| Socks5Conn.RelayFollowsSuccess | pkg/dataplane/socks5/conn.go:62-77 | relaying starts exactly when the dial succeeded and the whole success reply was taken, right after that reply, which names the local address the dialer gave |
| Socks5Conn.ClosingOrder | pkg/dataplane/socks5/conn.go:40-77 | a session that relays closes client, remote, remote, client; one that dialled but could not reply closes the remote, then the client; any other the client alone; so a dialled connection is always closed and the client closed last |
| Relay.CopyStream | pkg/dataplane/transport/pipe.go:19-49 | for all read sizes, empty reads and read errors the destination gets in order the bytes taken up to the first error, as far as it accepts them, counted exactly, at most one buffer is lost, and a TCP write side is closed |
| Relay.TakenByReads | pkg/dataplane/transport/pipe.go:27-44 | read by read, what a loop takes: as much as asked for, a buffer or what is left, also when an error comes with the bytes, and nothing after an error |
| Relay.CopyInvKept | pkg/dataplane/transport/pipe.go:22-44 | every read and write keeps: bytes read are bytes written plus the chunk in the buffer |
| Relay.Fidelity | pkg/dataplane/transport/pipe.go:15-61 | in every interleaving and chunking each destination has a prefix of its source, the counter is its length, at most one buffer is missing, and nothing read is missing after a loop without a failed write |
| Relay.StreamForwarded | pkg/dataplane/transport/pipe.go:22-49 | from any point of reading, a loop without failures forwards all that is left, counts it, half-closes and is done |
| Relay.RelayFinishes | pkg/dataplane/transport/pipe.go:15-61 | both streams can arrive whole, both counters right and both sockets closed |
| Relay.ClosesAfterBothLoops | pkg/dataplane/transport/pipe.go:51-58 | the wait group counts the loops whose deferred Done has not run, hence the caller closes the sockets only after both loops ended, and nothing is read, or written to a half-closed side, afterwards |
| Relay.DirectionsAreIndependent | pkg/dataplane/transport/pipe.go:51-55 | in any interleaving each direction is in the state its own steps alone give |

## Left out

- WsConn.Conn.WriteFrame: socket write errors other than a closed socket, partial writes and a failing random source are not modelled, because the framing promise is stated for writes that succeed.
- WsConn.Conn.ReadFrame: the FIN and RSV bits are ignored, as in the code; a 64-bit length with the top bit set is a run-time panic in the model, and running out of memory on a large length is not modelled.
- WsConn.Conn.Read: one reader at a time; the code has no lock on the read side either.
- Lifecycle.UsableHasClient: one Start and one Stop per worker, as the worker manager's lock guarantees; what dials do with the client afterwards is in the SSH library.
- Lifecycle.StopIsFinal: the concurrent system is modelled on values, one step per atomic operation; the worker objects of WorkerManager move by those steps only.
- Lifecycle.CancelledLoopIsShort: assumes that blocking calls such as dials and keepalives return; their timeouts are not modelled.
- WorkerManager.Manager.SyncWithConfig: configurations are sets of ids, since a surviving worker keeps its old settings; health reports are left out.
- ConnAccounting.Conservation: modelled on values, one step per atomic operation; a handler dials through a worker once, and counters are unbounded integers.
- RuleEngine.Engine.Match: states the rule property for a bare host; `net.ParseIP` and `net.ParseCIDR` are arbitrary functions; which of several contained keywords wins is left open, as map order is.
- RuleEngine.Engine.MatchWhileReloading: rule set and domain list are separate snapshots; domain lists are not reloaded during the lookup.
- DomainList.Manager.LoadListFile: one load of one file, whose lines are given; a later load replaces an earlier one.
- SuffixTrie.DomainTrie.Insert: the read-write lock of the trie is not modelled; calls are atomic.
- Text.NormalIdempotent: ASCII letters and white space only.
- Balancers.SelectWindow: windows in which the 64-bit counter wraps around are not covered, since the remainders jump there.
- Balancers.AdaptiveHysteresisBalancer.Select: real and unbounded integer arithmetic for floats and 64-bit scores, one snapshot of the workers per call, calls one at a time; workers are names that stand for objects, as in ConnAccounting.
- Reconnect.Backoff.Duration: real arithmetic for floats.
- Template.ParseTemplate: characters stand for bytes; lower-casing is ASCII.
- Socks5Conn.ConnHandler.Handle: the relay of a session is one write of what it passes back, since Relay states the two-way copy; addresses are printed by an arbitrary function; a write fails at a byte position chosen in advance.
- Relay.Fidelity: counters are unbounded integers; idle deadlines are read and write errors that may come at any time.
- Relay.CopyStream: a write that takes all its bytes and still reports an error is in the interleaved model only.
- Dispatch of a dial on the outbound's type, the rebuilding of the outbound map and GetWorker: each is a single lookup and branch.
- TLS, SSH, the HTTP upgrade and proxy responses, deadlines, logging, health reports, signals, the REST API, configuration files and their validation.
- The split of a dialled address into host and port for payload templates, and IPv6 addresses in brackets: the code writes none.
