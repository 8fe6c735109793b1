# Featherbit verification

Dafny 4.11 models of the parts of the Featherbit API gateway that hold algorithms and state, and proofs about
them. `dafny verify dfyconfig.toml` checks everything.

- **Policy graphs.** `Policy`, `Engine`, `Validation`, `Trace`, `Sandbox` model the compiler, the walk, the
  validator, the trace recorder and the sandbox synthesizer. `Reference` is an interpreter that reads the declared
  node and edge lists; `Moves`, `WalkSafety`, `Termination`, `Tracing` and `SandboxRun` relate the pieces. Plugins are
  arbitrary functions from an instance, a context and a shared world to success or failure, so stateful plugins are
  covered.
- **Running state and its stores.** `GatewayState` is the shared state with its single swap path, `Consumers` the
  consumer store, `PrefixRange`, `Etcd`, `EtcdStore` and `EtcdSeed` the etcd store, `Cluster` and `Fleet` several
  nodes as interleaved steps.
- **Streams.** `Sni` and `ClientHello` are the SNI parser (section 3 of RFC 6066, sections 4.1.2 and 5.1 of RFC
  8446), `Peek` and `ReplayGap` the loop around it, `Matching` the host and path patterns, `Udp` the session map.
- **Timed state.** `RateLimit`, `Breaker`, `Batch`; time is an explicit argument that does not go back.
- **Arithmetic and encodings.** `CivilDate`, `AmzDate`, `Encoding`, `Utf8`, `Splitting`, `Sorting`, `Bytes`, `Ascii`,
  `Text`, `Numbers`.
- **Load balancing.** `Balancer`.

Code that works by loops and updated state is a method or a class here, proved against a function; the lemmas are
about those functions and over whole runs.

## Where the code and its comments differ

The models follow the code.

- Validation cuts an endpoint at the first dot (`src/graph/validation.rs:41`), the compiler at the last
  (`src/graph/engine.rs:335`): a target with two dots validates and then walks to a missing node.
- Sandbox ids `listener` and `client` pass validation although the run then skips nodes; an id with a dot is
  rejected as an orphan.
- `BodyCapture.truncated` is documented as "clipped"; it is also set for unclipped bodies that end inside a
  character.
- `extract_sni` answers "not present" on some truncated but good messages (`src/stream/sni.rs:103`, `:114`).
- `peek_sni` drops the bytes of a read that crosses the 8 KiB cap (`src/stream/tcp.rs:124`).
- After the breaker's cooldown every request passes, not one probe; a recovery lets the next deadline lie before
  the old one, unless `max_sec` keeps all cooldowns at `base` (`src/traffic/mod.rs:61-103`).
- The limiter lets through up to `2 * limit - 1` calls within one window length, and every call when the window has
  length 0, which a small enough `time_window` of a workflow action rounds to (`src/ratelimit/mod.rs:67-97`,
  `src/plugins/native/workflow.rs:215`).
- The etcd prefix is seeded "when it is empty": the code asks whether the gateway loaded from it is
  (`src/config_store/etcd.rs:347`), so keys of an unknown shape stay beside the seed. They do not
  change what loads.
- The etcd poller's memory is not updated by local commits (`src/config_store/etcd.rs:262`, `:369-377`), so a
  reverted local commit can stay in force. Likewise a node that drops a resource and adds it back between two polls
  keeps the order of its own candidate, while the other nodes run the lists in name order.
- `apply_gateway` is described as swapping atomically; the consumer store is swapped before the gateway lock is
  taken (`src/state.rs:117-121`). Applies that overlap can mix two configurations whenever their consumers differ;
  applies one at a time cannot.

## Model

| member | source | states |
|---|---|---|
| Policy.ParseEdgeEndpoint | src/graph/engine.rs:331-342 | an endpoint is cut at its last dot: the port has no dot and node, dot and port make up the endpoint again; without a dot the port is `out` |
| Policy.SplitsAgree | src/graph/validation.rs:40-42 | validation's reading of an endpoint (first dot) and the compiler's (last dot) name the same node exactly when the endpoint has at most one dot |
| Policy.ParseJoined | src/graph/engine.rs:331-342 | `node.port` is read back as written whatever dots the node id has |
| Engine.CompilePolicy | src/graph/engine.rs:256-329 | the compiled graph, or the first error in the code's order: plugin creation by node, then the missing listener, then unknown ports by edge |
| Engine.CompileNodes | src/graph/engine.rs:266-293 | the first loop indexes nodes, the listener and the terminals in declaration order, a later node of an id replacing an earlier one |
| Engine.CompileEdges | src/graph/engine.rs:295-311 | the second loop indexes success and error edges, a later edge of a port replacing an earlier one, and stops at the first unknown port |
| Reference.CompilesIff | src/graph/engine.rs:256-329 | a policy compiles exactly when every node's plugin can be created, a listener is declared and every source port is known |
| Reference.CompiledTables | src/graph/engine.rs:262-326 | what the indexes hold in terms of the declared lists: last node per id, last edge per source port, `client` nodes terminal, entry the listener's successor or the listener itself |
| Reference.CompilationPreservesMeaning | src/graph/engine.rs:81-329 | for every policy that compiles, every plugin behaviour, context, world and step count, the walk over the compiled indexes equals the interpreter that reads the raw node and edge lists |
| Engine.RunNode | src/graph/engine.rs:88-230 | one round of the loop does the step of the walk and, when a recorder is given, records exactly that step |
| Engine.Run | src/graph/engine.rs:81-233 | the loop ends with the context and world of the walk's trail, says whether the walk halted, and leaves the recorder with the recording of that trail; with and without a recorder the result is the same |
| Moves.WalksAreMoves | src/graph/engine.rs:88-230 | every walk of every length, in the fields of the context: a node runs on what the one before it left; after a success the plugin's context goes to the success edge unless the node is terminal; after a failure the error is appended under the node's id and the node's own error edge comes before the catch-all |
| Moves.UnhandledFailureDelivers500 | src/graph/engine.rs:188-201 | a walk that ends on a failure nobody handles ends with status 500, the fixed body and content type application/json; the other headers, the request and the message are the failed plugin's, and its error is the last one |
| Moves.MissingNodeDelivers500 | src/graph/engine.rs:91-112 | a walk that runs into a missing node ends there with status 500 and a body that names the node; all else is as the node before it left it |
| Validation.ValidatePolicy | src/graph/validation.rs:22-125 | all violations in the code's order: ends, endpoints, shared inputs, orphans, error handler |
| Validation.CheckIncoming | src/graph/validation.rs:58-88 | the loop over edges reports exactly the second and later edges into an input that may not be shared |
| Validation.ValidIffRulesHold | src/graph/validation.rs:22-125 | the validator reports nothing exactly for policies with a listener and a client, whose edges join declared nodes, with one edge into an input unless a client or an error handler has that id, no node without an edge but the policy's handler, and a declared handler |
| WalkSafety.ClosedRegionIsSafe | src/graph/engine.rs:88-110 | if a set of declared nodes holds the entry and no edge, error edge or catch-all jump leaves it, no run ever takes the node-not-found step |
| WalkSafety.MissingNodeUnlessClosed | src/graph/engine.rs:88-110 | and if there is no such set, some plugin behaviour and some number of steps does reach it: the condition is exact |
| WalkSafety.ValidatedIsClosed | src/graph/validation.rs:22-125 | a policy that validates and compiles, and whose edge targets have at most one dot, is closed over its declared nodes |
| WalkSafety.ValidatedNeverMissing | src/graph/validation.rs:22-125 | no run of such a policy, for any plugins, context and length, takes the node-not-found step |
| WalkSafety.DottedTargetEscapesValidation | src/graph/validation.rs:40-42 | with two dots in a target this fails: such policies validate and compile, and their very first step is node-not-found |
| Termination.RankedWalkEnds | src/graph/engine.rs:88-230 | if a rank falls along every hop that a behaviour failing only in `mayFail` can make within a region holding the entry, every such walk ends within as many steps as the region has nodes, and one more only if it runs into a missing node |
| Termination.WalksEndIff | src/graph/engine.rs:88-230 | exact: such a region and rank exist iff no plugin behaviour that fails only in `mayFail` walks for ever |
| Termination.LongWalkRevisits | src/graph/engine.rs:88-230 | any walk of a closed graph longer than its node count visits some node twice |
| Consumers.FromConfig | src/consumers/mod.rs:84-131 | accepts exactly the lists with non-blank distinct names whose credentials all have their primary field and are unique per type, in whatever order credentials are visited; otherwise it blames the first consumer that cannot be added, for something that is wrong with it |
| Consumers.PrimarySpelled | src/consumers/mod.rs:75-81 | a basic-auth credential is indexed by its `username`, an hmac-auth one by its `access_key`, any other by its `key`, if that field is a string |
| Consumers.FoundIffDeclared | src/consumers/mod.rs:133-136 | a presented credential resolves to a consumer iff that consumer declares it |
| Consumers.AcceptableInAnyOrder | src/consumers/mod.rs:84-131 | the order of the declarations does not matter to acceptance |
| Consumers.SameLookupsInAnyOrder | src/consumers/mod.rs:84-136 | nor to what any credential resolves to |
| Trace.CapturedText | src/debug/trace.rs:280-335 | a valid UTF-8 body is never flagged binary at any limit; the kept text is the longest valid prefix within the limit, at most 3 bytes short, and `truncated` says whether the limit clipped it |
| Trace.TruncatedIff | src/debug/trace.rs:280-335 | for any body `truncated` is set exactly when the limit clipped it or it is invalid only because it ends inside a character |
| Trace.TruncatedWithoutClipping | src/debug/trace.rs:146-148 | a body far below the limit can be flagged truncated, against the field's documentation |
| Trace.SecretsNeverEnterTheTrace | src/debug/trace.rs:223-276 | contexts that differ only in secret header, query and message values leave the same snapshot |
| Trace.SnapshotHidesExactly | src/debug/trace.rs:223-276 | a snapshot shows every value whose name is not secret unchanged, and `<redacted>` once for every value whose name is |
| Trace.SecretHeaders | src/debug/trace.rs:29-43 | the secret headers are the twelve fixed names, authorization and cookie among them, and the operator's, in any letter case |
| Trace.SecretQueryParameters | src/debug/trace.rs:47-57 | the secret query parameters are the nine fixed names and the operator's, in any letter case |
| Trace.SecretMessageKeys | src/debug/trace.rs:66-75 | a message key is secret iff it is one of the operator's or one of the eight fixed words stands anywhere in it, in any letter case |
| Trace.CaptureOffKeepsNoByte | src/debug/trace.rs:283-288 | with body capture off only the length of a body is kept, and no flag is set |
| Trace.UnchangedIsMarked | src/debug/trace.rs:288-296 | with capture on a body is marked as unchanged exactly when it equals the one before, and is then not kept again |
| Trace.TraceRecorder.RecordStep | src/debug/mod.rs:75-118 | one recorded step: at the limit only the flag and one note change, otherwise the step, the previous bodies and at most one note are appended |
| Tracing.RecordingRefinesWalk | src/graph/engine.rs:53-233 | the recorded steps are the first `max_steps` moves of the walk, numbered from 0, each naming the node that ran next, and a stopping edge kind shows on the walk's last move and nowhere else |
| Tracing.RecordingOfTrail | src/debug/mod.rs:54-118 | a recording holds exactly the first `max_steps` steps; the truncation flag and its note are set exactly when the walk was longer |
| Tracing.ErrorsMatchOutcomes | src/graph/engine.rs:136-205 | with plugins that leave `errors` alone, the final error list is the initial one followed by one entry per failed node, tagged with its id, in walk order |
| Tracing.BodiesAreRecoverable | src/debug/trace.rs:280-335 | with capture on and bodies that are valid UTF-8 within the limit, following the `unchanged` marks back rebuilds every step's request and response body |
| Utf8.Utf8IffEncoding | src/debug/trace.rs:304-334 | the byte check that the capture relies on accepts exactly the encodings of Unicode scalar sequences (section 4 of RFC 3629) |
| Utf8.CutOfValid | src/debug/trace.rs:304-334 | cutting a valid text at any byte gives a valid text or one that ends inside a character, never an invalid byte, and loses at most 3 bytes |
| Utf8.OfAscii | src/graph/engine.rs:91-96 | an ASCII text has one byte for each character, its code |
| Utf8.LossyIsText | src/vars/mod.rs:435 | the lossy decoding of any bytes is text, and a text is left as it is |
| Utf8.LossyReplaces | src/vars/mod.rs:435 | each invalid sequence, and a character cut short at the end, becomes the three bytes EF BF BD, once |
| Utf8.ReplacementCharacter | src/vars/mod.rs:435 | those bytes are U+FFFD (section 3 of RFC 3629) |
| Sandbox.SynthesizePolicy | src/debug/sandbox.rs:238-308 | the synthesized policy: listener, the user's nodes, client, the success chain and, for `Client`, one error edge per node; or the first rejection |
| Sandbox.SandboxSpelled | src/debug/sandbox.rs:264-305 | the policy in full: its name, the user's nodes between a listener and a client, one edge into each node and the client, and for `Client` one edge for each node's failure |
| Sandbox.ChainEdgeSpelled | src/debug/sandbox.rs:264-277 | the chain's endpoints as written: `listener.out`, then `<id>.success`, into `<id>.in` and at last `client.in` |
| Sandbox.ErrorEdgeSpelled | src/debug/sandbox.rs:278-285 | an error edge goes from `<id>.error` to `client.in` |
| Text.BlankIff | src/debug/sandbox.rs:255 | an id is blank, and so defaulted, iff it holds nothing but Unicode white space |
| Sandbox.DecimalReads | src/debug/sandbox.rs:255-257 | the number in a defaulted id is the node's position in decimal, without a leading zero |
| Sandbox.AcceptedShape | src/debug/sandbox.rs:246-262 | an accepted list has distinct ids and no reserved node types, and differs from the input only in defaulted ids |
| Sandbox.SandboxValidatesIff | src/debug/sandbox.rs:238-308 | the synthesized policy validates exactly when no id contains a dot |
| SandboxRun.SandboxRunIsFold | src/debug/sandbox.rs:238-308 | for every accepted list the compiled run equals folding the plugins over the effective nodes until the first failure |
| SandboxRun.EffectiveIsWholeIff | src/debug/sandbox.rs:246-277 | the effective nodes are all nodes exactly when none is called `listener` or `client` |
| SandboxRun.ReservedIdSkipsPlugins | src/debug/sandbox.rs:246-277 | with such an id, which validation accepts, some plugins are skipped: a behaviour that counts runs tells the difference |
| SandboxRun.SandboxEndToEnd | src/debug/sandbox.rs:238-308 | for distinct dot-free ids other than `listener` and `client`: the policy validates, compiles, and its run is the fold; the first failure's context is delivered as it is (`Client`), or with status 500, the fixed body and content type application/json, its other headers, request, message and errors kept (`Stop`) |
| GatewayState.CompileGateway | src/state.rs:154-179 | every policy validated and compiled in order, then every route bound; the first error wins |
| GatewayState.RouteTableMeaning | src/state.rs:154-179 | a configuration compiles exactly when every policy is well-formed and compilable and every route names a declared policy; the table has the routes in order, each with the graph of the last policy of its name |
| GatewayState.ServedGraphsNeverMiss | src/state.rs:154-179 | a served graph whose targets have at most one dot never walks to a missing node, whatever request comes in |
| GatewayState.SharedState.New | src/state.rs:55-101 | construction succeeds exactly when the configuration is accepted, and then the running parts belong together |
| GatewayState.SharedState.ApplyGateway | src/state.rs:109-123 | last good: a rejected configuration leaves gateway, routes and consumers as they were; an accepted one replaces all three consistently |
| GatewayState.SharedState.ValidateGateway | src/state.rs:130-134 | reports exactly the error that applying would report, and changes nothing |
| GatewayState.AcceptedIff | src/state.rs:130-134 | validation passes exactly when the consumer store can be built and the configuration is usable |
| PrefixRange.PrefixRangeEnd | src/config_store/etcd.rs:311-321 | the popping loop computes the range end of its prefix |
| PrefixRange.RangeIsPrefix | src/config_store/etcd.rs:311-321 | `start <= k < end` holds exactly for the keys that start with the prefix, for every prefix, with trailing 0xff runs and all-0xff included |
| Etcd.GatewayFromKvs | src/config_store/etcd.rs:271-306 | resources go to their list in key order, unknown key shapes are skipped, the first malformed value is the error |
| Etcd.AssembleBlames | src/config_store/etcd.rs:279-301 | a failed load names the first pair that does not decode, and the kind of resource that its key promises |
| Etcd.KeysSpelled | src/config_store/etcd.rs:193-201 | the keys are the prefix, `/routes/`, `/policies/` or `/consumers/`, and the name |
| Etcd.EntriesSpelled | src/config_store/etcd.rs:203-217 | the puts of a gateway: every route, then every policy, then every consumer, in the order of the lists |
| Etcd.CategoryIff | src/config_store/etcd.rs:278-286 | a key is read as one of a category exactly when the prefix, a slash, the category and a slash stand in front of it |
| Etcd.AssembleByKind | src/config_store/etcd.rs:271-306 | assembling a gateway is decoding routes, policies and consumers each on its own |
| Etcd.KindReadsBack | src/config_store/etcd.rs:192-217 | of every name of a kind the last resource written comes back, sorted strictly by name, and nothing else |
| Etcd.CommitThenLoad | src/config_store/etcd.rs:222-306 | after a complete commit `load_all` succeeds and gives, per kind, the last resource of every name sorted by name |
| Etcd.PermutationIffDistinct | src/config_store/etcd.rs:203-217 | what comes back is a rearrangement of what was written exactly when the names are distinct |
| Etcd.CommitKeepsResourcesIff | src/config_store/etcd.rs:222-306 | commit then load gives the same resources exactly when names are distinct within each kind |
| Etcd.ReconciledKeys | src/config_store/etcd.rs:227-263 | after a complete commit the keys under the prefix are exactly the desired ones with the desired values, and all other keys are untouched |
| Etcd.CommitLoadsItselfIff | src/config_store/etcd.rs:227-260 | commit, then load, gives back the very candidate exactly when its lists are in name order |
| EtcdSeed.BuildSource | src/config_store/etcd.rs:346-356 | a node starts with what the prefix holds; when that is nothing and the local file holds something, with what a commit of the file would leave to be loaded; and it succeeds exactly when the calls this takes are answered and the prefix can be read |
| EtcdSeed.LoadsEmptyIff | src/config_store/etcd.rs:346-347 | the prefix loads as an empty gateway, which is when the code seeds, iff all its keys are text of an unknown shape |
| EtcdSeed.SeedAfterEmptyLoadIff | src/config_store/etcd.rs:346-352 | exact: where the code seeds, the store is then what a commit would leave iff the prefix held no key at all |
| EtcdSeed.LoneDirOutlivesSeed | src/config_store/etcd.rs:346-352 | a keyspace where it is not: one key, the prefix and its slash, loads as empty and stays beside the seed |
| EtcdSeed.SeedLoadsAsCommit | src/config_store/etcd.rs:346-352 | what stays does no harm: the seeded prefix loads as it would after a commit |
| EtcdStore.EtcdConfigStore.RangePrefix | src/config_store/etcd.rs:143-172 | the answer is the sorted listing of the prefix, or an error when the server does not answer or a key is not UTF-8 |
| EtcdStore.EtcdConfigStore.LoadAll | src/config_store/etcd.rs:222-225 | loading is ranging the prefix and assembling the gateway |
| EtcdStore.EtcdConfigStore.PutAll | src/config_store/etcd.rs:203-217 | the puts happen in order; a loop that breaks off has applied those that were answered, and perhaps the one whose reply was lost |
| EtcdStore.EtcdConfigStore.Commit | src/config_store/etcd.rs:227-263 | succeeds exactly when the candidate is accepted, all keys are UTF-8 and the server answers every call, and then store and state hold the candidate; a rejected candidate does not reach the store; a commit that breaks off, with its last call applied or not, leaves the running state alone and the store between old and new, no wanted key ever missing |
| EtcdStore.DeletesAreBetween | src/config_store/etcd.rs:238-259 | at every point of the deletes all keys outside the prefix are as before, every value under it is an old or a desired one, and no desired key that existed is missing |
| Cluster.EveryRunIsConsistent | src/state.rs:109-123 | every interleaving of store writes, polls and admin commits on any number of nodes keeps the invariant of every node: its gateway passed validation, its routes are compiled from it whenever the gateway lock is free, and the served routes always come from some accepted configuration |
| Cluster.BootedRunsAreConsistent | src/state.rs:109-123 | so in every run from nodes started on accepted configurations, every node is consistent at the end |
| Cluster.PollingConverges | src/config_store/etcd.rs:365-388 | once writers stop on a valid configuration and no node has an admin commit in progress or since its last applied poll, as soon as every node polled once and its poller rests, all run that configuration; polls under way when the writers stopped do not matter |
| Cluster.ConvergesIff | src/config_store/etcd.rs:365-388 | exact: a node on which only the poller acts comes to run the store's configuration in every quiet run with a poll iff its poller will not remember that configuration while the node runs another |
| Cluster.OnePollAgreesIff | src/config_store/etcd.rs:369-382 | one poll brings a resting node to the store's configuration, in every serialization order, exactly when the node does not remember that configuration while running another |
| Cluster.RevertedCommitSticks | src/config_store/etcd.rs:260-262 | a local commit that another writer reverts before the next poll leaves the node on the reverted configuration, every further poll a no-op |
| Cluster.MatchedIff | src/state.rs:117-121 | exact, for every run of the cluster: a node's consumers are those of the last apply that stored consumers and its gateway that of the last that wrote the gateway, and they match iff the two configurations have the same consumers |
| Cluster.LoneAppliesMatch | src/state.rs:117-121 | where no two applies ever overlap on a node, its consumers match its gateway whenever no apply is under way |
| Cluster.AlwaysMatchesIff | src/state.rs:117-121 | exact: overlapping applies can never mix two configurations iff all accepted configurations have the same consumers |
| Cluster.ConsumersCanMismatch | src/state.rs:117-121 | the schedule of two overlapping applies, of any two accepted configurations, that leaves one's routes with the other's consumers |
| Fleet.AcceptedInAnyOrder | src/state.rs:130-134 | reordering the lists of an accepted configuration keeps it accepted |
| Fleet.CommitReachesEveryNodeIff | src/config_store/etcd.rs:227-388 | end to end and exact: after a commit of distinct names, with polls under way or not, every quiet run in which every node polls brings all of them, the one that committed included, to the same configuration, the committed resources in name order and compiled, iff no node's poller remembers that configuration while the node runs another |
| Fleet.CommitterConvergesIff | src/config_store/etcd.rs:260-262 | exact, for the node that committed: it comes to run what the others run iff its poller does not yet remember what the store now holds, or the candidate's lists were in name order |
| Fleet.ReAddedStaysUnsorted | src/config_store/etcd.rs:260-262 | the other case: a node that drops a resource and adds it back between two of its polls keeps the order of its last candidate for good, every further poll a no-op |
| Sni.ExtractSni | src/stream/sni.rs:48-135 | the cursor parser computes its specification with every index in bounds, on every byte string |
| Sni.ParseServerName | src/stream/sni.rs:141-181 | the server name list scan computes its specification with every index in bounds |
| Sni.FoundIsStable | src/stream/sni.rs:48-181 | a host found on a buffer is found, unchanged, on every extension of it |
| Sni.FoundIsOnTheWire | src/stream/sni.rs:159-178 | on every buffer, well formed or not: a host that is found stands in it as a host name entry, a name that is text, answered with capital letters made small and every other byte unchanged |
| Sni.HeadersDecide | src/stream/sni.rs:48-77 | fewer than 5 bytes are incomplete; whatever follows, a record that is no TLS handshake, one longer than 16640 bytes, or a message that is no ClientHello is not present |
| ClientHello.EveryPrefixClassified | src/stream/sni.rs:48-211 | on every prefix of a well-formed single-record ClientHello with host h the answer is exact: Found(h) from the end of the server_name extension on, before it Incomplete, except NotPresent at the cut ending the compression methods and 0 to 3 bytes into an extension header up to and including server_name |
| ClientHello.HostIsMessages | src/stream/sni.rs:48-181 | the host answered on a prefix is the one in the message, in small letters, from the byte that ends the server_name extension on and not before |
| ClientHello.WholeHelloFound | src/stream/sni.rs:48-211 | the whole message followed by anything names its host |
| Peek.PeekSni | src/stream/tcp.rs:104-130 | the loop ends, and its answer and buffer are those of the peek over its reads |
| Peek.KeepsTheStream | src/stream/tcp.rs:115-128 | the kept bytes are the first 8192 of those read: all of them exactly when the reads took no more |
| Peek.PeekedHostIsStreams | src/stream/tcp.rs:108-130 | for every list of reads, cut and ended in any way, and every stream that starts with the bytes received: a host that the peek answers is the one that the parser finds in the whole stream |
| Peek.PeekOutcome | src/stream/tcp.rs:108-130 | on a stream that starts with a well-formed ClientHello, for every list of reads, failing ones included, the peek answers its host or none, and which of the two is read off the cut positions before the first failing read |
| ReplayGap.CapInsideRead | src/stream/tcp.rs:121-128 | while the answer is still open at the first two cuts and the cap falls inside the third read, what that read held past the cap is consumed and not kept, for any parser and stream |
| ReplayGap.PaddedHelloIsCut | src/stream/tcp.rs:107-128 | this happens to well-formed hellos in reads no larger than the read buffer: one with a long padding extension before its server name loses bytes |
| Matching.WildcardIsOneLabel | src/stream/sni.rs:231-247 | a wildcard matches exactly the hosts whose labels are one non-empty label followed by the base's labels |
| Matching.WildcardCovers | src/stream/sni.rs:220-247 | `*.rest` covers one more label before `rest` in any letter case, and never `rest` itself |
| Matching.CaseDoesNotMatter | src/stream/sni.rs:220-235 | patterns and hosts that differ only in the case of ASCII letters match alike |
| Matching.ExactMatchesIff | src/stream/sni.rs:220-235 | a pattern without a leading star and dot matches exactly the hosts equal to it but for the case of ASCII letters |
| Matching.WildcardMatchesIff | src/stream/sni.rs:220-247 | a star, a dot and `rest` match exactly the hosts that are a non-empty label without a dot, a dot, and `rest` in any case |
| Matching.MatchPathIsSegmental | src/routing/mod.rs:64-96 | a path matches exactly when its segments match one for one with `*`, or, when the pattern has more than one segment and the last is a star, start with the literal segments before it; so the equality shortcut is redundant |
| RateLimit.LocalCounterStore.IncrFixedWindow | src/ratelimit/mod.rs:67-97 | one call counts in its key's window, reports the decision, and touches no other key |
| RateLimit.SlidingBound | src/ratelimit/mod.rs:67-97 | in every run with nondecreasing time any interval of one window length holds at most 2*limit - 1 allowed calls of a key (limit for windows of one tick, none for limit 0), whatever other keys do |
| RateLimit.BoundIsMet | src/ratelimit/mod.rs:67-97 | that bound is met for every limit and window length |
| RateLimit.NeverOverLimitIff | src/ratelimit/mod.rs:67-97 | exact: no run lets more than `limit` calls of a key through within one window length, and at least one tick, iff the limit is 0, or the window has one tick, or the limit is 1 and the window is not empty |
| RateLimit.ZeroWindowAdmitsAll | src/ratelimit/mod.rs:76-85 | a window of length 0 limits nothing: with any limit but 0 every call is allowed |
| RateLimit.WindowBound | src/ratelimit/mod.rs:67-97 | within one internal window at most `limit` calls of its key are allowed |
| RateLimit.ResetIsExact | src/ratelimit/mod.rs:67-97 | the reported `reset` is exact: a later call is counted in the same window before it and opens a fresh one from it on, whatever comes in between |
| RateLimit.RemainingIsExact | src/ratelimit/mod.rs:67-97 | the reported `remaining` is exact: of the key's calls up to the reported reset that many are allowed, whatever other keys do in between |
| Breaker.BreakerState.RecordUnhealthy | src/traffic/mod.rs:87-103 | one unhealthy result: the counters, the round and, on a trip, the deadline |
| Breaker.BreakerState.Allow | src/traffic/mod.rs:61-72 | a check is rejected before the deadline; a passed deadline is forgotten |
| Breaker.CountersAreStreaks | src/traffic/mod.rs:75-103 | over every history each counter is the length of its current streak less completed ones, hence below its threshold, and the round is the number of trips of the spell |
| Breaker.BackoffIsCooldown | src/traffic/mod.rs:94-100 | trip n of a spell opens for min(max(max_sec, base), base * 2^min(n, 16)) seconds |
| Breaker.CooldownDoubles | src/traffic/mod.rs:94-100 | the first cooldown is `base`, each next one twice the one before but at most the greater of `base` and `max_sec`, and after sixteen doublings it stays |
| Breaker.TripOpensFor | src/traffic/mod.rs:93-101 | a trip opens the breaker until its cooldown in seconds after the response |
| Breaker.CheckRejectedIffBeforeDeadline | src/traffic/mod.rs:61-72 | over every history a check is rejected exactly when it comes before the last trip's deadline; from then on every request passes, not one probe |
| Breaker.CooldownsNeverShrink | src/traffic/mod.rs:94-100 | cooldowns within a spell never shrink |
| Breaker.DeadlineNeverEarlier | src/traffic/mod.rs:87-103 | within a spell the deadline never moves earlier |
| Breaker.DeadlineEarlierIff | src/traffic/mod.rs:75-103 | exact: an event moves an open deadline earlier iff it is the first trip of a new spell and its cooldown ends before the old deadline |
| Breaker.DeadlinesOnlyGrowIff | src/traffic/mod.rs:75-103 | exact, from the settings alone: no history ever moves a deadline earlier iff base is 0 or max_sec is at most base |
| Breaker.RecoveryCanShortenDeadline | src/traffic/mod.rs:75-103 | the history that shows it for all other settings: two trips, a recovery and a trip, all while the breaker is open |
| Batch.FlushWithRetry | src/batch/mod.rs:242-285 | the retry loop settles a batch as specified: each failed attempt claims a head, the last tail is delivered or dropped |
| Batch.SettleIsSound | src/batch/mod.rs:242-285 | a settled batch is its claimed heads and one tail in order; each attempt gets exactly what is unclaimed; at most max_retry_count + 1 attempts; a delivered tail was accepted whole, a tail is dropped only when the attempts are used up |
| Batch.RunKeepsInvariant | src/batch/mod.rs:164-235 | in every run of pushes, receives, timers and close the accepted entries are, in order, the settled batches, the buffer and the channel, each batch of 1 to batch_max entries and settled soundly |
| Batch.BatchTask.PushEntry | src/batch/mod.rs:153-173 | a push is queued exactly when the sink is open and fewer than `max_pending_entries` are queued, or none; otherwise nothing changes |
| Batch.PushQueuesIff | src/batch/mod.rs:153-173 | the same of a step of a run: the entry joins the queue and the accepted entries, or the state stays as it is |
| Batch.NothingIsDroppedIff | src/batch/mod.rs:153-173 | exact, for every run: no pushed entry is lost at the channel iff every push finds an open sink with fewer than `max_pending_entries` queued, or none |
| Batch.ReceiveFlushesAtSize | src/batch/mod.rs:184-232 | a received entry stays in the buffer while that holds fewer than `batch_max_size` entries, and makes the whole buffer a batch as soon as it does not |
| Batch.BatchTask.OnReceive | src/batch/mod.rs:191-232 | the receive arm: buffer and size trigger, or drain and exit on close |
| Batch.BatchTask.OnTimer | src/batch/mod.rs:202-224 | the timer arm: flush when the earlier of the two deadlines has passed |
| Batch.TimerFlushesIff | src/batch/mod.rs:202-224 | the timer flushes exactly when the oldest entry is `buffer_duration` old or the newest `inactive_timeout` old |
| Batch.NothingRemainsAfterClose | src/batch/mod.rs:191-235 | once the handles are gone, receiving what is queued settles every accepted entry and ends the task |
| CivilDate.ClosedFormIsCalendar | src/plugins/native/aws_lambda.rs:552-566 | for every day count, before or after the epoch, the closed form is the valid Gregorian date reached by stepping day by day from 1970-01-01 |
| CivilDate.NoNegativeDividend | src/plugins/native/aws_lambda.rs:552-566 | after the era is taken off no dividend is negative, so truncating and flooring division agree |
| AmzDate.StampsOrderedIff | src/plugins/native/aws_lambda.rs:541-550 | all stamps up to a time sort strictly as their times exactly when that time lies before the year 10000 |
| AmzDate.FormatReadsBack | src/plugins/native/aws_lambda.rs:541-550 | up to then the stamp is 8 digits, `T`, 6 digits and `Z`, the first 8 being the date, and all fields read back |
| Encoding.FormEncode | src/plugins/native/authz_keycloak.rs:241-255 | the loop computes the form encoding, one piece for every byte |
| Encoding.FormEncodedSpelled | src/plugins/native/authz_keycloak.rs:241-255 | letters, digits and `-._~` stand for themselves, a space is a plus sign, any other byte is `%` and two digits of 0-9A-F that are its value |
| Encoding.UriEncode | src/plugins/native/aws_lambda.rs:496-508 | the loop computes the percent encoding, one piece for every byte |
| Encoding.UriEncodedSpelled | src/plugins/native/aws_lambda.rs:496-508 | letters, digits and `-._~` stand for themselves, any other byte, a space too, is `%` and two digits of 0-9A-F that are its value (section 2.3 of RFC 3986) |
| Encoding.UrlDecode | src/vars/mod.rs:416-445 | the indexed loop computes the decoding: `+` to space, a `%` with two hexadecimal digits to its byte, anything else unchanged, then lossy UTF-8 |
| Encoding.HexValSpelled | src/vars/mod.rs:438-445 | the hexadecimal digits that the decoder takes are 0-9, A-F and a-f, with their values |
| Encoding.DecodedEncoded | src/vars/mod.rs:416-434 | byte for byte the decoder undoes both encoders, on every byte string |
| Encoding.DecodeUndoesEncode | src/vars/mod.rs:416-445 | on text the whole decoder undoes both encoders |
| Encoding.EncodeUmaBody | src/plugins/native/authz_keycloak.rs:223-239 | the body is the joined encoding of the request's pair list |
| Encoding.UmaRequest | src/plugins/native/authz_keycloak.rs:223-239 | and so it is with the words that the code puts in it |
| Encoding.UmaBodyReadsBack | src/plugins/native/authz_keycloak.rs:223-239 | split at `&` and the first `=`, and decoded, the body gives its exact pair list back |
| Encoding.CanonicalQueryString | src/plugins/native/aws_lambda.rs:522-538 | whatever order the map is iterated in, the result is the canonical text of every order |
| Encoding.CanonicalTextIgnoresOrder | src/plugins/native/aws_lambda.rs:522-538 | the canonical text is the same for every listing of the names |
| Encoding.CanonicalTextReadsBack | src/plugins/native/aws_lambda.rs:522-538 | the text splits back to the encoded pairs in sorted order; decoded they are the query's own pairs |
| Balancer.Pool.Select | src/balancer.rs:85-109 | round robin takes the counter modulo the pool and steps it, least connections takes the first least loaded target, ip hash depends only on the client's address without its port |
| Balancer.Pool.Acquire | src/balancer.rs:145-160 | a new guard is live and its target's counter one higher |
| Balancer.Pool.Drop | src/balancer.rs:164-181 | a dropped guard is gone and its target's counter one lower |
| Balancer.CountersAreLiveGuards | src/balancer.rs:145-181 | each counter is the number of its live guards, and a drop never takes it below zero |
| Balancer.RoundRobinIsFair | src/balancer.rs:85-89 | m picks in a row without counter wrap give every target m/n or one more; n picks are a permutation |
| Balancer.LeastConnectionsIsEven | src/balancer.rs:90-96 | connections opened one after the other from idle spread evenly: k/n each, the first k%n targets one more |
| Balancer.Pool.Open | src/stream/udp.rs:111-112 | select and acquire together hold the target that the strategy chooses, step the counter under round robin alone, and take the pool from its loads after k rounds to those after k + 1 |
| Balancer.PortDoesNotMatter | src/balancer.rs:97-107 | connections from one host are hashed alike whatever their port |
| Balancer.NoPort | src/balancer.rs:97-107 | an address without a colon is hashed whole |
| Balancer.WordsWrap | src/balancer.rs:85-89 | the counters are 64-bit words that wrap |
| Udp.Proxy.Receive | src/stream/udp.rs:71-95 | a datagram of a live session is forwarded on the target it has; a dead session is dropped and a new one begun, on the target that the strategy chooses from the counter and the loads then left |
| Udp.Proxy.BeginSession | src/stream/udp.rs:104-113 | the target held for a new session is the strategy's choice for its client, and is the next in the proxy's list of choices |
| Udp.SessionsTakeTurns | src/stream/udp.rs:111-112 | under round robin, in every state of the proxy: any m sessions begun in a row without a wrap of the counter give every target m/n or one more, and n in a row are on n different targets |
| Udp.Proxy.Created | src/stream/udp.rs:83-95 | the created session enters the map with the guard taken for it |
| Udp.Proxy.CreateFailed | src/stream/udp.rs:83-86 | a failed creation gives its guard back |
| Udp.Proxy.Prune | src/stream/udp.rs:68-70 | exactly the dead sessions leave the map, with their guards |
| Udp.Session.ReceiveTimedOut | src/stream/udp.rs:168-174 | a reader whose receive timed out gives up exactly when the activity clock is `idle` or more behind |
| Udp.Proxy.ReaderTimedOut | src/stream/udp.rs:168-174 | in every state that the proxy's and the readers' steps lead to on a clock that does not go back, it gives up exactly when nothing was forwarded in either direction for `idle` |
| Udp.Proxy.ReaderReply | src/stream/udp.rs:157-163 | a reply that reaches the client counts as traffic, one that does not ends the session |
| Udp.CounterIsSessions | src/stream/udp.rs:59-139 | in every state of the proxy a target's counter is the number of its sessions, and one more while a session for it is being created |
| Udp.TargetLoadIsSessions | src/stream/udp.rs:59-139 | the live guards of a target are its sessions in the map, and one more while a session for it is being created |

## Left out

- Sockets, HTTP, TLS and WebSocket plumbing, the admin handlers, the UI, file watching, metrics, logging, durations
  and trace ids: no algorithm of their own or no effect on the results.
- Cryptography, regular expressions, Lua, Casbin, compression: library code.
- JSON and YAML text: a resource's serialization is any encoding that reads back what it wrote; configuration
  parsing and environment interpolation are inside the `create` parameter of the plugins.
- The fixed JSON text of the engine's generic 500 response is a parameter: nothing depends on what it says.
- Request fields host, scheme and protocol, and the metadata of `GatewayError`.
- `interpolate` and the expression language of `src/vars/mod.rs`, context materialization in
  `src/debug/sandbox.rs:85-230`.
- ClientHello messages spread over several records: the parser reads one record.
- Engine.Run: a fuel argument bounds the rounds, since a policy with a cycle may walk for ever; the trail is stated
  for every fuel.
- Batch.RunKeepsInvariant: a flush is one step; pushes during a flush commute with it. The failure counter does not
  overflow, which it would only at `max_retry_count` 4294967295.
- Peek.PeekSni: the deadline is the end of the list of reads.
- Balancer.Pool.Select: the counters of all targets are read at one instant, while the code reads them one by one;
  the hash of a client address is a parameter.
- Balancer.RoundRobinIsFair: picks across the wrap of the counter at 2^64.
- Cluster.EveryRunIsConsistent: liveness of the locks; a range request is one step, and a commit's puts and deletes
  are arbitrary single writes.
- Cluster.PollingConverges: its proviso on admin commits is sufficient; Cluster.ConvergesIff has the exact condition,
  for nodes on which no admin commit is in progress.
- Fleet.CommitReachesEveryNodeIff: candidates with a name twice in a list, of which Etcd.CommitKeepsResourcesIff says
  what is lost; another commit in progress on a node when the run begins.
- Consumers.FromConfig: which of several bad credentials of one consumer is blamed depends on the order of a hash map;
  any of them may be.
- EtcdStore.EtcdConfigStore.Put: a put or delete whose reply is lost is applied at once or never; one that the
  server applies later still counts among the single writes of `Cluster`.
- Udp.Proxy.Receive: the clock is read and stored in one step; with two threads a store may be late by the time
  between them.
- RateLimit.LocalCounterStore.IncrFixedWindow: calls on different threads are ordered as they take the map entry,
  and the clock does not go back between them.
- etcd authentication and its retry on status 401.
