# Verified models of mihomo-rust

mihomo-rust is a rule-based proxy: a configuration names outbounds, groups and
rules, and a tunnel routes each connection by the first rule that matches. This
project models the parts of it that carry the most branching, state or
arithmetic, and proves what they keep over every input, every run and every
interleaving. Each module opens with a reference that does not look like the
code (recursive equations, a least fixpoint, first match in order, a pattern's
meaning, a serial execution, a minimum over all lines) and the code's model is
proved against it.

**Rules.** `Rules` gives rules their meaning and lowers them to operations;
`Wildcard` is the structural glob matcher; `RuleCoverage` is what makes a later
rule redundant; `DomainTrie`, `DomainNames` and `DomainIndex` are the trie, the
names it stores and the rules it takes over; `RuleCompiler` decides the fate of every rule; `RuleBuild` builds the
compiled set; `RuleMatch` matches with it; `RuleEnrichment` compares matching
with lookups in advance and on demand. The main result,
`RuleMatch.CompiledAgreesIff`, says exactly when the pruned, folded and indexed
set gives the answer of the plain list of rules. `PortSpans` is the canonical
form of port lists.

**Configuration.** `DialerChain` resolves dialer chains, `ProxyGroups` builds
groups to a least fixpoint, `HostAliases` builds static hosts without alias
cycles, `ConfigSave` saves the file.

**Transfer.** `Bytes`, `ChunkedBody` and `HttpResponse` are the small HTTP client
used for downloads, the chunked coding against section 7.1 of RFC 9112.
`MessageBody` states section 6.3 of RFC 9112 by itself and says exactly when the
client follows it.

**Concurrency.** `FeedSampler` and `CommitLane` are protocols of the API server,
`ServiceLifecycle` the Windows service, each a state machine over atomic steps;
the service also as a class whose methods are the critical sections.
`ResolverFence` is the re-entrancy fence of the host resolver, `DialDeadline` the
nesting of dial timeouts, `HealthCheck` the lazy probe loop.

**Measurement.** `LinearRegression` is the leak detector in exact reals,
`BenchWork` the split of a round over workers.

## What turned out not to hold

Each of these is a lemma with the inputs that show it, beside a lemma with the
exact condition.

- Compilation keeps the answer of the rules: not when an AND or OR rule folds to
  a single test. Duplicate elimination keys such a rule by its type and the text
  of the test, so `AND((DOMAIN,x))` and `AND((DOMAIN-SUFFIX,x))` count as the same
  predicate (`RuleMatch.CollapsedTwinIsLost`). The comment on the fingerprint
  promises that equal keys mean equal predicates; that is true of all other rules
  (`RuleCompiler.EqualKeysMeanSameTest`). Shadowing reads a wildcard by the payload
  of its rule, so off Linux `OR((DOMAIN-WILDCARD,*.a),(UID,7))` after
  `DOMAIN-KEYWORD,or` is dropped for the `OR` in its own payload
  (`RuleMatch.GarbledWildcardIsLost`). The condition is
  `RuleCompiler.FirstIsLiveUnlessMisjudged`.
- Matching on demand answers what matching with lookups in advance answers: not
  when the scan ends before any lookup and a lookup would have changed what a slot
  on the way says. A no-resolve network before a name does that
  (`RuleEnrichment.NoResolveIsSwayed`, `RuleEnrichment.ResolveProxyLazy`).
- The index and the rules read hosts alike: not with a trailing dot, which the
  index drops and the rules do not, nor with a leading dot under a star
  (`DomainIndex.MisreadIff`, `RuleMatch.TrailingDotPreempts`). Listeners lower the
  case of a host but keep its dots.
- An empty DOMAIN-WILDCARD never matches: its lowered form matches a connection
  without a host, so that the compiled set gives such a connection to the rule, or
  under NOT takes it from the rule (`RuleMatch.BlankWildcardMisleads`,
  `Rules.WildcardLoweringIsExact`, `RuleMatch.CompiledAgreesIff`).
- Pruning keeps the demand for address resolution: not when a rule that asks is
  shadowed. Off Linux `OR((DOMAIN-SUFFIX,x),(AND((IP-CIDR,n),(UID,7))))` folds to
  the suffix, and after `DOMAIN-SUFFIX,x` nobody asks any more
  (`RuleCompiler.ShadowingDropsTheDemand`, `RuleCompiler.DemandSurvivesIff`).
- A configured host is answered: not when it is written with a trailing dot, which
  look-ups drop and the entry keeps (`HostAliases.DottedHostIsMute`,
  `HostAliases.BuildHosts`).
- A chunked body within the limit is received: not when its framing exceeds the
  headroom of the read cap (`HttpResponse.FramingCanExceedTheReadCap`,
  `HttpResponse.ChunkedResponseGetsThrough`).
- Decoding undoes every chunked encoding: not when an extension holds bytes that
  are not UTF-8, which quoted values may (`ChunkedBody.QuotedByteIsRefused`,
  `ChunkedBody.RoundTrip`).
- The client reads the body that section 6.3 of RFC 9112 defines: not with bytes
  after a 204, with more bytes than Content-Length, or with another coding after
  `chunked` (`MessageBody.BytesAfterNoContent`, `MessageBody.BytesAfterTheLength`,
  `MessageBody.ChunkedBelowAnotherCoding`, `MessageBody.FollowsSection63Iff`).
- No update is lost: not when a writer outside the commit lane writes between the
  edit of a mutation and its swap (`CommitLane.BypassingWriteIsLost`,
  `CommitLane.SerialIffNothingLost`, `CommitLane.SerialIffNoneOvertaken`). Routing
  can be replaced from outside as well (`CommitLane.ReroutingIsUnseen`).
- Partial writes never reach the config path: not when saves overlap, as the save
  endpoint allows (`ConfigSave.OverlappingSavesTearTheConfig`,
  `ConfigSave.OpenWriterFollowsTheRename`, `ConfigSave.PathStaysWholeIff`).
- Stopped is the last report of the service: a stop request after the exit is
  still reported (`ServiceLifecycle.StopAfterExitReportsAgain`,
  `ServiceLifecycle.StoppedIsLastUnlessStopped`).
- A lazy group is probed after every use: not when a reload replaces the group and
  the use counts of old and new coincide
  (`HealthCheck.ReplacedGroupIsOverlooked`, `HealthCheck.OverlookedIffShadowed`).

Where code and comments disagree the model follows the code: the rule compiler
does not cancel double negations (the meaning is the same either way), and the
domain trie keeps the first value written to a place.

## Model

| member | source | states |
|---|---|---|
| `DialerChain.CollectEdges` | crates/meow-config/src/lib.rs:591-611 | The edges collected are those of the last block of each name, no other; the only refusal is a block that is its own dialer, and it names one |
| `DialerChain.LastBlockIsLast` | crates/meow-config/src/lib.rs:591-611 | The effective block of a name is the one with no later block of that name, and there is none exactly when no block carries it |
| `DialerChain.EdgeIff` | crates/meow-config/src/lib.rs:591-611 | A name dials through what its last block names as dialer, unless that is empty |
| `DialerChain.SolvesIff` | crates/meow-config/src/lib.rs:633-693 | The recursive equations, read by position: the last block parsed over its dialer's entry, else the old entry relayed through it, else the old entry |
| `DialerChain.ResolveOne` | crates/meow-config/src/lib.rs:633-693 | An edge whose dialer is final puts its name in final form and touches nothing else; it fails exactly when the dialer is absent, and then a chain that does end is broken at this edge |
| `DialerChain.Pass` | crates/meow-config/src/lib.rs:623-695 | A pass keeps every resolved name final and every other entry original; without progress the deferred names map into themselves |
| `DialerChain.ApplyDialerProxies` | crates/meow-config/src/lib.rs:579-708 | The worklist ends, and its four outcomes are told apart by the effective blocks alone: self-reference, broken chain, cycle, or a registry that solves the recursive equations, also read by position: the last block of each name parsed over its dialer's entry, or relayed through it; the error names a block at fault and the cycle error lists exactly the names whose chain never ends |
| `DialerChain.ClosedPoolHasCycle` | crates/meow-config/src/lib.rs:696-706 | A stalled set that maps into itself holds a cycle, by pigeonhole |
| `DialerChain.PendingNeverEnds` | crates/meow-config/src/lib.rs:696-706 | At a stall the pending names are exactly those whose chain can be followed for ever |
| `DialerChain.AcyclicIsGrounded` | crates/meow-config/src/lib.rs:616-699 | Without a cycle every chain reaches a name that declares no dialer |
| `DialerChain.GroundedFormsAgree` | crates/meow-config/src/lib.rs:644-693 | Any solution of the equations gives a grounded name the form built up along its chain |
| `DialerChain.SolutionIsUnique` | crates/meow-config/src/lib.rs:616-699 | Without cycles the recursive equations have at most one solution, so success determines the registry |
| `DialerChain.PermutedBlocksMeanTheSame` | crates/meow-config/src/lib.rs:586-597 | Reordering blocks with distinct names changes no effective block |
| `DialerChain.OutcomeIgnoresOrder` | crates/meow-config/src/lib.rs:591-706 | Outcome and result depend on the effective blocks only: same self-reference, cycle and missing-dialer verdicts, same solutions |
| `ProxyGroups.CollectMembers` | crates/meow-config/src/proxy_parser.rs:2405-2480 | The members are the registry's entries of the named, present names in order (plus all proxies where asked for); strict collection fails exactly when a named member is absent |
| `ProxyGroups.ParseGroup` | crates/meow-config/src/proxy_parser.rs:2405-2584 | A group is built exactly when its filter compiles and, by type: select, url-test and fallback with a member or a provider; load-balance also with a known strategy or none; relay with two members; no other; strictly only if no named member is absent. It is built from the registry's entries |
| `ProxyGroups.BuildableIff` | crates/meow-config/src/proxy_parser.rs:2405-2584 | The same condition, on group types, counts of present members and providers, for the notion the fixpoint uses |
| `ProxyGroups.KnownInOrder` | crates/meow-config/src/proxy_parser.rs:2420-2438 | The members kept are the present ones, each behind as many as were present before it |
| `ProxyGroups.BuildableGrows` | crates/meow-config/src/proxy_parser.rs:2405-2526 | More registered names never make a buildable group unbuildable, which is what makes the passes a monotone iteration |
| `ProxyGroups.StrictPass` | crates/meow-config/src/lib.rs:837-853 | A pass stays inside every closed set of names, and one that builds nothing has met only groups that cannot be built strictly |
| `ProxyGroups.LenientPass` | crates/meow-config/src/lib.rs:854-874 | The last pass builds each leftover group in turn from what is there, and changes no entry of another name |
| `ProxyGroups.BuildGroups` | crates/meow-config/src/lib.rs:830-876 | The strict passes register exactly the least fixpoint of "all named members present", within the pass budget; what is left over is exactly what no strict pass could build; when no name is reused, initial entries stay and each strictly built group holds the registry's own final entries |
| `ProxyGroups.StrictKeysIgnoreOrder` | crates/meow-config/src/lib.rs:834-853 | Declaration order does not change which names the strict passes register |
| `ChunkedBody.DecodeChunked` | crates/meow-config/src/internal_http.rs:328-358 | The in-place loop ends on every input and computes the recursive decoder the next lemmas are about |
| `ChunkedBody.FramedBodyDecodes` | crates/meow-config/src/internal_http.rs:328-358 | Every framed body decodes to its payload if that fits the limit and is properly ended, and is refused as too large or for its end otherwise |
| `ChunkedBody.DecodedBodyIsFramed` | crates/meow-config/src/internal_http.rs:328-358 | Nothing else decodes: an accepted input is a framed body, the result its payload, and within the limit |
| `ChunkedBody.RoundTrip` | crates/meow-config/src/internal_http.rs:328-358 | For every list of non-empty chunks within the limit, sizes spelled in any case with any leading zeros, any extensions and trailers (section 7.1 of RFC 9112), decoding undoes encoding if and only if all extensions are UTF-8; otherwise it fails for that reason |
| `ChunkedBody.QuotedByteIsRefused` | crates/meow-config/src/internal_http.rs:335-336 | The empty body with one non-UTF-8 byte in a quoted extension value is well formed and refused, whatever the limit |
| `ChunkedBody.EverySizeHasALine` | crates/meow-config/src/internal_http.rs:337-339 | Every size that fits the size type has a size line, so every body has an encoding |
| `ChunkedBody.BlankLineOnlyAtEnd` | crates/meow-config/src/internal_http.rs:342-348 | A trailer block holds one blank line, its end |
| `ChunkedBody.TruncationIsRejected` | crates/meow-config/src/internal_http.rs:331-357 | Every strict prefix of a framed body, trailers included, is rejected, whatever the limit |
| `ChunkedBody.TruncatedEncodingIsRejected` | crates/meow-config/src/internal_http.rs:331-357 | The same for every encoding of a list of chunks, with readable extensions or not |
| `HttpResponse.FindLocation` | crates/meow-config/src/internal_http.rs:268-275 | The first Location header in order, or none at all |
| `HttpResponse.AgreedLength` | crates/meow-config/src/internal_http.rs:287-304 | Content-Length is accepted exactly when all such headers are numbers, agree and are within the limit |
| `HttpResponse.BadLengthIsRefused` | crates/meow-config/src/internal_http.rs:287-304 | One Content-Length that is no number, beyond the limit or contradicted is enough to deliver nothing |
| `HttpResponse.ListsChunkedIff` | crates/meow-config/src/internal_http.rs:305-313 | `chunked` is listed exactly when it is, trimmed and in any case, the text between two commas or ends |
| `HttpResponse.ParseResponse` | crates/meow-config/src/internal_http.rs:253-326 | A body is delivered if and only if a complete success head has Content-Lengths in order and frames it: decoded chunks when some coding is `chunked`, else all bytes when they are as many as announced; never beyond the limit. A redirect if and only if a 3xx head has a first Location that is UTF-8 |
| `HttpResponse.TruncatedResponseIsNotDelivered` | crates/meow-config/src/internal_http.rs:287-325 | A transfer cut short is never delivered, whether its end was announced by Content-Length or by chunks |
| `HttpResponse.ReadAll` | crates/meow-config/src/internal_http.rs:230-245 | The buffer is the whole stream up to end of file, or the read is refused because the stream exceeds the cap, however it is split into packets |
| `HttpResponse.ReadResponse` | crates/meow-config/src/internal_http.rs:222-251 | The client receives a body exactly when the stream fits the read cap and its head and framing deliver it |
| `HttpResponse.FramingCanExceedTheReadCap` | crates/meow-config/src/internal_http.rs:226-242 | For every limit above 13106, the production limit included, a body of exactly the limit, sent in one-byte chunks, decodes but does not fit the read cap |
| `HttpResponse.ChunkedResponseGetsThrough` | crates/meow-config/src/internal_http.rs:222-251 | A chunked response within the limit is received if and only if head and framing together fit the read cap and its extensions are UTF-8 |
| `MessageBody.FollowsSection63Iff` | crates/meow-config/src/internal_http.rs:253-326 | For every status, head and bytes, the client delivers what section 6.3 of RFC 9112 calls the body, within the limit, if and only if the response is ordinary or is one that both refuse. Ordinary is a success status with Content-Length in order and: no byte, or a lone last chunk, under a status without body; `chunked` last or absent, chunks with UTF-8 extensions and a proper end, a true Content-Length beside another coding; without coding one plain Content-Length and no byte too many |
| `MessageBody.CodedAgreesIff` | crates/meow-config/src/internal_http.rs:305-325 | The part for responses with a transfer coding, with the same condition on head and bytes |
| `MessageBody.PlainAgreesIff` | crates/meow-config/src/internal_http.rs:287-325 | The part for responses without one |
| `MessageBody.BodilessAgreesIff` | crates/meow-config/src/internal_http.rs:277-325 | The part for statuses without a body: no byte may follow the head, or a last chunk alone where chunks are announced |
| `MessageBody.RefusedIff` | crates/meow-config/src/internal_http.rs:276-325 | The client has no body to deliver exactly under another status, with lengths out of order, with bytes no framing within the limit fits, or with bytes too many or not as announced |
| `MessageBody.UndefinedIff` | crates/meow-config/src/internal_http.rs:253-326 | The standard gives no body within the limit exactly when no encoding within it starts the bytes, no announced length fits bytes and limit, or the bytes are too many, as the head has it |
| `MessageBody.PalatableIsDecoded` | crates/meow-config/src/internal_http.rs:328-358 | If the chunks have UTF-8 extensions and are properly ended, decoder and standard name the same body within the limit, or both none |
| `MessageBody.UnpalatableIsRefused` | crates/meow-config/src/internal_http.rs:328-358 | If not, a body the standard names is one the decoder refuses |
| `MessageBody.AnnouncedIsDeclared` | crates/meow-config/src/internal_http.rs:291-297 | Where the client and the list grammar of the standard both read a number from a Content-Length it is the same number |
| `MessageBody.BytesAfterNoContent` | crates/meow-config/src/internal_http.rs:277-325 | Any bytes after a 204 are delivered as its body |
| `MessageBody.BytesAfterTheLength` | crates/meow-config/src/internal_http.rs:315-319 | A body followed by one more byte than announced is refused, where the standard cuts it |
| `MessageBody.ChunkedBelowAnotherCoding` | crates/meow-config/src/internal_http.rs:305-314 | Under `chunked` followed by any other coding the client unframes what the standard leaves as it is |
| `HttpResponse.FetchCapped` | crates/meow-config/src/internal_http.rs:71-104 | At most one more request than the redirect budget, each answering the redirect before it; the body is the last request's; giving up takes the whole budget |
| `HttpResponse.CredentialsStayHome` | crates/meow-config/src/internal_http.rs:86-98 | Over a whole chain of redirects a request with a sensitive header, and all before it, went to the first origin |
| `HttpResponse.CredentialNames` | crates/meow-config/src/internal_http.rs:86-98 | The headers meant are authorization, cookie, cookie2, proxy-authorization and www-authenticate, in any case |
| `HttpResponse.RetainedKeepsTheRest` | crates/meow-config/src/internal_http.rs:86-98 | Every other header is kept, in its place |
| `FeedSampler.InvKept` | crates/meow-api/src/routes.rs:714-757 | Every atomic step of subscribers, disconnects and samplers keeps the invariant over mutex, slot, channels and receivers |
| `FeedSampler.RunKeepsInv` | crates/meow-api/src/routes.rs:714-757 | The invariant holds in every state of every interleaving |
| `FeedSampler.EveryRunIsSafe` | crates/meow-api/src/routes.rs:2186-2218 | In every interleaving a live receiver's sampler is running or about to be spawned, the slot is filled exactly while its sampler has not exited, and no feed has two |
| `FeedSampler.FirstSubscriberStartsIt` | crates/meow-api/src/routes.rs:714-757 | For both feeds there is a run in which a first client starts the sampler |
| `FeedSampler.SamplerServesBoth` | crates/meow-api/src/routes.rs:714-757 | And one in which a second client joins the same channel and the one sampler ticks for both and sends |
| `FeedSampler.DesertedSamplerExits` | crates/meow-api/src/routes.rs:739-749 | Once nobody listens and the mutex is free, the sampler's next steps empty the slot and end it |
| `CommitLane.LaneInvKept` | crates/meow-api/src/routes.rs:1440-1519 | Every step keeps that one handler at most is between taking and leaving the lane |
| `CommitLane.TunInvKept` | crates/meow-api/src/routes.rs:1782-1826 | Every step, failed start and rollback included, keeps the relation of stored flag, candidate and device |
| `CommitLane.SerialKept` | crates/meow-api/src/routes.rs:1018-1071 | Every step keeps the stored config the serial fold of the log of requests, rollbacks and outside writes, except a swap of a candidate that is not up to date |
| `CommitLane.EditPrepares` | crates/meow-api/src/routes.rs:1018-1071 | A reload prepares its own config, a mutation its edit of the stored data with the `tun` section as it is, or a refusal where the edit refuses |
| `CommitLane.RebuildServes` | crates/meow-api/src/routes.rs:1018-1071 | A rebuild that succeeds serves the candidate, a forced reload that fails serves nothing, and any other failure what was served before |
| `CommitLane.SwapStoresWhatWasAsked` | crates/meow-api/src/routes.rs:1018-1071 | In every run a swap stores the config a reload brought, and for a mutation no write has overtaken its edit of the data stored until then |
| `CommitLane.RunKeepsInv` | crates/meow-api/src/routes.rs:1834-1950 | Mutual exclusion and the relation of flag and device hold in every state of every run |
| `CommitLane.TunFlagTellsTheTruth` | crates/meow-api/src/routes.rs:1694-1826 | Whenever the lane is free, `tun.enable` in the stored config says whether a device is installed, over every run |
| `CommitLane.NothingToStartIsUnreachable` | crates/meow-api/src/routes.rs:1694-1826 | In every run a change from off to on starts the device or fails and is rolled back; the branch that finds nothing to start is never taken, and flag and device agree afterwards |
| `CommitLane.ReconciledDevice` | crates/meow-api/src/routes.rs:1694-1826 | In every run, without the parser: after a change from off to on the device runs if and only if the build has the listener, the device reports ready, the mtu is absent or at least 1280, the address absent or a network, the timeout not zero and the route mode known; otherwise only the switch is taken back; switched off it does not run; unswitched nothing changes |
| `CommitLane.StartsIff` | crates/meow-api/src/routes.rs:1694-1768 | An enabled section starts exactly under these conditions and fails otherwise |
| `CommitLane.ParsesIffSound` | crates/meow-config/src/lib.rs:284-380 | Exactly the sound sections parse, each field as written or by its default |
| `CommitLane.ParsingCopiesEnable` | crates/meow-config/src/lib.rs:284-380 | Whatever else a `tun` section holds, if it parses it is enabled exactly when it says so |
| `CommitLane.EnabledNeverIdles` | crates/meow-api/src/routes.rs:1694-1768 | With or without the listener compiled in, an enabled section starts the device or fails, and is never nothing to start |
| `CommitLane.CommitsAreSerial` | crates/meow-api/src/routes.rs:1018-1071 | No lost update: in every interleaving, outside writes included, in which no write falls while a mutation that goes on to swap is pending, every stored config is that of requests and writes run one by one in the order they took effect |
| `CommitLane.SerialIffNothingLost` | crates/meow-api/src/routes.rs:1018-1071 | For any edits and writes, over every run: all stored configs are serial if and only if no swap of an overtaken mutation stores something else than its request makes of the config stored by then |
| `CommitLane.SerialIffNoneOvertaken` | crates/meow-api/src/routes.rs:1018-1071 | If the config keeps a count that outside writes raise and edits leave alone, edits that refuse some configs included, over every run: all stored configs are serial if and only if no write fell while a mutation that went on to swap was pending |
| `CommitLane.UndisturbedIsUpToDate` | crates/meow-api/src/routes.rs:1018-1071 | A candidate during which no write fell is what its request gives on the config now stored |
| `CommitLane.RoutingIsSerial` | crates/meow-api/src/routes.rs:1060-1070 | In every run without overtaken mutations and outside updates of routing, routing is that of the requests run one by one, up to the rebuild of the one in the lane |
| `CommitLane.RoutingServesStored` | crates/meow-api/src/routes.rs:1060-1070 | Routing that was not emptied by a forced reload serves a config from which the stored one differs exactly by the rollbacks and outside writes since |
| `CommitLane.SavedIsStored` | crates/meow-api/src/routes.rs:1126-1183 | In every run, what a saving mutation writes to disk is the config stored at that moment, if no outside write fell after its swap |
| `CommitLane.RejectionChangesNothing` | crates/meow-api/src/routes.rs:1018-1071 | In every run a request refused by its edit or an unforced rebuild frees the lane and leaves store, routing and device as they were |
| `CommitLane.BypassingWriteIsLost` | crates/meow-app/src/subscription_refresh.rs:57-71 | From every initial state there is a run in which a write between a mutation's edit and its swap is gone after the swap, for every write that makes a difference to the edit |
| `CommitLane.ReroutingIsUnseen` | crates/meow-app/src/subscription_refresh.rs:87-90 | From every initial state there is a run in which routing is replaced from outside and no longer serial |
| `ServiceLifecycle.ControlState.OnStop` | crates/meow-app/src/windows_service.rs:299-310 | The stop section: phase, report if a handle is there, and the shutdown signal taken at most once, as one atomic step of the machine |
| `ServiceLifecycle.ControlState.OnRegistered` | crates/meow-app/src/windows_service.rs:315-322 | The registration section stores the handle and reports the first checkpoint |
| `ServiceLifecycle.ControlState.OnReporterWoken` | crates/meow-app/src/windows_service.rs:327-344 | The reporter, woken, either finds the phase changed and ends or reports the next checkpoint |
| `ServiceLifecycle.ControlState.OnReady` | crates/meow-app/src/windows_service.rs:347-358 | Ready is accepted exactly when the phase is still Starting and the report succeeds |
| `ServiceLifecycle.ControlState.OnExit` | crates/meow-app/src/windows_service.rs:372-377 | The exit section ends the phase and reports Stopped |
| `ServiceLifecycle.InvKept` | crates/meow-app/src/windows_service.rs:286-377 | Every critical section keeps the invariant tying phase, checkpoint, sender and report log |
| `ServiceLifecycle.RunKeepsInv` | crates/meow-app/src/windows_service.rs:286-377 | The invariant holds in every state of every interleaving |
| `ServiceLifecycle.EveryRunIsSafe` | crates/meow-app/src/windows_service.rs:286-377 | In every interleaving no StartPending follows Running, StopPending or Stopped, checkpoints rise until they saturate, Running is reported at most once and never after a stop was taken, and the shutdown signal fires at most once, and always when a stop was taken |
| `ServiceLifecycle.StartIsReported` | crates/meow-app/src/windows_service.rs:315-344 | For every number of wakings there is a run in which the start was reported that often, with checkpoints one, two, three and so on |
| `ServiceLifecycle.StopAfterExitReportsAgain` | crates/meow-app/src/windows_service.rs:296-377 | In the run of registration, ready, exit and stop the last report is StopPending, after Stopped |
| `ServiceLifecycle.StoppedIsLastUnlessStopped` | crates/meow-app/src/windows_service.rs:296-377 | Over every run, a report follows Stopped if and only if a stop whose report gets through comes after an exit whose report did |
| `ConfigSave.ConfigDir.SaveRawConfig` | crates/meow-config/src/lib.rs:457-483 | Path, backup and temporary file after a save that runs, fails or is cut at any step |
| `ConfigSave.SaveKeepsRecoverable` | crates/meow-config/src/lib.rs:457-483 | After one save, whole or cut, the last committed config is at the path, or at the backup with the path absent |
| `ConfigSave.CommittedSurvives` | crates/meow-config/src/lib.rs:457-483 | The same over any sequence of saves, each cut anywhere or with any failing rename |
| `ConfigSave.OverlappingSavesTearTheConfig` | crates/meow-api/src/routes.rs:1002-1010 | From every initial state there is a run in which one save renames to the path the file another has just begun to rewrite |
| `ConfigSave.OpenWriterFollowsTheRename` | crates/meow-config/src/lib.rs:472-483 | And one in which a save that has the file open keeps writing into it after another's rename has made it the config |
| `ConfigSave.PathStaysWholeIff` | crates/meow-config/src/lib.rs:472-483 | Over any interleaving of saves, each with its own open file, the path never holds a torn file if and only if every rename into place finds a temporary file whose last opener opened it while nobody else was writing it, and has finished |
| `ConfigSave.ApartSavesStayWhole` | crates/meow-config/src/lib.rs:472-483 | Saves of which none opens the temporary file between another's open and its end never leave a torn file at the path |
| `ConfigSave.LoneSaveIsASave` | crates/meow-config/src/lib.rs:472-483 | A save that nothing overlaps leaves path, backup and temporary file as a save on its own does, whichever renames fail |
| `ResolverFence.Task.ResolveAddrs` | crates/meow-common/src/socket_protect.rs:358-430 | Resolution answers as the tree of nested calls does, and the fence is back to what it was |
| `ResolverFence.Task.ConnectTcpHost` | crates/meow-common/src/socket_protect.rs:441-459 | The first candidate that connects; if none does, the last failure, and only then is the cached entry dropped |
| `ResolverFence.Task.ResolveHost` | crates/meow-common/src/socket_protect.rs:469-471 | Taking the first address is safe: success always has one |
| `ResolverFence.FencedNeverEnters` | crates/meow-common/src/socket_protect.rs:363-383 | Inside a hook lookup no resolution, however deep, enters the hook |
| `ResolverFence.OneLookupAtATime` | crates/meow-common/src/socket_protect.rs:358-430 | Whatever tree of nested resolutions a call unfolds into, one hook lookup at most is active along any path |
| `ResolverFence.ResolutionIsUsable` | crates/meow-common/src/socket_protect.rs:354-430 | Every successful result is non-empty and on the asked port, cached results included, and the cache only ever holds such entries |
| `ResolverFence.AnswersComeFrom` | crates/meow-common/src/socket_protect.rs:358-430 | Each answer comes from one place: the literal, the hook's answer with no fallback, inside a lookup what the hook knows locally, the cache up to a minute, or the system; a mobile build remembers what the system said |
| `DialDeadline.EverythingEndsWithinOneBudget` | crates/meow-common/src/dial.rs:57-76 | However dials nest, hang or continue after each other, the outermost and every dial inside it end within one timeout of the outermost start |
| `DialDeadline.DialsEndByDeadline` | crates/meow-common/src/dial.rs:44-61 | Under a deadline in scope every dial begun by it, at any depth, ends by it |
| `DialDeadline.InTimeIsUntouched` | crates/meow-common/src/dial.rs:57-76 | A run that finishes by the deadline without timeouts is the same run with them |
| `DialDeadline.EarlyMeansUnbounded` | crates/meow-common/src/dial.rs:57-76 | What finishes before the deadline is the result without any timeout |
| `DialDeadline.BudgetOnlyCutsSlowDials` | crates/meow-common/src/dial.rs:57-76 | A dial with no deadline in scope is untouched if it needs no more than the timeout and is cut at the timeout otherwise |
| `HealthCheck.ResolveMembers` | crates/meow-app/src/health_check.rs:84-87 | The members probed are the listed ones the snapshot knows, in order |
| `HealthCheck.ResolvedInOrder` | crates/meow-app/src/health_check.rs:84-87 | One result per known member, each behind as many as are known before it |
| `HealthCheck.CountRound` | crates/meow-app/src/health_check.rs:90-109 | One result per member; all are counted alive exactly when no probe failed |
| `HealthCheck.RunTick` | crates/meow-app/src/health_check.rs:60-126 | One tick runs the round its generation calls for, and remembers the generation only if a member was probed |
| `HealthCheck.RunHealthCheckLoop` | crates/meow-app/src/health_check.rs:45-126 | Over any ticks the loop runs the rounds determined by the newest effective round; a lazy group lets the first tick pass |
| `HealthCheck.UseBetweenRounds` | crates/meow-app/src/health_check.rs:41-78 | Any two effective rounds of a lazy group that is not replaced have a new use between them |
| `HealthCheck.ProbesIffUsed` | crates/meow-app/src/health_check.rs:41-118 | A lazy tick that reaches members probes them exactly when some use is not yet answered by a round |
| `HealthCheck.UseDuringRoundIsAnswered` | crates/meow-app/src/health_check.rs:112-119 | A use during a round makes the next tick that reaches members probe again |
| `HealthCheck.BarrenTickConsumesNothing` | crates/meow-app/src/health_check.rs:112-119 | A tick that reaches no member can be taken out of the run and every other round stays the same |
| `HealthCheck.EagerProbesEveryTick` | crates/meow-app/src/health_check.rs:41-43 | Without the lazy flag every tick that reaches members probes |
| `HealthCheck.OverlookedIffShadowed` | crates/meow-app/src/health_check.rs:54-78 | A waiting use of a lazy group is overlooked exactly when the newest round probed another instance of the group that had been used just as often |
| `HealthCheck.ReplacedGroupIsOverlooked` | crates/meow-app/src/health_check.rs:54-78 | One use and round, a reload, one use of the new group: the tick is skipped |
| `HostAliases.WalkFrom` | crates/meow-config/src/dns_parser.rs:790-804 | A walk is accepted only if it ends within the number of targets; a refused walk goes on for ever when its source leads to its target |
| `HostAliases.RejectCycles` | crates/meow-config/src/dns_parser.rs:786-807 | Accepted hosts end from any name whatever within the distinct targets plus one; rejected ones hold a real cycle when each source leads to its own target |
| `HostAliases.ParseValues` | crates/meow-config/src/dns_parser.rs:734-757 | Exactly the readable values are accepted: one address or alias, or a list of addresses only |
| `HostAliases.BuildHosts` | crates/meow-config/src/dns_parser.rs:720-770 | Success means the trie the lines put together, with every alias walk ended within the bound, and over lines and names: a name is answered if and only if some line with values is written for it, then with what such a line says, and with what the first line says that names it exactly, if one does; failure means an unreadable line or a cycle found in that trie |
| `HostAliases.LinesAreAnswered` | crates/meow-config/src/dns_parser.rs:759-767 | The same for what the lines put together: `*.x` and `+.x` are written for x and every name below it, `.x` for every name below it, any other host for itself, up to case and the dots behind the name asked for |
| `HostAliases.EntryIff` | crates/meow-config/src/dns_parser.rs:734-757 | What the values of a line say: one address, one alias in lower case without trailing dots, or a list of addresses |
| `HostAliases.DottedHostIsMute` | crates/meow-config/src/dns_parser.rs:759-767 | A host written with a trailing dot is written for no name |
| `HostAliases.MergeSystemHosts` | crates/meow-config/src/dns_parser.rs:809-817 | Merging keeps the bound on walks and adds no alias; with plain system names every name is answered as the configuration answers it, else with the addresses of the first system entry for it, else not at all |
| `HostAliases.PlainNameIsAdded` | crates/meow-config/src/dns_parser.rs:812-815 | Adding a plain name nobody answers for answers it and changes no other answer |
| `HostAliases.UnansweredNameChangesNoAnswer` | crates/meow-config/src/dns_parser.rs:812-815 | Adding a plain name nobody answers for changes no answer already given, with wildcards around it or not |
| `DomainTrie.InsertThenGet` | crates/meow-trie/src/trie.rs:118-138 | Insertion fills one place if it was free and touches no other |
| `DomainTrie.SearchLoop` | crates/meow-trie/src/trie.rs:217-247 | The descent returns the deepest offer along the name, exact before star before dot |
| `DomainTrie.StoredIsFirst` | crates/meow-trie/src/trie.rs:79-138 | A filled trie stores at each place the first pattern inserted for it |
| `DomainTrie.FoundIffMatched` | crates/meow-trie/src/trie.rs:217-247 | A name is found exactly when some inserted pattern matches it |
| `DomainTrie.MostSpecificIsFound` | crates/meow-trie/src/trie.rs:217-247 | The search answers with the most specific matching pattern: the deepest, a star before a dot, and the first of those with the same place |
| `DomainTrie.SearchMinLoop` | crates/meow-trie/src/trie.rs:351-377 | The minimum descent folds the least offer along the name |
| `DomainTrie.LeastMatchIsFound` | crates/meow-trie/src/trie.rs:351-422 | With patterns inserted in ascending order it returns the least value among all matching patterns |
| `DomainTrie.SearchAfterInsert` | crates/meow-trie/src/trie.rs:79-116 | After an insertion any search answers what it did before or the value inserted |
| `Wildcard.PiecesMeanPattern` | crates/meow-tunnel/src/rule_ir.rs:1425-1438 | Splitting at the stars keeps the meaning of a pattern: one or more characters of one label for each star |
| `Wildcard.DottedPieceStandsOnce` | crates/meow-tunnel/src/rule_ir.rs:1457-1465 | A piece with a dot in it has at most one place within reach of its star |
| `Wildcard.EarliestIsBest` | crates/meow-tunnel/src/rule_ir.rs:1457-1465 | Taking the earliest place for each piece loses no match: the rest fits somewhere exactly when it fits there |
| `Wildcard.FindAfterDotfreeGap` | crates/meow-tunnel/src/rule_ir.rs:1488-1502 | The earliest place a gap inside one label leads to, or proof that there is none |
| `Wildcard.MatchPieces` | crates/meow-tunnel/src/rule_ir.rs:1441-1480 | The one-pass matcher accepts exactly the hosts some choice of gaps fits |
| `Wildcard.MatchWildcard` | crates/meow-tunnel/src/rule_ir.rs:1420-1502 | The structural matcher is the meaning of the pattern, for every pattern and host |
| `PortSpans.CompilePortMatcher` | crates/meow-tunnel/src/rule_ir.rs:1572-1623 | Sorting and merging gives spans in canonical form that hold exactly the ports of the list; none only for the empty list |
| `PortSpans.CanonicalIsUnique` | crates/meow-tunnel/src/rule_ir.rs:1591-1605 | Two canonical forms are equal exactly when they hold the same ports, so one fingerprint stands for one predicate |
| `Rules.ResolvesIffHolds` | crates/meow-rules/src/sub_rule.rs:71-112 | A rule gives an adapter exactly when it matches, sub-rule blocks nested to any depth included |
| `Rules.ResolvesIffRoutes` | crates/meow-rules/src/sub_rule.rs:99-112 | A rule resolves to exactly one adapter: its own, or for a sub-rule the one of the first rule of its block to match, to any depth |
| `Rules.LowerKeepsMeaning` | crates/meow-tunnel/src/rule_ir.rs:1115-1234 | Read with empty wildcards that match nothing, a lowered rule accepts the connections the rule accepts, logic trees included |
| `Rules.OnlyBlanksDiffer` | crates/meow-tunnel/src/rule_ir.rs:1295-1308 | An operation accepts what it does under that reading, unless an empty wildcard in it faces an absent host |
| `Rules.WildcardLoweringIsExact` | crates/meow-rules/src/domain_wildcard.rs:41-47 | A wildcard is lowered faithfully exactly unless both pattern and host are empty |
| `Rules.FoldKeepsMeaning` | crates/meow-tunnel/src/rule_ir.rs:1028-1070 | Folding constants through AND, OR and NOT never changes what an operation accepts, under either reading of empty wildcards |
| `RuleCoverage.AddIsUnion` | crates/meow-tunnel/src/rule_ir.rs:1099-1112 | Adding a network to a simplified cover adds exactly its addresses |
| `RuleCoverage.Hole` | crates/meow-tunnel/src/rule_ir.rs:1092-1112 | A simplified cover that does not report a network covered lacks one of its addresses |
| `RuleCoverage.CoveredIffInUnion` | crates/meow-tunnel/src/rule_ir.rs:1073-1112 | A network is reported covered if and only if the union of the earlier ones holds each of its addresses |
| `RuleCoverage.FindSuffix` | crates/meow-tunnel/src/rule_ir.rs:957-971 | The walk over dot boundaries finds a recorded suffix exactly when the pattern ends in one at a label boundary |
| `RuleCoverage.StarGlob` | crates/meow-tunnel/src/rule_ir.rs:994-1001 | A star payload means one non-empty label before its rest |
| `RuleCoverage.ShadowedIsClaimed` | crates/meow-tunnel/src/rule_ir.rs:914-992 | A predicate found shadowed accepts no host that the recorded suffixes, keywords and stars leave unclaimed |
| `RuleCoverage.DomainShadowedIff` | crates/meow-tunnel/src/rule_ir.rs:935-992 | A name is shadowed exactly when some recorded suffix, keyword or star accepts it as a host |
| `RuleCoverage.OthersShadowedIff` | crates/meow-tunnel/src/rule_ir.rs:935-992 | A suffix, or what stands behind a star, is shadowed exactly when a recorded suffix or keyword accepts it as a host, and a keyword exactly when a recorded one is in it |
| `DomainNames.ExtendsIffBelow` | crates/meow-trie/src/trie.rs:118-127 | One path extends another exactly when its name lies below the other's, and paths are equal only for equal names |
| `DomainIndex.IndexedAsStored` | crates/meow-tunnel/src/match_engine.rs:59-114 | A tidy payload is either taken over, with the patterns of its base name, or leaves no pattern behind |
| `DomainIndex.TakenOverIff` | crates/meow-tunnel/src/match_engine.rs:59-114 | The index takes over exactly the name and suffix rules in ASCII with no dot at an end or next to another and no wildcard mark in front, and star wildcards over such a rest |
| `DomainIndex.SaysIffStoredMatches` | crates/meow-tunnel/src/match_engine.rs:59-94 | The patterns stored for a rule match a name exactly when the name is the base, lies below it, or one label below it, as its type asks |
| `DomainIndex.MisreadIff` | crates/meow-tunnel/src/match_engine.rs:90-114 | On lower-case hosts the index never misses a rule that matches, and answers for one that does not exactly when the host ends in a dot or a star faces an empty label |
| `DomainIndex.CleanHostsAgree` | crates/meow-tunnel/src/match_engine.rs:105-114 | Without a dot at either end the index says of a host what the rule says |
| `RuleCompiler.CompiledMeansRule` | crates/meow-tunnel/src/rule_ir.rs:312-344 | The operation of a slot stands for what its rule accepts, and accepts it unless an empty wildcard faces an absent host; a rule dropped as dead accepts nothing |
| `RuleCompiler.EqualKeysMeanSameTest` | crates/meow-tunnel/src/rule_ir.rs:814-873 | Rules with equal keys are the same test, unless they are AND or OR rules |
| `RuleCompiler.RepeatedRuleIsDropped` | crates/meow-tunnel/src/rule_ir.rs:346-361 | A rule that repeats the name, network or user id of an earlier one of its kind, in any case, keeps no slot |
| `RuleCompiler.RepeatedOperationIsDropped` | crates/meow-tunnel/src/rule_ir.rs:346-361 | Neither does a rule of an earlier one's type and demands that folds to the same name, network or user id test, however its text differs |
| `RuleCompiler.NothingAfterMatch` | crates/meow-tunnel/src/rule_ir.rs:411-416 | Nothing after a MATCH rule that kept its slot keeps one |
| `RuleCompiler.TrueClaimsAreLive` | crates/meow-tunnel/src/rule_ir.rs:363-371 | Whatever host is claimed by the patterns the live rules match by is accepted by an earlier rule that kept its slot |
| `RuleCompiler.CoverageIsUnion` | crates/meow-tunnel/src/rule_ir.rs:373-389 | The coverage on each side stands for the union of the networks that kept their slots |
| `RuleCompiler.FirstIsLiveUnlessMisjudged` | crates/meow-tunnel/src/rule_ir.rs:312-417 | Through all five pruning passes the first rule to match a connection keeps its slot, exactly unless it was taken for a duplicate of rules that test something else, or for shadowed though by the patterns the rules match by it is not |
| `RuleCompiler.PlainClaimsAreTrue` | crates/meow-tunnel/src/rule_ir.rs:920-955 | Without logic rules that fold to a single test, the claims recorded by payload are those of the patterns |
| `RuleCompiler.OnlyCollapsesMisjudge` | crates/meow-tunnel/src/rule_ir.rs:346-371 | No rule is misjudged as long as no logic rule up to it folds to a single test |
| `RuleCompiler.ResolutionDemandSurvives` | crates/meow-tunnel/src/rule_ir.rs:346-393 | If no logic rule up to it folds to a single test, a rule that asks for address resolution leaves a live rule, itself or an earlier one, that asks for it |
| `RuleCompiler.DemandSurvivesIff` | crates/meow-tunnel/src/rule_ir.rs:346-393 | For any rules: among the rules up to a point a live one asks for resolution if and only if one that asks is neither a duplicate nor shadowed |
| `RuleCompiler.ShadowingDropsTheDemand` | crates/meow-tunnel/src/rule_ir.rs:363-371 | For every name and network, off Linux, an earlier suffix shadows the only rule that asks for resolution |
| `RuleBuild.CompileSlots` | crates/meow-tunnel/src/rule_ir.rs:296-417 | The one pass, with its sets and coverages updated as it goes, gives every rule the fate that the rules before it determine, and a slot to exactly the live ones |
| `RuleBuild.InsertRule` | crates/meow-tunnel/src/match_engine.rs:59-84 | The trie afterwards holds the earlier patterns and this rule's, and the answer says whether the rule is owned |
| `RuleBuild.IndexSlots` | crates/meow-tunnel/src/rule_ir.rs:432-450 | The trie holds the patterns of the slots it takes over, in order, and no others; only those slots lose their predicate |
| `RuleBuild.Build` | crates/meow-tunnel/src/rule_ir.rs:296-462 | The compiled set is the live rules in order, indexed above the linear limit; its two flags say whether a live rule needs an address or a process |
| `RuleBuild.SlotsAscend` | crates/meow-tunnel/src/rule_ir.rs:58-60 | Slots keep the order of the rules they came from |
| `RuleMatch.SearchIndex` | crates/meow-trie/src/trie.rs:180-195 | The index answers with the least rule among the patterns that match the host without trailing dots |
| `RuleMatch.IndexFindsLeast` | crates/meow-tunnel/src/match_engine.rs:17-24 | A hit is the least owned rule the index may speak for; a miss means it may speak for none |
| `RuleMatch.PartitionPoint` | crates/meow-tunnel/src/rule_ir.rs:501-511 | The position before which all slots have smaller rule indices and after which none has |
| `RuleMatch.ScanRange` | crates/meow-tunnel/src/rule_ir.rs:666-716 | A scan stops at the first slot in its range that matches, or that demands missing metadata when asked to, having passed only slots that do neither |
| `RuleMatch.Consult` | crates/meow-tunnel/src/rule_ir.rs:487-511 | A hit always has a live slot, which says yes, and no owned slot before it does; without a hit no owned slot does |
| `RuleMatch.MatchRules` | crates/meow-tunnel/src/rule_ir.rs:470-522 | Trie, early exit and the scans around the hit give the first slot in order whose verdict is yes; the hit carries the type and payload of its rule and the adapter it routes to, for a sub-rule the one of the first rule of its block to match |
| `RuleMatch.NaiveIsFirst` | crates/meow-tunnel/src/match_engine.rs:116-183 | The reference: the first rule that matches, with the adapter it routes to |
| `RuleMatch.EnrichmentNeeds` | crates/meow-tunnel/src/rule_ir.rs:594-611 | The request names exactly the missing fields some later slot demands, and at least one |
| `RuleMatch.MatchRulesLazy` | crates/meow-tunnel/src/rule_ir.rs:534-589 | The lazy match agrees with the strict one on the same metadata, or stops, exactly when a slot before the first yes demands missing metadata, and reports what from there on is demanded |
| `RuleMatch.OneRoundSuffices` | crates/meow-tunnel/src/rule_ir.rs:591-611 | Once the reported fields are no longer missing no slot demands anything |
| `RuleMatch.CompiledAgreesIff` | crates/meow-tunnel/src/rule_ir.rs:1750-1761 | The compiled set answers what the rules answer in order if and only if the first matching rule was not misjudged, no slot before it speaks for a rule that does not match (by the index, or by an empty wildcard on an absent host), and no such wildcard silences its own slot |
| `RuleMatch.HeldSpeaksIff` | crates/meow-tunnel/src/rule_ir.rs:1295-1308 | The slot of a rule that matches says no exactly when an empty wildcard in it faces an absent host and makes it |
| `RuleMatch.PlainRulesCompileFaithfully` | crates/meow-tunnel/src/rule_ir.rs:38-60 | For rules whose logic trees do not fold to one test, hosts in lower case without a dot at either end, and no empty wildcard on an absent host, compilation changes no answer |
| `RuleMatch.CollapsedTwinIsLost` | crates/meow-tunnel/src/rule_ir.rs:346-361 | For every name, a one-armed AND over the exact name takes the slot of a one-armed AND over the suffix, which then misses its subdomains |
| `RuleMatch.GarbledWildcardIsLost` | crates/meow-tunnel/src/rule_ir.rs:363-371 | For every name without the letters `or`, off Linux, an OR of its star wildcard and a user id after the keyword `or` is dropped as shadowed, though it alone matches a host one label below the name |
| `RuleMatch.BlankWildcardMisleads` | crates/meow-tunnel/src/rule_ir.rs:1295-1308 | A connection without a host goes to an empty wildcard instead of the rule after it, and passes the negation of one that should take it |
| `RuleMatch.BlankWildcardIsKept` | crates/meow-tunnel/src/rule_ir.rs:312-417 | The rules of these inputs all keep their slots |
| `RuleMatch.TrailingDotPreempts` | crates/meow-tunnel/src/rule_ir.rs:487-519 | Every name rule the index owns also takes the name with a trailing dot, which the rule does not match |
| `RuleEnrichment.ResolveProxy` | crates/meow-tunnel/src/tunnel.rs:143-206 | Lookups in advance and one match give the answer of the compiled set on the fully enriched metadata |
| `RuleEnrichment.LookedUpUserIsRouted` | crates/meow-tunnel/src/match_engine.rs:185-209 | On Linux a connection whose user only the process table knows is stopped for, and goes to the rule for that user |
| `RuleEnrichment.LookupsReachBlocks` | crates/meow-rules/src/sub_rule.rs:91-97 | A sub-rule stops the scan for what a network or user rule in its block asks for, and what is looked up decides it |
| `RuleEnrichment.OwnUserStays` | crates/meow-tunnel/src/match_engine.rs:203-207 | A user id the connection came with is not replaced |
| `RuleEnrichment.OwnAddressStays` | crates/meow-tunnel/src/tunnel.rs:143-154 | Neither is an address, and without a host none is looked up |
| `RuleEnrichment.ResolveProxyLazy` | crates/meow-tunnel/src/tunnel.rs:208-266 | The demand-driven match answers as the one with lookups in advance if and only if it stopped for a lookup or no lookup would change what a slot it read says |
| `RuleEnrichment.StoppedAsksForAll` | crates/meow-tunnel/src/rule_ir.rs:594-611 | A scan that stops asks for everything the set can demand and the connection lacks, so that the second match sees what lookups in advance give |
| `RuleEnrichment.SameAnswerIffNotSwayed` | crates/meow-tunnel/src/rule_ir.rs:470-522 | A match on metadata as it is gives the answer on enriched metadata exactly when no slot it reads says something else |
| `RuleEnrichment.SwayedDemandsNothing` | crates/meow-tunnel/src/rule_ir.rs:534-589 | A slot swayed in a scan that did not stop demands nothing that is missing |
| `RuleEnrichment.NoResolveIsSwayed` | crates/meow-tunnel/src/tunnel.rs:208-266 | For every no-resolve network, name that resolves into it, and resolving network after them, the two ways route the connection by different rules |
| `RuleEnrichment.NoResolveIsKept` | crates/meow-tunnel/src/rule_ir.rs:312-417 | The three rules of that input all keep their slots |
| `LinearRegression.DenominatorClosedForm` | crates/meow-bench/src/bench_memleak.rs:101-112 | Twelve times the denominator is n squared times n squared minus one, so it is at least one from two rounds on and zero before |
| `LinearRegression.FitSolvesNormalEquations` | crates/meow-bench/src/bench_memleak.rs:113-114 | Slope and intercept solve the normal equations of the sample |
| `LinearRegression.ResidualsSplit` | crates/meow-bench/src/bench_memleak.rs:113-126 | Any other line is worse than a solution of the normal equations by exactly its spread about it |
| `LinearRegression.FitIsTheMinimum` | crates/meow-bench/src/bench_memleak.rs:101-133 | The fitted line minimises the squared residuals over all lines and is the only one to do so, for every sample of two or more rounds |
| `LinearRegression.RSquaredIsAFraction` | crates/meow-bench/src/bench_memleak.rs:116-132 | R squared lies between zero and one, and is one exactly for samples on a line that are not all equal |
| `LinearRegression.ExactGrowthIsJudgedByItsSlope` | crates/meow-bench/src/bench_memleak.rs:135-187 | Samples on a line are fitted by that line and judged a leak exactly when it climbs faster than tolerated |
| `LinearRegression.LeakIff` | crates/meow-bench/src/bench_memleak.rs:101-187 | For every sample: a leak is suspected exactly when the line of least squares climbs by more than 50 KB a round and leaves less than three tenths of the spread about the mean, and never with fewer than two rounds |
| `BenchWork.InRangeIffCounted` | crates/meow-bench/src/bench_memleak.rs:72-82 | Worker w's i-th index is in range exactly when i is below the worker's count |
| `BenchWork.RunWorker` | crates/meow-bench/src/bench_memleak.rs:76-89 | A worker visits its own indices in order and counts exactly the successes among them |
| `BenchWork.RunRound` | crates/meow-bench/src/bench_memleak.rs:71-99 | With at least one worker every index of the round runs exactly once and the total is the number of successes of joined workers; with none nothing runs |

## Left out

- Sockets, TLS, DNS transport, HTTP head parsing, URL joining, YAML, regular expressions, databases and per-protocol fields are parameters or absent; they rest on libraries or add only easy members.
- Text is a sequence of characters: byte offsets inside non-ASCII names, Unicode lower case (`to_lowercase` in the trie and in DOMAIN rules) and the Unicode case folding of regular expressions are not modelled; ASCII case is.
- DomainTrie: the trie is a value rebuilt by insertion, not a structure changed in place; the sealed form and the case-insensitive descent are not modelled apart (a search lowers its query instead).
- Wildcard.MatchWildcard: the source hands patterns with adjacent stars to the regular-expression engine; here the structural matcher is proved for them too.
- Rules with one compiled matcher (ports, networks, process, inbound, regular expression, GEOSITE, GEOIP, rule sets) are one kind of rule with an uninterpreted matcher known by its handle or payload; port lists are in `PortSpans`.
- RuleBuild.Build: adapter names are kept in the slot instead of being interned, and networks and user ids print through given functions assumed to print different values differently.
- RuleCoverage: the prefix tree of the range library is modelled by a simplified binary tree.
- RuleMatch.CompiledAgreesIff: in the indexed plan the host must be in lower case, as the listeners leave it, and payloads trimmed, as the parser leaves them.
- RuleEnrichment.ResolveProxyLazy: rule mode only; the lookups answer the same whenever they are asked, and the sniffed host that rules see in place of the metadata's is not told apart from it.
- The older matcher without compilation (match_engine.rs) is not modelled; its first-match meaning is the reference.
- ProxyGroups.LenientPass: the result depends on declaration order, as in the source; only the strict passes are order-independent.
- HostAliases.RejectCycles: a rejection is a real cycle only when each source leads to its own target; a host that coincides with the root of a wildcard may be shadowed by an earlier entry.
- CommitLane: the inner mutation lock is part of the lane, handlers run to their end, and the device does not die on its own; writers outside the lane leave the `tun` section alone, and their updates of routing are excluded from the claims about routing.
- CommitLane.SerialIffNoneOvertaken: needs a count that every outside write raises and that accepted edits leave alone (or shift evenly, upwards only if nothing is refused), because a write that changes nothing cannot be told from one that is lost; without a count the condition is that of `CommitLane.SerialIffNothingLost`.
- FeedSampler: what the frames contain is not modelled.
- ServiceLifecycle: calls to the service manager are reports that succeed or fail; the wait of the reporter may end at any time.
- HealthCheck: the wrap-around of the 64-bit generation, the ticker's timing and the concurrency limit of probes are not modelled.
- DialDeadline: time is discrete and a task takes none unless it sleeps; a dial is a finite program.
- ResolverFence: the answers of hook and system resolver and the time of each call are given with the call; unrelated tasks are not modelled.
- ConfigSave: renames are atomic and the directory has one configuration; what two saves wrote to one file at the same time counts as torn.
- MessageBody: an extension is any bytes after a semicolon, so the standard is given a body also where the grammar of section 7.1.1 has no such extension; trailer lines are any non-empty lines, header names and values arrive split, and the size of a chunk is that of data in memory.
- LinearRegression: exact reals, not floating point; the threshold on the denominator is then met exactly by samples of fewer than two rounds.
- HttpResponse: a 64-bit size type is assumed, and read timeouts are not modelled.
