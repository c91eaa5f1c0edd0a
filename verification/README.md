# A verified model of plexd's node agent

plexd is a mesh-node agent. This project models the parts of it that carry hard invariants and proves
them in Dafny 4.11. Check everything with `dafny verify dfyconfig.toml`.

| file | models |
|---|---|
| `PolicyEngine.dfy`, `Nftables.dfy`, `Addresses.dfy` | the two-stage policy compiler: node-ID policies to IP rules to nftables register programs, and the peer filter |
| `ReplayGuard.dfy` | signature, freshness and nonce checks on signed envelopes |
| `SiteToSite.dfy`, `Ingress.dfy`, `DesiredState.dfy` | desired-state managers, rollback and the diff-and-restart reconcile handlers |
| `Relay.dfy` | relay sessions and the address index |
| `ReportSync.dfy` | notifiers and the debounced flush loop, as interleaved steps |
| `Stun.dfy`, `Sse.dfy` | the STUN response parser and the server-sent events parser, each with a printer |
| `StateDiff.dfy`, `Reconciler.dfy`, `Strings.dfy` | state drift, the snapshot and the reconcile cycle |
| `StateCache.dfy`, `Files.dfy` | the disk-backed state cache, atomic file writes, report versions |
| `AuditForwarder.dfy` | the bounded forwarder queue |
| `Reconnect.dfy` | reconnect backoff and polling fallback |
| `Bytes.dfy`, `Api.dfy`, `Prelude.dfy` | bytes as integers with bitwise operators, shared entities |

## How the code is read

- Go's library calls are parameters: `net.ParseCIDR`/`net.ParseIP` are the two functions of `Addresses.Parser`,
  Ed25519, base64 and JSON the three of `ReplayGuard.Crypto`, certificates a predicate of the ingress manager.
  Nothing is assumed about them.
- Clock readings, random numbers, context cancellation and the answers of servers, kernels, reporters, sources
  and handlers are inputs. Failures are arbitrary: a fault function decides from the number of calls made so far.
- Methods that loop or update fields in the source are methods and classes here, each tied by its `ensures` to a
  function on values. The theorems are about those functions or about whole runs of the methods.
- nftables' evaluation of expressions is the interpreter `Nftables.Exec`; a load beyond a header and a failed
  comparison leave the rule.
- A slice expression that panics in the source is an error value here (`NameTooLong`, `OutOfRange`).

## Where the code falls short of a natural statement

Each of these is proved, with the exact condition under which the statement does hold, except the forward hook,
which lies outside the model.

- A policy rule that names a node whose mesh address is missing or empty is lowered to "any address", and one in CIDR
  notation to its whole block: `LowerRuleExact` (the rule keeps its meaning iff no other node it names has such an entry)
  and `WideRuleAdmitsHiddenPeer`.
- A port above 65535 is matched modulo 65536: `RuleProgramExact`. One rule with an unknown action, or one malformed or
  IPv6 address among the nodes it uses, the local node's own included, blocks the whole update: `PoliciesInstallIff`.
  The default deny is bound to the mesh interface: `OtherInterfacesPass`.
- The chain is installed on the forward hook, so packets that end or start at the node itself never reach it. What is
  proved about the chain is about the packets that do.
- The same envelope can be accepted twice when the clock passes its deadline inside the second call:
  `SerialReplayIff`, `ReplayedAtDeadline`.
- Rollback and removal erase whatever shares the interface name, and a second Setup strands forwarding pairs:
  `RollbackRestoresIff`, `RemoveSparesOtherIff`, `RemoveUnderMeshIff`.
- A desired list with a repeated ID that is not already running always yields an error: `SiteToSite.Reconcile`,
  `Ingress.Reconcile`.
- A STUN response whose last padding is cut off drives the attribute loop out of its slice: `OutOfRangeIff`,
  `ShortestOverrun`.
- Peers that share an ID but differ make the reconciler report drift forever: `RefetchIsQuietIff`. New rules under an
  unchanged policy ID, or a change of the bridge-side configuration, reach no handler: `EditedPolicyIsHandedIff`.
- A write cut off half-way leaves a temporary file that ends in `.json`, which Load then reads: `LoadAfterCutOff`.
  A complete one brings its report back after it was deleted: `CutOffWriteComesBack`. Memory and disk stay in step iff
  the files are named after their keys: `AlwaysReloadsIff`. A key named like another key's temporary file is destroyed
  by its write: `WriteSparesIff`.
- A relay session whose endpoint is already claimed takes the index entry away, and the entry stays away when it is gone
  again: `AddKeepsExactIff`, `ExactThroughoutIff`, `RemovedClaimLeavesGap`. A session that has left the maps still sends
  packets looked up before, until its Close runs: `DispatchAround`, `RemovedStillSends`.

## Model

| member | source | states |
|---|---|---|
| PolicyEngine.BuildFirewallRules | internal/policy/engine.go:77-141 | the nested loops produce exactly the lowering of all rules in order plus the default deny |
| PolicyEngine.LowerRulePreserves | internal/policy/engine.go:83-121 | on any flow of the local node a lowered rule matches iff the policy rule does, through the wildcard/local case split; a dropped rule matches none; other table entries may be any text as long as the rule names none that stands for several addresses |
| PolicyEngine.LowerRuleExact | internal/policy/engine.go:94-162 | for any table in which the local node has an address of its own: that agreement on all flows of the local node holds iff the rule names no other node whose entry is missing, empty, 0.0.0.0/0 or a block shorter than /32 |
| PolicyEngine.LoweringPreservesVerdict | internal/policy/engine.go:77-162 | for every list of such rules and every flow with the local node as an endpoint, first match over the lowered rules gives the verdict of the policies with default deny |
| PolicyEngine.LoweringDecidesByNodeId | internal/policy/engine.go:77-162 | the same with a verdict computed from node IDs alone, when no two nodes share an address |
| PolicyEngine.PeerAllowed | internal/policy/engine.go:52-72 | true iff some policy holds an allow rule one end of which is the local node or `*` and the other the peer or `*` |
| PolicyEngine.FilterPeers | internal/policy/engine.go:25-47 | the result lists, at strictly increasing positions of the input and so in order and with multiplicity, exactly the peers other than the local node that such a rule connects to it; none without policies |
| PolicyEngine.HiddenPeerIsUnreachable | internal/policy/engine.go:25-141 | a peer the filter hides gets no allow from the lowered rules in either direction |
| PolicyEngine.WideRuleAdmitsHiddenPeer | internal/policy/engine.go:104-107 | an allow rule from a node with a missing, empty or CIDR entry lets every hidden peer that the entry covers reach the local node |
| Addresses.HostCoversItself | internal/policy/nftables_linux.go:299-308 | a text that denotes one host covers exactly that address |
| Addresses.CoversIff | internal/policy/nftables_linux.go:269-325 | an address text stands for every address, for those agreeing with its block on the leading bits one by one, or for one host; IPv6 for none |
| Nftables.BuildRuleExprs | internal/policy/nftables_linux.go:181-262 | the step-by-step builder yields the rule's program, or the first error in field order |
| Nftables.MaskCompareIsPrefix | internal/policy/nftables_linux.go:310-325 | masking and comparing decides prefix membership for every prefix length 0..32 |
| Nftables.SubnetGuard | internal/policy/nftables_linux.go:291-325 | the load, mask, compare sequence lets the rule continue iff the loaded address lies in the block |
| Nftables.IfaceGuard | internal/policy/nftables_linux.go:184-195 | comparing the NUL-terminated prefix of the padded name is equality of interface names |
| Nftables.RuleProgramRuns | internal/policy/nftables_linux.go:181-262 | running the emitted program reaches the rule's verdict iff interface, addresses, protocol and truncated port match, whatever the registers held |
| Nftables.RuleDecides | internal/policy/nftables_linux.go:181-262 | accepts iff the action is allow, and drops iff it is deny, and the packet's bytes match: source at 12, destination at 16, protocol 6 or 17, big-endian destination port at 2 |
| Nftables.RuleProgramExact | internal/policy/nftables_linux.go:181-262 | the program decides every packet as the rule does iff the port fits 16 bits |
| Nftables.NftablesController.ApplyRules | internal/policy/nftables_linux.go:62-102 | replaces the chain by the programs of all rules, or changes nothing when one cannot be built or the flush fails |
| Nftables.ChainRunsAsRules | internal/policy/nftables_linux.go:80-90 | the chain's first verdict is the action of the first matching IP rule |
| Nftables.ChainEnforcesPolicies | internal/policy/enforcer.go:43-63 | the installed chain, run on any packet that has the local node's address as an endpoint and enters on the mesh interface, gives the verdict of the policies; which packets the forward hook hands to the chain is not part of it |
| Nftables.ChainAccepts | internal/policy/enforcer.go:43-63 | such a packet is accepted iff the policies allow it and dropped iff they do not |
| Nftables.ChainAcceptsByNodeId | internal/policy/enforcer.go:43-63 | the same from node IDs alone: between two nodes, one of them local, the packet passes iff the first rule for the pair allows it |
| Nftables.HiddenPeerIsDropped | internal/policy/engine.go:25-141 | the installed chain drops every packet between the local node and a hidden peer that reaches it |
| Nftables.OtherInterfacesPass | internal/policy/nftables_linux.go:185-195 | a packet on another interface reaches no verdict, not even the default deny |
| Nftables.RuleBuildsIff | internal/policy/nftables_linux.go:181-262 | a rule compiles iff its interface name is below 16 bytes, both addresses compile, the protocol is empty, tcp or udp and the action allow or deny |
| Nftables.PoliciesInstallIff | internal/policy/nftables_linux.go:80-90 | for any table: the lowered policies can be installed iff the interface name fits and every rule concerning the local node is an allow or a deny and uses only addresses that are empty or parse as IPv4, the local node's own included unless the rule is from any node to any node |
| ReplayGuard.NonceStore.Cleanup | internal/api/verifier.go:58-66 | removes exactly the nonces older than five minutes before the cutoff reading |
| ReplayGuard.NonceStore.Add | internal/api/verifier.go:42-55 | refuses a remembered nonce and records a new one, after a cleanup when one is due |
| ReplayGuard.Ed25519Verifier.SetKeys | internal/api/verifier.go:93-99 | replaces the keys and leaves the nonces alone |
| ReplayGuard.Ed25519Verifier.Verify | internal/api/verifier.go:113-162 | the checks in order; the nonce is recorded only after the signature holds |
| ReplayGuard.RefusedBecause | internal/api/verifier.go:113-162 | which error a call gives, by the envelope and the clock readings: the first check that fails |
| ReplayGuard.CleansUpIff | internal/api/verifier.go:42-50 | in any run a call cleans up iff it passes all checks before the store and a minute or more has passed since the last cleanup |
| ReplayGuard.AcceptedIff | internal/api/verifier.go:113-162 | in any run from an empty store, overlapping calls included: accepted iff complete, within the window, signed under the keys last set when the call read them, and every earlier acceptance of the nonce was forgotten by a cleanup, at the latest the call's own |
| ReplayGuard.ReplayNeedsClockPassing | internal/api/verifier.go:42-66 | overlapping calls: a pair is accepted twice only if a cleanup in between read a clock past issued_at + 5 min while the second call's staleness check had not |
| ReplayGuard.SerialReplayCrossesDeadline | internal/api/verifier.go:113-162 | serial calls: the clock passes issued_at + 5 min between that very call's staleness check and its cleanup |
| ReplayGuard.NoReplayWithOneReading | internal/api/verifier.go:113-162 | overlapping calls included: if the second call uses one clock reading, no pair is ever accepted twice |
| ReplayGuard.SerialReplayIff | internal/api/verifier.go:42-162 | serial runs: a pair accepted once is accepted again iff its call passes all checks and its own cleanup reads a clock past issued_at + 5 min |
| ReplayGuard.ReplayedAtDeadline | internal/api/verifier.go:42-162 | a run of two calls from an empty store in which the same envelope is accepted twice |
| ReplayGuard.CleanupLeavesWindow | internal/api/verifier.go:57-66 | right after each cleanup of a run every remembered issued_at lies within five minutes of now |
| DesiredState.ReadAsMap | internal/bridge/site_to_site_handler.go:76-80 | the list read as a map in which the last occurrence wins |
| DesiredState.LastWinsIsLast | internal/bridge/site_to_site_handler.go:76-80 | the entry of an ID is the one at its last position |
| SiteToSite.Kernel.RemoveRoutes | internal/bridge/site_to_site.go:199-207 | removes exactly the tunnel's first n routes and touches nothing of other interfaces |
| SiteToSite.SiteToSiteManager.Setup | internal/bridge/site_to_site.go:50-68 | activates and sets the mesh interface, unless disabled |
| SiteToSite.SiteToSiteManager.AddTunnel | internal/bridge/site_to_site.go:114-181 | on success exactly the tunnel's interface, peer, forwarding pair and routes are installed; on failure the map is unchanged and, with working rollback, the system is the rolled-back state; the refusals in order |
| SiteToSite.InstallCarries | internal/bridge/site_to_site.go:129-181 | what an addition leaves on any system: the one link of that name has the listen port, the one peer with the remote key has the remote subnets, endpoint and preshared key, the forwarding pair and all routes are there; on an unused name nothing else hangs on it |
| SiteToSite.SiteToSiteManager.RollBackRoutes | internal/bridge/site_to_site.go:152-166 | undoing after route n fails removes everything the addition had done |
| SiteToSite.SiteToSiteManager.RemoveTunnel | internal/bridge/site_to_site.go:186-236 | drops the tunnel from the map and, with working cleanup, all it owns from the system |
| SiteToSite.SiteToSiteManager.Teardown | internal/bridge/site_to_site.go:73-108 | ends inactive and empty, and with working cleanup removes what every tunnel owns |
| SiteToSite.RollbackRestoresIff | internal/bridge/site_to_site.go:137-166 | however an addition fails it restores the prior state, iff the name carries no link and no peer and, with subnets, no forwarding pair to the mesh interface and no route to any subnet but the last |
| SiteToSite.FreshTunnelIsAtomic | internal/bridge/site_to_site.go:129-181 | with a fresh interface name an addition is all or nothing and removal undoes it |
| SiteToSite.RemoveSparesOtherIff | internal/bridge/site_to_site.go:198-231 | removing a tunnel leaves another intact iff they use different interfaces |
| SiteToSite.RemoveUnderMeshIff | internal/bridge/site_to_site.go:50-68 | removal undoes an addition iff the mesh interface is still the same |
| SiteToSite.HistorySound | internal/bridge/site_to_site.go:50-236 | every history of operations, whichever forward calls fail: while each added name is unused at that moment and Setup keeps the mesh interface of active tunnels, the system is the initial state plus exactly what the active tunnels own, and the initial state after Teardown; freed names may be reused under any ID |
| SiteToSite.SoundCarries | internal/bridge/site_to_site.go:50-236 | in every state of such a history each active tunnel is up as configured and nothing else hangs on its interface |
| SiteToSite.Run | internal/bridge/site_to_site.go:50-236 | a run of the manager with working cleanup has such a history, so the same holds of it |
| SiteToSite.Reconcile | internal/bridge/site_to_site_handler.go:70-122 | nil implies the running tunnels are the desired ones, last occurrence winning, and repeated IDs already ran; with an active manager, room and no failure that also suffices; whatever fails, kept tunnels run on and only listed ones run; nothing changes when the desired tunnels run; the system state follows the map |
| Ingress.IngressManager.AddRule | internal/bridge/ingress.go:123-180 | the refusals in order; the rule and its new listener are recorded iff certificate and listener succeed |
| Ingress.IngressManager.RemoveRule | internal/bridge/ingress.go:184-213 | the rule leaves the map and its listener is closed unless closing fails; a no-op when inactive or unknown |
| Ingress.IngressManager.Teardown | internal/bridge/ingress.go:81-118 | ends inactive with no rules; every listener that can be closed is, and the others are exactly the collected errors |
| Ingress.Reconcile | internal/bridge/ingress_handler.go:69-121 | as for tunnels: nil implies the desired rules run, the condition for nil, what runs after a failure, a repeat run touches no listener, and while closing works the open listeners stay exactly those of the running rules |
| ReportSync.StepKeepsInv | internal/nodeapi/sync.go:46-122 | every step of a notifier or of the loop keeps conservation and wake-up |
| ReportSync.EveryInterleavingConserves | internal/nodeapi/sync.go:46-122 | in every interleaving settled ++ in flight ++ buffered equals everything notified in lock order, entries and deletions separately; a non-empty buffer has a signal queued or coming or a flush under way; before cancellation everything settled was delivered |
| ReportSync.EveryRunCanDrain | internal/nodeapi/sync.go:62-129 | from every reachable uncancelled state at most seven further steps deliver everything, if the client accepts |
| Stun.ParseBindingResponse | internal/nat/stun.go:70-136 | the loop computes the parse function with all slices in range; the 16-bit end of a value never wraps and the rest strictly shrinks |
| Stun.WalkIsPick | internal/nat/stun.go:100-135 | walking encoded attributes with their padding inspects exactly their values in order |
| Stun.ParseEncodedResponse | internal/nat/stun.go:70-136 | parsing any encoded success response, malformed address attributes and trailing bytes included, equals reading the attribute list |
| Stun.DecodeInvertsEncode | internal/nat/stun.go:139-180 | XOR decoding inverts XOR encoding, and plain decoding plain encoding, for every address and port |
| Stun.XorMappedBits | internal/nat/stun.go:139-162 | a decoded address differs from the wire exactly in the bits of the cookie 0x2112A442, and the port exactly in those of 0x2112 |
| Stun.AddressValuesIff | internal/nat/stun.go:139-180 | exactly the values of eight or more bytes with family 1 decode; the plain one gives bytes 4 to 7 and the big-endian port at 2; both give the same errors |
| Stun.WireFormat | internal/nat/stun.go:70-136 | a success response with one attribute, byte by byte: type 0x0020 is decoded with XOR, 0x0001 without, any other leaves no address |
| Stun.RequestFormat | internal/nat/stun.go:58-67 | the request byte by byte |
| Stun.HeaderErrors | internal/nat/stun.go:70-99 | which header error a datagram gives, by its bytes, in the order of the checks |
| Stun.ResponseRoundTrip | internal/nat/stun.go:58-180 | a response echoing the request's cookie and transaction ID yields the first XOR-MAPPED-ADDRESS wherever it stands, otherwise the last MAPPED-ADDRESS |
| Stun.AlignedMessageInRange | internal/nat/stun.go:94-130 | with a declared length that is a multiple of four no slice goes out of range |
| Stun.OutOfRangeIff | internal/nat/stun.go:70-136 | a datagram drives the loop out of range iff its header checks pass and its declared body is passed-over attributes followed by a complete one whose padding is cut off |
| Stun.ShortestOverrun | internal/nat/stun.go:124-130 | a 25-byte response that does |
| Sse.SSEParser.Next | internal/api/sse.go:129-194 | returns the next event of the remaining lines and leaves the others; false only when no event is left; the last event ID follows non-empty ids; retry calls made plus those still to come stay the same |
| Sse.SSEParser.Drain | internal/api/sse.go:129-194 | calling Next to exhaustion yields all events, the last event ID is the last non-empty one, and the retry callback was called once per numeric retry line, in order |
| Sse.IgnorableLineChangesNothing | internal/api/sse.go:169-190 | a comment or unknown-field line anywhere changes no event |
| Sse.ParseDistributes | internal/api/sse.go:146-167 | parsing distributes over concatenation at a blank line |
| Sse.RoundTrip | internal/api/sse.go:129-194 | printing any list of events as text and parsing it yields the same list, data spanning lines included |
| Sse.BlocksRead | internal/api/sse.go:129-194 | blocks of fields in any order and notation (bare name, colon, colon and space) are read as the last event and id value and all data values joined by line feeds; the type defaults to message; no event without data |
| Sse.TwoDataLines | internal/api/sse.go:146-167 | two data lines give one message event with a line feed between them |
| Sse.RetryRead | internal/api/sse.go:184-190 | a field calls back iff it is a retry with a numeric value |
| Sse.ScanTerminated | internal/api/sse.go:111-134 | lines may end in LF or CR LF, each on its own, and the last one in nothing |
| Sse.ParsePrinted | internal/api/sse.go:103-194 | the same on the parser object, with its final last event ID |
| Strings.SortedStringsEqual | internal/reconcile/diff.go:102-120 | true iff the two lists have the same contents with multiplicity |
| Strings.SortedDetermined | internal/reconcile/diff.go:106-119 | a sorted list is determined by its contents, so any sort serves |
| StateDiff.PeerChanged | internal/reconcile/diff.go:91-99 | true iff public key, mesh address, endpoint or preshared key differ, or the allowed IPs differ as multisets |
| StateDiff.RunDiffPeers | internal/reconcile/diff.go:65-89 | the loops compute the three lists: unknown, changed and vanished peers |
| StateDiff.RunDiffPolicies | internal/reconcile/diff.go:122-141 | the loops compute added and removed policies by ID |
| StateDiff.VersionsDiffer | internal/reconcile/diff.go:176-188 | true iff the two version maps differ |
| StateDiff.VersionsLast | internal/reconcile/diff.go:164-201 | of repeated keys the last version counts |
| StateDiff.VersionsKeys | internal/reconcile/diff.go:164-201 | exactly the listed keys have a version |
| StateDiff.RunComputeDiff | internal/reconcile/diff.go:43-63 | the whole diff, with nil desired and nil current states |
| StateDiff.PeerDiffDisjoint | internal/reconcile/diff.go:65-89 | no ID is in two of the remove, update and add lists |
| StateDiff.PeerDiffReachesDesired | internal/reconcile/diff.go:65-120 | for unique desired IDs, applying the diff to the current map gives the desired map up to the order of allowed IPs |
| StateDiff.DiffReachesDesired | internal/reconcile/diff.go:43-156 | carrying out the diff: the keys are the desired ones if handed out, which they are iff the current or previous key differs, and equal up to expiry otherwise; exactly the desired policies with a new ID are added and exactly the vanished IDs removed, so the IDs become the desired ones |
| StateDiff.NoPeerDriftIff | internal/reconcile/diff.go:65-120 | for any lists, the three lists are empty iff every desired peer is current and no other ID is |
| StateDiff.NoPeerDriftIffMapsAgree | internal/reconcile/diff.go:65-120 | for unique desired IDs, iff the two maps agree up to the order of allowed IPs |
| StateDiff.NoDriftIff | internal/reconcile/diff.go:29-63 | the diff is empty iff peers are settled, policy IDs, keys, metadata and versions agree |
| StateDiff.SelfDriftIff | internal/reconcile/diff.go:65-89 | a state differs from its own snapshot iff two of its peers share an ID and differ |
| Reconciler.Reconciler.InvokeHandlers | internal/reconcile/reconciler.go:167-180 | every handler is invoked; failure is reported iff one failed or panicked |
| Reconciler.Reconciler.RunCycle | internal/reconcile/reconciler.go:108-163 | hands the diff to the handlers iff there is drift, and updates the snapshot iff all of them succeeded |
| Reconciler.SnapshotIsLastAccepted | internal/reconcile/reconciler.go:108-163 | over any run the snapshot is the desired state of the last cycle with drift in which every handler succeeded |
| Reconciler.RefetchIsQuietIff | internal/reconcile/reconciler.go:124-134 | fetching a just-accepted state again invokes no handler iff its peer IDs are consistent |
| Reconciler.RefetchIsQuiet | internal/reconcile/reconciler.go:124-134 | so never with unique peer IDs, and the snapshot stays |
| Reconciler.FailedDiffReturns | internal/reconcile/reconciler.go:151-154 | after a failed cycle the same state presents the identical diff |
| Reconciler.HandedAfterAcceptIff | internal/reconcile/reconciler.go:108-163 | once a state is accepted, a later one reaches no handler iff it is settled against it: policies by ID, keys without expiry, data and secrets by version |
| Reconciler.EditedPolicyIsHandedIff | internal/reconcile/diff.go:122-141 | new rules under an unchanged policy ID, with any bridge-side change, reach a handler iff the state's own peers are inconsistent |
| Files.Directory.WriteFileAtomic | internal/fsutil/atomic.go:10-32 | the sequence of directory states of a write and what each failure leaves, a failing deferred removal included; in all of them the target is old or new |
| Files.TargetNeverPartial | internal/fsutil/atomic.go:8-32 | in every state a write passes through and after every failure, the target holds its old content or all of the new |
| Files.WriteSparesIff | internal/fsutil/atomic.go:11-18 | another file survives a write iff it is not named like the temporary file |
| Files.LoadRestores | internal/nodeapi/cache.go:100-142 | a directory holding one complete document per key is read back as that map, in any listing order |
| Files.LoadAfterCutOff | internal/nodeapi/cache.go:107-120 | loading after a cut-off write: fails iff a partial temporary file is left; of a complete one and the old file the later in the sorted listing wins |
| Files.ReplaceHolds | internal/nodeapi/cache.go:168-179 | writing the new entries and removing the stale files leaves exactly the new map, if every file was named after a key of the old one |
| StateCache.StateCache.Load | internal/nodeapi/cache.go:65-145 | on any cache: reads the four parts in order, a missing single file changes nothing, the directories replace what was there; fails at the first document that does not parse and keeps what was read so far |
| StateCache.StateCache.UpdateMetadata | internal/nodeapi/cache.go:148-154 | replaces metadata in memory and, when the write succeeds, on disk |
| StateCache.StateCache.UpdateData | internal/nodeapi/cache.go:158-182 | memory becomes the list with the last occurrence winning; the exact files left, entries written in order and stale files removed |
| StateCache.StateCache.UpdateSecretIndex | internal/nodeapi/cache.go:186-194 | replaces the secret index in memory and, when the write succeeds, on disk |
| StateCache.StateCache.PutReport | internal/nodeapi/cache.go:256-283 | conflict, with nothing changed, iff a version is expected and differs from the stored one (0 for a missing report); otherwise the report holds the put's own content type, payload and time at version 1 or one more, stored and written |
| StateCache.StateCache.DeleteReport | internal/nodeapi/cache.go:287-297 | removes entry and file, NotFound iff absent |
| StateCache.Restart | internal/nodeapi/cache.go:65-145 | a new cache over any disk loads it, or fails iff a document does not parse |
| StateCache.AlwaysReloadsIff | internal/nodeapi/cache.go:65-297 | for any disk that loads: after every sequence of operations under safe keys a reload reproduces memory, iff every report file is named after its own document's key and is no safe key's temporary file, and every data file after the key of some data document |
| StateCache.PutIsReadBack | internal/nodeapi/cache.go:65-283 | after any safe operations on a tidy disk, a put that goes through is read back by a reload with its own content type, payload and time and the next version |
| StateCache.CutOffWriteComesBack | internal/nodeapi/cache.go:287-297 | after a write cut off before its rename, deleting the report and reloading brings it back |
| StateCache.RunAndRestart | internal/nodeapi/cache.go:65-297 | the same on the objects: load any disk, run the operations, load again; memory is reproduced if the disk was tidy |
| StateCache.VersionsCount | internal/nodeapi/cache.go:260-279 | over any run from any reports, a version is the start version, or 0 after a deletion, plus the successful puts since |
| StateCache.PutStored | internal/nodeapi/cache.go:256-297 | over any run a report holds the content of the last successful put on its key |
| StateCache.ConditionalPutsExclude | internal/nodeapi/cache.go:263-270 | two puts conditional on the same version both succeed only with a delete in between |
| AuditForwarder.Forwarder.EnforceCapacity | internal/auditfwd/forwarder.go:107-114 | keeps the newest 2*BatchSize entries and accounts for the dropped ones |
| AuditForwarder.Forwarder.Collect | internal/auditfwd/forwarder.go:81-93 | appends what the working sources return, in order, and drops no more than the bound demands |
| AuditForwarder.Forwarder.Flush | internal/auditfwd/forwarder.go:118-144 | delivers chunks in order until a report fails; exactly the unsent rest goes back and nothing is dropped |
| AuditForwarder.AllSent | internal/auditfwd/forwarder.go:129-143 | when no report fails nothing goes back |
| AuditForwarder.UnsentAfter | internal/auditfwd/forwarder.go:129-143 | when the report after k successes fails, exactly the first k full batches are gone |
| AuditForwarder.AccountedSizes | internal/auditfwd/forwarder.go:81-144 | delivered and dropped add up to everything that left the buffer |
| AuditForwarder.Run | internal/auditfwd/forwarder.go:81-144 | any serial run: the buffer is a bounded suffix of everything collected; every earlier entry was delivered once and in order, or dropped; batches hold 1..BatchSize entries |
| Relay.Relay.AddSession | internal/bridge/relay.go:162-222 | the refusals in order; both endpoints then lead to the new session |
| Relay.Relay.Unlink | internal/bridge/relay.go:226-243 | the locked part of a removal: session, timer and both index entries go, and the session awaits its Close |
| Relay.Relay.RemoveSession | internal/bridge/relay.go:225-246 | without interruption: the session has left the maps and is closed, no other object changes |
| Relay.Relay.Stop | internal/bridge/relay.go:249-287 | without interruption: the maps are empty, exactly the sessions that were live are now closed; a no-op when inactive |
| Relay.Relay.Forward | internal/bridge/relay.go:30-61 | a closed session sends nothing; an open one sends to the opposite endpoint only |
| Relay.Relay.Dispatch | internal/bridge/relay.go:137-158 | without interruption, an indexed packet goes to the other endpoint of a live session that has its source, never back |
| Relay.DispatchAround | internal/bridge/relay.go:137-158 | with any operations between lookup and forwarding, unlinking and closing apart, the packet is sent to the other endpoint iff the session's Close has not run in between |
| Relay.ClosedIff | internal/bridge/relay.go:64-72 | over any run a session is closed iff its own Close ran after it had left the maps |
| Relay.RemovedStillSends | internal/bridge/relay.go:239-245 | right after the locked part of a removal the session is in no map and yet not closed |
| Relay.AddKeepsExactIff | internal/bridge/relay.go:197-199 | adding to an exact index keeps it exact iff neither endpoint is claimed |
| Relay.RemoveKeepsExact | internal/bridge/relay.go:239-242 | removing keeps an exact index exact |
| Relay.ExactThroughoutIff | internal/bridge/relay.go:162-246 | over any run the index is exact in every state iff each addition that went through found both endpoints unclaimed at that moment |
| Relay.RemovedClaimLeavesGap | internal/bridge/relay.go:239-242 | a run after which live endpoints are disjoint and a session is nevertheless not indexed |
| Relay.Run | internal/bridge/relay.go:106-287 | every run of the object is the run those lemmas are about; in every reachable state index entries point to live sessions with that endpoint, sessions and timers agree within the cap, and every session ever added is live, pending its Close, or closed |
| Reconnect.Jitter | internal/api/reconnect.go:148-152 | the wait has the sign of the interval and lies within 25% of it |
| Reconnect.IntervalStep | internal/api/reconnect.go:279-288 | doubling and capping once is one more backoff in the closed formula |
| Reconnect.IntervalIsCapped | internal/api/reconnect.go:279-288 | the interval is min(base*2^k, max) for all k iff base <= max |
| Reconnect.ReconnectEngine.ResetBackoff | internal/api/reconnect.go:188-193 | back to the base interval with no failure noted |
| Reconnect.ReconnectEngine.IncrementInterval | internal/api/reconnect.go:279-288 | the interval is again the closed formula for the backoffs since the last reset |
| Reconnect.ReconnectEngine.RunPollingFallback | internal/api/reconnect.go:306-354 | the loop's outcome is that of the first round that connects, is cancelled, or meets a permanent or authentication error, with the base intervals set on the way |
| Reconnect.ReconnectEngine.HandleTransientError | internal/api/reconnect.go:246-276 | the whole outcome: polling once the fallback time has passed since the first failure after a reset, otherwise one backoff |
| Reconnect.ReconnectEngine.HandleRateLimit | internal/api/reconnect.go:232-242 | waits the server's delay, or the current interval, and leaves the backoff state alone |
| Reconnect.ReconnectEngine.HandleConnectError | internal/api/reconnect.go:197-216 | the outcome by error class |
| Reconnect.ReconnectEngine.SetBaseInterval | internal/api/reconnect.go:107-113 | changes the base interval that the next reset takes up, not the current one |
| Reconnect.ReconnectEngine.Run | internal/api/reconnect.go:162-185 | over any script, base intervals set during connections included, the loop plays exactly the sequence of rounds, and its fields follow from what happened |
| Reconnect.PlayOk | internal/api/reconnect.go:154-354 | every run: each completed backoff waited within 25% of the interval for the backoffs since the last reset and the base in force then, and was entered before the fallback time had passed since the first transient failure after a reset; polling began only once it had; a run that is over was ended by one round, the last one played, in which a cancellation took place or this 401, 403 or 404 was met |
| Reconnect.FailedRound | internal/api/reconnect.go:197-276 | an uncancelled failed connection: 401, 403 and 404 end the loop, 429 waits the server's delay or the current interval, anything else polls if the fallback time has passed and backs off if not |
| Reconnect.FinalErrorStops | internal/api/reconnect.go:162-216 | a run that meets 401, 403 or 404 uncancelled is over with that error |
| Reconnect.PollAnswer | internal/api/reconnect.go:306-354 | while polling the same three answers end the loop, any other failure goes on and a connection resumes |

## Left out

- HTTP client, endpoints, TLS, gzip, CLI, configuration defaults, packaging, registration, Kubernetes: no algorithm of their own.
- Ed25519, AES-GCM, SHA-256, base64, X25519 and JSON encodings: parameters, or a document that is complete or does not parse.
- Netlink, nftables connection, WireGuard and socket calls: abstract controller state in which a failed call changes nothing and removing an interface removes its peers.
- internal/logfwd/forwarder.go and internal/metrics/manager.go: the same algorithm as the audit forwarder.
- internal/wireguard, internal/actions, internal/tunnel: partial updates, subprocesses and connections; no invariant fixed by the code.
- internal/bridge/user_access.go and manager.go: add, remove and tear-down in the pattern of the tunnels.
- Deep-copy helpers of internal/reconcile/snapshot.go: states are values here, so aliasing between a snapshot and its source is not modelled.
- Sse.SSEParser.Next: the scanner's line-length limit is not modelled; strconv.Atoi is a parameter.
- Ingress.Reconcile: no event handler (internal/bridge/ingress_handler.go:16-52) adds or removes rules while the handler runs.
- SiteToSite.Reconcile: no event handler (internal/bridge/site_to_site_handler.go:17-52) adds or removes tunnels while the handler runs; subnets are sequences, so Go's difference between a nil and an empty slice in reflect.DeepEqual is not modelled; it could only cause an extra restart.
- Relay.Relay.Forward: a session's identity is its position in a list of objects, in place of a shared mutable session; checking the closed flag and writing are one step, and the write to the socket is its destination only.
- Ingress.IngressManager.AddRule: accept loops and proxied connections are not modelled; a listener is open or closed, and waiting for its loop to end is left out.
- Nftables.ChainEnforcesPolicies: the netfilter hook that decides which packets reach the chain is not modelled.
- StateCache.AlwaysReloadsIff: operations store under keys without a slash that do not start with `.tmp-`, on a disk whose writes succeed; a path built from other keys is not modelled.
- ReplayGuard.Ed25519Verifier.Verify: the method is one call without interruption; calls that overlap, also with SetKeys, are covered by the runs.
- AuditForwarder.Run: collections and flushes are serial, as in the forwarder's own loop; BatchSize is at least 1, as its configuration check demands.
- Reconnect.ReconnectEngine.Run: durations are unbounded integers with multiplier 2, so float rounding and int64 overflow are not modelled; a new base interval arrives during a connection, and SetIntervals and the other configuration setters are left out.
- ReportSync.EveryRunCanDrain: no fairness of the scheduler is assumed or proved; it shows that delivery stays possible.
