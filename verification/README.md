# FQDN egress operator: a verified model

The operator turns a network policy written over domain names into a MultiNetworkPolicy written
over addresses. Every TTL it resolves the names, updates a ledger of addresses per name, compiles
the rules, normalises them, applies the result and writes a status that the next round starts from.

| file | what it holds |
|---|---|
| `Text`, `Sorting` | byte order on strings, decimal printing, split and join; sorting as "a sorted permutation", and when that fixes the result |
| `Policy`, `PortKeys` | the emitted policy and what it admits; port keys and fingerprints |
| `Grants` | per CIDR, what a rule list grants, and the normal form for such grants: the specification of the normaliser |
| `Normaliser`, `Regroup` | the normaliser itself, in place, stage by stage, proved against `Grants` |
| `NormaliserLaws`, `NormalForms`, `Ranges` | meaning, determinism, idempotence, partition; when port ranges survive |
| `Status`, `Compiler`, `EndToEnd` | spec and status; the compiler; what the applied policy means in terms of the spec and the ledgers |
| `SpecEnds`, `ExactEnds` | end ports in terms of the spec alone, and that these conditions are exact over all rounds |
| `Ledger`, `History`, `Attempts` | one round of a ledger; ledgers and their warnings over whole runs as functions of the lookup history; the same with writes lost, reads outdated and names dropped |
| `Resolver`, `Interleavings` | the concurrent resolver as interleaved steps; resolver and round together, cancellation included |
| `Bookkeeping`, `Applying`, `Reconcile` | sorted status, counts and the aggregate message; the live object; one reconciliation |
| `RoundLaws`, `Provenance`, `Memory` | confluence and quiescence; runs of the operator: where addresses come from, and the policy and the warnings as functions of the lookup history |
| `Operation` | the requeued reconciliation produces exactly such runs |
| `DomainNames` | the format check of names against the pattern of the resource definition |

Every map iteration of the operator is an arbitrary pick here and every library sort gives only a
sorted permutation, so determinism is proved, not assumed. Retention, timeouts and the clock are
integers; a round reads the clock once. `Parser` stands for parsing a CIDR and asking whether it
is private. A port number is unbounded: nothing in these files computes with it.

## Where the code and its documentation disagree

The model follows the code.

- `api/v1alpha1/networkpolicy_types.go:275` says an invalid name can never reach the resolver. The
  pattern of the resource definition admits a last label of more than 63 letters and the resolver's
  check refuses it (`DomainNames.PatternWider`).
- `api/v1alpha1/networkpolicy_types.go:341` says the address list is cleared at once on a permanent
  error. With retention on, the retention pass restores the addresses in the same round
  (`History.RetentionRefines`), and the warning about the cleared list, raised all the same, is
  raised again round after round (`History.ClearsTwice`). Where every write lands and every round
  reads the last status, one warning per failing streak holds exactly when retention is off
  (`History.OneEventIff`). Otherwise it holds, with retention off, from the landing of a warning's
  round on, for rounds that read what it stored (`Attempts.OneEventOnceLanded`, `Memory.WarnsOnce`); a round whose
  predecessor's write was lost, or that read an older status, warns again
  (`Attempts.EventRepeats`). `Memory.PolicyWarns` says when a round warns.
- The sorting of statuses is there to keep equal rounds from writing
  (`internal/controller/networkpolicy_controller.go:338-344`). The aggregate message undoes that:
  it quotes the first of the worst failures, so the order of the results shows unless these all
  quote the same (`RoundLaws.ReportOrderIff`, `Bookkeeping.TwoNotFound`).
- `internal/controller/networkpolicy_controller.go:156` says statuses carry no timestamps before
  the retention pass. Those of failing names do: there are timestamps exactly when the lookup
  failed, the list was not cleared, and the stored list had some (`History.UpdatedTimestamps`).
- The retry timeout is documented as at least one second but has no minimum; the theorems hold for
  any value.
- Port keys leave the end port out. Two entries with the same protocol and first port but different
  ends are one entry to the normaliser: a range can be lost (`Ranges.RangeLost`), handed to another
  address (`Ranges.RangeLeaked`), and the output can depend on map iteration order
  (`NormalForms.DeterministicIff`). The resource definition does not exclude such entries.
  `Ranges.MeaningIff` and `EndToEnd.PolicyMeaningIff` say exactly when the meaning is kept;
  `ExactEnds.MeansSpecIff` and `ExactEnds.EmitsOneIff` give conditions on the spec that hold exactly
  when every round keeps it, and exactly when every round can emit only one list of rules.

## Model

| member | source | states |
|---|---|---|
| Text.LessIff | pkg/utils/networkpolicy.go:150-152 | strings are ordered by prefix or first difference, the order of every list emitted or reported |
| Text.ReadItoa | pkg/utils/networkpolicy.go:227-237 | a printed number reads back as the number |
| Text.NoLeadingZero | pkg/utils/networkpolicy.go:227-237 | and is printed without leading zeros |
| PortKeys.PortsFingerprint | pkg/utils/networkpolicy.go:239-251 | the fingerprint is a function of the set of keys, whatever the order of the ports |
| PortKeys.KeyInjective | pkg/utils/networkpolicy.go:227-237 | for numbered ports of the known protocols, equal keys mean the same protocol and the same port |
| PortKeys.KeyProtocol | pkg/utils/networkpolicy.go:103-113 | a key that starts with a protocol and a colon is a key of that protocol, so the prefix test of the absorption hits no other |
| PortKeys.FingerprintFaithful | pkg/utils/networkpolicy.go:239-251 | fingerprints are equal exactly when the key sets are, for keys without commas |
| PortKeys.FingerprintNotAll | pkg/utils/networkpolicy.go:239-242 | no non-empty key set prints as "All ports" |
| PortKeys.FingerprintCollision | pkg/utils/networkpolicy.go:249-250 | the comma condition is needed: one key with a comma prints like two |
| Grants.GrantedIs | pkg/utils/networkpolicy.go:39-94 | a CIDR is granted all ports iff a rule naming it lists none, else exactly the keys offered to it, each with an offered entry |
| Grants.GrantedSomething | pkg/utils/networkpolicy.go:58-92 | the port set of a named CIDR is unlimited or non-empty |
| Grants.AbsorbedKeys | pkg/utils/networkpolicy.go:98-114 | absorption drops exactly the keys under one of "TCP:Any", "UDP:Any" and "SCTP:Any" and never empties a port set |
| Grants.TableSomething | pkg/utils/networkpolicy.go:98-157 | after absorption every port set is unlimited or non-empty, so none is printed as unlimited by accident |
| Normaliser.PortSet.Add | pkg/utils/networkpolicy.go:65-92 | one mention of a CIDR merges the rule's ports; unlimited latches |
| Normaliser.PortSet.Absorb | pkg/utils/networkpolicy.go:98-114 | deleting while iterating leaves exactly the absorbed grant, whose keys are those under no protocol-wide one |
| Normaliser.Explode | pkg/utils/networkpolicy.go:37-94 | the exploded map holds, for exactly the named CIDRs, what all rules together grant |
| Normaliser.AbsorbAll | pkg/utils/networkpolicy.go:96-114 | every port set of the map is absorbed |
| Regroup.PortSlice | pkg/utils/networkpolicy.go:140-153 | the slice of a port set in key order, whatever the iteration order |
| Regroup.FillCidrs | pkg/utils/networkpolicy.go:181-196 | each fingerprint collects exactly its CIDRs, each once |
| Regroup.BuildRules | pkg/utils/networkpolicy.go:116-224 | the emitted rules are a normal form of the table |
| Regroup.RemoveDuplicateCIDRs | pkg/utils/networkpolicy.go:11-225 | the pass replaces the rules by a normal form of the grants of the rules that were there |
| Regroup.MultiNetworkPolicy.CountUniqueAddresses | pkg/utils/networkpolicy.go:253-264 | the number of peers, which `NormalForms.Partition` shows to be the number of CIDRs |
| NormaliserLaws.KeysPreserved | pkg/utils/networkpolicy.go:39-114 | for any end ports: the same CIDRs, unlimited iff before, and else the union of the keys of all rules naming it, less those under "TCP:Any", "UDP:Any" or "SCTP:Any" |
| NormaliserLaws.PortsPreserved | pkg/utils/networkpolicy.go:98-114 | entry by entry: a limited CIDR is emitted a key iff an entry with it is offered that has no port, or whose protocol no offered entry has without a port |
| NormaliserLaws.NoneBeside | pkg/utils/networkpolicy.go:98-114 | no emitted rule holds an entry without a port beside one with a port of the same protocol |
| NormaliserLaws.AbsorbedAdmits | pkg/utils/networkpolicy.go:96-114 | absorption changes no destination |
| NormaliserLaws.MeaningPreserved | pkg/utils/networkpolicy.go:11-225 | with end ports agreeing per key, exactly the same destinations are admitted after as before |
| Ranges.CoverIff | pkg/utils/networkpolicy.go:87-92 | a set of entries admits no less than another exactly when it covers it entry by entry, ranges port by port |
| Ranges.MeaningIff | pkg/utils/networkpolicy.go:139-177 | for any end ports: meaning is kept under every iteration order exactly when, for limited CIDRs with equal uncovered keys, all entries offered to one and the last entry of each key offered to the other cover each other |
| Ranges.RangeLost | pkg/utils/networkpolicy.go:87-92 | an input whose range is lost: the last entry of a key wins |
| Ranges.RangeLeaked | pkg/utils/networkpolicy.go:170-176 | an input where an address may get another address's range |
| NormalForms.DeterministicIff | pkg/utils/networkpolicy.go:139-177 | the output does not depend on map iteration order exactly when CIDRs with equal keys have equal end ports |
| NormalForms.CanonicalUnique | pkg/utils/networkpolicy.go:139-224 | there is one normal form then |
| NormalForms.SameNormalForm | pkg/utils/networkpolicy.go:139-224 | rule lists offering each CIDR the same entries give the identical output, whatever their order, repetition or splitting, for entries that agree per key and keys without commas |
| NormalForms.Idempotent | pkg/utils/networkpolicy.go:11-225 | normalising again changes nothing, for any end ports and any iteration order |
| NormalForms.Partition | pkg/utils/networkpolicy.go:181-224 | every CIDR of the input is listed exactly once, and the peer count is the number of CIDRs |
| NormalForms.RulesDiffer | pkg/utils/networkpolicy.go:207-222 | different emitted rules have different key lists, and none is without peers |
| NormalForms.EmittedOrder | pkg/utils/networkpolicy.go:139-224 | CIDRs within a rule, ports within a rule by key, and rules by printed ports are all in strictly increasing order |
| NormalForms.EmptyIffNothingCounted | pkg/utils/networkpolicy.go:253-271 | no rule is left exactly when the count is zero |
| Compiler.GetPeers | api/v1alpha1/networkpolicy_funcs.go:102-118 | exactly the addresses of the listed names that parse and, if private, are let pass by the rule's flag or, without one, by the policy's; in order; any sort gives this list |
| Compiler.ToRule | api/v1alpha1/networkpolicy_funcs.go:120-156 | a rule without allowed addresses compiles to nothing; else its ports keep protocol, number and end, one by one |
| EndToEnd.CompiledNames | api/v1alpha1/networkpolicy_funcs.go:75-118 | a compiled rule names an address iff a listed name holds it, it parses, and, if it is private, the rule's flag is off or absent with the policy's off |
| EndToEnd.OwnFlagDecides | api/v1alpha1/networkpolicy_funcs.go:75-79 | a rule with a flag of its own compiles to the same whatever the policy's flag is |
| EndToEnd.PolicyFlagIdle | api/v1alpha1/networkpolicy_funcs.go:75-79 | where every rule has a flag of its own the policy's flag changes no compiled rule |
| Compiler.ToMultiNetworkPolicy | api/v1alpha1/networkpolicy_funcs.go:183-200 | the loop over the rules and the lookup table build the compiled rules |
| Compiler.ToSelector | api/v1alpha1/networkpolicy_funcs.go:202-219 | the pod selector: the map of the label pairs, and every requirement with its values in order |
| Compiler.LabelsLast | api/v1alpha1/networkpolicy_funcs.go:202-206 | a label pair is in the map exactly when no later pair has its label |
| Compiler.Fqdns | api/v1alpha1/networkpolicy_funcs.go:158-181 | every name of the spec once, in increasing order |
| EndToEnd.CompileMeaning | api/v1alpha1/networkpolicy_funcs.go:75-156 | compiled rules admit a destination exactly when the spec does over the ledgers |
| EndToEnd.PolicyMeaning | api/v1alpha1/networkpolicy_funcs.go:75-200 | the applied policy admits a destination iff a rule lists a name whose ledger holds the CIDR, its effective private flag lets it pass and a port matches |
| EndToEnd.PolicyMeaningIff | pkg/utils/networkpolicy.go:227-237 | without agreeing end ports: exactly when the compiled entries of CIDRs with equal keys cover each other |
| SpecEnds.CompiledServing | api/v1alpha1/networkpolicy_funcs.go:102-156 | what the compiled rules offer an address depends only on the names that hold it and whether it is private |
| SpecEnds.PolicyDependsOnHoldings | internal/controller/networkpolicy_controller.go:237-240 | order, repetition and timestamps of ledger entries do not show in the table of grants, hence not in the lists of rules that may be emitted |
| SpecEnds.SpecMeaning | api/v1alpha1/networkpolicy_funcs.go:75-200 | the applied policy means what the spec means whenever the spec's entries cover each other |
| ExactEnds.MeansSpecIff | pkg/utils/networkpolicy.go:227-237 | every round of a policy keeps the meaning of its spec exactly when, for all sets of its names, rules that come to equal keys cover each other's entries |
| ExactEnds.EmitsOneIff | pkg/utils/networkpolicy.go:139-177 | every round can emit only one list of rules exactly when, for all sets of its names, rules that come to equal keys leave equal entries |
| ExactEnds.EndsAgreeSuffices | pkg/utils/networkpolicy.go:227-237 | a spec whose ports agree on their ends meets both conditions |
| Status.LookupTable | api/v1alpha1/networkpolicy_funcs.go:297-303 | the table of the last status of each name |
| Status.LookupLast | api/v1alpha1/networkpolicy_funcs.go:297-303 | a status is in the table iff it is listed and no later one has its name |
| Ledger.StatusCell.Update | api/v1alpha1/networkpolicy_funcs.go:241-293 | the whole new status, and when a list counts as cleared |
| Ledger.UpdateStatuses | internal/controller/networkpolicy_fqdn_status.go:14-59 | every result updates its stored or new status; the warnings are exactly those due, `IPsRevoked` for a final failure and `StaleIPsRemoved` for one past the timeout, of names whose stored list is not empty, at most one a name, in the order of the results |
| Ledger.Retain | internal/controller/networkpolicy_controller.go:157-226 | the two loops over one status; only the order of the second part is left open |
| Ledger.MissingLast | internal/controller/networkpolicy_controller.go:127-143 | of repeated stored addresses the last one's timestamp counts |
| Ledger.LedgerRound | internal/controller/networkpolicy_controller.go:95-234 | update, then retain or wipe, for every name, with exactly the warnings due |
| History.RetentionRefines | internal/controller/networkpolicy_controller.go:127-226 | the two loops compute one pointwise rule in which retry timeout, kind of failure and clearing play no part |
| History.RetryInvisible | internal/controller/networkpolicy_controller.go:127-226 | with retention on, rounds that differ in those leave the same entries |
| History.UpdatedTimestamps | internal/controller/networkpolicy_controller.go:156 | the list the retention pass starts from carries timestamps exactly when the lookup failed, the list was not cleared and the stored one had some |
| History.LedgerHistory | internal/controller/networkpolicy_controller.go:95-234 | over any run, whatever the clock and with timeouts and retention changing, also on and off, from round to round: the entries a round leaves are one function of the lookup history |
| History.RetainedIff | internal/controller/networkpolicy_controller.go:157-226 | with retention on throughout, an address is remembered iff it was answered and at every later round its absence, since the round after its last answer, is within that round's limit |
| History.RetainedLast | internal/controller/networkpolicy_controller.go:157-226 | with one limit and a clock that never runs back the last round decides |
| History.RetentionHistory | internal/controller/networkpolicy_controller.go:112-226 | with retention on throughout, any limits and any clock: an address is held iff last answered in this round, or its absence since the round after its last answer was within the limit of every round since, with that timestamp |
| History.FailingHistory | api/v1alpha1/networkpolicy_funcs.go:241-293 | with retention on or off, failing since is the time of the first failure after the last success |
| History.OutcomeHistory | api/v1alpha1/networkpolicy_funcs.go:284-290 | reason and message are the last lookup's, and the transition time is that of the first of the last lookups that all had this reason |
| History.RetryHistory | api/v1alpha1/networkpolicy_funcs.go:241-293 | with retention off throughout, any timeouts and any clock: the last answer, repetitions included, while every later failure is transient and, but for the first, within its timeout of the first; else nothing |
| History.ToleratedLast | api/v1alpha1/networkpolicy_funcs.go:257-272 | with one timeout and a clock that never runs back the last round decides |
| History.ClearMeansEmptied | internal/controller/networkpolicy_fqdn_status.go:32-56 | with retention off the warning is raised exactly when a failing round empties a non-empty list |
| History.ClearsExactly | internal/controller/networkpolicy_fqdn_status.go:32-56 | whatever the retention and the clock the warning is raised exactly when the lookup fails, an address is remembered, and a transient failure comes later than the first of its streak plus the timeout |
| History.OneClearPerStreak | internal/controller/networkpolicy_fqdn_status.go:32-56 | with retention off and every write landing there is a success between two warnings for a name |
| History.ClearsTwice | internal/controller/networkpolicy_fqdn_status.go:32-56 | with retention on, a run of a success and two permanent failures raises the warning twice |
| History.OneEventIff | internal/controller/networkpolicy_controller.go:203-222 | over all runs there is at most one warning per failing streak exactly when retention is off |
| Attempts.AttemptHistory | internal/controller/networkpolicy_controller.go:112-226 | with any writes lost, reads outdated, names dropped and listed again, and retention changing: the ledger a round leaves is the same function of the stored rounds behind the status it read, and itself |
| Attempts.AttemptRetry | api/v1alpha1/networkpolicy_funcs.go:241-293 | with retention off in those rounds, the last tolerated answer with its repetitions, and failing since |
| Attempts.AttemptOutcome | api/v1alpha1/networkpolicy_funcs.go:241-293 | reason, message, failing since and transition time, for the same rounds |
| Attempts.PassingFailure | api/v1alpha1/networkpolicy_funcs.go:257-272 | right after a stored success a failure that may pass raises no warning, and of the addresses stored only those go that are missing already and past the limit |
| Attempts.AttemptClears | internal/controller/networkpolicy_fqdn_status.go:32-56 | the rule of the warnings, for the same rounds |
| Attempts.OneEventOnceLanded | internal/controller/networkpolicy_controller.go:346-350 | with retention off, once a warning's round is stored, no round that read it warns again before a success is stored |
| Attempts.EventRepeats | internal/controller/networkpolicy_controller.go:346-350 | if its write is lost, or the next failing round reads an older status, that round warns again; with retention on or off |
| Attempts.OutlivesLimit | internal/controller/networkpolicy_controller.go:346-350 | if the write of the first failure is lost, an address outlives any retention limit |
| Resolver.Safe | pkg/network/resolver.go:265-306 | in every interleaving: lookups in flight within the slots taken within the limit, no send after the close, the buffer never overfull, no send and no release blocked |
| Resolver.ReturnsPermutation | pkg/network/resolver.go:278-306 | one result per input name, cancelled at any moment or not: its lookup's answer, or, only if cancelled, an `Error` of that name without CIDRs |
| Resolver.ReturnsAnswers | pkg/network/resolver.go:302-306 | uncancelled, a permutation of the lookups' answers |
| Resolver.CollectedInOrder | pkg/network/resolver.go:302-306 | results are collected in the order in which they were sent |
| Resolver.RunsAreBounded | pkg/network/resolver.go:270-306 | every run has at most 12 steps per name and 4 more |
| Resolver.NeverStuck | pkg/network/resolver.go:270-306 | with a slot, an unfinished state can go on without a cancellation |
| Resolver.CanReturnIff | pkg/network/resolver.go:270-306 | an uncancelled run can return iff there is a slot or nothing to resolve |
| Resolver.StartUpCompletes | cmd/main.go:119-121 | whatever limit is configured, every run of the resolver can be completed |
| Resolver.SlotLimitIs | cmd/main.go:119-121 | a positive limit is taken as configured; else it is the number of processors, at least 1 and at most 20 |
| Bookkeeping.SortStatuses | internal/controller/networkpolicy_controller.go:327-339 | statuses sorted by name, each with its entries sorted by address |
| Bookkeeping.TidiedUnique | internal/controller/networkpolicy_controller.go:327-339 | the sorted statuses do not depend on the order before, although the sorts are unstable |
| Bookkeeping.CountFqdns | internal/controller/networkpolicy_controller.go:316-325 | active names counted, and all others failing |
| Bookkeeping.ActiveMeans | internal/controller/networkpolicy_controller.go:316-325 | the count is the number of names that hold an address |
| Bookkeeping.ResultCidrs | pkg/network/resolver.go:117-131 | the CIDRs of all results in order |
| Bookkeeping.AllCidrsOf | pkg/network/resolver.go:117-131 | the list of two lists of results is one list after the other, and that of one result its CIDRs |
| Bookkeeping.AggregatedResolutionStatus | pkg/network/resolver.go:133-153 | success if every lookup succeeded, failure if none did, else partial |
| Bookkeeping.Worst | pkg/network/resolver.go:162-176 | the first failure of the highest priority, if any |
| Bookkeeping.AggregatedResolutionMessage | pkg/network/resolver.go:155-199 | the message: counts, and what is quoted of that failure |
| Bookkeeping.MessageSays | pkg/network/resolver.go:155-199 | the wording by how many lookups succeeded, with what is known of the first failure that no other one outranks, in the order error, host not found, invalid format, timeout, temporary error |
| Bookkeeping.MessageOrderIff | pkg/network/resolver.go:170-192 | every order of the results gives the same message exactly when all failures of the highest priority quote the same |
| Bookkeeping.TwoNotFound | pkg/network/resolver.go:172-174 | two names that do not exist, in either order, give different messages |
| Applying.DriveMap | internal/controller/networkpolicy_create.go:26-48 | deleting while iterating and then writing gives the desired map from any map |
| Applying.LiveObject.Mutate | internal/controller/networkpolicy_create.go:25-54 | whatever the object was, it becomes the desired one |
| Applying.Cluster.CreateOrUpdate | internal/controller/networkpolicy_create.go:25-72 | the stored object is the desired one unless the call fails, and unchanged iff it was already |
| Reconcile.DesiredAttaches | api/v1alpha1/networkpolicy_funcs.go:202-238 | the object carries the policy's labels, the one annotation naming namespace and target network, the last pair of each selector label, all requirements, and the rules |
| Reconcile.NetworkPolicy.SetResolvedCondition | api/v1alpha1/networkpolicy_conditions.go:8-23 | the condition with the aggregate status and message; its time changes only with its truth value |
| Reconcile.NetworkPolicy.UpdateStatusIfNeeded | internal/controller/networkpolicy_controller.go:311-358 | counts, sorts, and writes unless the status read, sorted, is the same, or an outdated one, or the write is lost; a steady status is not written |
| Reconcile.Round | internal/controller/networkpolicy_controller.go:77-309 | the round as a whole: rules emitted, status and conditions reported, exactly the warnings due, the object with labels, annotation, selector and rules, status stored, under either fault and from any status read |
| RoundLaws.Confluence | internal/controller/networkpolicy_controller.go:157-339 | no map iteration shows in the reported status, and no order of results but in the aggregate message, and not there if the worst failures quote the same; neither shows in the rules where end ports are determined |
| RoundLaws.ReportOrderIff | internal/controller/networkpolicy_controller.go:243-247 | every order of the results leads to the identical reported status exactly when all failures of the highest priority quote the same |
| RoundLaws.AnswerOrderHidden | pkg/network/resolver.go:33-46 | answers that differ in the order of their CIDRs, repetitions counted, lead to the identical reported status and grants, and to the identical rules where end ports are determined: their sorting never shows |
| RoundLaws.ConfluenceIff | pkg/utils/networkpolicy.go:139-177 | for the statuses a round leaves: one list of rules exactly when equal keys carry equal ends there (`ExactEnds.EmitsOneIff` has the condition on the spec) |
| RoundLaws.EndsAgreeDetermine | pkg/utils/networkpolicy.go:227-237 | agreeing end ports in the spec are enough for it |
| RoundLaws.StatusAccounts | internal/controller/networkpolicy_controller.go:239-325 | status names are the result names, active and failing add up, the applied count is the number of CIDRs, and "empty rules" is reported iff it is zero |
| RoundLaws.ResolvedMeans | internal/controller/networkpolicy_controller.go:243-247 | Resolved holds iff every lookup succeeded, says failure iff there were lookups and none did, and dates from when its truth value last changed |
| RoundLaws.ReadyMeans | internal/controller/networkpolicy_controller.go:276-300 | Ready holds iff the object was applied, says empty rules iff it was and there are none, and dates from when its truth value last changed |
| RoundLaws.TotalMeans | internal/controller/networkpolicy_controller.go:239-241 | the total counts every CIDR of every result |
| RoundLaws.Quiescence | internal/controller/networkpolicy_controller.go:311-344 | a repeated round with no deadline passed: answers in the same order, or in any order if the worst failures quote the same, report the identical status and leave nothing to write; in any other order only the message differs; the rules are identical where end ports are determined |
| RoundLaws.RoundLands | internal/controller/networkpolicy_controller.go:338-358 | if no write is lost, what is stored is what the round left, up to order |
| Interleavings.ReturnsDistinct | pkg/network/resolver.go:258-307 | what the resolver returns is about the spec's names, each once |
| Interleavings.SameOutcome | pkg/network/resolver.go:302-306 | two interleavings of the same lookups lead to the identical status, the message excepted unless the worst failures quote the same, and to the identical rules where end ports are determined |
| Interleavings.CancelledKeeps | pkg/network/resolver.go:278-306 | in any run, a round going by a resolver run that was cancelled before a name's lookup started, after a stored success, raises no warning about the name and keeps all its addresses with retention off, those of that success with retention on |
| Provenance.EmittedWasResolved | internal/controller/networkpolicy_controller.go:77-309 | over any run, retention and timeouts changing, names removed and re-added, writes lost, reads outdated: an emitted CIDR was resolved for a name that a rule of the spec lists and lets pass |
| Provenance.AdmittedWasResolved | internal/controller/networkpolicy_controller.go:77-309 | the same for destinations: that very rule also has a matching port |
| Provenance.LiveIsEmitted | internal/controller/networkpolicy_create.go:16-72 | the live object carries the rules emitted by the last round whose apply succeeded, with that round's labels, annotation and selector |
| Memory.NameRun | internal/controller/networkpolicy_controller.go:77-309 | seen from one name, a run of the operator is a run of its ledger |
| Memory.PolicyRemembers | internal/controller/networkpolicy_controller.go:112-240 | over any run, writes lost, reads outdated, clock, retention and specs changing: the policy a round emits admits a destination iff a rule lists a name whose history, of the stored rounds behind the status read and this one, remembers the CIDR, and CIDR and port pass; for a spec whose entries cover each other |
| Memory.PolicyWarns | internal/controller/networkpolicy_fqdn_status.go:32-56 | over any run: a round's events warn about a name iff the stored rounds behind the status read and this one say so, with the kind of failure deciding the kind of warning |
| Memory.WarnsOnce | internal/controller/networkpolicy_fqdn_status.go:32-56 | with retention off, after a warning whose round landed, no round that reads what it stored warns again before a success of the name is stored |
| Memory.FailureTolerated | api/v1alpha1/networkpolicy_funcs.go:257-272 | over any run: right after a stored success, a failure that may pass raises no warning and takes away no address with retention off, none of that success with retention on |
| Operation.RoundSteps | internal/controller/networkpolicy_controller.go:276-358 | whatever a round's faults and whichever status it read, what it leaves is a step of a run; it is stored unless the write is lost or the status read is outdated |
| Operation.Operate | internal/controller/networkpolicy_controller.go:302-308 | the reconciliation requeued over any inputs, from nothing stored, makes a run, and the warnings it raises are those of the run |
| DomainNames.LabelIff | api/v1alpha1/networkpolicy_funcs.go:17 | the label expression accepts exactly 1 to 63 letters, digits or hyphens without a hyphen at either end (sections 2.3.1 and 2.3.4 of RFC 1035, section 2.1 of RFC 1123) |
| DomainNames.Valid | api/v1alpha1/networkpolicy_funcs.go:62-73 | the loop decides the check |
| DomainNames.ValidIff | api/v1alpha1/networkpolicy_funcs.go:62-73 | accepted are exactly the joins by dots of two or more such labels |
| DomainNames.PatternIff | api/v1alpha1/networkpolicy_types.go:131 | the pattern of the resource definition admits exactly the joins by dots of one or more labels and a last one of at least two letters, of any length |
| DomainNames.PatternValid | api/v1alpha1/networkpolicy_types.go:131 | a name of the resource definition's pattern is accepted iff its last label has at most 63 letters |
| DomainNames.PatternWider | api/v1alpha1/networkpolicy_types.go:131 | names the pattern admits and the check refuses, one for every longer last label |

## Left out

- The branch for a policy without rules (`internal/controller/networkpolicy_controller.go:256-274`) and the deletion of the object: the resource definition requires at least one rule, so `Reconcile.Round` does.
- The work queue and its requeue intervals (`Operation.Operate` takes the rounds one after another), events other than the cleared-list warnings, logging, owner references: calls into the Kubernetes libraries. A failed apply with its error, a lost status write and the status read are inputs of the round; a conflict and another write error are not told apart.
- Setting a status condition is a library call that is not part of this model; `Reconcile.SetCondition` follows its documented effect, that the time of a condition changes only with its truth value.
- The retention annotation's syntax: the parsed duration is an input, zero when absent or invalid.
- Seconds truncation of stored timestamps and the several clock readings of one round: a round reads one integer.
- DNS itself, CIDR parsing and printing, the sorting of the CIDRs inside one result (any order does: `RoundLaws.AnswerOrderHidden`) and the mapping from errors to reasons (`pkg/network/resolver.go:33-113`): results are inputs. Per-lookup timeouts are part of what a lookup returns.
- What a pod selector selects. Peers with selectors or excepted blocks and ingress rules are never built by the compiler; a peer without an IP block is skipped by the normaliser, here as there.
- PortKeys.FingerprintFaithful: keys are required to be free of commas, which holds for numbered ports; named ports are never built by the compiler.
- EndToEnd.PolicyMeaning: end ports are required to agree, because the statement is false otherwise; `EndToEnd.PolicyMeaningIff` and `ExactEnds.MeansSpecIff` give the exact conditions.
- NormaliserLaws.MeaningPreserved: likewise; `Ranges.MeaningIff` gives the exact condition.
- RoundLaws.Confluence: the message is excepted where the worst failures quote differently, because the statement is false there; `RoundLaws.ReportOrderIff` gives the exact condition.
- RoundLaws.Quiescence: likewise.
- History.LedgerHistory: the run has every write landing; `Attempts.AttemptHistory` covers lost writes, outdated reads and dropped names.
- Applying.Cluster.CreateOrUpdate: the owner reference, the policy types and the resource version are not part of the compared object; the first two never vary, and a conflict on the third is an input, as a failed apply.
- Memory.PolicyRemembers: the spec's entries are required to cover each other, because the statement is false otherwise (`ExactEnds.MeansSpecIff`).
