# Models of storage-e2e

Dafny models of the protocols and algorithms at the core of deckhouse/storage-e2e, with proofs of what they
guarantee over every execution and every input. `dafny verify dfyconfig.toml` checks the whole project.

- **Cluster lock** (`LeaseProtocol`, `LeaseInvariant`, `LeaseSafety`, `LeaseTiming`, `LeaseProgress`, `LeaseLateRequests`). A step protocol: one
  stored Lease, a forward-moving clock, any number of runs. Reads are single steps. A write is sent in one step and lands,
  if ever, in a later one, possibly after its sender stopped waiting; replies may be lost; every call may fail and be
  retried any number of times. `LeaseInvariant` holds what every step keeps, `LeaseProgress` what a run gets done when its
  requests are served; the other files state properties of whole executions.
- **Module rollout** (`ModuleGraph`, `ModuleNumbering`, `ModuleLevels`, `ModuleRepeats`, `ModuleRollout`). The graph and the levelled sort as loops over maps
  iterated in any order, proved equal to an order-free function, then to an independent notion of dependency chain; the
  level-by-level rollout as a machine in which the goroutines of a level interleave freely.
- **Commander** (`CommanderUpdate`, `CommanderConcurrency`, `CommanderWait`). The read-mutate-PUT loop against an arbitrary
  environment, any number of such calls interleaved, and the convergence wait over any poll history.
- **Virtual machines** (`VmRemoval`, `ImageName`). Removal with deletions that take effect only after some polls, proved
  equal to a closed form over the set of names; the image-name normaliser.
- **Smaller cores** (`NetworkCidr`, `Backoff`, `JumpHost`, `ModuleOverrides`), with `Options`, `Text` and `Arithmetic` shared.

Assumptions taken from the systems around the code: holder identities are distinct (they key the map of runs), also from the
holder of a lease found at the start; all runs read one clock, without skew between hosts; the API server refuses an Update of
a stale version, a Delete with another UID, and a Lease whose LeaseDurationSeconds or LeaseTransitions is negative; a 409 answer
of Commander means that the PUT changed nothing; `strings.ToLower` works character by character and has the properties listed in `Text.LowersOne`.

Six properties one might expect are false of the code. The model keeps the code, shows an input that fails, and proves exactly
when the property holds:

- A Delete that lands late can remove another run's lock, because a takeover keeps the UID
  (`LeaseLateRequests.LateDeleteFreesAHeldLock`). By `LeaseLateRequests.LateDeleteExactly` a pending Delete can come to hit
  another run by a given time if and only if the lease is expired by then, so the lock theorems assume that Deletes land before.
- A Create that lands after its run released the lock leaves a lease nobody renews
  (`LeaseLateRequests.LateCreateLeavesAnOrphan`). By `LeaseLateRequests.OrphanExactly` this can happen to an empty store if and
  only if such a Create is in flight.
- A module list that repeats a name can put a module beside one it depends on
  (`ModuleRepeats.ShadowedDependenciesBreakOrder`), hide a cycle (`ModuleRepeats.ShadowedDependenciesHideACycle`) or feign one
  (`ModuleRepeats.ShadowedDependenciesFeignACycle`): the entries of the replaced module stay in the reverse dependencies.
  `ModuleLevels.SortModules` gives the exact conditions: an acyclic list is sorted rightly if and only if replaced modules of a
  name n depended only on modules with dependency chains as long as n's, and any list is sorted without an error if and only
  if its modules have a numbering in the sense of `ModuleNumbering.FinishesExactly`. Lists of distinct names meet the first
  condition (`ModuleLevels.UnshadowedIsHarmless`).
- An override whose only `${` is a good reference can be refused, as in `$${A}{` (`ModuleOverrides.GoodOverrideRefused`),
  because the check looks at the text after the references were cut out. `ModuleOverrides.AcceptedExactly` gives the exact
  condition.
- Inserted values can be expanded again if the same module object is listed again, as when one variable holds a reference to
  another (`ModuleOverrides.NestedIsExpandedAgain`). By `ModuleOverrides.OneVisitExactly` a given text is expanded once if and
  only if its module is listed once or the expanded text is empty, malformed or its own expansion.
- The closed-form delay is not the stepwise one for every retry: all waits up to retry k agree if and only if the last product
  fits in 64 bits (`Backoff.SchedulesAgreeIn64Bits`). With the configured delays that is up to retry 32, and one more wraps to
  a negative duration (`Backoff.NextDelayOverflows`); ten are made.

## Model

| member | source | states |
|---|---|---|
| LeaseProtocol.Int32 | internal/kubernetes/clusterlock/lease.go:234-236 | whole seconds are stored as an int32: the result is in range and congruent to the value modulo 2^32 |
| LeaseInvariant.NextKeepsInv | internal/kubernetes/clusterlock/lease.go:104-216 | every step of every run keeps the invariant: versions identify stored leases, copies held by clients were stored, in-flight takeovers were expired when sampled, writes older than a win cannot land |
| LeaseInvariant.AlwaysInv | internal/kubernetes/clusterlock/lease.go:104-216 | the invariant holds in every state of every execution |
| LeaseSafety.NamedUntil | internal/kubernetes/clusterlock/lease.go:104-216 | from any state where the stored lease names a run, it names it with the same UID until its own Delete lands or another run takes it over while it is expired, if Deletes land before the lease they read expires |
| LeaseSafety.HolderIsNamed | internal/kubernetes/clusterlock/lease.go:78-102 | a run that got the lock and has not begun to release is named by the store, or the incarnation it won was taken over from it, after the win and at its expiry |
| LeaseSafety.MutualExclusion | internal/kubernetes/clusterlock/lease.go:69-142 | two runs hold the lock at once only if the very lock of one of them was taken over after it won it, at an instant when it was expired |
| LeaseSafety.TakeoverOnlyAfterExpiry | internal/kubernetes/clusterlock/lease.go:105-141 | a takeover that lands replaces exactly the lease it read, and that lease is expired at that instant |
| LeaseSafety.DeletesOnlyWhatItRead | internal/kubernetes/clusterlock/lease.go:150-176 | a Delete that lands removes the incarnation its run had read as its own, and nothing else |
| LeaseSafety.StrayDeleteIsLate | internal/kubernetes/clusterlock/lease.go:163-167 | a Delete that removes a lease naming another run landed after the lease it read had expired |
| LeaseSafety.NoRenewalSentAfterRelease | internal/kubernetes/clusterlock/lease.go:146-151 | once Release has stopped the renewal, every renewal of the run still in flight was sent before |
| LeaseSafety.ReleasedForGood | internal/kubernetes/clusterlock/lease.go:145-179 | after Release returned nil, under any lost replies and retries, the incarnation the run won never names it again |
| LeaseSafety.NamedAfterReleaseByCreate | internal/kubernetes/clusterlock/lease.go:145-179 | after Release returned nil, an incarnation names the run only if it did at that time or a Create of the run was in flight then |
| LeaseSafety.IncarnationIsContiguous | internal/kubernetes/clusterlock/lease.go:131-135 | an incarnation stored at two instants is stored all the time between them |
| LeaseSafety.RenewTimeMonotone | internal/kubernetes/clusterlock/lease.go:211-213 | within an incarnation the stored RenewTime never decreases and is never ahead of the clock |
| LeaseSafety.TransitionsCountTakeovers | internal/kubernetes/clusterlock/lease.go:127-135 | since its creation, an incarnation's LeaseTransitions (nil read as 0) is the number of takeovers that landed |
| LeaseTiming.LeaseNeverExpires | internal/kubernetes/clusterlock/lease.go:181-216 | with whole seconds of at least 90, ticks every third, renewals landing within 30 s, no two missed in a row, a winning attempt of at most a third less 30 s, and Deletes landing before the lease they read expires, the lease stays unexpired and unseized until Release |
| LeaseTiming.OnScheduleExcludes | internal/kubernetes/clusterlock/lease.go:181-216 | two runs that both keep to that schedule up to the same state are one run |
| LeaseProgress.CreateWins | internal/kubernetes/clusterlock/lease.go:104-117 | with no lease stored, an idle run can get the lock: the lease names it, has its duration in seconds, both times at the instant the attempt began, no transitions, a new UID |
| LeaseProgress.TakeoverWins | internal/kubernetes/clusterlock/lease.go:119-141 | an idle run can take over a lease that was past its RenewTime, or else AcquireTime, plus its duration, or else the run's, when the attempt began, or has neither time: the UID is kept, transitions grow by one, nil counting as 0 |
| LeaseProgress.HeldLeaseIsLeft | internal/kubernetes/clusterlock/lease.go:122-124 | an attempt that began not later than that changes nothing and may be repeated |
| LeaseProgress.BeatenRunTriesAgain | internal/kubernetes/clusterlock/lease.go:109-116 | a Create or takeover that lost the race changes nothing, and its run may try again |
| LeaseProgress.FailureIsRetried | internal/kubernetes/clusterlock/lease.go:81-83 | a failed or abandoned call leaves the run at the start of its acquire, renewal or release attempt and changes nothing else |
| LeaseProgress.RenewalExtends | internal/kubernetes/clusterlock/lease.go:199-216 | a renewal sent at t is enabled, sets the stored RenewTime to t and changes nothing else of the lease but its version, and counts for tick t of the schedule |
| LeaseProgress.LostLeaseIsNotRenewed | internal/kubernetes/clusterlock/lease.go:206-209 | a run that the store does not name renews nothing |
| LeaseProgress.ReleaseFrees | internal/kubernetes/clusterlock/lease.go:145-173 | Release of a run that the store names can end well with an empty store |
| LeaseProgress.ServedDeleteReleases | internal/kubernetes/clusterlock/lease.go:163-173 | whatever the store answers to the Delete, Release ends well; a lease of another incarnation stays |
| LeaseProgress.ReleaseLeavesOthers | internal/kubernetes/clusterlock/lease.go:152-161 | Release of a run that the store does not name ends well without a request |
| LeaseLateRequests.LateDeleteFreesAHeldLock | internal/kubernetes/clusterlock/lease.go:163-170 | a reachable state in which a run holds the lock, is named by the store, and the delayed Delete of another run frees it |
| LeaseLateRequests.LateDeleteExactly | internal/kubernetes/clusterlock/lease.go:163-170 | in every state of the protocol where the lease a pending Delete read still names its run, the Delete can come to remove another run's lock by time t if and only if the stored lease is expired at t, which implies that the one it read is |
| LeaseLateRequests.LateCreateLeavesAnOrphan | internal/kubernetes/clusterlock/lease.go:108-117 | a reachable state in which a run has released and the store is empty, from which a delayed Create can store a lease for that run |
| LeaseLateRequests.OrphanExactly | internal/kubernetes/clusterlock/lease.go:108-117 | once a run has released and the store is empty, some continuation makes the store name the run again if and only if a Create of it that the store admits is in flight |
| ModuleGraph.BuildModuleGraph | pkg/kubernetes/modules.go:170-198 | fails exactly when a dependency names no module of the list; otherwise the maps hold the last module of each name and every list entry as a reverse dependency |
| ModuleGraph.TopologicalSortLevels | pkg/kubernetes/modules.go:202-247 | whatever the map iteration order and whatever the graph, levels and leftover are those of the order-free rounds |
| ModuleLevels.SortModules | pkg/kubernetes/modules.go:459-469 | for every list: a missing dependency is reported exactly when there is one; levels are returned exactly when a numbering exists, and they list every module once, dependencies strictly earlier, at the longest chain's length less one, exactly when repeated names are harmless; then a cycle is reported exactly when there is one, among the reported modules; a cycle goes unreported only if a module on it replaced one with dependencies |
| ModuleLevels.LevelIsLongestChain | pkg/kubernetes/modules.go:200-201 | a module at level k starts a dependency chain of k + 1 modules and no longer one |
| ModuleLevels.BlockedHasCycle | pkg/kubernetes/modules.go:221-228 | modules that all wait for one another contain an actual dependency cycle |
| ModuleLevels.DoneMeansAcyclic | pkg/kubernetes/modules.go:211-246 | if the rounds finish there is no dependency cycle |
| ModuleLevels.CountEdgesByName | pkg/kubernetes/modules.go:177-186 | the entries recorded for a name are those of its own list, duplicates included, and beyond them only those of the modules it replaced |
| ModuleLevels.HarmlessIsFaithful | pkg/kubernetes/modules.go:231-243 | with harmless repeats the count of processed entries is that of the module's own list in every round it still waits in |
| ModuleLevels.SoundMeansHarmless | pkg/kubernetes/modules.go:202-247 | if the levels returned are right, the repeated names were harmless |
| ModuleLevels.HiddenCycleIsShadowed | pkg/kubernetes/modules.go:211-243 | if the sort finishes in spite of a cycle, some module on the cycle replaced a module that had dependencies |
| ModuleLevels.UnshadowedIsHarmless | pkg/kubernetes/modules.go:177-180 | repeated names are harmless when only the last module of each name has dependencies, so in particular when names are distinct |
| ModuleNumbering.FinishesExactly | pkg/kubernetes/modules.go:202-247 | for any graph and any recorded entries, the rounds finish if and only if the modules can be numbered so that each has the first number below which as many of its recorded entries lie as its own list has |
| ModuleRepeats.ShadowedDependenciesBreakOrder | pkg/kubernetes/modules.go:178-186 | a list with a repeated name whose sort puts a module in the level of its dependency |
| ModuleRepeats.ShadowedDependenciesHideACycle | pkg/kubernetes/modules.go:178-186 | a list with a repeated name and a module that depends on itself, sorted without an error |
| ModuleRepeats.ShadowedDependenciesFeignACycle | pkg/kubernetes/modules.go:221-243 | an acyclic list with a repeated name for which the sort reports a cycle |
| ModuleRollout.DependenciesComeFirst | pkg/kubernetes/modules.go:471-548 | when a module is written, everything it depends on, directly or not, was configured, and seen Ready if enabled |
| ModuleRollout.NoWriteAfterError | pkg/kubernetes/modules.go:503-545 | after a failure in a level, whatever is still written belongs to that level |
| ModuleRollout.SuccessSettlesAll | pkg/kubernetes/modules.go:473-550 | a rollout that returns without error configured every module and saw every enabled one Ready |
| ModuleRollout.ErrorExactlyOnFailure | pkg/kubernetes/modules.go:503-550 | a rollout that has returned did so with an error exactly when some module failed to be configured or to become Ready |
| ModuleRollout.OnlyEnabledAreAwaited | pkg/kubernetes/modules.go:518-533 | only enabled modules of the current level are waited for |
| ModuleRollout.WrittenBeforeConfigured | pkg/kubernetes/modules.go:484-499 | no module counts as configured that was not written |
| ModuleRollout.CanSucceed | pkg/kubernetes/modules.go:473-550 | from every state of a rollout in which nothing failed, it can be completed without an error |
| CommanderUpdate.UpdateClusterValues | internal/kubernetes/commander/update.go:95-131 | under any interference: at most five PUTs; at most one accepted, exactly one on success, none when it gives up or cannot read; an accepted PUT replaces the very revision before it, keeps name, template, registry and a set registry mode, and has the mutated values; the result is the one its rounds call for |
| CommanderUpdate.EndsExactly | internal/kubernetes/commander/update.go:97-131 | what happens in the rounds decides the result and the number of PUTs |
| CommanderUpdate.DistinctKeysSurvive | internal/kubernetes/commander/update.go:91-94 | a key set once keeps its value through all later updates of other keys |
| CommanderConcurrency.OneAcceptedPut | internal/kubernetes/commander/update.go:97-130 | in every interleaving of any number of calls, with PUTs that may be handled after their call returned, each call has at most five PUTs and at most one accepted, exactly one if it succeeded |
| CommanderConcurrency.NoLostUpdate | internal/kubernetes/commander/update.go:91-131 | in every such interleaving, the key of a call that succeeded has its value, unless another call sets the same key |
| CommanderConcurrency.EveryWriteSetsOneKey | internal/kubernetes/commander/update.go:110-121 | in every such interleaving, every accepted PUT sets the key of its call in the revision before it and keeps everything else |
| CommanderConcurrency.UndisturbedCallSucceeds | internal/kubernetes/commander/update.go:97-125 | a call with no other write between its read and its PUT succeeds |
| CommanderConcurrency.ConflictIsRetried | internal/kubernetes/commander/update.go:126-130 | a PUT that meets a newer revision changes nothing and is followed by another read, unless it was the fifth |
| CommanderConcurrency.FailedCallMayHaveWritten | internal/kubernetes/commander/update.go:126-129 | a call that returned an error may have written, when its PUT is handled later |
| CommanderWait.TakeRead | internal/kubernetes/commander/update.go:245-273 | one read updates statuses to the merged history and the counter to the trailing failing run, and decides as the history says |
| CommanderWait.TakePoll | internal/kubernetes/commander/update.go:229-283 | one pass decides by change requests, then the read, then the pause, and keeps the tracked state equal to the history's |
| CommanderWait.WaitForConvergence | internal/kubernetes/commander/update.go:226-284 | for every poll history the wait ends at the first poll that ends it, with the verdict that poll justifies |
| CommanderWait.VerdictIsJustified | internal/kubernetes/commander/update.go:226-284 | each verdict comes under its own condition on the poll, with the status table written out: ready or failed statuses, a status saying "fail" read as often as the limit, then deadline, cancellation or another tick |
| CommanderWait.JustifiedIsUnique | internal/kubernetes/commander/update.go:226-284 | these conditions exclude each other, so that each verdict comes exactly under its own |
| CommanderWait.StuckExactlyAtLimit | internal/kubernetes/commander/update.go:260-272 | the sticky-failure error is returned exactly when the run of one failure status reaches the limit |
| CommanderWait.MergedHasNoRepeats | internal/kubernetes/commander/update.go:246-250 | the recorded statuses have no equal neighbours, do not start with an empty one and end with the last read |
| CommanderWait.MergedKeepsStatuses | internal/kubernetes/commander/update.go:246-250 | a non-empty status is recorded exactly when it was read |
| CommanderWait.MergedIsBlocks | internal/kubernetes/commander/update.go:246-250 | the recorded statuses are those of the blocks of equal reads that make up the history, in order |
| CommanderWait.ReadsOfParts | internal/kubernetes/commander/update.go:244-250 | each successful read adds its status to the history, in order, and a failed one nothing |
| CommanderWait.KnownIdMeans | internal/kubernetes/commander/update.go:251-253 | the cluster id is the one of the update, or else the first one read that is not empty |
| CommanderWait.TrailingRunMeans | internal/kubernetes/commander/update.go:265-267 | the counted run is the longest one of equal statuses at the end of the history |
| VmRemoval.Namespace.RemoveDisks | pkg/cluster/vms.go:980-1028 | all disks asked for are gone when the polling ends, and no other disk changed |
| VmRemoval.Namespace.RemoveVM | pkg/cluster/vms.go:904-1073 | removes exactly the machine, its disks, and the images some of those disks used and no remaining disk does; a missing machine changes nothing, and deletions may be under way from the start |
| VmRemoval.Namespace.RemoveAllVMs | pkg/cluster/vms.go:710-735 | for names in any order, repeated or missing, the outcome is that of removing the set of them at once |
| VmRemoval.RemovedExactly | pkg/cluster/vms.go:918-1028 | a machine goes exactly if it is named, a disk exactly if a named machine has a disk device of that name; the others are unchanged |
| VmRemoval.ImageGoesExactly | pkg/cluster/vms.go:930-1067 | an image goes exactly if some disk that goes was made from it and every disk made from it goes |
| VmRemoval.RemovedOneMore | pkg/cluster/vms.go:722-732 | removing one more machine after a set equals removing the larger set |
| VmRemoval.OrphansOfUnion | pkg/cluster/vms.go:1042-1067 | an image is orphaned by two removals together exactly when it is by the first or then by the second |
| ImageName.GetCVMINameFromImageURL | pkg/cluster/vms.go:568-592 | the loop ends with each hyphen run collapsed to one; the name is not empty and has no double, leading or trailing hyphen, dot, underscore or slash |
| ImageName.NameIsJoinedWords | pkg/cluster/vms.go:576-591 | the name is the words of the lower-case base, what lies between its hyphens, dots and underscores, joined by single hyphens, or "image" if there are none |
| ImageName.LayoutExists | pkg/cluster/vms.go:576-583 | every base is laid out as such words and separators |
| ImageName.ExtensionsAreCut | pkg/cluster/vms.go:570-574 | the base is what follows the last slash without ".img" and then without ".qcow2", in that order |
| ImageName.ReplaceDoubleCollapses | pkg/cluster/vms.go:580-583 | one replacement pass keeps what the hyphen runs collapse to |
| ImageName.ReplaceDoubleShrinks | pkg/cluster/vms.go:581-583 | a pass over a text with a double hyphen shortens it, so the loop ends |
| ImageName.NameIsStable | pkg/cluster/vms.go:565-592 | normalising a name again changes nothing |
| ImageName.NameIsALabel | pkg/cluster/vms.go:566-567 | file names of letters, digits, dot, underscore and hyphen give names of lower-case letters, digits and hyphens (section 2.1 of RFC 1123) |
| NetworkCidr.CalculateNetworkCIDR | pkg/cluster/setup.go:289-350 | names the first bad address; on IPv4 addresses fails exactly when two differ in their first 16 bits; otherwise the longest prefix in 16..24 that all share |
| NetworkCidr.SamePrefixIsSameBits | pkg/cluster/setup.go:320-339 | two addresses lie in the same network of a length exactly when that many leading bits agree (section 3.1 of RFC 4632) |
| NetworkCidr.OctetsAreBits | pkg/cluster/setup.go:312-339 | sixteen leading bits agree exactly when the first two octets do, twenty-four when the first three do |
| NetworkCidr.OrderDoesNotMatter | pkg/cluster/setup.go:292-350 | lists with the same addresses, in any order and with any repetition, have the same outcome, up to which bad address is named |
| Backoff.SchedulesAgree | pkg/retry/retry.go:115-121 | doubling and capping step by step equals the capped closed form at every retry exactly when the initial delay is within the maximum |
| Backoff.ExactExactlyWhileItFits | pkg/cluster/setup.go:870-874 | for every int64 delay, the int64 waits up to retry k are the closed form's if and only if initial * 2^k fits in 63 bits |
| Backoff.SchedulesAgreeIn64Bits | pkg/cluster/setup.go:870-874 | for every initial delay within the maximum, the int64 waits up to retry k are the stepwise ones if and only if initial * 2^k fits in 63 bits |
| Backoff.ConfiguredDelaysExactly | pkg/cluster/setup.go:870-874 | with the configured delays that holds if and only if k is at most 32 |
| Backoff.FirstWrapIsNegative | pkg/cluster/setup.go:870-874 | for every initial delay, the first product that does not fit is a negative duration |
| Backoff.NextDelayOverflows | pkg/cluster/setup.go:870-874 | at retry 33 the int64 product would be a negative duration |
| Backoff.ScheduleOfDoubling | pkg/retry/retry.go:61-67 | if doubling is exact for the waits that occur, as in float64 up to 2^53 ns, the retry loop with backoff 2 waits the stepwise, hence the closed, schedule |
| Backoff.Do | pkg/retry/retry.go:78-129 | at most MaxRetries + 1 calls, none after a success, a permanent error or the end of the context, the last error returned, the configured waits in order; a negative MaxRetries returns nil without a call |
| JumpHost.Client.Connect | internal/infrastructure/ssh/client.go:850-899 | an attempt connects or closes all it opened |
| JumpHost.Client.Reconnect | internal/infrastructure/ssh/client.go:811-909 | for every pattern of failures and cancellation: success leaves exactly one new pair open, failure nothing, at no instant more than one pair; there is one wait of the stepwise schedule per retry |
| JumpHost.Client.Exec | internal/infrastructure/ssh/client.go:1084-1142 | succeeds exactly when one of ten passes runs the command and every earlier one lost the connection and got a new one; never owns more than one pair at any instant |
| JumpHost.Client.NewClientWithJumpHost | internal/infrastructure/ssh/client.go:640-741 | succeeds exactly when configs and the jump dial work and some of ten target attempts connects; waits the stepwise schedule between attempts; leaves one pair open, or nothing |
| ModuleOverrides.RefLengthFinds | internal/config/module_overrides.go:27 | the matcher finds every dollar-brace reference whose name matches the pattern |
| ModuleOverrides.ReferencePattern | internal/config/module_overrides.go:27 | text between the opener and the next closing brace is a reference exactly if it is a letter or underscore followed by letters, digits and underscores |
| ModuleOverrides.TokensRoundTrip | internal/config/module_overrides.go:41-49 | literal characters and references together are the original text |
| ModuleOverrides.ExpandInsertsVerbatim | internal/config/module_overrides.go:41-49 | for every lookup, a text is the expansion if and only if it comes from cutting the original into references and single characters where no reference starts, and replacing each reference by its value and nothing else |
| ModuleOverrides.AcceptedExactly | internal/config/module_overrides.go:40-57 | an override is accepted exactly when every opener starts a reference to a set variable and no dollar sign precedes references followed by an opening brace |
| ModuleOverrides.ResolvedExactly | internal/config/module_overrides.go:51-59 | a malformed override stays as it is, any other becomes its expansion |
| ModuleOverrides.ProblemsExactly | internal/config/module_overrides.go:44-57 | the problems are one for every unset variable that the override refers to and one for a malformed text, and no others |
| ModuleOverrides.GoodOverrideRefused | internal/config/module_overrides.go:51-57 | an override with only good references that the check refuses |
| ModuleOverrides.ResolveModulePullOverrides | internal/config/module_overrides.go:29-66 | each visit of a module replaces its text by the expansion unless that is malformed, also if the same object is listed again; problems come in list order |
| ModuleOverrides.ListedOnceIsExpandedOnce | internal/config/module_overrides.go:35-59 | when no object is listed twice, every module is checked and expanded once, from its own text |
| ModuleOverrides.OneVisitExactly | internal/config/module_overrides.go:35-59 | for every text and lookup, n visits leave the single expansion if and only if n is one or the expanded text is empty, malformed or its own expansion |
| ModuleOverrides.NestedIsExpandedAgain | internal/config/module_overrides.go:35-59 | a variable whose value is a reference to an empty variable: every number of visits but one leaves another text than the expansion |
| ModuleOverrides.NoProblemsExactly | internal/config/module_overrides.go:62-65 | the call succeeds exactly when every override is empty or accepted, as its visit finds it |

## Left out

- NamedUntil: assumes that every Delete lands before the lease it read expires; LateDeleteExactly shows that this is needed.
- LeaseNeverExpires: counts time in whole microseconds, so the truncation of sampled times to MicroTime is not modelled.
- RemoveVM: assumes that API calls succeed and nobody else writes; a deletion under way from the start ends only as its object is read; failed lists treat every image as unused, and images used from other namespaces are not seen.
- Do: what counts as a transient error is a parameter, and so is the rounding of the multiplication by the backoff factor.
- Exec: whether an error is a connection error is a parameter; concurrent calls of reconnect are not modelled.
- WaitForConvergence: does not claim that convergence is to the new value; the first poll may read an older status.
- Lease annotations, log messages and error texts.
- Conversion of address strings to IPv4: each string arrives already parsed, as invalid, not IPv4, or four bytes.
- Regular-expression search is modelled by its result: leftmost matches that do not overlap.
- The ConfigMap lock in pkg/cluster/lock.go, which is deprecated.
- configureModuleConfig and configureModulePullOverride: their retries appear as repeated writes of a module.
- WaitForModulesReady, WaitForModuleReady and the other helpers that poll an object until it is ready: the rollout has one step for what they report, and their polling is not modelled.
- The stress-test runner, resource builders, cloud-init text and the long orchestration functions.
