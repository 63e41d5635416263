# A verified model of the VPN panel's hard parts

This project models the parts of the panel where a mistake would be silent, and
proves what they promise:

- **Address arithmetic** (`Powers`, `Prefixes`, `Ranges`, `Numerals`,
  `AddressText`, `AddressRoundTrip`, `AddressReading`, `CidrSubtraction`,
  `SubtractionLaws`). One set of IPv4/IPv6 prefixes taken from another: merge,
  binary search, carving, greedy block decomposition, printing and parsing. The
  specification is sets of integers; the address width stays symbolic.
  `SubtractCidrs` is the program, proved equal to the function `Subtract`, and
  the laws are about the texts that go in and come out. What a text stands for
  is said on its characters: which texts are addresses, the number they spell,
  and the block a prefix length cuts out around it.
- **Access sync** (`AccessSync`, `AccessSyncTask`, `AccessHistory`,
  `AccessRuns`, `AccessCauses`). One run as a sequence of effects on policy, accounts and
  baseline, proved equal to `RunOnce`; and every interleaving of those effects
  with panel edits, outside policy edits and runs cut short, with the history of
  outside removals carried along.
- **Key lifecycle** (`KeyLifecycle`, `KeySafety`, `KeyHandlers`, `KeyRecovery`,
  `KeyRevokes`, `KeyRevival`). API transactions, one sequential worker and nodes
  that may fail at any call. Every node call and every database write is its own
  step; the worker may stop between any two; a call may fail, or take effect and
  still look failed. What each request comes to when the calls answer, and what
  holds however they do not.
- **Node reconciliation** (`ReconcileMatcher`), the two-pass peer matcher and
  its counts.
- **Administrators and allocation** (`LastAdmin`, `NodePick`, `NodeOrder`,
  `NodeLists`, `NodeEditor`). The last-administrator guard as interleaved
  transactions with row locks; node choice under quotas and capacity; the order
  of node lists and the rule that the recommended servers are its top.
- **Small exact algorithms** (`Base64Url`, `QrFrames`, `Lanes`).

Where the source updates state step by step, the model has a method with the
same loop, or a class with the same fields, proved against a specification
function; the laws are then lemmas about that function. Protocols with several
actors are state machines whose runs are sequences of events.

## What turned out not to hold

Each of these is proved with its exact condition rather than assumed away.

- **An accepted revoke can be overwritten, and then lost.**
  `docs/KEY-STATES.md:33` says a revoke that does not complete stays in
  `revoking`. The write that completes a disable or enable sets the state
  whatever it was, and so overwrites `revoking` whether that job was in flight or
  only queued when the revoke was accepted. `RevokingReturnsIff`: a key being
  revoked can come back to active or disabled exactly if its peer is in place
  and such a job is outstanding. While the revoke job is still queued, its
  next run with calls that answer revokes the key after all (`RevokeRuns`);
  `RevokeLostForGood` is the run, for every
  active key, in which that job gives up too, leaving a disabled key with its
  peer, no revoke to run and nothing re-arming one.
- **A disabled key can come back on an old enable job.** With no enable job
  outstanding it never does; `DisabledReturnsIffEnableOutstanding` is the
  if-and-only-if.
- **An interrupted rotation does not recover.** Each retry first deletes the old
  peer, so a rotation whose create call was refused fails from then on.
  `RotationSucceedsIff`: a waiting rotation can succeed exactly if the recorded
  peer is still on the node. `RefusedCreateLosesKey` is the run into the state
  where it is not, `InterruptedRotateNeverRecovers` what follows.
- **A sync run cut short can disable a reinstated user.** Between the policy
  write and the baseline store a stop leaves the two apart; the next run takes
  the panel's own removal for an outside one (`CutShortRunDisablesReinstated`,
  in every settled world with such a user). Without a run cut short every
  disabled account was removed from outside (`DisabledOnlyAfterRemoval`,
  `DisabledHasCause`);
  `DisablesWithoutRemovalIff` says, at every quiet moment of every history, which
  accounts the next run disables without an outside removal.
- **A sync run overwrites outside edits made after its fetch.** A foreign rule
  survives the write exactly if the run fetched it or writes nothing
  (`ForeignRuleSurvivesIffFetched`); `OutsideEditLost` is the edit that is lost.
- **The last-administrator guard needs its lock pass to hold a row.** At READ
  COMMITTED a pass visits the rows of its own snapshot one at a time and drops
  those that changed; it can come back empty, and then the target may be
  promoted between the check and the write. `LosesLastAdminIff` is the exact
  step, `UnprotectedCanTakeAll` the run from every such state, `RaceTakesAll`
  the whole race from rest. Somebody has to become an administrator in the
  meantime: passes that wait and race are safe as long as nobody does while such
  a pass or a withdrawal is in flight (`NoLateArrivalKeepsAdmin`,
  `AlwaysAnAdmin`); passes that never wait are safe even then, if the worker
  withdraws nobody (`PromptAlwaysAnAdmin`). The worker's own deactivation takes
  no lock and falls under the same condition.
- **Demotion is sometimes refused needlessly**: the guard looks at the role and
  not the status, so a disabled administrator cannot be demoted while one active
  administrator remains (`DemotionRefusedIff`; offboarding's guard is exact,
  `OffboardRefusalIsExact`).
- **Quotas are checked at creation only.** Exactly two steps bring a key back
  into the counted states, both unchecked: rotating a `failed` key, and a disable
  or enable that completes on a key that is `failed` or `revoking`
  (`RevivesIff`). Such a step breaks a limit exactly when the owner or the node
  is already at one (`RevivingStepExceedsIff`); no other history does
  (`LifecycleKeepsWithin`). `RotatingFailedExceedsIff` is a history that does,
  whenever the owner or the node has one place left.
- **The editor's preview can differ from the users' list.** The preview sorts
  unpositioned servers by their internal name, the API by the public name where
  there is one; they agree exactly when both names sort the unpositioned servers
  alike (`PreviewMatchesIff`, `PublicNameParts`).

## Model

| member | source | states |
|---|---|---|
| Prefixes.WidestIsMaximal | apps/worker/src/cidrSet.ts:100-108 | The block-size loop finds the widest aligned block at the cursor that stays inside the range: every fitting block is at most as wide |
| Prefixes.RangeToPrefixes | apps/worker/src/cidrSet.ts:94-112 | The two nested loops produce the specified decomposition of every range inside the family |
| Prefixes.DecomposeExact | apps/worker/src/cidrSet.ts:93-112 | The blocks are valid prefixes and cover exactly the range |
| Prefixes.DecomposeMinimal | apps/worker/src/cidrSet.ts:93-93 | No list of prefixes covering exactly the range is shorter |
| Prefixes.DecomposeBound | apps/worker/src/cidrSet.ts:94-112 | For two bits or more any range takes at most 2 * bits - 2 prefixes |
| Prefixes.DecomposeBoundIsTight | apps/worker/src/cidrSet.ts:94-112 | The bound is reached in every width, by the range without its two end addresses |
| Ranges.MergeRanges | apps/worker/src/cidrSet.ts:115-129 | The sort-and-merge loop computes the specified merge |
| Ranges.MergeCorrect | apps/worker/src/cidrSet.ts:114-129 | Merging keeps the address set and leaves sorted, disjoint, never adjacent ranges |
| Ranges.CanonicalUnique | apps/worker/src/cidrSet.ts:114-129 | Two merged lists of the same addresses are equal |
| Ranges.CarveExact | apps/worker/src/cidrSet.ts:198-219 | Carving leaves exactly the addresses of the range outside the blocks |
| Ranges.CarveSkip | apps/worker/src/cidrSet.ts:185-192 | Blocks that end before the range may be skipped: carving from the first reaching block is carving by all |
| Ranges.SizeCounts | apps/worker/src/cidrSet.ts:131-132 | The size of any list of ranges is the number of distinct addresses in it |
| Ranges.DecomposeAllExact | apps/worker/src/cidrSet.ts:231-235 | Decomposing range by range covers exactly all the ranges |
| Ranges.DecomposeAllMinimal | apps/worker/src/cidrSet.ts:134-138 | Over merged ranges it is the fewest prefixes overall: no prefix can span two ranges |
| Ranges.DecomposeAllOrdered | apps/worker/src/cidrSet.ts:135-138 | The prefixes come out in address order |
| AddressText.PrintAddress | apps/worker/src/cidrSet.ts:64-91 | The printer computes the specified text |
| AddressText.PrintGroups | apps/worker/src/cidrSet.ts:72-90 | The zero-run search loop computes the specified compressed form |
| AddressText.CompressesFirstLongestRun | apps/worker/src/cidrSet.ts:71-90 | The run compressed is the first of the longest runs of at least two zero groups, and there is none exactly when no such run exists (sections 4.2.2 and 4.2.3 of RFC 5952) |
| AddressRoundTrip.V4RoundTrip | apps/worker/src/cidrSet.ts:16-19 | Every 32-bit value prints as a valid dotted quad that parses back |
| AddressRoundTrip.V6RoundTrip | apps/worker/src/cidrSet.ts:21-45 | Every 128-bit value prints as a valid IPv6 text that parses back, compressed or not |
| AddressRoundTrip.CompressedReadsBack | apps/worker/src/cidrSet.ts:31-41 | Any head and tail around one gap parse as the groups with the gap filled by zeros |
| AddressRoundTrip.CidrRoundTrip | apps/worker/src/cidrSet.ts:48-62 | Every aligned block prints as a prefix that parses back to its range |
| AddressReading.DigitTable | apps/worker/src/cidrSet.ts:42-44 | The value of every digit character, in either case, and that no other character is one |
| AddressReading.DecimalIsPrinted | apps/worker/src/cidrSet.ts:16-19 | A decimal numeral without a leading zero is the printed form of its value |
| AddressReading.V4Spells | apps/worker/src/cidrSet.ts:16-19 | Every IPv4 text is four printed octets without leading zeros and stands for a * 2^24 + b * 2^16 + c * 2^8 + d |
| AddressReading.QuadIsV4 | apps/worker/src/cidrSet.ts:16-19 | And every such text is one |
| AddressReading.V6Spells | apps/worker/src/cidrSet.ts:21-45 | Every IPv6 text without a dotted quad is eight groups, or fewer around one "::", and stands for the eight groups, highest first, the missing ones zero |
| AddressReading.GroupsAreV6 | apps/worker/src/cidrSet.ts:21-45 | And every such text is one, read as those groups |
| AddressReading.DottedAdds | apps/worker/src/cidrSet.ts:23-30 | An IPv6 text ending in a dotted quad stands for the text with two zero groups in its place, plus the quad |
| AddressReading.QuadInPlaceOfZeros | apps/worker/src/cidrSet.ts:23-30 | Any quad may stand in the place of two zero groups at the end |
| AddressReading.DottedTailIsLow32 | apps/worker/src/cidrSet.ts:23-30 | The low 32 bits of any IPv6 text ending in a dotted quad are that quad's value |
| AddressReading.ParsesIff | apps/worker/src/cidrSet.ts:47-56 | A text is read, in a family, exactly if an address of that family stands before the slash and a decimal length no longer than its bits, or nothing, after it |
| AddressReading.ReadsBlock | apps/worker/src/cidrSet.ts:55-61 | The range read holds the written address, has exactly 2^(bits - length) addresses, is aligned, and consists of the addresses that agree with the written one in the leading bits, host bits or not |
| AddressReading.V6PrintsLowerCase | apps/worker/src/cidrSet.ts:64-91 | Printed IPv6 texts hold colons, digits and the letters a to f only |
| CidrSubtraction.ParsedIsPrefix | apps/worker/src/cidrSet.ts:55-61 | Whatever parses, host bits or not, becomes a whole aligned block of its family |
| CidrSubtraction.FirstReaching | apps/worker/src/cidrSet.ts:185-192 | The binary search finds the first block that ends at or after the start |
| CidrSubtraction.CarveFrom | apps/worker/src/cidrSet.ts:198-219 | The carving loop from that block on leaves the specified pieces |
| CidrSubtraction.CarveOut | apps/worker/src/cidrSet.ts:184-219 | Search and carving together equal carving by all blocks, and report whether any block overlaps |
| CidrSubtraction.Sift | apps/worker/src/cidrSet.ts:176-220 | The include loop collects unparsed texts, included and kept ranges and the touched count as specified |
| CidrSubtraction.KeptCorrect | apps/worker/src/cidrSet.ts:176-220 | The kept ranges hold exactly the included addresses no exclusion covers |
| CidrSubtraction.SubtractCidrs | apps/worker/src/cidrSet.ts:161-242 | The whole method equals the specification function for every list of texts, malformed ones included |
| SubtractionLaws.SubtractExact | apps/worker/src/cidrSet.ts:134-160 | In each family the result's prefixes cover exactly the included addresses that no excluded prefix covers |
| SubtractionLaws.TextHasIff | apps/worker/src/cidrSet.ts:47-62 | The coverage of these laws, on the text: it names an address and a length, and the covered address agrees with it in that many leading bits |
| SubtractionLaws.SubtractMinimal | apps/worker/src/cidrSet.ts:134-138 | Any list of texts covering the same addresses of a family has at least as many prefixes of it |
| SubtractionLaws.ResultShape | apps/worker/src/cidrSet.ts:135-139 | Unparsed texts pass through once each, then IPv4, then IPv6, each in address order and without repeats |
| SubtractionLaws.SubtractCanonical | apps/worker/src/cidrSet.ts:150-158 | Inputs with the same difference give the same prefixes, however they are ordered, split or overlapping |
| SubtractionLaws.SubtractIdempotent | apps/worker/src/cidrSet.ts:150-158 | Subtracting nothing from a result gives the result |
| SubtractionLaws.SharesAreExact | apps/worker/src/cidrSet.ts:223-229 | Included = kept + removed in address counts, and the share is that ratio floored to four decimals, in [0, 1], 0 for an empty family |
| SubtractionLaws.TouchedCountsLosses | apps/worker/src/cidrSet.ts:140-141 | The touched count is the number of include prefixes that lost an address |
| AccessSync.CappedRunChangesNothing | apps/worker/src/accessReconcile.ts:461-502 | An aborted run leaves accounts, policy and both baselines as they were |
| AccessSync.DisablesOnlyRemoved | apps/worker/src/accessReconcile.ts:439-448 | A run disables only active members of the baseline whose email is gone from the policy, never a pinned address, an administrator or someone a domain rule admits; it re-activates nobody |
| AccessSync.DisablesEveryRemoved | apps/worker/src/accessReconcile.ts:439-515 | A run that is not aborted disables every such account |
| AccessSync.DomainAfterLastAt | apps/worker/src/accessReconcile.ts:219-230 | The domain of an email is what follows its last "@" |
| AccessSync.NoAtNoDomain | apps/worker/src/accessReconcile.ts:227-230 | An address without "@" has none |
| AccessSync.CoveredIff | apps/worker/src/accessReconcile.ts:227-230 | An email is covered exactly if a domain rule names what follows its last "@" and no exclusion names that domain or the email |
| AccessSync.DisabledIff | apps/worker/src/accessReconcile.ts:417-448 | On the rules themselves: a run that is not aborted disables an account exactly if it is an active member of the baseline, no administrator, not pinned, some email rule is left but none names it, and it is not covered |
| AccessSync.AdmittedStays | apps/worker/src/accessReconcile.ts:417-421 | Whom a domain rule admits and no exclusion names, no run disables |
| AccessSync.AbortedIff | apps/worker/src/accessReconcile.ts:454-502 | A run aborts exactly if it is configured with a nonzero cap and would take more than the cap or more than half of the active users, rounded up |
| AccessSync.AuditSays | apps/worker/src/accessReconcile.ts:480-499 | An aborted run records candidates, cap, active count and which limits were passed, unless the same candidates were the last recorded |
| AccessSync.OutcomeSays | apps/worker/src/accessReconcile.ts:346-360 | What each outcome says of configuration, active users, policy and the recorded abort |
| AccessSync.DisablesWithinCap | apps/worker/src/accessReconcile.ts:454-463 | With a nonzero cap an uninterrupted run disables at most the cap and at most half of the active users, rounded up |
| AccessSync.WriteKeepsForeignRules | apps/worker/src/accessReconcile.ts:541-610 | The written rules are every other rule, every foreign domain and email rule, unchanged and in order, and one bare rule per desired domain and email |
| AccessSync.EachDesiredOnce | apps/worker/src/accessReconcile.ts:517-609 | Every active or pinned address has exactly one rule in the written policy |
| AccessSync.PlanReflects | apps/worker/src/accessReconcile.ts:585-615 | Written or found in sync, the policy then names exactly the foreign and the desired addresses and domains |
| AccessSync.CompletedRunSettles | apps/worker/src/accessReconcile.ts:616-620 | After a completed run the baseline is what the panel wants and the policy names all of it |
| AccessSync.SettledRunChangesNothing | apps/worker/src/accessReconcile.ts:585-621 | In a settled world a run reports unchanged, writes nothing and disables nobody |
| AccessSync.SecondRunUnchanged | apps/worker/src/accessReconcile.ts:585-621 | A second run with nothing in between reports unchanged and leaves the world as it is |
| AccessSyncTask.SyncTask.DeactivateByEmail | apps/worker/src/postgresRepository.ts:580-609 | The loop over accounts disables exactly the active non-administrators with a listed address |
| AccessSyncTask.SyncTask.Run | apps/worker/src/accessReconcile.ts:346-621 | The run's effects, one after another on the fields, leave the state and outcome of the specification |
| AccessHistory.RunKeeps | apps/worker/src/accessReconcile.ts:346-621 | Every interleaving of run effects, stops, panel edits and outside edits keeps the invariant that baseline members are in the policy or were removed from it |
| AccessHistory.DisabledOnlyAfterRemoval | apps/worker/src/accessReconcile.ts:427-515 | In every history an account disabled by a run was in the stored baseline and, if no run was cut short, an outside edit removed its rule |
| AccessCauses.DisabledHasCause | apps/worker/src/accessReconcile.ts:427-515 | In the events of every history, behind a disabled account stands an outside edit that removed its rule, over which no run that fetched later has stored a baseline, or a run's write that took the rule out and a later stop between write and store |
| AccessCauses.RunIsAccounted | apps/worker/src/accessReconcile.ts:427-515 | Every email the history fields record has such an event behind it |
| AccessCauses.EventMeans | apps/worker/src/accessReconcile.ts:346-362 | What each event of the panel, the operator and the outside changes, and that a stop only ends the run |
| AccessHistory.AdmittedIsNotDisabled | apps/worker/src/accessReconcile.ts:417-448 | In every history: whom a domain rule of the fetched policy admits and no exclusion in it names, the run does not disable |
| AccessHistory.OnlyDisableTouchesAccounts | apps/worker/src/accessReconcile.ts:507-515 | No other effect of a run changes an account |
| AccessHistory.BaselineIsExplained | apps/worker/src/accessReconcile.ts:616-620 | Between runs every baseline address is in the policy, was removed from outside, or was dropped by a run cut short |
| AccessHistory.CutShortRunDisablesReinstated | apps/worker/src/accessReconcile.ts:599-620 | In every settled world a run stopped between write and store leads the next run to disable a reinstated user nobody outside removed |
| AccessRuns.ForeignRuleSurvivesIffFetched | apps/worker/src/accessReconcile.ts:599-611 | In every history: a foreign rule in the policy when a run writes survives exactly if it was in the policy that run fetched, or nothing needed writing |
| AccessRuns.OutsideEditLost | apps/worker/src/accessReconcile.ts:599-611 | A rule added from outside after the fetch of any run that goes on to write is in the policy before the write and gone after it |
| AccessRuns.DisablesWithinCapInHistory | apps/worker/src/accessReconcile.ts:454-463 | In every history, with a nonzero cap, a disable step takes at most the cap, and at most half (rounded up) of the users active when its run decided |
| AccessRuns.DisablesWithoutRemovalIff | apps/worker/src/accessReconcile.ts:427-515 | At every quiet moment of every history: the next run, undisturbed, disables an account not removed from outside exactly if the sync is configured, under its cap, the policy names somebody, and the account is an active member of the baseline that a run cut short wrote out, neither pinned nor admitted by a domain rule |
| KeySafety.RunKeeps | apps/worker/src/processor.ts:297-408 | Every interleaving of API transactions, worker calls, node failures and stops keeps the lifecycle invariant |
| KeySafety.RevokedHasNoPeer | apps/control-api/src/postgresRepository.ts:2824-2883 | In every history a revoked row has no peer under its label, and every peer belongs to a row that is not revoked, so purging strands none |
| KeySafety.RevokedIsFinal | apps/worker/src/processor.ts:363-391 | A revoked key stays revoked or is removed, and never has a peer again |
| KeySafety.TargetsCoverSlot | apps/worker/src/processor.ts:363-391 | The peers a revoke deletes include every peer under the key's label, whichever way the client was found |
| KeySafety.WorkMovesRows | apps/worker/src/postgresRepository.ts:897-1046 | What each worker call does to each row's state, and that it adds and removes none |
| KeySafety.ApiMovesRows | apps/control-api/src/postgresRepository.ts:2745-2805 | What each API transaction may do to each row's state; a row it removes was revoked |
| KeySafety.RevokingLeavesIff | apps/worker/src/postgresRepository.ts:942-967 | In one step a row leaves revoking for a state other than revoked exactly when a disable or enable past its node call completes on it |
| KeyHandlers.RequestAccepted | apps/control-api/src/postgresRepository.ts:2745-2793 | In which states each request is accepted, the state it moves the row to and the one job it queues; a refused one changes nothing |
| KeyHandlers.CleanUpTakes | apps/control-api/src/postgresRepository.ts:2824-2883 | A purge takes a revoked row with its jobs and nothing else; the other clean-ups take one row, one completed job or one peer |
| KeyHandlers.RevokeRuns | apps/worker/src/processor.ts:363-391 | From every reachable state with the worker idle: a revoke job whose calls answer ends completed with the row revoked, every peer of the slot gone and no other |
| KeyHandlers.ProvisionRuns | apps/worker/src/processor.ts:314-336 | A provision whose calls answer, nothing left over under the label, ends with the key active and one fresh peer recorded |
| KeyHandlers.RotateRuns | apps/worker/src/processor.ts:338-361 | A rotation whose calls answer deletes the recorded peer, else the first under the label if any, and records a fresh one |
| KeyHandlers.SwitchRuns | apps/worker/src/processor.ts:392-406 | A disable or enable whose calls answer leaves the key in the state it asked for and every peer where it was |
| KeyHandlers.NothingToDo | apps/worker/src/processor.ts:303-318 | A job whose key is gone, and a provision or rotation of a key that is not provisioning, completes and changes nothing |
| KeyHandlers.RevokeCarriedOut | apps/worker/src/processor.ts:363-391 | A revoke request in any state but revoked, with calls that answer, ends revoked without a peer |
| KeyHandlers.CreationCarriedOut | apps/worker/src/processor.ts:314-336 | A new key, with calls that answer, ends active with exactly one peer under its label |
| KeyHandlers.RotationCarriedOut | apps/worker/src/processor.ts:338-361 | A rotation request for a key with its peer in place ends active with that peer replaced |
| KeyHandlers.SwitchCarriedOut | apps/worker/src/processor.ts:392-406 | A disable request ends disabled and an enable request active, peers untouched |
| KeyHandlers.CompletesOnlyDone | apps/worker/src/processor.ts:297-408 | In every history a revoke, disable or enable job completes only in a step that leaves its row in the state it asked for, or finds the row gone |
| KeyHandlers.GivesUpOnlyAfterTen | apps/worker/src/runner.ts:22-38 | In every history no job is given up before its tenth attempt |
| KeyRecovery.RunKeepsJobs | apps/worker/src/postgresRepository.ts:178-225 | Job ids are used once and the claim in progress matches its job, in every history |
| KeyRecovery.RunKeepsLocked | apps/control-api/src/postgresRepository.ts:1805-1834 | From disabled with no enable job outstanding, no run without an administrator's enable reaches provisioning or active, whatever owners and the worker do |
| KeyRecovery.DisabledReturnsIffEnableOutstanding | apps/worker/src/processor.ts:392-406 | A disabled key can become active without an administrator's enable exactly if an enable job for it is outstanding |
| KeyRecovery.StaleEnableActivates | apps/worker/src/processor.ts:392-406 | The run: an outstanding enable job re-activates any disabled key with a live peer |
| KeyRecovery.RotationSucceedsIff | apps/worker/src/processor.ts:338-361 | A key waiting for its rotation, with the worker between jobs, can become active in some run exactly if its recorded peer is still on the node |
| KeyRecovery.InterruptedRotateNeverRecovers | apps/worker/src/processor.ts:338-361 | Once a rotation has lost the recorded peer, no run makes the key active or disabled again |
| KeyRecovery.RefusedCreateLosesKey | apps/worker/src/processor.ts:338-361 | Every active key gets there when the create call of its rotation is refused |
| KeyRevokes.RevokeRequestOverwritten | apps/worker/src/postgresRepository.ts:942-967 | For every active key: the completion of a disable in flight when a revoke is accepted sets the key back to disabled |
| KeyRevokes.QueuedSwitchOverwrites | apps/worker/src/processor.ts:392-406 | So does a disable or enable that was only queued, once it runs: the key leaves revoking for active or disabled |
| KeyRevokes.RevokingReturnsIff | apps/worker/src/processor.ts:392-406 | With the worker between jobs, some run brings a key being revoked back to active or disabled exactly if its peer is in place and a disable or enable of it is still outstanding |
| KeyRevokes.GivesUp | apps/worker/src/runner.ts:22-38 | A provision or revoke job whose node stays silent is given up after its tenth attempt, which fails a key still in provisioning and changes no other row |
| KeyRevokes.RevokeLostForGood | apps/worker/src/postgresRepository.ts:827-895 | For every active key with its peer in place: a run accepts its revoke and ends with the key disabled, the peer in place, the revoke job given up, no revoke of it left to run and none re-armed |
| KeyRevival.RevivesIff | apps/control-api/src/postgresRepository.ts:139-164 | A step brings a key back into the states the quota counts exactly if it rotates a failed key or completes a disable or enable on a failed or revoking one |
| KeyRevival.RevivingStepExceedsIff | apps/worker/src/postgresRepository.ts:942-967 | Such a step breaks a limit exactly if the key's owner or its node is already at one |
| KeyRevival.LifecycleKeepsWithin | apps/control-api/src/postgresRepository.ts:1335-1481 | Over every history of API transactions, node failures and stops in which the search places each new key and no key is revived, no owner passes a limit and no node its capacity |
| KeyRevival.RotatingFailedExceedsIff | apps/control-api/src/postgresRepository.ts:1836-1855 | From every state within its limits: create a key, let its job give up, create another where the search puts it, rotate the first; a limit is then broken exactly if the owner or the node had one place left |
| ReconcileMatcher.FindPeer | apps/worker/src/processor.ts:189-192 | The search finds the first unclaimed wanted peer |
| ReconcileMatcher.Reconcile | apps/worker/src/processor.ts:173-247 | Both passes and the summary equal the specified matching and counts |
| ReconcileMatcher.Tally | apps/worker/src/processor.ts:226-247 | The counting loop computes the specified summary |
| ReconcileMatcher.FlattenAt | apps/worker/src/processor.ts:175-177 | Entry i of client n stands in the flat list after all entries of earlier clients, under the client's username |
| ReconcileMatcher.FlattenLength | apps/worker/src/processor.ts:175-177 | The flat list is as long as all listed ids together |
| ReconcileMatcher.FlattenMembers | apps/worker/src/processor.ts:175-177 | A peer is in it exactly if a client of that username lists that id |
| ReconcileMatcher.MatchExclusive | apps/worker/src/processor.ts:184-206 | No peer is claimed twice and claimed and free peers together are all peers |
| ReconcileMatcher.MatchMaximal | apps/worker/src/processor.ts:186-206 | A key left without a peer shares neither public key nor label with any unclaimed peer |
| ReconcileMatcher.PublicKeyWins | apps/worker/src/processor.ts:178-185 | A key with a public key of its own always gets the first peer that carries it, whatever the order of the lists and the labels |
| ReconcileMatcher.PublicKeyWinsAmongClients | apps/worker/src/processor.ts:178-198 | On the clients: such a key gets the first listed entry with its public key, whatever stands before it under the same username |
| ReconcileMatcher.ClaimsAreWanted | apps/worker/src/processor.ts:186-206 | A claimed peer carries the key's public key or its label |
| ReconcileMatcher.CountsBalance | apps/worker/src/processor.ts:226-247 | observed = matched + orphan, and managed = matched + missing + (revoking - stranded) |
| ReconcileMatcher.ObservedAreListed | apps/worker/src/processor.ts:226-247 | On the clients: observed is the number of ids they list, and both balances hold |
| ReconcileMatcher.SummaryMeans | apps/worker/src/processor.ts:218-247 | What each field counts: the claimed, missing, orphaned, revoking and stranded keys or peers |
| LastAdmin.RunKeeps | apps/control-api/src/postgresRepository.ts:2886-2948 | In every interleaving row locks are disjoint and what a lock pass gathered stays true until its transaction ends |
| LastAdmin.LosesLastAdminIff | apps/control-api/src/postgresRepository.ts:2886-2948 | A step takes the last active administrator exactly when it commits a transaction that holds no administrator's row and whose target is that administrator |
| LastAdmin.RunKeepsAdmin | apps/control-api/src/postgresRepository.ts:3264-3297 | Once there is an active administrator there is one after every run in which no such transaction commits |
| LastAdmin.NoLateArrivalKeepsAdmin | apps/control-api/src/postgresRepository.ts:2886-2950 | With lock passes waiting and racing as they like there always is one, unless somebody becomes an administrator while a guard that holds no row yet, or a withdrawal, is in flight |
| LastAdmin.AlwaysAnAdmin | apps/control-api/src/postgresRepository.ts:2886-2950 | From rest, a panel with an active administrator keeps one through every interleaving of offboardings, demotions, deletions and the worker's withdrawals, waiting lock passes included, while nobody is added as administrator, promoted or reinstated |
| LastAdmin.PromptPassesKeepAdmin | apps/control-api/src/postgresRepository.ts:2886-2948 | If lock passes do not wait and the worker withdraws nobody, there always is one, promotions and reinstatements included |
| LastAdmin.PromptAlwaysAnAdmin | apps/control-api/src/postgresRepository.ts:3264-3297 | From rest, a panel with an active administrator has one after every such run |
| LastAdmin.RaceTakesAll | apps/control-api/src/postgresRepository.ts:2887-2950 | The whole race from rest, in every panel with one active administrator and two other active members, ends with no active administrator |
| LastAdmin.UnprotectedCanTakeAll | apps/worker/src/postgresRepository.ts:490-609 | From every state with such a transaction past its checks, a run of legitimate transactions and its commit leaves no active administrator |
| LastAdmin.StaleSnapshotComesBackEmpty | apps/control-api/src/postgresRepository.ts:2891-2895 | A lock pass does come back empty when each row of its snapshot stops being an active administrator first |
| LastAdmin.UndisturbedRun | apps/control-api/src/postgresRepository.ts:3264-3297 | A transaction whose checks pass takes its whole effect when nobody holds a row |
| LastAdmin.RequestOutcome | apps/control-api/src/postgresRepository.ts:2886-2950 | On role and status: whom each request refuses when it runs undisturbed, what it leaves of its target, and that it touches nobody else |
| LastAdmin.RowByRow | apps/control-api/src/postgresRepository.ts:2891-2895 | While nobody holds a row, a pass that visits its rows one at a time gathers what one taken at once does |
| LastAdmin.OtherEvents | apps/control-api/src/postgresRepository.ts:2886-2950 | A new user is active in its role, an existing one untouched; starting, abandoning or losing a transaction changes no user |
| LastAdmin.OffboardRefusalIsExact | apps/control-api/src/postgresRepository.ts:2921-2935 | Offboarding somebody else is refused as the last administrator exactly when it would leave no active one |
| LastAdmin.DemotionRefusedIff | apps/control-api/src/postgresRepository.ts:3270-3290 | Demotion is refused exactly when it would leave no active administrator or the target is a disabled administrator and one active one remains |
| NodePick.PickNode | apps/control-api/src/postgresRepository.ts:1370-1481 | Filtering, ordering and searching the candidates gives the specified choice |
| NodePick.Search | apps/control-api/src/postgresRepository.ts:1395-1481 | The search loop with its four blocked flags computes the first passing row or the error |
| NodePick.PickIsFirstEligible | apps/control-api/src/postgresRepository.ts:1386-1460 | A node is chosen exactly when some node passes every constraint, each on the fields of node, policy and keys, and it is the first such in the admin's order |
| NodePick.ChosenBelowLimit | apps/control-api/src/nodeQuota.ts:25-69 | On the policy's fields: the owner's counted keys are below the node's entry, without one below the flat limit, without that below the default; in global mode all of the owner's keys are below the latter two |
| NodePick.EntriesDormant | apps/control-api/src/nodeQuota.ts:32-39 | In global mode the per-node entries make no difference to the choice |
| NodePick.HasRoomIff | apps/control-api/src/nodeQuota.ts:25-69 | The quota check on the policy's fields, 0 being a limit like any other |
| NodePick.UsageCounts | apps/control-api/src/postgresRepository.ts:139-139 | The usage of an owner or a node is the number of keys that are provisioning, active or disabled |
| NodePick.RefusalReason | apps/control-api/src/postgresRepository.ts:1461-1481 | The error names the strongest obstacle any candidate met: quota, then capacity, then protocol, then availability, else no candidate at all |
| NodePick.CreateKeepsWithin | apps/control-api/src/nodeQuota.ts:25-69 | A creation never takes its owner past the node's entry, flat limit or default that applies, nor a node past its capacity |
| NodePick.RunKeepsWithin | apps/control-api/src/nodeQuota.ts:25-69 | Nor does any history of creations, state changes and removals in which no uncounted key is revived |
| NodePick.EventMeans | apps/control-api/src/postgresRepository.ts:1335-1525 | What a creation, a change of state and a removal do to the keys, and to nothing else |
| NodePick.RunStep | apps/control-api/src/postgresRepository.ts:1335-1525 | A history is one such event after another |
| NodePick.RevivalExceedsIff | apps/control-api/src/postgresRepository.ts:1836-1855 | Reviving a key, as rotating a failed one does, breaks a limit exactly when its owner or node is at one |
| NodeOrder.OrderNodesForUsers | apps/control-api/src/nodeOrder.ts:43-60 | The position map holds each listed id's first position, and the result is the specified sort |
| NodeOrder.SortInOrder | apps/control-api/src/nodeOrder.ts:54-59 | The sort puts any rows with distinct ids in order: position, then shown name, then id |
| NodeOrder.UsersOrderIs | apps/control-api/src/nodeOrder.ts:26-60 | The same rows; placed before unplaced, of two placed the one named first, of two unplaced the smaller shown name and then the smaller id |
| NodeOrder.InOrderIsUnique | apps/control-api/src/nodeOrder.ts:26-36 | Only one arrangement of given rows is in order |
| NodeOrder.InputOrderIrrelevant | apps/control-api/src/nodeOrder.ts:26-36 | The result does not depend on the order rows arrive in |
| NodeOrder.MaterializeNodeOrder | apps/web/lib/node-order.ts:32-51 | The editor's loop and sort compute the specified preview |
| NodeOrder.PreviewIsComplete | apps/web/lib/node-order.ts:27-31 | The preview holds every current node exactly once, whatever the stored order holds |
| NodeOrder.PreviewOrderIs | apps/web/lib/node-order.ts:27-51 | The preview by place, then by the internal name, then by id |
| NodeOrder.PreviewMatchesIff | apps/web/lib/node-order.ts:5-9 | Preview and users' order agree exactly when internal and shown names sort the unpositioned rows alike |
| NodeOrder.PlainNamesMatch | apps/web/lib/node-order.ts:5-9 | Without public names among the unpositioned rows they always agree |
| NodeOrder.PublicNameParts | apps/web/lib/node-order.ts:45-49 | With public names they can differ: two rows for any ids and names in this pattern |
| NodeLists.DedupeKeepsFirsts | apps/control-api/src/policyNodeLists.ts:16-19 | Every id stays once, in the order of first occurrences |
| NodeLists.CheckRecommendedPrefix | apps/control-api/src/policyNodeLists.ts:39-75 | The loop that shrinks the wanted set computes the specified verdict |
| NodeLists.AcceptedIff | apps/control-api/src/policyNodeLists.ts:33-53 | Accepted exactly when the recommended ids are the top of the order as a set, with that top as canonical form |
| NodeLists.RefusalNamesTopmost | apps/control-api/src/policyNodeLists.ts:54-75 | A refusal names the misplaced server nearest the top, or else the first listed one without a place |
| NodeLists.UpdateStoresOrRefuses | apps/control-api/src/postgresRepository.ts:3535-3573 | An update of known nodes stores exactly what was asked when the effective lists obey the rule and changes nothing otherwise; a reorder alone never changes who is recommended |
| NodeLists.WithoutKeepsPrefix | apps/control-api/src/postgresRepository.ts:1203-1222 | Scrubbing an id from both lists keeps one a prefix of the other |
| NodeLists.NodeEvents | apps/control-api/src/postgresRepository.ts:1203-1222 | Deleting a node takes its id, and nothing else, out of the nodes and of both lists; adding one leaves the lists alone |
| NodeLists.RunStep | apps/control-api/src/policyNodeLists.ts:1-15 | A history is one update, addition or deletion after another |
| NodeLists.RunKeepsPrefix | apps/control-api/src/policyNodeLists.ts:1-15 | In every run of updates and node deletions the stored recommended list is exactly a prefix of the stored order, which names existing nodes once each |
| NodeLists.PolicyRow.Save | apps/control-api/src/postgresRepository.ts:3535-3573 | The update method leaves the row the specification gives |
| NodeLists.PolicyRow.Scrub | apps/control-api/src/postgresRepository.ts:1203-1222 | The scrub of a deleted node leaves both lists without it and otherwise as they were |
| NodeEditor.MoveNodeToIndex | apps/web/lib/node-order.ts:77-90 | The splices compute the specified move |
| NodeEditor.MoveExact | apps/web/lib/node-order.ts:71-90 | The moved id lands at the clamped target and the others keep their sequence |
| NodeEditor.MoveNodeInOrder | apps/web/lib/node-order.ts:54-69 | A button press is a drag by one, and nothing at the edges |
| NodeEditor.RecommendedCountFromIds | apps/web/lib/node-order.ts:98-108 | The loop counts the longest top whose ids are all recommended |
| NodeEditor.StoredCountReadsBack | apps/web/lib/node-order.ts:92-97 | For stored lists that count gives the recommended list back |
| NodeEditor.RecommendExact | apps/web/lib/node-order.ts:128-145 | Ticking emits a permutation and a prefix and recommends that server only, the others keeping recommendation and sequence |
| NodeEditor.UnrecommendExact | apps/web/lib/node-order.ts:147-162 | Unticking withdraws the recommendation of that server only |
| NodeEditor.UntickAfterTick | apps/web/lib/node-order.ts:128-162 | Unticking right after ticking restores the recommended list, and the order exactly when the tick moved nothing |
| NodeEditor.TickAfterUntick | apps/web/lib/node-order.ts:128-162 | Ticking right after unticking restores the recommended set, and the list exactly for the last recommended server |
| NodeEditor.OpensOnEveryServer | apps/web/lib/node-order.ts:27-51 | The editor opens on a permutation of the servers |
| NodeEditor.FullOrderIsShown | apps/web/lib/node-order.ts:5-9 | A full order is shown as it is, so each gesture starts from what the last one emitted |
| NodeEditor.GestureMeans | apps/web/lib/node-order.ts:54-162 | A drag or a step moves one server and keeps as many recommended, nothing moves at the edges, and ticks work on the number recommended |
| NodeEditor.SettleMeans | apps/web/lib/node-order.ts:110-126 | An emitted order carries its top as the recommended list |
| NodeEditor.SessionStep | apps/web/lib/node-order.ts:5-9 | A session is one gesture after another, each starting from what the last emitted |
| NodeEditor.SessionIsStored | apps/web/lib/node-order.ts:77-162 | After any sequence of drags, steps, ticks and unticks the API stores exactly what the editor sends |
| Base64Url.Base64UrlRoundTrip | apps/control-api/src/qrFrames.ts:68-73 | Encoding reads back, in URL-safe characters and without padding (section 5 of RFC 4648) |
| Base64Url.StandardCharactersSame | apps/control-api/src/qrFrames.ts:76-80 | Putting the standard characters back does not change what is decoded |
| Base64Url.ThreeBytes | apps/control-api/src/qrFrames.ts:68-73 | Three bytes become four characters of the URL-safe alphabet, six bits each from the highest |
| Base64Url.EndBytes | apps/control-api/src/qrFrames.ts:68-73 | One or two bytes at the end become two or three characters, the missing bits zero |
| Base64Url.DecoderAlphabet | apps/control-api/src/qrFrames.ts:76-80 | The decoder takes both alphabets, each character at its value, and skips everything else |
| QrFrames.EncodesIff | apps/control-api/src/vpnConfig.ts:77-98 | A payload gets a link unless its length passes four bytes |
| QrFrames.DecoderAnswers | apps/control-api/src/vpnConfig.ts:77-98 | The decoder's answer to every text: the payload exactly if scheme, length, compression and announced length are right, and which refusal otherwise |
| QrFrames.LinkRoundTrip | apps/control-api/src/vpnConfig.ts:77-98 | A link decodes to the payload it was made from, for any inverse pair of compressors |
| QrFrames.LinkBytesReadBack | apps/control-api/src/qrFrames.ts:76-85 | The bytes framed for a link are the length and the compressed payload the link encodes |
| QrFrames.PastedLinkReads | apps/control-api/src/qrFrames.ts:76-85 | Blanks around a link, the case of its scheme and the scheme itself make no difference to its bytes |
| QrFrames.HasSchemeIff | apps/control-api/src/qrFrames.ts:76-80 | The scheme is recognised in any letter case and in no other spelling |
| QrFrames.NoBytesIff | apps/control-api/src/qrFrames.ts:76-85 | A link carries no bytes exactly if fewer than two base64 characters are left of it |
| QrFrames.FrameLayout | apps/control-api/src/qrFrames.ts:88-99 | A frame byte by byte: 07 C0, count, index, the length with its highest byte first, the chunk |
| QrFrames.SerializeQrFrame | apps/control-api/src/qrFrames.ts:88-99 | The header written field by field and the chunk are the specified frame |
| QrFrames.ChunksCount | apps/control-api/src/qrFrames.ts:113-113 | The rounded-up quotient is the number of chunks |
| QrFrames.ChunksJoin | apps/control-api/src/qrFrames.ts:119-121 | The chunks joined are the data |
| QrFrames.BuildQrFrameTexts | apps/control-api/src/qrFrames.ts:107-125 | The method returns the specified frames, or none for each error |
| QrFrames.FramesIff | apps/control-api/src/qrFrames.ts:107-125 | A link gets frames exactly if it carries bytes, the chunk size is positive, 255 chunks are enough and no chunk passes four length bytes |
| QrFrames.LinkGetsFrames | apps/control-api/src/qrFrames.ts:107-125 | A link made from a payload gets frames at every chunk size that is large enough |
| QrFrames.FrameChunks | apps/control-api/src/qrFrames.ts:118-124 | The offset loop writes frame i for chunk i |
| QrFrames.FrameScansBack | apps/control-api/src/qrFrames.ts:42-50 | A frame reads back as its count, index and chunk |
| QrFrames.FramesAreIndexed | apps/control-api/src/qrFrames.ts:107-125 | There are 1 to 255 frames, frame i carries index i and the count |
| QrFrames.FramesReassembleIff | apps/control-api/src/qrFrames.ts:107-125 | Frames arriving in any order and any number of times give back the link's bytes exactly when every frame has arrived |
| QrFrames.ScannedLinkCarriesPayload | apps/control-api/src/qrFrames.ts:42-50 | From payload to payload through the codes, in any order of arrival |
| Lanes.RunKeeps | apps/worker/src/concurrency.ts:15-36 | Under every schedule a claimed index is held by exactly one lane or has the result of its own item |
| Lanes.ClaimsAndCalls | apps/worker/src/concurrency.ts:15-36 | Each index is claimed at most once, in order; never more calls in flight than the limit (one if it is below one) nor than items |
| Lanes.InFlightIs | apps/worker/src/concurrency.ts:20-35 | The calls in flight are the lanes between claim and result |
| Lanes.StoppedIsComplete | apps/worker/src/concurrency.ts:20-35 | Once every lane has stopped and one ran out of work, every index was claimed and holds its result, but for failed calls |
| Lanes.AllFailedLeavesRest | apps/worker/src/concurrency.ts:11-14 | If every lane failed nothing more happens: unclaimed items are never tried |
| Lanes.MoveMakesProgress | apps/worker/src/concurrency.ts:26-30 | A lane that has not stopped can always move, and each move uses up work |
| Lanes.SchedulesEnd | apps/worker/src/concurrency.ts:15-36 | No schedule is longer than three moves per item and one per lane |
| Lanes.LanePool.Advance | apps/worker/src/concurrency.ts:26-30 | One lane's turn on the shared counter and results leaves the state of the specification |

## Left out

- AddressText.IsV6: zone ids (`fe80::1%eth0`), which the runtime's `isIP` accepts, are not addresses of the model.
- AddressText.NumberOf: of the texts `Number()` accepts after the slash, only the empty text and runs of decimal digits are read; signs, spaces, exponents and other radixes count as unparsed.
- CidrSubtraction.Share: the share is kept as a whole number of ten-thousandths; the final floating-point division is not modelled.
- NodePick.PickNode: the checks before the search (account status, creation allowed, route profile) and the insert's other columns; the serializable transaction is one atomic step.
- KeyLifecycle: the protocol is a state machine over values rather than methods on objects, because its steps interleave; the order of claims is free (any claimable job may be claimed next), and leases, back-off times and the peer's enabled flag are not modelled.
- A node call that looks failed and takes effect only later: in the model a lost call takes effect at once or never.
- `deleteNode` with `deleteKeys`, which abandons the node's peers on purpose; only its list scrubbing is modelled.
- Account deletion (`LastAdmin`): its further refusal while the account holds a live key.
- E-mail and domain normalisation: both count as already normalised and not empty. Log lines and audit wording are left out; the audit row of an aborted run is kept.
- The Access client's requests: fetching and writing the policy are one step each, and a failed one is a run that stops there.
- The collator: names are represented by their place in its order, ids by their place in code-unit order.
- Deflate, inflate and JSON: an arbitrary inverse pair over bytes.
- What the runtime's base64 decoder does with characters outside both alphabets, beyond skipping them, and white space other than space, tab, line feed and carriage return around a link.
- QR rendering, HTTP routing, pages, CLI, authentication, encryption of secrets, telemetry, rule feeds, maintenance roll-ups: no deep property.
- The older one-way reconciler (`createAccessReconciler`) and write-back: simpler relatives of the two-way sync.
