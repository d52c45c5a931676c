# WireScope, modelled and verified in Dafny

WireScope is a network-audit appliance. Most of it talks to devices, a database and a browser; this
project models the parts that decide something and proves what they promise.

- **Authorized scope** (`Networks`, `Scope`, `Expansion`, `Proposals`, `Routes`): prefixes as aligned
  blocks of addresses, the one-pass removal of covered prefixes, acceptance against the profile limits,
  expansion of typed network identifiers, scope proposals, representative hosts and route resolution,
  up to the discovery request that puts them together.
- **Findings** (`Drafts`, `Findings`): the keyed merge of drafts, and the store with its status trail.
- **Authentication over time** (`Throttle`, `Sessions`): the pruned sliding window against the full history,
  and the session table against the list of everything that ever happened.
- **Durable state** (`Jobs`, `AuditStatuses`, `JobRows`, `Evidence`, `CrashSafety`, `Retention`,
  `RetentionRules`): audits, jobs, artifacts and files. Each database transaction is one atomic step; file
  operations are separate steps that may fail or never come.
- **Transforms** (`Insights`, `DiffEntries`, `Splitting`, `Interfaces`, `Like`, `Topology`, `VlanFocus`): the audit
  comparison, stanza removal in an interfaces file, LIKE escaping and two graph filters.

`Ordering`, `Lists`, `Tables` and `Outcomes` hold what the others share. Code that updates rows or
dictionaries in place is a class; loops are methods proved against a specification function, and the
properties are lemmas about that function, so that they hold for the loop as well. Members whose names end in
`Means`, `Rows`, `Entries`, `Member` or `Iff` say what such a function computes in terms of the data alone,
without its helpers. Clocks, tokens, fresh ids, route lookups and the outcome of an `unlink` are parameters.

Two promises do not hold of the code as it stands. Each has its exact condition and an input:

- A row that retention cleanup is about to remove loses its file before its row (`Retention.CleanupWindow`,
  `Retention.UnlinkedRowsUnbacked`): a crash in between, or a file that cannot be unlinked, leaves rows without
  files exactly when something had been unlinked. `Retention.CleanupWindowOpens` is such a run, for every artifact
  without a job that falls due; `CrashSafety.EveryRowHasItsFile` says for every run that the rows without a file
  are exactly those whose file cleanup has removed.
- Failing an audit by hand while it has a queued or running job can stop the worker. The handler that creates
  audits commits the audit before it writes the snapshot whose failure makes it call `fail_audit`, so another
  request can queue a job in between. `Jobs.StuckRunBlocks` is such a run of four steps: the job is claimed, and
  then neither completing it nor recovery after a restart is accepted. `Jobs.WorkerRefusedIff` says for every run
  exactly when ending a job and recovery are refused, `Jobs.FailAuditKeeps` exactly when failing an audit by hand
  is harmless.

Three more results say where order or origin matters: the single scan of the VLAN focus
(`VlanFocus.ScanDependsOnOrder`), the rationale of merged drafts (`Drafts.MergeAssociative`), and the label of an
asset in the audit comparison, which is the name reported by the least source (`Insights.LabelDependsOnSources`;
`Insights.DiffInvariantIffLabels` is the exact condition for every base). The order in which an asset's names and
addresses are stored does not matter, because the inventory sorts them (`Insights.DiffInvariant`).

Verify with `dafny verify dfyconfig.toml`.

## Model

| member | source | states |
|---|---|---|
| Networks.NestOrDisjoint | engine/scope.py:192-196 | Two aligned prefixes of one family either nest or share no address. |
| Networks.SubnetIsSubset | engine/scope.py:192-196 | The interval test of `subnet_of` is inclusion of the address sets, in both directions. |
| Networks.CoveredByEarlierIffNotMaximal | engine/scope.py:191-198 | In the sorted order, a network is covered by one already kept if and only if it is not a maximal network of the whole input. |
| Networks.RemoveDuplicatesAndCovered | engine/scope.py:179-199 | The single sorted pass, comparing only with what it kept, computes the maximal input networks in order. |
| Networks.ReducedCorrect | engine/scope.py:179-199 | The result is exactly the maximal input networks, ascending, pairwise disjoint, covering the same addresses, no longer than the input. |
| Networks.ReducedOrder | engine/scope.py:182-189 | The result lists IPv4 before IPv6 and goes up by address within a family. |
| Networks.ReducedOrderIndependent | engine/scope.py:182-199 | The result depends only on the set of input networks, not on their order or repetition. |
| Networks.ReducedIdempotent | engine/scope.py:179-199 | Reducing twice is reducing once. |
| Networks.DisjointCount | engine/scope.py:81-89 | For pairwise disjoint networks the summed sizes are the number of distinct addresses. |
| Networks.ReducedCount | engine/scope.py:79-89 | The summed sizes after reduction are the number of distinct addresses of the original input. |
| Networks.AddressSpaces | engine/scope.py:81-89 | There are 2^32 IPv4 and 2^128 IPv6 addresses. |
| Networks.PrefixHalves | engine/scope.py:81-89 | Every bit of prefix halves the addresses of a network. |
| Scope.MaskLow | engine/scope.py:423 | Clearing the host bits gives the aligned base of the one block that contains the address. |
| Scope.DisplayRoundTrip | engine/scope.py:152-207 | The displayed form of any network parses back to that network, or is refused exactly when the network is prohibited. |
| Scope.ParseTargetMeans | engine/scope.py:152-176 | An expression parses to exactly the network it writes out, is prohibited if that network is, and is invalid if it writes out none. |
| Scope.ProhibitedMeans | engine/scope.py:171 | Prohibited are the whole space of a family, the unspecified address and multicast. |
| Scope.MulticastMeans | engine/scope.py:171 | Multicast is a first octet from 224 to 239, or eight leading one bits in IPv6, for every address of the network. |
| Scope.LoopbackOrLinkLocalMeans | engine/scope.py:389 | Loopback is 127/8 and ::1; link-local is 169.254/16 and fe80::/10; all addresses of the network must lie there. |
| Scope.AssignedMeans | engine/scope.py:417-440 | An interface address stands for the one network of its prefix length that contains it, unless that is prohibited. |
| Scope.Collect | engine/scope.py:76-78 | Parsing a list succeeds with one network per expression, or reports the error of an expression in it. |
| Scope.CollectErr | engine/scope.py:76-78 | The error reported is that of the first expression that does not parse. |
| Scope.ParseTargets | engine/scope.py:76-78 | The parsing loop stops with the error of the first expression that does not parse, or returns the networks in order. |
| Scope.Validate | engine/scope.py:60-139 | The method, with its parsing loop and limits, computes the decision that the lemmas below speak about. |
| Scope.AcceptedIffFewAddresses | engine/scope.py:60-139 | Given 1 to 256 parsable expressions: accepted if and only if large scopes are allowed or the distinct IPv4 and IPv6 addresses are each within their limits, IPv6 under the smaller of the two; otherwise the refusal is the limit error. |
| Scope.LimitsMean | engine/scope.py:90-115 | With large scopes disallowed, an admissible list is accepted if and only if its distinct IPv4 addresses are within the limit of the profile, and its distinct IPv6 addresses within that limit and the IPv6 limit. |
| Scope.NotAdmissible | engine/scope.py:65-78 | An empty list, more than 256 expressions and the first bad expression are refused with their own codes. |
| Scope.ReportedCount | engine/scope.py:81-89 | The reported address count is the number of distinct IPv4 plus distinct IPv6 addresses. |
| Scope.TargetsMean | engine/scope.py:117-139 | The targets of an accepted scope are its maximal networks in order, each with display, family, whether it is a single address, and how many addresses it has. |
| Scope.AcceptanceDownwardClosed | engine/scope.py:60-139 | Any admissible expression list that denotes no more addresses than an accepted one is accepted, under the same profile or one with at least its limit. |
| Scope.DecisionDependsOnAddresses | engine/scope.py:60-139 | Lists that denote the same addresses get the same decision and the same count. |
| Scope.CanonicalParses | engine/scope.py:117-139 | The canonical targets parse back to the reduced networks and denote the same addresses as what was typed. |
| Scope.ValidationIdempotent | engine/scope.py:60-139 | Validating the canonical targets of an accepted scope returns that very scope. |
| Scope.RoutableSubsetAccepted | backend/routers/audits.py:243-245 | Any non-empty list of at most 256 canonical targets of an accepted scope is accepted again. |
| Scope.RoutableSubsetKept | backend/routers/audits.py:243-245 | Validating some of the canonical targets again gives exactly these as the new canonical targets: none absorbs another. |
| Expansion.FirstAt | engine/scope.py:485-492 | Finds a connected prefix whose network address is the typed one, or there is none. |
| Expansion.Expand | engine/scope.py:456-494 | The two loops compute the expansion that the next lemmas speak about. |
| Expansion.ConnectedMember | engine/scope.py:466-471 | The connected prefixes are exactly the networks of the interface addresses that parse. |
| Expansion.ExpandOneMeans | engine/scope.py:480-493 | A bare address that is the network address of a connected prefix becomes the first such prefix; everything else stays as typed. |
| Expansion.ExpandOneAddresses | engine/scope.py:477-493 | Expanding one target loses none of its addresses and adds only connected ones. |
| Expansion.ExpansionAddresses | engine/scope.py:456-494 | For every list: no typed address is lost, and none is added outside the typed targets and the connected prefixes. |
| Expansion.ExpansionIdempotent | engine/scope.py:456-494 | Expanding an expanded list changes nothing. |
| Expansion.ScopeDenotes | engine/scope.py:76-89 | The addresses of a parsed scope are exactly those its expressions denote. |
| Proposals.MostPermissive | engine/scope.py:296-304 | Its limit is the largest of the three profiles. |
| Proposals.ProposalLimitMeans | engine/scope.py:296-304 | A count is within the limit if some profile allows it and, for IPv6, the IPv6 limit does. |
| Proposals.JudgeMeans | engine/scope.py:384-404 | A candidate is eligible if and only if it stands for a permitted network that is neither loopback nor link-local and not too large; each refusal has its own code. |
| Proposals.CandidatesConserved | engine/scope.py:379-414 | Rejected and eligible candidates together are the non-blank ones, each counted once. |
| Proposals.RejectionMember | engine/scope.py:384-404 | A rejection names a non-blank candidate and the code of its verdict, and every such candidate has one. |
| Proposals.ProposedMember | engine/scope.py:405-413 | A proposed network displays the network of an eligible candidate, with its origin, interface and VLAN id, and the address itself only when it is an assigned one. |
| Proposals.EligibleNetworks | engine/scope.py:370-414 | The loop returns the eligible candidates in order and appends exactly the rejections, with their codes, to the caller's list. |
| Proposals.EligibleIsAccepted | engine/scope.py:394-407 | What an eligible candidate displays as is accepted alone under the most permissive profile. |
| Proposals.SoundTargetsAccepted | engine/scope.py:351-367 | Every target of a sound proposal is accepted alone. |
| Proposals.FirstShown | engine/scope.py:344-350 | One network per displayed prefix: all from the input, none repeated, no prefix lost. |
| Proposals.BuildProposal | engine/scope.py:337-367 | The loop with its `seen` set keeps the first network of each displayed prefix, and the targets are their displays. |
| Proposals.VlanIdMeans | engine/scope.py:443-453 | A name with a VLAN id is the parent, a dot and decimal digits of at most 4095, perhaps with an at sign and more. |
| Proposals.VlanChildFound | engine/scope.py:443-453 | Every such name has that id. |
| Proposals.RouteCandidateMember | engine/scope.py:262-280 | The route candidates are the destinations of gateway-less routes on the interface other than the default route. |
| Proposals.ChildrenComplete | engine/scope.py:234-253 | Under each VLAN child stands everything its peers propose, in order, also when a name occurs several times; no child has an empty entry. |
| Proposals.ChildrenOrder | engine/scope.py:252-255 | The first key of the dictionary is the first peer that contributes; the dictionary is empty only if none does. |
| Proposals.VlanStage | engine/scope.py:233-255 | The loop builds that dictionary and reports all rejections of all VLAN children. |
| Proposals.RouteStage | engine/scope.py:262-280 | Yields the eligible destinations of gateway-less routes on the interface and reports the rejections. |
| Proposals.Propose | engine/scope.py:209-294 | The first stage with an eligible candidate decides source and interface; the networks are that stage's, one per prefix, all on the proposal's interface and acceptable alone; every candidate looked at is reported as rejected exactly when it is not eligible. |
| Routes.HasHost | engine/routes.py:258-263 | Every prefix has a usable host, so the last fallback is never reached. |
| Routes.HostsMean | engine/routes.py:258-263 | Hosts are all addresses of a network of one or two; of a larger one all but the first, and in IPv4 all but the last. |
| Routes.OwnsMeans | engine/routes.py:250-257 | The addresses to avoid are those of the interface in the family of the target that parse, with or without a prefix length. |
| Routes.RepresentativeOf | engine/routes.py:244-263 | The representative is a host of the target network. |
| Routes.RepresentativeMeans | engine/routes.py:244-263 | The representative is the least host the interface does not own, or the least host if it owns them all. |
| Routes.RepresentativeAddress | engine/routes.py:244-263 | The search ends after at most one candidate more than the interface has addresses, however large the prefix. |
| Routes.RepresentativeAvoidsOwn | engine/routes.py:248-260 | The representative is not one of the interface's own addresses if and only if some host of the target is not. |
| Routes.CheckRoute | engine/routes.py:122-218 | A resolved route carries the target, its representative, family and interface; the next two rows say when there is one. |
| Routes.CheckRouteMeans | engine/routes.py:164-218 | A lookup answer is accepted if and only if it goes through the interface, or is local and for an address on its networks, and gives a source that parses in the family of the target, or needs none; source, gateway and direct connection are what the answer says. |
| Routes.CheckRouteRefusals | engine/routes.py:149-201 | Which refusal belongs to which defect of the answer. |
| Routes.Resolve | engine/routes.py:65-120 | The loop computes the routes and the decision that the next lemma speaks about. |
| Routes.ResolvedCorrect | engine/routes.py:65-120 | Fails if and only if no target of a family the interface has an address in passes its checks; otherwise the routes are those of exactly the targets that pass. |
| Routes.ResolvedThroughInterface | engine/routes.py:90-120 | Every route of a resolution rests on such an answer for the representative of its target. |
| Routes.SiftInOrder | engine/routes.py:92-98 | The routes come from a subsequence of the targets, in order. |
| Routes.RevalidationSucceeds | backend/routers/audits.py:241-245 | The routable targets of an accepted scope are among its canonical targets, are accepted again, and come back unchanged. |
| Routes.AcceptedWithinTyped | backend/routers/audits.py:236-241 | A scope accepted after expansion holds every typed address, and none outside the typed targets and the prefixes of the interface. |
| Routes.AdmitDiscovery | backend/routers/audits.py:236-245 | A whole discovery request: one whose scope was accepted and resolved is never refused by the second validation; the confirmed scope names exactly the routable targets, holds no address outside what was typed and the prefixes of the interface, and keeps the limit of each family unless large scopes are allowed. |
| Drafts.AppendMissing | findings/engine.py:49-56 | The loop appends the ids not yet there, in order. |
| Drafts.MergeDrafts | findings/engine.py:48-81 | The method computes the merge that the laws below are about. |
| Drafts.MergedIsFold | findings/engine.py:26-34 | Each dictionary entry is the left fold of the merge over the drafts with its key, in arrival order. |
| Drafts.Deduplicate | findings/engine.py:26-45 | Returns exactly the merged drafts, one per key, strictly sorted by severity rank, rule id and dedupe key. |
| Drafts.SortByKey | findings/engine.py:35-45 | The sort lists every dictionary value once in strict order. |
| Drafts.ListUnique | findings/engine.py:35-45 | A dictionary has only one such list. |
| Drafts.DeduplicationIdempotent | findings/engine.py:26-45 | Deduplicating a deduplicated list gives it back, data and rationale included. |
| Drafts.BatchingLaw | findings/engine.py:26-45 | Deduplicating `a ++ b` equals deduplicating `dedup(a) ++ b`, data and rationale included. |
| Drafts.FoldBest | findings/engine.py:60-69 | The merged severity and confidence are the best of all drafts of the key, and occur in one. |
| Drafts.FoldBestByName | findings/engine.py:60-69 | The merged draft is as severe as the most severe of its key, critical first and info last, and as sure as the surest, confirmed first and unknown last. |
| Drafts.ListingByName | findings/engine.py:35-45 | The list goes from critical to info, and within a severity by rule id and dedupe key. |
| Drafts.FoldObservations | findings/engine.py:49-52 | The merged observation ids are exactly those of all drafts of the key. |
| Drafts.FoldEvidence | findings/engine.py:53-56 | The merged evidence ids are exactly those of all drafts of the key. |
| Drafts.FoldDatum | findings/engine.py:57-59 | Each data entry of a merged draft is that of the last draft that has it. |
| Drafts.FoldOrigin | findings/engine.py:57-59 | No data entry comes from elsewhere, and the remaining fields are those of the first draft. |
| Drafts.MergedCount | findings/engine.py:58-59 | Once there are observations, the number of distinct ones is recorded in the data. |
| Drafts.MergedRationale | findings/engine.py:77-79 | Rationales are joined by a space unless they are the same. |
| Drafts.OrderIndependent | findings/engine.py:26-81 | The same drafts in any order and multiplicity give the same keys, best severity and confidence, and id sets. |
| Drafts.MergeAssociative | findings/engine.py:48-81 | The merge is associative in every field but the rationale, and in the rationale exactly under a stated condition on the three texts. |
| Findings.FindingStore.UpsertDraft | findings/store.py:72-127 | Refreshes the row with the draft's key or appends a new open one; touches no event. |
| Findings.FindingStore.UpsertEvaluation | findings/store.py:62-128 | Upserts the drafts in order and returns the row of each as stored. |
| Findings.FindingStore.SetStatus | findings/store.py:200-236 | An allowed change updates that row and appends one event; every refusal changes nothing. |
| Findings.AllowedMeans | findings/store.py:34-47 | A finding may change to every status but its own. |
| Findings.ChangeStatusRows | findings/store.py:200-236 | A change is accepted for a finding of the audit with another status; the row then has the requested status and the event says from which to which, by whom and why; each refusal has its cause. |
| Findings.UpsertRows | findings/store.py:72-127 | A draft replaces content and sighting times of the row with its rule and dedupe key and nothing else, or opens one new row. |
| Findings.StoredMeans | findings/store.py:72-81 | Stored are the first 64 observations and pieces of evidence, the bounded data, and the rest as it is. |
| Findings.UpsertAllKeeps | findings/store.py:62-128 | An evaluation keeps keys and ids unique, keeps id, status and first sighting of every row in place, and opens only new rows. |
| Findings.EvaluateKeeps | findings/store.py:62-128 | An evaluation keeps the whole invariant and extends the earlier store. |
| Findings.ChangeStatusKeeps | findings/store.py:200-236 | A status change keeps the invariant: the trail of that finding grows by one allowed transition, all others stay. |
| Findings.StepKeeps | findings/store.py:62-236 | Each operation, refused or not, keeps the invariant and drops no row or event. |
| Findings.RunKeeps | findings/store.py:34-236 | Over every interleaving: one finding per audit, rule and key; each finding's events are an unbroken chain of allowed transitions from open to its status; nothing is dropped. |
| Findings.UpsertCarries | findings/store.py:71-127 | After an evaluation the last draft of each key stands in a row of that key. |
| Findings.StoringIdempotent | findings/store.py:62-128 | Storing the same deduplicated evaluation again changes sighting times only. |
| Throttle.PruneThenPrune | auth/service.py:45-55 | Pruning earlier loses nothing that a later moment still counts. |
| Throttle.RecentCount | auth/service.py:45-59 | What pruning leaves is counted by the stamps less than a window old. |
| Throttle.PrunedTableFaithful | auth/service.py:45-68 | Over every run with a non-decreasing clock, the pruned table and the full history since the last clear agree on the failures inside the window. |
| Throttle.AttemptThrottle.Prune | auth/service.py:45-55 | Returns the failures inside the window and stores them, or drops the key. |
| Throttle.AttemptThrottle.Blocked | auth/service.py:57-59 | Blocked if and only if the full history holds that many failures inside the window. |
| Throttle.AttemptThrottle.RecordFailure | auth/service.py:61-65 | Adds one failure to the history and keeps the table faithful to it. |
| Throttle.AttemptThrottle.Forgive | auth/service.py:67-68 | Clears the history of the key and keeps the table faithful to it. |
| Throttle.UnblockedSpacing | auth/service.py:57-65 | A failure recorded while not blocked comes a full window after the one `max_failures` before it. |
| Throttle.FailuresAreSpaced | auth/service.py:205-239 | In every sequence of password-change attempts, each failure is at least a window later than the one `max_failures` before it, unless a success cleared the key. |
| Sessions.AuthService.SetPasswordOf | auth/service.py:170-203 | Fails exactly for a short password, an unknown name or a disabled user, changing nothing; otherwise the row of that name has the new hash, no other row changes, and of the sessions of that user only the kept one is left. |
| Sessions.AuthService.Create | auth/service.py:241-254 | Adds a row that expires after the configured lifetime; fails for an unknown user or a used digest. |
| Sessions.AuthService.Resolve | auth/service.py:256-273 | Answers the user of a live row, deletes an expired one, and answers nobody for a disabled user. |
| Sessions.AuthService.Revoke | auth/service.py:275-282 | Deletes that row only. |
| Sessions.AuthService.Purge | auth/service.py:284-290 | Deletes exactly the expired rows and returns how many. |
| Sessions.AuthService.ChangePassword | auth/service.py:205-239 | The password is changed if and only if the throttle is open, the new password has eight characters, and the row of the name is that user, enabled, and verifies the current password; only that row and the sessions of that user change; a wrong password, and nothing else, records a failure; a success clears them. |
| Sessions.ChangeOutcomeRows | auth/service.py:218-238 | The outcome behind an open throttle, by the row of the name. |
| Sessions.PasswordRows | auth/service.py:170-203 | Setting a password, over the rows. |
| Sessions.ResolveRows | auth/service.py:256-273 | A token answers if and only if its row has not expired and its user is enabled; otherwise the row goes. |
| Sessions.CreateRows | auth/service.py:241-254 | A session is added for an existing user under an unused digest, and lasts as configured. |
| Sessions.RevokeAndPurgeRows | auth/service.py:275-290 | Revoking removes one row; purging exactly the expired ones. |
| Sessions.RowsStand | auth/service.py:170-290 | Every row of a reachable table comes from a login that nothing has ended, with the expiry that login gave it. |
| Sessions.StandingShows | auth/service.py:170-290 | Conversely a login that nothing ended and that has not expired has its row. |
| Sessions.ResolutionByHistory | auth/service.py:256-273 | A token resolves to a user if and only if it was issued to that user less than a lifetime ago, nothing has ended it since, and the user is active. |
| Sessions.PasswordChangeIsFinal | auth/service.py:170-203 | After a password change, no earlier session of the user except the kept one resolves at any later time of any run. |
| Sessions.AgreementLasts | auth/service.py:256-290 | Two tables that agree on live rows answer alike for ever, through the same operations. |
| Sessions.PurgeIsTransparent | auth/service.py:284-290 | Purging changes no later answer for any token, whatever happens afterwards. |
| Jobs.RefreshIff | jobs/service.py:602-655 | Recomputing the audit status is refused exactly for an audit failed by hand none of whose jobs is queued, running or failed any more; otherwise it ends in the derived status. |
| Jobs.MoveKeeps | jobs/service.py:602-686 | Ending a job and refreshing its audit is refused exactly when the audit was failed by hand and no other job holds it; otherwise the invariant is kept. |
| Jobs.RequestCancelKeeps | jobs/service.py:251-282 | Cancelling a job is refused exactly when it is queued and may not end so; otherwise the invariant is kept. |
| JobRows.RequestCancelRows | jobs/service.py:251-282 | A queued job is cancelled, a running one asked to stop, an ended one left alone. |
| Jobs.FinishKeeps | jobs/service.py:358-434 | Completing, failing or cancelling a job that is in a status for it is refused exactly when it may not end so; otherwise the invariant is kept. |
| JobRows.FinishRows | jobs/service.py:358-434 | The job, running or when cancelled also queued, ends with the reported outcome, and no other row of a job or audit changes. |
| JobRows.FinishTraces | jobs/service.py:358-434 | One event records the end, and only a failure leaves the summary of the audit alone. |
| JobRows.FinishAccepts | jobs/service.py:358-434 | Completing and failing are for running jobs, cancelling also for queued ones, and nothing else is refused but what may not end so. |
| Jobs.ClaimKeeps | jobs/service.py:284-330 | A queued job can always be claimed, and the invariant is kept. |
| JobRows.ClaimRows | jobs/service.py:284-330 | Only a queued job is claimed; it is running with one more attempt; a created or completed audit starts running. |
| Jobs.CreateJobKeeps | jobs/service.py:127-181 | Adding a job, which reopens a completed audit, keeps the invariant. |
| JobRows.CreateJobRows | jobs/service.py:127-181 | Failed, cancelled and interrupted audits accept no job; a completed one is reopened; one queued row is added. |
| Jobs.AnalyseKeeps | traffic_analysis/service.py:48-160 | Reopening a finished capture audit for an analysis job, or reusing one, keeps the invariant. |
| JobRows.AnalyseRows | traffic_analysis/service.py:48-160 | Accepted if and only if the capture belongs to the audit, its packets are there, and an analysis can be reused or the audit has ended with nothing waiting. |
| JobRows.AnalyseTraces | traffic_analysis/service.py:74-160 | Reusing changes nothing; otherwise one queued analysis is added and the audit runs again. |
| JobRows.AnalysisRow | traffic_analysis/service.py:126-146 | The row of a new analysis: which capture, packets and version it is for, and that one at a time may read them. |
| JobRows.AnalyseRefusalCodes | traffic_analysis/service.py:48-122 | Which refusal an analysis gets. |
| Jobs.FailAuditKeeps | jobs/service.py:83-95 | Failing an audit by hand keeps every status matching if and only if the audit has no job. |
| Jobs.FailAuditExcuses | jobs/service.py:83-95 | In any case the only audit whose status may no longer match is that one, if it has a job. |
| JobRows.FailAuditRows | jobs/service.py:83-95 | Accepted for created and running audits only; changes that audit alone. |
| Jobs.RecoverKeeps | jobs/service.py:534-566 | Recovery after a restart succeeds if and only if every failed audit with a running job also has a queued or a failed one; it keeps the invariant and leaves no job running. |
| JobRows.RecoverRows | jobs/service.py:534-566 | Exactly the running jobs are interrupted, and only their audits are touched. |
| JobRows.RecoverEvents | jobs/service.py:534-566 | Each of them gets an event. |
| Jobs.RetryAllowedIff | backend/recovery.py:29-69 | A retry succeeds if and only if the source job failed, was interrupted or cancelled, needs no fresh credentials, and no equivalent job is queued or running. |
| JobRows.RetryRows | backend/recovery.py:29-112 | What an accepted retry has seen of the jobs, and what it makes of the audit and the events. |
| JobRows.RetryAccepts | backend/recovery.py:35-69 | Nothing else stands in the way of a retry. |
| JobRows.RetryRefusalCodes | backend/recovery.py:29-59 | A retry is refused as not found or as not allowed, never for the audit. |
| Jobs.RetryKeeps | backend/recovery.py:29-114 | A retry keeps the invariant. |
| Jobs.DeletableIffIdle | backend/audit_deletion.py:57-86 | An audit can be deleted if and only if it has no queued or running job. |
| Jobs.DeleteAuditKeeps | backend/audit_deletion.py:57-86 | Deleting an audit takes its jobs and events with it and keeps the invariant. |
| JobRows.DeleteAuditRows | backend/audit_deletion.py:57-86 | An audit is deleted when none of its jobs waits and it is not running; its jobs and events go and no others. |
| Jobs.StepKeeps | jobs/service.py:52-655 | Every step, refused or not, keeps the invariant, with no exception added but an audit it fails by hand. |
| Jobs.RunKeeps | jobs/service.py:52-655 | After every run each job and event belongs to an existing audit, and each audit status is the one derived from its jobs, except for audits the run failed by hand that still have work pending. |
| AuditStatuses.StatusByJobs | jobs/service.py:602-655 | After every run, for an audit with a job: completed if and only if all its jobs are; cancelled, interrupted and failed by the worst ended job once nothing waits; running or created while something does, except failed if the run failed it by hand. |
| AuditStatuses.RunStamps | jobs/service.py:602-655 | After every run an audit has a finishing time if and only if it is neither created nor running. |
| AuditStatuses.RefreshTraces | jobs/service.py:629-655 | A new status leaves its traces: the first starting time of a running audit, the finishing time of an ended one, the error of a failed or interrupted one. |
| AuditStatuses.HandFailedByStep | jobs/service.py:83-95 | The exceptions are audits that a step of the run failed by hand. |
| JobRows.RefusalCodes | jobs/service.py:52-566 | Which refusal each operation gives: what is missing is not found, everything else is the wrong moment. |
| Jobs.WorkerRefusedIff | jobs/service.py:251-566 | After every run: claiming is never refused; cancelling, finishing and recovery are refused exactly in the stated cases. |
| Jobs.JobNeverStuck | jobs/service.py:251-434 | After every run no job is refused its end unless its audit was failed by hand while it had a job. |
| Jobs.RecoveryNeverRefused | jobs/service.py:534-566 | Recovery is refused only after a run that failed an audit by hand while it had a job. |
| Jobs.StuckRunBlocks | backend/routers/audits.py:51-75 | After creating an audit, queueing a job, failing the audit and claiming the job, recovery is refused and the job can only fail. |
| Jobs.FinishedNeverChange | jobs/state.py:8-27 | No step changes a job that has ended. |
| Jobs.PendingOrigin | jobs/service.py:127-434 | A queued or running job was that before as the same work, unless the step added it. |
| Jobs.OnePendingKept | backend/recovery.py:47-59 | Every step keeps at most one queued or running job per audit and type; a plain creation does unless an equivalent one is pending. |
| Evidence.PlainResolves | backend/capture_deletion.py:50-59 | A path without dot components resolves to itself below the root. |
| Evidence.GoingUpEscapes | backend/capture_deletion.py:50-59 | A path that starts by going up lies below the root only if it comes straight back into it. |
| Evidence.AbsoluteResolves | backend/capture_deletion.py:50-59 | An absolute path resolves to itself. |
| Evidence.DeletePcapAccepts | backend/capture_deletion.py:74-108 | Accepted if and only if the job is a capture, nothing of its audit waits, and all its packet rows lie below the root. |
| Evidence.DeletedSummaryMeans | backend/capture_deletion.py:112-129 | The reference is cleared, the first stamp and actor recorded, every other entry kept; without packets or reference nothing changes. |
| Evidence.PcapDeletionLeavesRest | backend/capture_deletion.py:97-129 | Only the capture's packet rows go; other rows, jobs, events and audits stay; the first deletion stamp is kept; the reference is gone. |
| Evidence.PcapDeletionIdempotent | backend/capture_deletion.py:97-129 | A second deletion, by anyone at any time, changes nothing. |
| Evidence.RemainingCorrect | backend/capture_deletion.py:131-139 | What the file loop leaves is everything but the files of the rows that pass. |
| Evidence.RemoveEach | backend/capture_deletion.py:131-139 | The loop removes those files, counting the removed and the skipped. |
| Evidence.Appliance.RetryJob | backend/recovery.py:29-114 | Applies the retry in one step or changes nothing. |
| Evidence.Appliance.DeleteWholeAudit | backend/audit_deletion.py:49-109 | Rows first; then the audit's files, as far as the file system allows, a listing failure and a directory that stays behind included; the report counts both; a refusal changes nothing. |
| Evidence.Appliance.CommitPcapDeletion | backend/capture_deletion.py:74-129 | The transaction changes rows and summary and no file; any unsafe path refuses it before a row is changed. |
| Evidence.Appliance.DeleteCapturePcap | backend/capture_deletion.py:61-149 | After the transaction the files of exactly those rows go, except the ones that cannot be unlinked, which are counted. |
| CrashSafety.TransactionSound | jobs/service.py:52-655 | Every job transaction keeps every row backed by its file. |
| CrashSafety.RegisterSound | storage/evidence.py:62-118 | Registering an artifact whose file has been written keeps every row backed and paths distinct. |
| CrashSafety.RemoveSomeSound | backend/audit_deletion.py:88-109 | Removing any part of a deleted audit's directory touches no surviving row's file. |
| CrashSafety.AuditDeletionSound | backend/audit_deletion.py:57-86 | The commit of an audit deletion keeps every row backed. |
| CrashSafety.DroppingSound | backend/capture_deletion.py:97-139 | Dropping rows and scheduling only their files for removal keeps every other row backed. |
| CrashSafety.PcapDeletionSound | backend/capture_deletion.py:97-129 | The commit of a packet deletion keeps every row backed, and the files it schedules belong to no row. |
| CrashSafety.ReportDeletionSound | reports/store.py:106-129 | Deleting the artifact rows of a report, with their files to follow, keeps every row backed. |
| CrashSafety.CleanupCommitSound | backend/lifecycle.py:219-225 | Deleting cleaned rows keeps the invariant. |
| CrashSafety.StepSound | backend/capture_deletion.py:97-149 | Every atomic step, a crash and the steps of retention cleanup included, keeps the invariant. |
| CrashSafety.RunSound | backend/audit_deletion.py:49-109 | Every interleaving of such steps keeps it. |
| CrashSafety.EveryRowHasItsFile | backend/audit_deletion.py:49-55 | At every point of every interleaving each job and artifact belongs to an existing audit, and the file of an artifact row is there if and only if retention cleanup has not removed it. |
| CrashSafety.OnlyCleanupLosesFiles | backend/audit_deletion.py:49-55 | In a run without file removal by cleanup, crashes included, every artifact row has its file at every point. |
| CrashSafety.AbortedCleanupLosesFile | backend/lifecycle.py:205-225 | After any run, a cleanup that takes a row, unlinks its file and gets no further leaves the row without its file. |
| CrashSafety.DeletionsSpareWork | backend/audit_deletion.py:57-75 | In every reachable state an audit can be deleted if and only if it has no queued or running work. |
| Retention.CandidatesGrow | backend/lifecycle.py:154-197 | Candidates grow with time and with raw evidence included, and are only temporary, debug or (when asked) raw artifacts. |
| RetentionRules.DueMeans | backend/lifecycle.py:160-189 | The four periods, in seconds, and the classes and types they apply to. |
| RetentionRules.RemovableMember | backend/lifecycle.py:205-225 | Removed are the rows that are due and lie below the root; all others stay. |
| Retention.Snapshot | backend/lifecycle.py:136-152 | The loop computes count, total bytes and the buckets per type. |
| Retention.TallyCorrect | backend/lifecycle.py:143-147 | A bucket exists if and only if its type occurs, and then holds exactly the count and bytes of that type. |
| Retention.BucketsSumToTotals | backend/lifecycle.py:136-152 | The buckets sum to the totals. |
| Retention.CleanEach | backend/lifecycle.py:210-218 | The loop removes the files of the rows below the root up to the first that cannot be unlinked, and says where it stopped. |
| Retention.CompletedRun | backend/lifecycle.py:205-225 | The candidates below the root are exactly the removable rows, and deleting by their ids keeps exactly the others. |
| Retention.LifecycleService.DeleteCandidates | backend/lifecycle.py:199-230 | Removes the candidate rows whose path stays under the root, and their files, and counts both; a file that cannot be unlinked ends the run with the earlier files gone and every row kept. |
| Retention.UnlinkedRowsUnbacked | backend/lifecycle.py:210-225 | After unlinking the files of some rows, every row has its file if and only if there were none. |
| Retention.CleanupWindow | backend/lifecycle.py:205-225 | Between unlinking and commit, every row has its file if and only if there was nothing to remove. |
| Retention.CleanupWindowOpens | backend/lifecycle.py:205-225 | For every artifact without a job that falls due: a run that stores it and then a cleanup cut off after unlinking its file end in the row without the file. |
| Retention.CleanupEndsBacked | backend/lifecycle.py:205-225 | After the commit every remaining row has its file again. |
| Insights.AllPages | backend/insights.py:20-59 | The paging loop returns all rows once, in order, for every page size. |
| DiffEntries.IdentityMeans | backend/insights.py:62-80 | The identity is the MAC, else the least address, else the least lower-case name, else the id. |
| DiffEntries.LabelMeans | backend/insights.py:83-95 | The label is the first name, else the first address, else the MAC or id. |
| DiffEntries.AssetEntries | backend/insights.py:246-255 | An identity is added if and only if the next audit has it and the base has not, and removed the other way round; the label is that of the last asset with it. |
| DiffEntries.ServiceEntries | backend/insights.py:256-265 | A service is added if and only if the next audit has an open one under its key and the base has none, and removed the other way round, with name and product. |
| DiffEntries.FindingEntries | backend/insights.py:266-275 | The same for findings under rule, asset, service and family, with title, severity and status. |
| Insights.SameIdentity | backend/insights.py:62-80 | An asset's identity depends neither on its id nor on the order of its addresses and names. |
| Insights.SameReading | inventory/service.py:1305-1329 | An asset read from its rows, sorted by family and address and by source and name, does not depend on their stored order. |
| Insights.AssetsInvariant | backend/insights.py:158-168 | Renaming ids and reordering lists keeps the set of asset identities. |
| Insights.ServicesInvariant | backend/insights.py:170-230 | It keeps the services with what is shown of each. |
| Insights.FindingsInvariant | backend/insights.py:187-241 | It keeps the findings with what is shown of each. |
| Insights.DiffInvariant | backend/insights.py:158-276 | When every asset has a MAC, an address or a name and every reference leads to an identity, the comparison with any base, either way round, depends neither on internal ids nor on the order in which the names and addresses of an asset are stored. |
| Insights.DiffIgnoresListingOrder | backend/insights.py:158-276 | Without colliding keys the order in which assets, services and findings are listed does not matter either. |
| Insights.DiffInvariantInAnyOrder | backend/insights.py:158-276 | Both at once: other ids, another stored order, and the other listing order that ids decide. |
| Insights.EqualAuditsDoNotDiffer | backend/insights.py:158-276 | Audits that are equal up to ids and list order have an empty comparison. |
| Insights.DiffInvariantIffLabels | backend/insights.py:83-95 | For every base: audits with the same assets up to ids, and names in any listed order, have the same comparison if and only if the assets the base lacks show the same labels. |
| Insights.LabelDependsOnSources | backend/insights.py:83-95 | Exchanging two names between their sources keeps the identity and gives an empty comparison of the two audits, but a different comparison with an empty audit. |
| Splitting.JoinLines | appliance/netctl.py:647-661 | Joining the lines of a text gives the text. |
| Splitting.SplitJoin | appliance/netctl.py:647-661 | Splitting joined lines gives those lines back. |
| Interfaces.SkippingIffInStanza | appliance/netctl.py:645-660 | The loop's flag is set after a line if and only if some header for the interface is at or above it and every line since is a header for it, blank, indented, a bare-# comment or the marker. |
| Interfaces.LineRule | appliance/netctl.py:647-660 | A line goes if and only if it is the marker, or some line at or above it has auto, allow-hotplug or iface as first word and names the interface, and no line since starts in the first column with anything but a lone hash, such a header or the marker. |
| Interfaces.WordsMean | appliance/netctl.py:651 | Words end at white space, and white space between them does not matter. |
| Interfaces.StripMeans | appliance/netctl.py:648 | Stripping takes white space off both ends and nothing else. |
| Interfaces.MarkerStands | appliance/netctl.py:661-664 | The rewritten file starts with what is kept and contains the marker. |
| Interfaces.KeepLines | appliance/netctl.py:644-660 | The loop keeps exactly the lines that are neither the marker nor in such a stanza, in order. |
| Interfaces.StripStanzas | appliance/netctl.py:643-664 | The whole rewriting of the text, with its trailing newline. |
| Interfaces.KeptForeign | appliance/netctl.py:643-664 | No kept line is a header for the interface or the marker. |
| Interfaces.StrippingIdempotent | appliance/netctl.py:643-664 | Rewriting a rewritten file changes nothing, for every text. |
| Interfaces.NoHeaderLeft | appliance/netctl.py:643-664 | No line of the rewritten file is a header for the interface. |
| Interfaces.MarkerIsProper | appliance/netctl.py:646 | The marker of every valid interface name meets the conditions of the two lemmas above. |
| Like.EscapeLikeIsPerCharacter | inventory/normalize.py:27-32 | The three replacements one after the other are one per-character escape. |
| Like.PatternCharacters | inventory/service.py:330-362 | What percent sign, underscore, backslash and every other character of a pattern match. |
| Like.EscapedMatchesOnlyItself | inventory/normalize.py:27-32 | The escaped pattern matches a text if and only if it is the original. |
| Like.ContainsPattern | inventory/service.py:330-362 | The pattern between two percent signs matches if and only if the text contains the value. |
| Like.CaseInsensitiveSearch | inventory/service.py:330-362 | With both sides folded, it matches if and only if the folded text contains the folded value. |
| Topology.FilterTopology | frontend/topology.js:429-479 | The staged reassignments compute the filtered graph and the two histograms of its edges. |
| Topology.HistogramCounts | frontend/topology.js:461-466 | Each count is the number of kept edges with that label. |
| Topology.LabelsMean | frontend/topology.js:461-466 | An edge without confidence counts as unknown, one without layer as general. |
| Topology.FilteredClosed | frontend/topology.js:429-479 | A closed graph stays closed: no edge without both end nodes. |
| Topology.StagedEqualsConjunctive | frontend/topology.js:429-479 | The four stages keep the same edges, in the same order, as one conjunctive filter. |
| Topology.EdgeKeptIff | frontend/topology.js:433-459 | An edge is kept if and only if it passes the chosen segment, layer and confidence, and unless groups are shown ends in none. |
| Topology.NodeKeptIff | frontend/topology.js:433-459 | Which nodes each choice keeps: the ends of the edges kept so far, and some for their own sake. |
| VlanFocus.Focus | frontend/snmp_topology.js:97-178 | The scan with its growing selection computes the focused graph; a null native VLAN counts as VLAN 0. |
| VlanFocus.NodeVlansMean | frontend/snmp_topology.js:88-104 | The VLANs of a node: those it lists up to 4095, and its native one. |
| VlanFocus.EdgeVlansMean | frontend/snmp_topology.js:88-114 | The same for an edge and its port. |
| VlanFocus.KeptIffChain | frontend/snmp_topology.js:142-155 | An edge is kept if and only if a chain of adjacent edges, in scanning order, leads to it from a VLAN edge or an edge touching a seed node. |
| VlanFocus.NodeKeptIff | frontend/snmp_topology.js:156-161 | A node is kept if and only if it belongs to the VLAN, ends a kept edge, or is the device named as parent by the last node with such an id. |
| VlanFocus.DirectIsKept | frontend/snmp_topology.js:142-155 | Every VLAN edge and every edge touching a seed node is kept, in any order. |
| VlanFocus.ScanDependsOnOrder | frontend/snmp_topology.js:142-155 | Two edges whose order decides which of them is kept. |
| VlanFocus.FocusClosed | frontend/snmp_topology.js:139-178 | A closed graph stays closed. |

## Left out

- Parsing and printing of IP addresses as text: expressions start from parsed integers. IPv4-mapped IPv6 addresses are plain IPv6 addresses. Interface names are taken to use ASCII digits.
- Error message texts and the details attached to errors; the error codes are modelled.
- `assigned_addresses` and `vlan_ids` of a proposal, which are projections of its networks.
- Kernel route lookup: an arbitrary function from addresses to answers.
- The size bound on finding data (`_bound_data`, `_truncate`): an arbitrary function applied to the data before it is stored.
- Stripping of user names (they are taken as stored), password hashing, token generation, user creation and login by name: hashes are values, digests are distinct by assumption.
- Which texts job and audit transitions record as messages and errors; the order of the interruption events of one recovery is left open.
- Resource locks, worker heartbeats, progress updates and the choice of the next queued job: claiming is possible for any queued job.
- The error text that `_refresh_audit` copies to the audit.
- Which rows `CrashSafety` lets cleanup collect: any, not only those that are due, so its theorems cover more.
- Whether a capture's packets are still stored when its analysis is queued: a parameter.
- Reports other than the artifact rows and files their deletion removes.
- The name type of an asset name: two rows that differ only in it are read once, which changes neither label nor identity.
- Symbolic links: a path is resolved by its components only.
- The bytes `_delete_candidates` reports, which it reads from the file system; sizes in the model are those of the rows.
- Housekeeping that `cleanup` calls besides `_delete_candidates` (pruning of old job events, orphan and stale temporary files) and the same at startup. Candidates are taken in table order, not by creation time, which decides which files are gone when one cannot be unlinked.
- The sorting of the audit comparison for display (it is modelled as sets of entries), the dashboard and the pipeline list.
- Carriage returns in the interfaces file: reading it as text translates them.
- `projected_ipv4`, `evaluate_safety` and the application of network settings.
- `canonical_mac` and `canonical_ip`: normal forms that would add easy members.
- The port table of the VLAN focus, which is a projection of the kept nodes.
- Classification, reports, sensors, packet capture, the HTTP layer, the installer and the rest of the user interface.
