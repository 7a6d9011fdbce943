# Verified models of the fax server's stateful core

These Dafny modules model the stateful parts of gofaxserver and its portal and prove what
the code promises about them, over all inputs and whole runs. `dafny verify dfyconfig.toml`
checks everything.

- **Fax policy** (`FaxPolicy`, `PolicyPrecedence`, `PolicyLearning`, `PolicyRuns`,
  `PolicyEngine`, `FlipFlop`): rule matching, the stable three-key sort, the first-wins fold,
  which rule wins, the learner that escalates and heals automatic rules, the in-place reload,
  and T.38 probing per number pair.
- **Sentry and rate limiter** (`SlidingWindow`, `IPSentry`, `SentryBans`, `SentryProcess`,
  `RateLimiter`): pruned sliding-window logs against the full history, the ban ladder and how
  long each ban lasts, and the agreement of cache, persisted rows and firewall.
- **Delivery scheduler** (`Scheduler`): grouping, priority order, retries with capped
  backoff and jitter, and the workers against an adversarial outcome oracle.
- **Delivery outcome** (`DeliveryOutcome`): from the workers' attempts to the pushed outcome
  and the portal's status.
- **Job tracker** (`FaxTracker`): jobs, reverse index and counter under interleaved steps.
- **Notify language and outcome** (`NotifyLanguage`, `PortalNotify`, `NotifyRecipients`,
  `NotifyReading`, `NotifyPrefilter`, `NotifyRedundancy`, `PortalPayload`, `PortalJobs`,
  `JobVerdicts`, `JobStore`): the strings the portal prints and the server parses, recipient
  filtering on both sides, and the reduction of per-attempt results to one stable job status.

`Seqs` is shared vocabulary. Code that the repository writes as methods over maps, slices
and fields is a class or a method with loops here; each is tied by its `ensures` to a step
function, and the run theorems are lemmas about the step functions. What a step function means
is said again without its own helpers, in terms of what a caller sees: which rule wins
(`PolicyPrecedence`), how long a ban lasts (`SentryBans`), when a job has ended
(`JobVerdicts`). A method that holds a
lock in the repository is one step with one clock reading. Times are integers; the clock is
an argument that does not go back.

## What the proofs found

The code is kept as it is; where a natural claim fails, the exact condition is proved.

- The `t38_off` counter is *not* always the failures since the last success: a reload that
  prunes the lapsed rule forgets them (`CounterIsFailuresIff`, `LapseForgetsFailures`).
- A timed manual ban whose firewall command fails leaves an active row without a cached ban
  (`StepAgreesIff`); it is the only operation that does. Manual bans do not clear the
  failure log of the address. A restart turns such a row into a ban (`OrphanRowInput`).
- `SoftmodemOnly` and tied variable overrides can follow the row order of the table
  (`SoftmodemOnlyStableIff`, `VarOverrideStableIff`; two rows that swap each of them are in
  `SoftmodemOnlyInput` and `TiedOverrideInput`); everything else cannot.
- A number pair shares its flip-flop key with another one exactly when one of its numbers
  holds a bar (`KeyUniqueIff`); among pairs with bar-free sources no two share
  (`KeyInjective`).
- The comment in gofaxserver/queue.go that a gateway success stops further priorities is not
  what the code does: the bare `break` leaves the `switch`, so every priority runs
  (`DeliverToGateways`).
- Interleaved workers of one job can leave an entry in the reverse index
  (`InterleavedWorkersLeak`); `MarkAttempt` keeps it exact if and only if the job's current
  call is nil or the marked one (`AttemptKeepsInverseIff`).
- A custom notify type the server's pattern does not know (a digit, say) passes the portal's
  normalisation but is swallowed by the segment before it (`PortalOutputSplitsIff`,
  `PortalOutputGroups`, `OddTypeIsSwallowed`).
- The portal's pre-filter is not always redundant. It makes a difference when it empties the
  derived report, there is no account segment, and the custom segments begin with such an
  unknown type (`PrefilterRedundantIff`, `OddFirstInput`); when an unknown type follows a
  custom copy of the derived report (`CopiedReportDiffers`, `CopiedReportInput`); and when the
  portal counts as covered an address of a segment whose type is followed by a blank the
  server's pattern does not know, in which case an address no other segment names is notified
  of nothing at all (`UnnamedLosesReport`, `BlankTypeInput`).
  Outside these it is redundant for every input (`PrefilterRedundant`).
- `success` and `all_attempts_failed` of a pushed outcome are opposites for every outbound
  job, but not always for a reception: a webhook payload that cannot be prepared is reported
  under the reception's own call identifier and replaces its leg (`VerdictsAgreeIff`,
  `ReplacedCallLeg`).
- The poller and the push agree on every outbound job but one whose only successes the stored
  rows infer or hide: the server stores a bridged call that ended normally as completed,
  whatever its result says (`PollAgreesIff`, `BridgedCallInput`).
- A terminal portal status is final when pushes and poller passes are atomic. The poller's
  write does not check the status, so a push between its read and its write can be undone;
  `LateWriteKeepsEndIff` and `LateWriteKeepsStatusIff` say exactly when it is not.
- A restart answers ban questions as before exactly when the cached ban and the active row of
  the address are both gone or lapsed, or end together (`RestartTransparentIff`).

## Model

| member | source | states |
|---|---|---|
| FaxPolicy.ResolveIsBestRule | gofaxserver/faxpolicy.go:230-319 | sorting and folding decides each scalar attribute by the least matching rule under (scope, origin, effect), leftmost among ties, and applies exactly the ids of the matching rules |
| FaxPolicy.ResolveVarIsBestRule | gofaxserver/faxpolicy.go:252-279 | each variable override comes from the best matching override of that name, and no other variable is set |
| PolicyPrecedence.ResolveByPrecedence | gofaxserver/faxpolicy.go:163-319 | over any table, each attribute is what its winner asks for: the first matching rule in the narrowest scope (pair before destination before source), manual before automatic there, and restrictive before permissive; without one it is what the configuration says |
| PolicyPrecedence.T38Precedence | gofaxserver/faxpolicy.go:163-319 | a pair rule decides T.38 before a destination rule before a source rule, a manual one before an automatic one, and it is on exactly when every rule left says so |
| PolicyPrecedence.EcmPrecedence | gofaxserver/faxpolicy.go:163-319 | the same for error correction |
| PolicyPrecedence.VarPrecedence | gofaxserver/faxpolicy.go:163-319 | a variable takes the value of the first such rule in row order |
| PolicyPrecedence.AppliedInOrder | gofaxserver/faxpolicy.go:252-275 | the applied ids are those of all matching rules, in order of precedence |
| PolicyPrecedence.PolicyOff | gofaxserver/faxpolicy.go:230-235 | with the policy off only the configuration speaks |
| FaxPolicy.ResolveOrderIndependent | gofaxserver/faxpolicy.go:184-317 | permuting the rule table changes no T.38, ECM or V.17 outcome, no overridden name and not the multiset of applied ids |
| FaxPolicy.SoftmodemOnlyStableIff | gofaxserver/faxpolicy.go:252-317 | SoftmodemOnly is the same under every row order exactly when the best T.38 rules all have one effect |
| FaxPolicy.VarOverrideStableIff | gofaxserver/faxpolicy.go:252-317 | a variable's value is the same under every row order exactly when the best rules for it agree on the value |
| FaxPolicy.SoftmodemOnlyInput | gofaxserver/faxpolicy.go:252-317 | two tied rows whose swap changes SoftmodemOnly |
| FaxPolicy.TiedOverrideInput | gofaxserver/faxpolicy.go:252-317 | two tied rows whose swap changes a variable's value |
| FaxPolicy.AddingT38OffIsSafe | gofaxserver/faxpolicy.go:184-317 | adding a t38_off or softmodem_only rule anywhere never turns EnableT38 or RequestT38 on |
| FaxPolicy.AddingEcmOffIsSafe | gofaxserver/faxpolicy.go:184-317 | adding an ecm_off rule anywhere never lifts a resolved ECM ban |
| FaxPolicy.PruningInvisible | gofaxserver/faxpolicy.go:200-206 | dropping expired automatic rules changes no resolution at any later time, for any query |
| Seqs.StableSortUnique | gofaxserver/faxpolicy.go:252-260 | sortedness and stability determine the result |
| Seqs.AnyStableSort | gofaxserver/faxpolicy.go:252-260 | any sorted, stable permutation of the matches is the one the model computes |
| Seqs.SortFirst | gofaxserver/faxpolicy.go:252-317 | the first element of a kind after the stable sort is the leftmost least one before it |
| PolicyEngine.PolicyEngine.ResolveFaxPolicy | gofaxserver/faxpolicy.go:230-319 | the loops compute the resolution of the cached rules, and with a fresh cache the outcome is that of the stored table |
| PolicyEngine.PolicyEngine.ReloadFaxPolicies | gofaxserver/faxpolicy.go:323-343 | compacting the rows in place deletes exactly the expired automatic rules and leaves the cache equal to the table, in some order |
| PolicyEngine.PolicyEngine.UpsertAutoRule | gofaxserver/faxpolicy.go:406-440 | refreshes the first automatic rule of the slot or appends a new one under a fresh key |
| PolicyEngine.PolicyEngine.LearnFaxPolicyFailure | gofaxserver/faxpolicy.go:447-499 | one learned failure: the count, the early return below the threshold, and the escalation to ecm_off and v17_off |
| PolicyEngine.PolicyEngine.LearnFaxPolicyBridgeFailure | gofaxserver/faxpolicy.go:505-535 | one bridge failure raises the bridge rule of the number |
| PolicyEngine.PolicyEngine.LearnFaxPolicySuccess | gofaxserver/faxpolicy.go:541-591 | one success resets the t38_off counter, counts on every automatic rule of the number, or removes them all |
| PolicyLearning.UpsertSlot | gofaxserver/faxpolicy.go:406-440 | after an upsert the first rule of the slot is the refreshed or the new one, with the given count and a full lifetime, and the rest of the slot is as before |
| PolicyLearning.UpsertFrame | gofaxserver/faxpolicy.go:406-440 | an upsert is invisible to every selection of rules that excludes its slot |
| PolicyLearning.FailureSlots | gofaxserver/faxpolicy.go:447-499 | after a counted failure each rung whose threshold is reached holds the raised count and a full lifetime, and each other rung is unchanged |
| PolicyLearning.FailureFrame | gofaxserver/faxpolicy.go:447-499 | a failure of one number touches no rule of another |
| PolicyLearning.SuccessSlot | gofaxserver/faxpolicy.go:541-591 | a success empties the number's slots when it heals, and otherwise counts on each of their rules; other numbers' slots stay as they were |
| PolicyRuns.FailureKeepsT38Off | gofaxserver/faxpolicy.go:406-499 | end to end, from any rule table: after a learned failure that reaches the T.38 threshold (with threshold one, every failure) and any further learning events in which the number does not heal, every call with that number on either side resolves to T.38 off for the rule's lifetime, unless a matching t38_on of pair or manual destination scope exists |
| PolicyRuns.LearnedRuleStays | gofaxserver/faxpolicy.go:323-591 | the rule that a failure reaching the threshold leaves stays stored and enabled for its lifetime over any history in which the number does not heal |
| PolicyRuns.LearnedRuleForcesOff | gofaxserver/faxpolicy.go:230-319 | a live learned rule forces T.38 off against everything but an overriding t38_on |
| PolicyRuns.FailureKeepsLadderUp | gofaxserver/faxpolicy.go:406-499 | end to end, the upper rungs: a failure that reaches the ECM threshold bans error correction on the number's calls for the lifetime, unless an overriding ecm_on matches, and one that reaches the V.17 threshold disables V.17 |
| PolicyRuns.BridgeFailureSparesSoftmodem | gofaxserver/faxpolicy.go:505-535 | a bridge failure changes no resolution of a softmodem call |
| PolicyRuns.BridgeFailureForcesOff | gofaxserver/faxpolicy.go:505-535 | it turns T.38 off on the number's bridged calls for the rule's lifetime, unless an overriding t38_on matches |
| PolicyRuns.HandmadeRulesStay | gofaxserver/faxpolicy.go:323-591 | no run of the learner adds, drops, changes or reorders a rule that is not automatic, expired or not |
| PolicyRuns.ReloadDrops | gofaxserver/faxpolicy.go:323-343 | a reload drops a rule exactly when it is automatic and past its end |
| PolicyRuns.LearnerOff | gofaxserver/faxpolicy.go:447-556 | with the policy or learning off, or without a number, failures, bridge failures and successes change nothing, and neither do bridge failures with bridge learning off |
| PolicyRuns.CounterIsStreak | gofaxserver/faxpolicy.go:447-591 | over any run the counter on the t38_off rule is the streak of failures since the last success or lapse |
| PolicyRuns.CounterIsFailuresIff | gofaxserver/faxpolicy.go:323-591 | the counter equals the failures since the last success exactly when no reload let the rule lapse meanwhile |
| PolicyRuns.LapseForgetsFailures | gofaxserver/faxpolicy.go:323-343 | two failures around a pruning reload count as one |
| PolicyRuns.HighThresholdNeverLearns | gofaxserver/faxpolicy.go:447-470 | with a T.38 threshold of two or more no run ever stores a t38_off rule |
| PolicyRuns.EmptyTableStaysEmpty | gofaxserver/faxpolicy.go:447-470 | with such a threshold the early return stores no count, so failures, successes and reloads leave an empty table empty |
| PolicyRuns.LadderStaysNested | gofaxserver/faxpolicy.go:447-591 | over any run ecm_off never outlives t38_off, nor v17_off ecm_off when their thresholds are ordered |
| PolicyRuns.LiveRungsImplyLower | gofaxserver/faxpolicy.go:447-591 | from an empty ladder, a live upper rung always has a live lower one |
| PolicyRuns.SuccessesAccumulate | gofaxserver/faxpolicy.go:541-591 | without failures of the number, each of its successes counts on each of its remaining rules |
| PolicyRuns.EnoughSuccessesHeal | gofaxserver/faxpolicy.go:541-591 | as many successes as the recovery threshold remove every automatic rule of the number, whatever is interleaved |
| PolicyRuns.TooFewSuccessesHealNothing | gofaxserver/faxpolicy.go:541-591 | with fewer successes than the recovery threshold the number keeps every automatic rule no reload found prunable, with each success counted on it |
| PolicyRuns.SuccessTouchesOnlyMine | gofaxserver/faxpolicy.go:541-591 | a success changes no rule that is not an automatic destination rule of the number |
| PolicyRuns.SuccessesInARow | gofaxserver/faxpolicy.go:541-591 | after successes of one number and the reloads that go with them, the other rules are exactly those no reload found prunable, in order, and with enough successes nothing else is left |
| FlipFlop.KeyUniqueIff | gofaxserver/faxpolicy.go:619-621 | a pair has its key to itself exactly when neither of its numbers holds a bar |
| FlipFlop.KeyInjective | gofaxserver/faxpolicy.go:619-621 | among pairs with bar-free source numbers no two share a key |
| FlipFlop.BarsCollide | gofaxserver/faxpolicy.go:619-621 | a concrete pair of pairs with one key |
| FlipFlop.ProbesAlternate | gofaxserver/faxpolicy.go:641-690 | under any interleaving of pairs the calls of one pair alternate from T.38 on, and a gap longer than the TTL starts over |
| FlipFlop.Prober.ShouldAllowT38ForPair | gofaxserver/faxpolicy.go:641-654 | the answer follows from the recorded history |
| FlipFlop.Prober.UpdateT38PairState | gofaxserver/faxpolicy.go:656-690 | records the call for its own pair |
| SlidingWindow.RecentAbsorbs | gofaxserver/ipsentry.go:246-256 | pruning at an earlier time is invisible to a later window |
| SlidingWindow.RecentKeeps | gofaxserver/ipsentry.go:246-256 | the window keeps exactly the entries later than its start |
| SlidingWindow.CompactInPlace | portal/internal/auth/auth.go:195-216 | filtering a slice into its own backing array keeps exactly the recent entries, in order |
| SlidingWindow.Append | portal/internal/auth/auth.go:216-221 | appending writes in place only while the capacity lasts |
| RateLimiter.NoWindowExceedsLimit | portal/internal/auth/auth.go:178-223 | over any run no interval as long as the window contains more than the limit of allowed hits of a key |
| RateLimiter.HistoryGrows | portal/internal/auth/auth.go:216-223 | a call adds its own time to its own key's history, exactly when it is admitted |
| RateLimiter.AnswersCount | portal/internal/auth/auth.go:190-223 | in any run, a call is allowed exactly when fewer than its limit of the earlier allowed calls of its key fall later than one window before it |
| RateLimiter.CallKeepsAgreement | portal/internal/auth/auth.go:190-223 | a call keeps each key's pruned contents equal to its pruned full history |
| RateLimiter.RateLimiter.Allow | portal/internal/auth/auth.go:190-223 | every answer, sweeps and in-place compaction included, is the one the full history of allowed hits gives |
| RateLimiter.RateLimiter.Sweep | portal/internal/auth/auth.go:194-209 | the sweep leaves each key its recent hits and forgets empty keys |
| IPSentry.WindowTracksLog | gofaxserver/ipsentry.go:230-258 | over any run the pruned list of an address is the in-window part of all failures recorded since its last automatic ban, release or restart |
| IPSentry.RecordFailureBansIff | gofaxserver/ipsentry.go:230-284 | after any run, a failure leaves the address banned exactly when it was banned, or enough recorded failures lie in the window and neither an ACL nor a record still awaiting the janitor stands in the way |
| SentryBans.FailureBansIff | gofaxserver/ipsentry.go:230-284 | the same criterion counted out: with the present failure, as many as the threshold are later than the start of the window |
| SentryBans.AutoBanLasts | gofaxserver/ipsentry.go:286-321 | the n-th offense of an address, by the process's count or the row's, bans it for exactly the n-th configured duration, and for good beyond the last |
| SentryBans.KthBanLasts | gofaxserver/ipsentry.go:286-321 | over any run without manual bans of the address, restarts included, its k-th automatic ban lasts exactly the k-th duration, and is permanent beyond the last |
| SentryBans.AutoBanHolds | gofaxserver/ipsentry.go:214-519 | an automatic ban is in force throughout that time, through any further events but a release or an endpoint's list that has come to contain the address |
| SentryBans.BanHolds | gofaxserver/ipsentry.go:214-519 | the same for any ban that cache and row agree on |
| SentryBans.AutoBanWrites | gofaxserver/ipsentry.go:286-355 | what an automatic ban writes to row, cache, failure log and firewall, and that nothing about another address changes |
| SentryBans.ManualBanLasts | gofaxserver/ipsentry.go:360-429 | a manual ban lasts exactly as long as asked, and for good without a duration |
| SentryBans.ManualBanWrites | gofaxserver/ipsentry.go:360-429 | what a manual ban writes: a timed one counts as one more offense, a permanent one as more than there are durations |
| SentryBans.ReleaseEnds | gofaxserver/ipsentry.go:433-461 | a release ends the ban, takes the address out of the firewall unless that command fails, keeps the row inactive, and changes nothing about another address |
| SentryBans.ListedIsSpared | gofaxserver/ipsentry.go:194-284 | a whitelisted or unparsable address is never logged or banned |
| IPSentry.CachedBansAreActive | gofaxserver/ipsentry.go:266-519 | over any run, whatever the firewall did, every cached ban is an active one |
| IPSentry.StepAgreesIff | gofaxserver/ipsentry.go:266-461 | every operation keeps cached bans and active rows equal, except exactly a timed manual ban whose firewall command fails |
| IPSentry.ManualBanAgreesIff | gofaxserver/ipsentry.go:360-429 | the same for manual bans alone |
| IPSentry.OrphanRowInput | gofaxserver/ipsentry.go:360-402 | a timed manual ban whose firewall command fails bans nobody until a restart, and bans the address from then on |
| IPSentry.RunAgrees | gofaxserver/ipsentry.go:266-519 | over any run without that failure, cached bans and active rows coincide |
| IPSentry.TickCleans | gofaxserver/ipsentry.go:466-519 | after a janitor tick no cached ban is expired, whitelisted or ACL-matching, the others are kept and re-asserted in the firewall |
| IPSentry.RestartTransparent | gofaxserver/ipsentry.go:132-155 | when cache and rows agree, a restart answers every ban question as before, from then on |
| IPSentry.RestartTransparentIff | gofaxserver/ipsentry.go:132-155 | in any state it does so for an address exactly when the cached ban and the active row are both gone or lapsed, or end together |
| IPSentry.LadderClimbs | gofaxserver/ipsentry.go:286-321 | no step lowers an address's rung, and each automatic ban climbs until the top, where it is permanent |
| IPSentry.LadderNeverFalls | gofaxserver/ipsentry.go:286-417 | over any run of bans, expiries, unbans and restarts the rung never falls |
| IPSentry.PermanentStaysPermanent | gofaxserver/ipsentry.go:286-321 | once an automatic ban was permanent every later automatic ban is |
| SentryProcess.SentryProcess.constructor | gofaxserver/ipsentry.go:132-155 | the start-up loop over persisted rows computes the restart step |
| SentryProcess.SentryProcess.RecordFailure | gofaxserver/ipsentry.go:230-260 | one failure: ignored, logged, or turned into a ban |
| SentryProcess.SentryProcess.BanIp | gofaxserver/ipsentry.go:266-356 | one automatic ban: refusals, offense count, expiry, and the four stores it writes |
| SentryProcess.SentryProcess.BanManual | gofaxserver/ipsentry.go:360-429 | one manual ban, timed or permanent, and when it reports an error |
| SentryProcess.SentryProcess.UnbanIP | gofaxserver/ipsentry.go:433-461 | one manual release, refused when the address is not banned |
| SentryProcess.SentryProcess.Reconcile | gofaxserver/ipsentry.go:466-487 | the loop releases exactly the whitelisted and ACL-matching bans |
| SentryProcess.SentryProcess.JanitorTick | gofaxserver/ipsentry.go:491-519 | expiry, re-assertion and reconciliation, one address at a time |
| Scheduler.GroupEndpoints | gofaxserver/queue.go:129-136 | each group holds, in order, exactly the endpoints of its type and priority, and every endpoint is in one |
| Scheduler.SortPriorities | gofaxserver/queue.go:314-330 | numerically ascending priorities, 999 after all others, each once and nothing lost |
| Scheduler.InOrderUnique | gofaxserver/queue.go:314-330 | there is only one such order |
| Scheduler.ScheduleIsPartition | gofaxserver/queue.go:129-136 | every endpoint is scheduled exactly as often as it was given, under its own type |
| Scheduler.EnumerationAscends | gofaxserver/queue.go:314-336 | an endpoint enumerated earlier has a priority that is numerically no later, with 999 last |
| Scheduler.ServesSoonest | gofaxserver/queue.go:314-791 | a worker that succeeds has delivered at an endpoint than which no deliverable one of its type has an earlier priority |
| Scheduler.GatewaysAscend | gofaxserver/queue.go:314-555 | the gateway worker runs each priority of its type, in numeric order with 999 last |
| Scheduler.RetryWithBackoff | gofaxserver/queue.go:250-282 | at most the configured tries, each retry after a retriable failure, every wait the delay moved by the random number, positive, within a tenth of the capped delay and at most the maximum, the total bounded |
| Scheduler.RetryVerdict | gofaxserver/queue.go:250-282 | the loop succeeds exactly when some allowed attempt delivers and each one before it may be retried |
| Scheduler.DelayDoubles | gofaxserver/queue.go:250-282 | the first delay is the base, and each next one the doubled one, capped |
| Scheduler.DeliverToUrls | gofaxserver/queue.go:556-791 | a webhook or portal worker tries a prefix of the enumeration, each endpoint with the retry loop over its own outcomes, stops for good at the first loop that succeeds, and without one has tried every endpoint; an unconfigured portal tries none |
| Scheduler.TrailReachesFirst | gofaxserver/queue.go:556-791 | such a worker succeeds exactly when some endpoint can be delivered to, and the first one is the last it tries |
| Scheduler.DeliverToGateways | gofaxserver/queue.go:339-555 | every gateway priority is run, in order, as one aggregated send (a single attempt when bridged, else the retry loop) or endpoint by endpoint up to its first success, each over its own outcomes |
| Scheduler.GatewayVerdict | gofaxserver/queue.go:339-555 | a priority succeeds exactly when the outcomes of its batch, or of some endpoint in it, allow it |
| Scheduler.DeliverAll | gofaxserver/queue.go:129-806 | there is one worker for each endpoint type of the job, and each satisfies the above over its own enumeration and outcomes |
| FaxTracker.RunCounts | gofaxserver/faxtracker.go:90-266 | under any interleaving the counter is the number of tracked jobs and none is done |
| FaxTracker.EntriesAreTold | gofaxserver/faxtracker.go:90-266 | under any interleaving exactly the jobs begun and not completed are tracked, each in the phase and at the attempt its own events say |
| FaxTracker.RunFinds | gofaxserver/faxtracker.go:90-165 | with fresh call identifiers every tracked job is found through its current call |
| FaxTracker.AttemptKeepsInverseIff | gofaxserver/faxtracker.go:147-165 | marking an attempt keeps the index exact if and only if the job's call is nil or the marked one |
| FaxTracker.PairedRunsStayInverse | gofaxserver/queue.go:384-387 | when each attempt marked is the one its job's last setter set, the index is exactly the inverse over whole runs and a completed job leaves nothing behind |
| FaxTracker.InterleavedWorkersLeak | gofaxserver/faxtracker.go:128-165 | two workers of one job can leave a stale entry |
| FaxTracker.FaxTracker.Begin | gofaxserver/faxtracker.go:90-125 | tracks a new job or refreshes a tracked one |
| FaxTracker.FaxTracker.SetCall | gofaxserver/faxtracker.go:128-144 | moves the index from the old call to the new one |
| FaxTracker.FaxTracker.MarkAttempt | gofaxserver/faxtracker.go:147-165 | stamps the attempt and adds the call to the index |
| FaxTracker.FaxTracker.MarkPhase | gofaxserver/faxtracker.go:188-240 | changes the phase only |
| FaxTracker.FaxTracker.Complete | gofaxserver/faxtracker.go:243-266 | forgets the job, its current call and one of the counter |
| FaxTracker.FaxTracker.ActiveCount | gofaxserver/faxtracker.go:269-273 | the fast counter is the number of tracked jobs |
| FaxTracker.FaxTracker.FindJobByCall | gofaxserver/faxtracker.go:301-306 | finds every tracked job by its current call |
| NotifyLanguage.JoinSplit | gofaxserver/notify.go:568-584 | joining the split segments with commas returns the input |
| NotifyLanguage.SplitJoinIff | gofaxserver/notify.go:568-584 | a list of segments survives join and split exactly when all but the first begin with a type arrow and none holds a comma followed by one |
| NotifyLanguage.SegmentStartIff | gofaxserver/notify.go:567-568 | the pattern of a segment start, letter by letter: white space, letters or underscores, white space, an arrow |
| NotifyLanguage.ParseAt | gofaxserver/notify.go:592-625 | a segment is cut at its first arrow and means its trimmed sides, with "email" for a report, and nothing when a side is blank |
| NotifyLanguage.SplitNotifySegments | gofaxserver/notify.go:574-584 | the scan computes that split |
| NotifyLanguage.ParseNotifyString | gofaxserver/notify.go:592-625 | the parser yields the well-formed segments' destinations and the malformed ones as skipped |
| NotifyLanguage.PrintParse | gofaxserver/notify.go:592-625 | printed destinations parse back exactly, with nothing skipped |
| PortalNotify.NormalizeCustomNotify | portal/internal/api/handlers_admin.go:780-802 | rejects a malformed segment, otherwise trims, drops empty pieces and duplicates |
| PortalNotify.CanonicalMeans | portal/internal/api/handlers_admin.go:780-802 | pieces are accepted exactly when each is blank or parses on the server; what is kept are the trimmed ones of those, each once |
| PortalNotify.MergeNotifySegments | portal/internal/api/handlers_admin.go:757-772 | the derived segments, then the custom ones not among them |
| PortalNotify.PortalOutputSplitsIff | portal/internal/api/handlers_admin.go:757-802 | the server cuts the portal's string into its segments exactly when each but the first begins the way the server expects |
| PortalNotify.PortalOutputGroups | portal/internal/api/handlers_admin.go:757-802 | for any accepted custom string the server reads each unknown type as part of the segment before it and every other segment by itself |
| PortalNotify.OddTypeIsSwallowed | portal/internal/api/handlers_admin.go:780-802 | an unknown type after the first segment is read after a comma in the segment it follows |
| PortalNotify.CustomRoundTrip | portal/internal/api/handlers_admin.go:780-802 | any distinct canonical segments are what their joined string stands for |
| PortalNotify.PortalOutputParses | gofaxserver/notify.go:568-625 | with known types the server reads one destination per portal segment, in order, nothing skipped |
| NotifyRecipients.JoinedRecipients | gofaxserver/notify.go:639-650 | a joined recipient list splits back into itself |
| NotifyRecipients.RecipientsOfJoin | gofaxserver/notify.go:639-650 | semicolons and commas both separate recipients, anywhere |
| NotifyRecipients.ParsedKeyInjective | gofaxserver/notify.go:483-494 | destinations parsed from any two notify strings are equal when their deduplication keys are |
| NotifyRecipients.DedupByKey | gofaxserver/notify.go:483-494 | every given destination, once, in the order of first occurrence |
| NotifyRecipients.ProcessNotifyDestinations | gofaxserver/notify.go:483-562 | deduplicates, then applies the email_full override; without an email_full destination the result is exactly the deduplicated list; bridged calls notify nobody |
| NotifyRecipients.OverrideReceives | gofaxserver/notify.go:508-541 | exactly who receives what after the override |
| NotifyRecipients.OverrideKeepsOrder | gofaxserver/notify.go:508-541 | entry by entry: the override keeps the order, drops exactly the reports all of whose recipients get the full mail under some spelling, keeps in any other report the remaining recipients in order, and changes no other destination |
| NotifyRecipients.NoOverride | gofaxserver/notify.go:508-541 | without a full recipient it changes nothing |
| NotifyRecipients.NoReportIsFull | gofaxserver/notify.go:508-541 | no report recipient is also an email_full recipient, ignoring case |
| NotifyRecipients.NobodyIsLost | gofaxserver/notify.go:508-541 | a report recipient still gets the report or the full mail |
| NotifyRecipients.OthersKeepOrder | gofaxserver/notify.go:508-541 | destinations of other types keep order and value |
| NotifyPrefilter.EmailFullRecipients | portal/internal/api/handlers_admin.go:717-736 | the lower-cased recipients of the custom email_full segments |
| NotifyPrefilter.FilterDerivedReportEmails | portal/internal/api/handlers_admin.go:740-752 | drops exactly the derived addresses covered by them |
| NotifyPrefilter.CoveredByServer | portal/internal/api/handlers_admin.go:717-736 | what the portal counts as covered, the server reads as an email_full recipient |
| NotifyReading.GroupReads | gofaxserver/notify.go:568-650 | an absorbed segment adds its recipients to the destination before it, type by type |
| NotifyPrefilter.ReadParts | portal/internal/api/handlers_admin.go:698-711 | who receives what from the string the portal computes: the derived report, the account, and what the custom segments other than copies of the report add in their places |
| NotifyRedundancy.PrefilterRedundant | portal/internal/api/handlers_admin.go:717-772 | filtering first or not, the server's pipeline gives each type the same recipients, among any other destinations, for every custom string outside the failing guards |
| NotifyRedundancy.PrefilterRedundantIff | portal/internal/api/handlers_admin.go:717-772 | for custom strings without blanks the pattern does not know and without copies of the derived report before unknown types, it does so exactly unless the filter empties the report, there is no account, and an unknown type comes first |
| NotifyRedundancy.OddFirstDiffers | portal/internal/api/handlers_admin.go:740-772 | under that guard some recipient is always notified differently |
| NotifyRedundancy.OddFirstInput | portal/internal/api/handlers_admin.go:740-772 | a concrete string under that guard |
| NotifyRedundancy.UnnamedLosesReport | portal/internal/api/handlers_admin.go:717-752 | every address the portal counts as covered, but which neither a segment the server reads nor the account names, loses its report and is notified of nothing, as long as the filter leaves the derived part non-empty and no copy of the report stands before an unknown type |
| NotifyRedundancy.BlankTypeInput | portal/internal/api/handlers_admin.go:717-752 | a covered address that is notified of nothing because the server does not read the covering segment |
| NotifyRedundancy.CopiedReportDiffers | portal/internal/api/handlers_admin.go:757-772 | when every address is covered and there is an account, a custom copy of the derived report before an unknown type changes the account's notifications of every address of that unknown segment the account does not have, unless another segment is of the account's type |
| NotifyRedundancy.CopiedReportInput | portal/internal/api/handlers_admin.go:757-772 | a custom copy of the derived report before an unknown type changes who is notified |
| PortalPayload.ComputeAllAttemptsFailed | gofaxserver/queue.go:884-895 | a reception's own outcome decides, otherwise whether any leg succeeded |
| PortalPayload.AllFailedIff | gofaxserver/queue.go:877-895 | a fax received from a gateway speaks for itself, and for any other job one successful leg suffices |
| PortalPayload.CallComesFirst | gofaxserver/queue.go:155-179 | a real call outcome is stored first, under the call's identifier or, without one, the job's; the enqueue marker is not |
| PortalPayload.BuildPortalStatusPayload | gofaxserver/notify.go:83-137 | in any visiting order: the call leg before a success before the latest end describes the job, and the page counts are the largest |
| PortalPayload.VerdictsAgreeIff | gofaxserver/queue.go:139-179 | for any job and any reports, the exact condition, read off the job and its reports, under which the pushed success is the negation of the pushed all-failed flag; it always holds for outbound jobs |
| PortalPayload.StoredSuccesses | gofaxserver/queue.go:144-179 | some stored leg succeeded exactly when a reported success was not replaced, or the kept call succeeded |
| PortalPayload.ReplacedCallLeg | gofaxserver/queue.go:652-660 | an unprepared webhook payload of a successful reception makes both verdicts false |
| PortalPayload.SuccessesSurvive | gofaxserver/queue.go:144-153 | no reported success is lost from the results |
| PortalJobs.DecideStatus | portal/internal/poller/poller.go:180-246 | the three loops and the case distinction compute the decision |
| PortalJobs.DecideMeans | portal/internal/poller/poller.go:165-246 | success exactly with a successful attempt row; failed exactly with only failed attempts once the job is over; otherwise sending exactly if seen |
| JobVerdicts.FailedIff | portal/internal/poller/poller.go:222-246 | a job is failed exactly when a counted leg exists, none succeeded, more than thirty seconds have passed since submission, and either the active snapshot was unavailable or the job was seen before and is not in it |
| JobVerdicts.OtherStatesIff | portal/internal/poller/poller.go:222-246 | success exactly when a counted leg succeeded, sending exactly when the job is or was in flight and has not ended, queued otherwise |
| JobVerdicts.CountsTold | portal/internal/poller/poller.go:180-220 | the attempts reported are the counted legs and the page counts their largest |
| JobVerdicts.InFlightNeverFails | portal/internal/poller/poller.go:66-144 | over any run, no poll of the first day that shows the job in flight fails it |
| JobVerdicts.UnseenNeverFails | portal/internal/poller/poller.go:66-144 | over any run, no poll of the first day that could ask the server fails a job no poll has shown yet |
| JobVerdicts.OnlyPushesFail | portal/internal/poller/poller.go:66-144 | while every poll of the first day can ask the server and keeps showing the job once one has, only a push fails it |
| JobVerdicts.PollSpares | portal/internal/poller/poller.go:66-99 | a poll leaves ended jobs and those written within three seconds alone |
| JobVerdicts.PollTimesOut | portal/internal/poller/poller.go:86-99 | any other job submitted more than a day ago is failed, its counts kept |
| JobVerdicts.PollTells | portal/internal/poller/poller.go:101-144 | and otherwise every field of the row after a poll |
| PortalJobs.DecidePages | portal/internal/poller/poller.go:180-220 | the page counts are the largest reported by attempts, and by call legs |
| PortalJobs.DecideTells | portal/internal/poller/poller.go:222-240 | the texts are those of a successful attempt, or of an attempt that started last |
| JobVerdicts.SpeakerIs | portal/internal/poller/poller.go:180-240 | among them it is the first success in the list, or the last of those that started latest |
| PortalJobs.NotifyRowsInvisible | portal/internal/poller/poller.go:158-203 | notify rows, anywhere in the list, never affect any field of the decision |
| PortalJobs.RowOrderIrrelevant | portal/internal/poller/poller.go:180-246 | the order of the rows changes no state and no count |
| PortalJobs.TerminalIsFinal | portal/internal/poller/poller.go:66-144 | over any run of atomic pushes and polls a job's row never changes again once it is terminal |
| PortalJobs.ProgressNeverFalls | portal/internal/poller/poller.go:101-144 | over any run whose pushes settle, a job never moves back from sending to queued either |
| PortalJobs.LateWriteKeepsEndIff | portal/internal/poller/poller.go:86-144 | a poll that read the row before a push ended the job leaves it ended exactly when it timed the job out, got no answer, or saw a success, or an attempt with the job over |
| PortalJobs.LateWriteKeepsStatusIff | portal/internal/poller/poller.go:86-144 | and with the same status exactly when those grounds agree with it |
| PortalJobs.LateWriteRegresses | portal/internal/poller/poller.go:117-140 | a poll without rows that sees the job in flight puts it back to sending |
| PortalJobs.OutboundPushEnds | portal/internal/api/handlers_notify.go:106-144 | the pushed outcome of an outbound job always ends a job that has not ended, with success exactly when some leg succeeded |
| JobVerdicts.PushTells | portal/internal/api/handlers_notify.go:106-144 | every field of the row after a push to a job that has not ended |
| PortalJobs.PollAgreesIff | portal/internal/poller/poller.go:180-246 | when the poller ends an outbound job on the rows of all its reports, transmissions, deliveries and bridges alike, it writes the same status as the push exactly when some report succeeded if and only if some stored row shows a success |
| PortalJobs.PollAgreesWithPush | gofaxserver/faxjobresult.go:163-195 | so they agree on every outbound job that is not bridged, when no success carries the placeholder's cause |
| PortalJobs.BridgedCallInput | gofaxserver/faxjobresult.go:389-402 | a bridged call that ended normally without a fax result is polled as a success and pushed as a failure |
| DeliveryOutcome.WorkerDelivers | gofaxserver/queue.go:339-791 | a worker delivers exactly when the attempts' outcomes grant some endpoint or batch of its type a delivery |
| DeliveryOutcome.DeliveryDecidesPayload | gofaxserver/queue.go:129-895 | end to end, in any interleaving of the workers' reports: the outcome pushed for an outbound job says success exactly when the outcomes grant one of its endpoint types a delivery, and all-failed otherwise |
| DeliveryOutcome.DeliveryDecidesStatus | portal/internal/api/handlers_notify.go:106-144 | and the push ends the portal's job with success or failure accordingly |
| JobStore.JobStore.HandleStatusNotify | portal/internal/api/handlers_notify.go:89-144 | unknown and ended jobs are left alone, any other takes the pushed outcome |
| JobStore.JobStore.Reconcile | portal/internal/poller/poller.go:101-144 | the fields one decision writes, and none when the server did not answer |
| JobStore.JobStore.Tick | portal/internal/poller/poller.go:66-99 | each job of the batch takes one poll, all others stay |
| JobStore.OverdueJobsEnd | portal/internal/poller/poller.go:91-97 | a pass with room fails every quiet job older than a day, even with the server unreachable, and touches no ended one |

## Left out

- Logging, metrics counters, log suppression, audit entries, notes and creation timestamps.
- FreeSWITCH, SIP, SMTP, HTTP, PDF and TIFF handling, encryption, bcrypt, and XML: what an attempt does is an outcome oracle.
- Database failures: writes are atomic and succeed; the row key is unique per job.
- Firewall commands are a set with a success flag per command; whitelists, endpoint ACLs and address parsing are predicates.
- Regular-expression dialplans and the resolution of notify strings from tenants and numbers.
- Lower-casing is ASCII, and strings are sequences of characters rather than UTF-8 bytes.
- 64-bit overflow of delays, and cancellation of a retry loop by its context (no caller cancels it).
- RetryWithBackoff: needs a base and maximum delay of at least 5 ns, because the jitter source panics on an empty range.
- Rows are kept in primary-key order; the learner's saves address them by position.
- Administrators' edits of rules are not among the learning events; the starting table of every run is arbitrary unless the row says otherwise.
- PolicyEngine: `qualifiesForLearning`, `T38Refused` and the retry chain's per-attempt switches, which are pure tests without state.
- FlipFlop: persistence of the pair states across restarts.
- SentryProcess: a call is one step here, although the code releases its mutex between reading the caches and writing them.
- The sentry's failure list is a sequence here; the in-place compaction it shares with the rate limiter is proved in `SlidingWindow`.
- FaxTracker: `MarkResult`, which changes a call without the index and has no caller, and snapshots.
- DeliverToGateways: makes no claim that a success stops later priorities, because it does not.
- PrefilterRedundant: derived mail fields are non-empty, trimmed (as the portal stores them) and comma-free.
- PrefilterRedundantIff: there is no equivalence for types followed by blanks the pattern does not know, nor for copies of the derived report before unknown types; those guards have failing families, and equality can still hold by coincidence of recipients outside them.
- Tick: one clock reading per pass, and the query of eligible jobs is a parameter with the query's contract.
- PollAgreesIff: covers a poll that sees the rows of all reports; an earlier poll may fail a job that is still retrying when the snapshot of active faxes is unavailable.
- DeliveryDecidesPayload: every attempt is reported once, and successes carry call identifiers of their own.
