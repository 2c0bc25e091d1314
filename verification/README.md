# ReserveGrid pool-verifier: verified decision path and ingress

A Dafny model of the pool verifier's decision path, of its ingress, and of the
two shared accounting primitives it leans on, with proofs of what they promise.

* **Class M adjudication** (`BitcoindRpc`, `SecondChance`, `BlockWalk`,
  `Evidence`, `Outcome`, `MempoolView`, `Policy`, `Verdict`). A polled mempool view ages;
  a template is evaluated against it; a Class M rejection is put to bitcoind
  through a bounded block walk and chunked batch probes matched by id; the
  outcome is withdrawn, upheld or lookup-failed, and the verdict follows.
  bitcoind is an arbitrary reply oracle. The main results say what an outcome
  is evidence of, whatever was replied, in whatever order, with whatever
  omissions, duplicates and failures.
* **Ingress** (`PerIp`, `Admission`, `IdleStream`, `Framing`). Permits, per-IP
  counts and the gauge are conserved under every interleaving of the atomic
  steps; the idle deadline and the shed-at-cap rule are bounded over whole
  runs; a live gateway is never ended; bounded line framing round-trips.
* **Rate limiter** (`RateLimiter`, `RateLimiterImpl`). Pruned deques, clean-up
  and LRU eviction refine a plain log of admitted requests, and the laws of
  the sliding window are laws of that log.

Code that changes things in place is a class or a method with a loop, proved
against a function of values; the laws are lemmas about those functions and
about runs. `dafny verify dfyconfig.toml` checks everything.

Conventions. Instants and durations are nanoseconds unless a name says `Ms` or
`Secs`. A u32 count that saturates is `Sat32`. The f64 tolerance ratio is taken
under a parameter `rnd`, an arbitrary function, assumed monotone only where a
lemma says so. A hash set's iteration order is a parameter `order` that lists
the set once each. Clock readings under the rate limiter's lock are taken to be
non-decreasing (the source reads the clock just before locking), and one poll
of the idle stream sees one clock reading. A task that is accepting a
connection, or that has decided to end and is releasing its slot, does not
await in between (`services/pool-verifier/src/ingress.rs:516-575`,
`services/pool-verifier/src/ingress.rs:667-714`), so it occupies one runtime
worker; a run on `w` workers (`Within`) has at most `w` such connections, and
at most one of them in the accept loop, in each of its states. Results that do
not mention workers hold of every interleaving.

## Findings

Four places where the code and its own comments part, each with the input
that shows it and the exact condition under which the comment holds:

* The per-IP map is documented as bounded by the connection cap
  (`services/reservegrid-common/src/per_ip.rs:30-37`). A slot's fields drop in
  order, the global permit before the per-IP one, so newcomers can be counted
  in between. `MapBoundedExactly`: on `w` runtime workers the least bound over
  all runs is the cap plus `w - 1`, unless the cap or the per-IP ceiling is 0;
  so the cap itself is a bound on a single worker only. `MapBound` is what
  holds in every state of every run: the cap plus the connections caught
  between the two drops.
* Dead sockets are said to shed one at a time
  (`services/pool-verifier/src/ingress.rs:349-351`). `ShedsTogether` is a run
  in which as many of them as there are workers decide to shed before one
  releases its slot. `OneAtATimeExactly`: on `w` workers no two sheds of one
  address overlap in any run if and only if the cap is 0, or `w` or the per-IP
  ceiling is at most 1, or the ceiling is above the cap plus `w - 1`.
  `NextShedExactly`: along any interleaving, the next shed is possible if and
  only if as many newcomers were counted at the address since as connections
  were uncounted.
* Rate-limiter tracking is said to be bounded
  (`services/reservegrid-common/src/rate_limit.rs:5-6`). A refused request
  under a limit of 0 leaves an empty entry behind and never evicts:
  `ZeroLimitTracksAll` tracks any number of addresses under any cap. `TryAdmit`
  states, from any state, that a call goes past the cap if and only if a limit
  of 0 refuses an untracked address at the cap before the ceiling does.
* A transaction both in the mempool and in a walked block is counted as mined
  by targeted probing and as in-mempool by a whole-mempool comparison
  (`services/pool-verifier/src/second_chance.rs:469-482`). `CountsDiffer` is
  such an input; `TargetedRefinesWhole` shows that the two results are equal if
  and only if no unknown is in both places, by how much they differ otherwise,
  and that the decision never does.

## Model

| member | source | states |
|---|---|---|
| `BitcoindRpc.DecodeEncode` | services/pool-verifier/src/bitcoind_rpc.rs:386-395 | hex decoding inverts hex encoding on every byte string |
| `BitcoindRpc.DecodeAccepts` | services/pool-verifier/src/bitcoind_rpc.rs:243-255 | a text decodes iff it is an even number of hex digits, of either case |
| `BitcoindRpc.DisplaySpells` | services/pool-verifier/src/bitcoind_rpc.rs:378-395 | character by character, a txid is displayed in lower-case digits with its bytes reversed |
| `BitcoindRpc.DisplayNames` | services/pool-verifier/src/bitcoind_rpc.rs:224-232 | parsing and reversing the display text of any txid gives that txid back |
| `BitcoindRpc.NamesWhatItSpells` | services/pool-verifier/src/bitcoind_rpc.rs:224-255 | a text names a txid iff digit pair i, of either case, is byte 31 - i of it |
| `BitcoindRpc.NamedExactly` | services/pool-verifier/src/bitcoind_rpc.rs:224-255 | a text names a txid iff it is 64 hex digits, and that txid displays as the text in lower case |
| `BitcoindRpc.TxidsToInternalOrder` | services/pool-verifier/src/bitcoind_rpc.rs:224-232 | index by index, each text spells the txid returned, its bytes reversed; otherwise fails on the first text that spells none |
| `BitcoindRpc.ResolveBatch` | services/pool-verifier/src/bitcoind_rpc.rs:421-462 | exactly one item per request, item i being the content of the only reply claiming id i, or no response |
| `BitcoindRpc.ReplyOrderIrrelevant` | services/pool-verifier/src/bitcoind_rpc.rs:417-462 | any permutation of the replies resolves every request alike |
| `BitcoindRpc.ItemExactly` | services/pool-verifier/src/bitcoind_rpc.rs:417-462 | an item is an entry or a failure iff the only reply claiming it carries that, error before result |
| `BitcoindRpc.VerdictEvidence` | services/pool-verifier/src/bitcoind_rpc.rs:402-462 | absent iff one unambiguous reply with code -5, present iff one unambiguous entry |
| `SecondChance.RecentBlocks` | services/pool-verifier/src/second_chance.rs:791-871 | the walk loop computes the walk the lemmas of `BlockWalk` are about |
| `SecondChance.ProbeChunks` | services/pool-verifier/src/second_chance.rs:726-766 | chunked probing sorts each transaction by the verdict at its own position, or fails with the first transport error |
| `SecondChance.ProbeExactly` | services/pool-verifier/src/second_chance.rs:738-766 | probing succeeds iff every call was answered, and fails with the error of the first call that was not |
| `SecondChance.ExceedsExactly` | services/pool-verifier/src/second_chance.rs:391-406 | without rounding, exceeded iff 100 * unknown > tolerance * total and the total is not 0 |
| `SecondChance.Gather` | services/pool-verifier/src/second_chance.rs:668-777 | the gathered answer is the one for some enumeration of the unknowns the walk did not resolve |
| `SecondChance.Adjudicate` | services/pool-verifier/src/second_chance.rs:433-467 | saturating tallies of the four classes and the first 32 proven-absent txids |
| `SecondChance.RunLookup` | services/pool-verifier/src/ingress.rs:45-156 | the lookup as it runs gives the judged outcome for some enumeration order |
| `BlockWalk.WalkTrace` | services/pool-verifier/src/second_chance.rs:791-871 | under arbitrary replies the walk's result is explained by the blocks it followed; complete only on a covered range |
| `BlockWalk.WalkSixCalls` | services/pool-verifier/src/second_chance.rs:57-68 | for any replies at all, no getblock reply after the sixth can affect the walk |
| `BlockWalk.CoversEverything` | services/pool-verifier/src/second_chance.rs:833-857 | on an honest chain a covered range is every block at or above the height, no more and no fewer |
| `BlockWalk.WalkExact` | services/pool-verifier/src/second_chance.rs:778-871 | with no failing call: complete iff the gap is at most 6, then exact in count and txids; else truncated at exactly 6 |
| `Evidence.AdjudicationShares` | services/pool-verifier/src/second_chance.rs:433-482 | the four counts share out the unknowns, each stated by membership alone |
| `Evidence.NotProvenKnownCounts` | services/pool-verifier/src/second_chance.rs:408-418 | the deciding count depends on the proven sets alone and never exceeds the first-pass unknown count |
| `Evidence.ExceedsMonotone` | services/pool-verifier/src/second_chance.rs:391-406 | under monotone rounding, more unknowns never fall back within tolerance |
| `Evidence.WithdrawnStable` | services/pool-verifier/src/ingress.rs:58-67 | every answer with larger mempool and block sets also withdraws |
| `Evidence.WithdrawnEarned` | services/pool-verifier/src/ingress.rs:58-67 | a withdrawn first-pass rejection has an unknown that bitcoind holds or has mined |
| `Evidence.RequestCarries` | services/pool-verifier/src/second_chance.rs:743-756 | the request a position's reply is matched with carried that position's txid, in display order |
| `Evidence.RequestsSent` | services/pool-verifier/src/second_chance.rs:726-756 | the c-th call carries the next 250 txids, or what is left, each in display order |
| `Evidence.UpheldExactly` | services/pool-verifier/src/ingress.rs:57-155 | upheld iff in time, loaded, non-empty, every call answered, walk complete, nothing unadjudicated, and over tolerance on the proven absent |
| `Evidence.UpheldSound` | services/pool-verifier/src/ingress.rs:68-133 | for every reply behaviour, an upheld outcome has covered blocks, one attributable reply for each other unknown, and counts exactly the -5 replies |
| `Evidence.UpheldHonest` | services/pool-verifier/src/second_chance.rs:97-144 | on an honest chain nothing an upheld outcome counts was mined at or above the template height |
| `Evidence.TargetedTallies` | services/pool-verifier/src/second_chance.rs:469-482 | the two forms' tallies differ exactly by the unknowns held in both places, moved from in-mempool to mined |
| `Evidence.TargetedRefinesWhole` | services/pool-verifier/src/second_chance.rs:719-766 | probing a truthful node decides as comparing with the whole mempool, for every enumeration order; the two adjudications are equal iff no unknown is both in the mempool and in a walked block |
| `Evidence.CountsDiffer` | services/pool-verifier/src/second_chance.rs:726-766 | a truthful node on an honest chain, and a template, for which the two counts do differ |
| `Evidence.OutcomeIsTruth` | services/pool-verifier/src/ingress.rs:45-156 | against an honest chain and a truthful mempool with nothing failing: withdrawn iff the truly absent are within tolerance, upheld iff over it and the gap at most 6, failed iff over it and the gap larger |
| `Evidence.RecordFaithful` | services/pool-verifier/src/second_chance.rs:550-608 | recorded samples parse back to proven-absent unknowns, the counts are the answer's, and a failed lookup's record claims nothing |
| `Evidence.TruthInPercent` | services/pool-verifier/src/second_chance.rs:391-406 | the truly absent are over tolerance iff 100 times their number exceeds the tolerance times the total |
| `Outcome.TalliesByReply` | services/pool-verifier/src/second_chance.rs:433-482 | the four counts by the replies: walked, reported held, reported missing, not settled |
| `Outcome.OutcomeByReplies` | services/pool-verifier/src/ingress.rs:45-156 | for every reply behaviour: when a rejection is withdrawn, when upheld, and otherwise which of the six reasons is named and why |
| `Outcome.FailedCallFailsLookup` | services/pool-verifier/src/second_chance.rs:743-756 | a transport error on the c-th call, the earlier ones answered, is a failed lookup with that error whatever was answered |
| `Outcome.RecordByReplies` | services/pool-verifier/src/second_chance.rs:550-608 | every field of the durable record, decided or failed, by the replies: counts, blocks, tip, shortfall and the first 32 missing txids |
| `MempoolView.View.InstallAt` | services/pool-verifier/src/mempool_view.rs:190-212 | a non-empty set is installed with its time, an empty one refused and counted, and the fields stay what the history of offers says |
| `MempoolView.View.TakeSnapshot` | services/pool-verifier/src/mempool_view.rs:137-160 | the snapshot is the one the history calls for at that time |
| `MempoolView.SnapshotServes` | services/pool-verifier/src/mempool_view.rs:114-212 | unprimed iff nothing non-empty was ever offered; otherwise the last non-empty offer is served, with its size and its age in whole seconds |
| `MempoolView.StateBoundaries` | services/pool-verifier/src/mempool_view.rs:140-153 | the exact millisecond at which Fresh ends and Degraded begins, for every u64 budget |
| `MempoolView.AgesOneWay` | services/pool-verifier/src/mempool_view.rs:137-212 | with only refusals in between, time moves a view Fresh to Stale to Degraded and keeps its set |
| `MempoolView.Evaluate` | services/pool-verifier/src/mempool_view.rs:302-352 | the check's loop finds exactly the template txids the view lacks, in order, and decides on their ratio |
| `MempoolView.CheckedExactly` | services/pool-verifier/src/mempool_view.rs:302-352 | without rounding, a served view rejects iff 100 * unknown > tolerance * total; else it agrees with the count, or tells its age when stale; others are skipped |
| `MempoolView.UnknownInOrder` | services/pool-verifier/src/mempool_view.rs:329-342 | the unknowns keep the template's order and repetitions |
| `Policy.ClassMAdditive` | services/pool-verifier/src/policy.rs:1256-1318 | Phase 2 is Phase 1 apart from attribution, unless Class M rejects: exactly when Phase 1 accepted and the served view misses too much, carrying exactly the missing txids |
| `Policy.FloorDivisionStrict` | services/pool-verifier/src/policy.rs:485-496 | floor(fees / txs) < min iff fees < min * txs |
| `Policy.TierExactly` | services/pool-verifier/src/policy.rs:700-720 | the tier and floor reported are the configured ones for the mempool size, by the two thresholds and the unknown-mempool switch |
| `Policy.AcceptedExactly` | services/pool-verifier/src/policy.rs:1361-1432 | accepted iff every other check passes and the fees pay the floor of the configured tier: the mempool size enters nowhere else |
| `Policy.AcceptanceAntitone` | services/pool-verifier/src/policy.rs:634-720 | under a validated policy, acceptance carries to every smaller mempool, and from unknown-as-high to every size |
| `Policy.ReasonsSoundAndComplete` | services/pool-verifier/src/policy.rs:372-605 | a reported reason's condition is true of the template, and a template is accepted iff no reason's condition is |
| `Policy.FirstReasonReported` | services/pool-verifier/src/policy.rs:1361-1432 | of several broken rules the first is reported, in the order policy, raw block, block checks, mempool |
| `Policy.AttributionExactly` | services/pool-verifier/src/policy.rs:1263-1318 | whether Class M ran and what it made of the view: agreed, stale, degraded, unprimed or rejected; and when the shield was skipped |
| `Policy.StrictDemoFloors` | config/demo-strict-policy.toml:1-28 | the demonstration policy is valid, and its floors accept or refuse a template by mempool size |
| `Policy.WarningsAreObserved` | services/pool-verifier/src/policy.rs:515-605 | a result's warnings are exactly the findings observed and not enforced, in order, as far as the checks got |
| `Verdict.FinalVerdict` | services/pool-verifier/src/ingress.rs:1127-1179 | with or without a mempool view, the verdict accepts iff Phase 1 does and Class M did not reject or was withdrawn; otherwise it carries Phase 1's reason or Class M's |
| `Verdict.RecoveryEarned` | services/pool-verifier/src/ingress.rs:1139-1177 | a recovered template has a transaction the view missed that one unambiguous mempool entry answered for, or that a followed block holds |
| `Verdict.DetectionBacked` | services/pool-verifier/src/ingress.rs:1149-1179 | a verdict recorded as upheld is backed end to end for the template's own transactions |
| `Verdict.VerdictIsTruth` | services/pool-verifier/src/ingress.rs:1127-1179 | against the same ground truth, a template is accepted iff Phase 1 accepts and it is not over tolerance both for the view and for bitcoind |
| `RateLimiter.AdmittedExactly` | services/reservegrid-common/src/rate_limit.rs:99-148 | admitted iff fewer than the ceiling of anyone's, and fewer than the limit of its own since its last eviction, were admitted within the window |
| `RateLimiter.IpWindowBound` | services/reservegrid-common/src/rate_limit.rs:1-8 | on any run, no half-open window holds more of an IP's admissions than its limit, once more per eviction of that IP since the window began |
| `RateLimiter.GlobalWindowBound` | services/reservegrid-common/src/rate_limit.rs:107-117 | on any run, evictions included, no half-open window holds more than the ceiling |
| `RateLimiter.EvictionForgets` | services/reservegrid-common/src/rate_limit.rs:191-201 | right after its eviction an IP is admitted iff its limit is not zero and the ceiling does not refuse |
| `RateLimiter.WaitInRange` | services/reservegrid-common/src/rate_limit.rs:89-98 | every denial's wait is positive and at most a window |
| `RateLimiter.RetryExact` | services/reservegrid-common/src/rate_limit.rs:89-98 | with a fixed limit and no ceiling, a retry is admitted iff the limit is not zero and the wait has run out |
| `RateLimiter.CeilingRetryExact` | services/reservegrid-common/src/rate_limit.rs:89-98 | after a ceiling denial and with no admission since, the ceiling stops refusing iff it is not zero and the wait has run out |
| `RateLimiterImpl.PruneWindow` | services/reservegrid-common/src/rate_limit.rs:172-180 | popping from the front leaves exactly the entries younger than the window |
| `RateLimiterImpl.EvictOldest` | services/reservegrid-common/src/rate_limit.rs:192-201 | removes one IP whose latest request is minimal and touches no other window |
| `RateLimiterImpl.Limiter.TryAdmit` | services/reservegrid-common/src/rate_limit.rs:99-148 | the decision is the plain log's, a denial records nothing, an admission is recorded and may evict; the cap on tracked IPs is exceeded iff a limit of 0 refuses an untracked IP at the cap, and windows stay non-empty exactly as stated |
| `RateLimiterImpl.Limiter.Cleanup` | services/reservegrid-common/src/rate_limit.rs:154-169 | drops exactly the IPs idle for two windows and changes no later decision |
| `RateLimiterImpl.Limiter.WindowHolds` | services/reservegrid-common/src/rate_limit.rs:29-49 | the window laws hold of the implementation after any sequence of calls |
| `RateLimiterImpl.ZeroLimitTracksAll` | services/reservegrid-common/src/rate_limit.rs:119-134 | n addresses refused at limit 0 leave n tracked under any cap |
| `PerIp.DropUndoesAccept` | services/reservegrid-common/src/per_ip.rs:67-130 | dropping a permit restores the map exactly, within the ceiling, touching no other address |
| `PerIp.Tracker.TryAccept` | services/reservegrid-common/src/per_ip.rs:106-130 | accepts iff below the ceiling or the ceiling is disabled, adds one to that address alone, and counts only what it accepts |
| `PerIp.Tracker.Release` | services/reservegrid-common/src/per_ip.rs:67-82 | takes one from that address alone, removes at zero, ignores an absent entry |
| `Admission.RunConserves` | services/pool-verifier/src/ingress.rs:502-575 | permits, gauge and per-IP counts account for exactly the connections holding them, under every interleaving |
| `Admission.QuiescentAccounts` | services/pool-verifier/src/ingress.rs:717-735 | between accepts and drops: free plus live is the cap, gauge is live, each count is its live slots, an entry iff one exists; ceiling 0 keeps the map empty |
| `Admission.MapBound` | services/reservegrid-common/src/per_ip.rs:30-37 | the map never exceeds the cap plus the connections between their two permit drops |
| `Admission.RunCountedWithin` | services/pool-verifier/src/ingress.rs:516-575 | in every run on w workers at most the cap plus w - 1 connections are counted |
| `Admission.MapBoundedExactly` | services/reservegrid-common/src/per_ip.rs:30-37 | over all runs on w workers the map stays within a bound iff the cap or the ceiling is 0 or the bound is at least the cap plus w - 1 |
| `Admission.ShedAtCeiling` | services/pool-verifier/src/idle_stream.rs:134-140 | in any reachable state a shed is decided only at an address exactly at its ceiling |
| `Admission.NextShedExactly` | services/pool-verifier/src/ingress.rs:349-351 | along every interleaving after a possible shed, a live connection of the address can shed iff as many were counted there since as uncounted |
| `Admission.ShedsTogether` | services/pool-verifier/src/ingress.rs:349-351 | for any n up to the workers, a run on them from the start in which n connections of one full address decide to shed before any slot is released |
| `Admission.OneAtATimeExactly` | services/pool-verifier/src/ingress.rs:349-351 | no shed of an address comes before an earlier one has released its slot, in any run on w workers, iff the cap is 0, w or the ceiling is at most 1, or the ceiling exceeds the cap plus w - 1 |
| `Admission.ReleasedBeforeNext` | services/pool-verifier/src/ingress.rs:349-351 | once a connection of the address is uncounted and none counted since, whatever is interleaved, no connection there can shed |
| `Admission.Ingress.Accept` | services/pool-verifier/src/ingress.rs:516-575 | one turn of the accept loop: either refusal changes nothing, an admission is the three steps in order |
| `Admission.Ingress.Drop` | services/pool-verifier/src/ingress.rs:725-735 | a dropped slot gives back gauge, permit and count, in that order |
| `IdleStream.HeartbeatCadence.Observe` | services/pool-verifier/src/idle_stream.rs:193-202 | a heartbeat's effect on the counter and on the shared threshold |
| `IdleStream.IdleTimeout.Progress` | services/pool-verifier/src/idle_stream.rs:246-259 | bytes move the deadline to the first look after them |
| `IdleStream.IdleTimeout.PollNoProgress` | services/pool-verifier/src/idle_stream.rs:264-305 | the re-arming loop ends, reaps, sheds or re-arms strictly in the future |
| `IdleStream.NeverPastIdle` | services/pool-verifier/src/idle_stream.rs:246-303 | over any run the deadline never passes last progress plus the idle budget |
| `IdleStream.PollExactly` | services/pool-verifier/src/idle_stream.rs:264-303 | when one wake reaps, when it sheds, and otherwise when the next look is |
| `IdleStream.WakeEndsOrReArms` | services/pool-verifier/src/idle_stream.rs:264-303 | after any run, a wake at or past the idle budget reaps, and one that ends nothing re-arms in the future |
| `IdleStream.SilentEnds` | services/pool-verifier/src/idle_stream.rs:33-43 | a silent connection at an address full from F ends by its armed deadline, its threshold or F plus 500 ms, whichever is last |
| `IdleStream.SilentEndsUnlowered` | services/pool-verifier/src/idle_stream.rs:94-98 | with a threshold not lowered since arming: by max(last progress + threshold, F) + 500 ms |
| `IdleStream.EstimateIsUpperBound` | services/pool-verifier/src/idle_stream.rs:152-202 | after n >= 4 heartbeats read however late, and an accept up to D late, the learned threshold is at least the floor for H and D |
| `IdleStream.PunctualFloor` | services/pool-verifier/src/idle_stream.rs:152-164 | with the clocks started together that floor is max(2H, 3 s) |
| `IdleStream.LateAcceptExactly` | services/pool-verifier/src/idle_stream.rs:165-169 | over plaintext no learnable threshold is below the interval iff H is at most 3 s or the accept at most 1.5 H late: always at 2 s, up to 7.5 s at 5 s |
| `IdleStream.LearnedExactly` | services/pool-verifier/src/idle_stream.rs:193-202 | the n-th heartbeat read D after n - 1 intervals teaches max(2 (H + D / (n - 1)), 3 s) in whole milliseconds |
| `IdleStream.ThresholdIs` | services/pool-verifier/src/idle_stream.rs:193-202 | after any run the threshold is the fallback before the fourth heartbeat and what the last one taught after it |
| `IdleStream.EstimateIsTight` | services/pool-verifier/src/idle_stream.rs:152-202 | over any run with reads at most D late, the threshold is at most max(2H + 2 (D / (n - 1)), 3 s) |
| `IdleStream.LearnedGatewayEnds` | services/pool-verifier/src/idle_stream.rs:33-43 | a learned gateway gone silent at a full address ends by that bound after its last bytes, or half a second after the address fills |
| `IdleStream.LiveGatewayNeverEnded` | services/pool-verifier/src/idle_stream.rs:44-59 | in every run of a live gateway, accepted however late, neither flag is ever set, however long the address stays full |
| `IdleStream.LiveGapExactly` | services/pool-verifier/src/idle_stream.rs:264-303 | a silence bound keeps every run of a live gateway from being ended iff it is at most the live gap |
| `IdleStream.OpenedGap` | services/pool-verifier/src/ingress.rs:638-664 | for an admitted connection the live gap is min(idle, max(idle / 4, 10 s), learned floor), for every idle budget, and the idle budget when the ceiling is disabled |
| `IdleStream.UnlearnedUntilFour` | services/pool-verifier/src/idle_stream.rs:193-197 | before the fourth heartbeat the threshold is the fallback unchanged |
| `IdleStream.ShortIdleNeverSheds` | services/pool-verifier/src/idle_stream.rs:103-111 | at an idle budget of 10 s or less, an unlearned connection is never shed in any run |
| `Framing.ReadLineExactly` | services/pool-verifier/src/ingress.rs:842-858 | each verdict by what lies ahead: over-limit iff a budget's worth of newline-free text is there |
| `Framing.ReadLoop` | services/pool-verifier/src/ingress.rs:894-911 | the read loop yields exactly the session of the stream |
| `Framing.SessionFaithful` | services/pool-verifier/src/ingress.rs:837-911 | lines concatenate to a prefix of the stream, all of it on a clean end; each is whole and within the budget, only the last may lack a newline; the end is the one the rest calls for |
| `Framing.FramingRoundTrip` | services/pool-verifier/src/ingress.rs:837-911 | newline-free lines under the budget, written terminated, are read back exactly; what follows the last newline is one more line, over the limit or not text, as its length and bytes say |

## Left out

- rg_consensus: block parsing and the merkle, witness and sigops re-derivations are inputs (`BlockFacts`), not modelled.
- IEEE-754: the tolerance ratio is taken under an arbitrary `rnd`; the weight and sigops ratios are exact reals; NaN tolerances are not represented.
- Mutex poisoning and panics: every lock is taken successfully.
- HTTP, TLS, keepalive, JSON and TOML: replies, lines and configuration arrive decoded; a TLS handshake timeout is one more way to close.
- Detail strings and log samples: reasons, counts and recorded samples are modelled, their formatting is not.
- Admission.Enabled: a shed needs a full address and no silence, so the runs exhibited for overlapping sheds are of the accounting alone; the silence a shed takes is modelled in `IdleStream`, and the two models are not joined.
- Admission.Ingress.Accept: runs without interleaving; the interleavings are the step system's, which it is proved to follow.
- IdleStream.IdleTimeout.PollNoProgress: one clock reading for the whole loop; a clock that advances inside one poll is not modelled.
- IdleStream.LiveGatewayNeverEnded: silence is bounded at each wake of the socket, which is where the code measures it.
- Policy: the warnings vector is a returned value rather than a caller's vector pushed into.
- rg-auth, the dashboards, the feed services, the gateway and verdict persistence: mostly plumbing and user interface around library code.
