# InfraScope: verified models of the stateful protocols

InfraScope monitors shop hardware and also acts on it: it power-cycles access points over
PoE, clears DHCP tables on switches, books cartridges and raises alerts for cash registers.
This project models the small stateful protocols around those actions in Dafny and proves
what they keep over whole runs. `dafny verify dfyconfig.toml` checks everything.

Code that changes state step by step is modelled by classes and methods whose `ensures` tie
the new state to a specification function of the old one; protocols with several actors are
step relations, and the main results hold for every run of them.

| file | what it models |
|---|---|
| Wrappers, Arithmetic | the option type; functions several modules share |
| RedisStore, SwitchLease, LeaseProtocol | Redis keys with expiry; the lease of the live-switch tasks; any number of deliveries, crashes, lost requests, lost replies and clock ticks |
| RedisLock | the renewable owner-token lock, as tenures over whole histories |
| MlCycleLock | the ML cycle lock with its two-step release |
| PollResilience | confirm-offline, the circuit breaker, and the real-time bound on attempts |
| BoundedCache | the TTL/LRU cache, against a timed map |
| Reachability | the sync and async TCP probes, two loop nests in transposed order |
| DnsMessage | building, skipping and parsing DNS messages (section 4.1 of RFC 1035) |
| ApRegistry, ApReboot, SwitchHealth | the AP registry; one reboot cycle with its target loop; the switch-level counters |
| ApTrace | what one cycle sends to the switch, and when it cycles an AP or a port twice |
| ApHarm, ApHarmExact, ApRefinement | many overlapping cycles on one clock; runs that attain the bounds; one cycle as a path of them |
| CartridgeStock, CartridgeInventory | the cartridge ledger, the printer synchronisation, inventory reconciliation |
| CartridgeDemand | how many cartridges are due within a horizon |
| HonestSignTargets, HonestSignAlerts | targets, IP overrides and register matching; the alert latch |
| DhcpClear | who serves DHCP, the clear plan and its execution |

## Where the code departs from its documentation

The model follows the code. Each point below is a lemma, and where a promise fails it comes
with the exact condition under which it holds.

- The async probe is documented as giving the sync probe's verdict. It does exactly when the
  first attempt with a decisive connect is uncontested (`Reachability.VerdictsAgreeIff`);
  a dead route next to an open port, and an empty port list (the async probe raises
  `IndexError`), are inputs on which they differ (`Reachability.ProbesCanDiffer`).
- `_build_dns_query` accepts labels of up to 255 characters, but the skipping code takes a
  length byte from 192 on for a compression pointer: skipping a built query's name lands on
  its last four bytes if and only if all labels are shorter than 192
  (`DnsMessage.QuerySkipsToItsTail`; `DnsMessage.LongLabelIsMisread` is a whole family of
  queries on which it does not). A longer label than 255 raises `OverflowError`
  (`DnsMessage.QueryNameIsEncodedLabels`).
- The switch's "no APs found for N consecutive cycles" count is not consecutive: an
  unreachable cycle does not reset it. It is the number of empty scans a history ends in if
  and only if no unreachable cycle follows an empty scan since the last good cycle
  (`SwitchHealth.NoApsIsConsecutiveIff`; `SwitchHealth.LatchWithoutConsecutiveEmpties` is a
  history with the latch up and no two empty scans in a row).
- "Excluded after `threshold` failed cycles" (at least one) bounds the PoE-cycles of one AP, when
  every outcome is registered, if and only if cycles never overlap - a manual run takes the
  switch-write lock, a scheduled one the task lease - and no scan names an AP more often than the
  threshold, or the threshold is beyond what seven days, or one plan, have room for in each cycle
  (`ApHarmExact.ThresholdIsTheBoundIff`). For `cycles` that may overlap and scans that name an AP
  at most r times - an AP on two ports is named twice - the least bound is
  max(threshold, r) + (cycles - 1) * r, as long as seven days have room for the threshold
  (`ApHarmExact.PlainTollIsExact`; `ApHarmExact.LosslessHarmIsExact` for any threshold). A cycle
  that dies between the PoE command and the registration of its outcome, as the task's soft
  time limit allows, is never counted: then only the seven days after which a silent AP is no
  longer planned set a limit, whatever the threshold (`ApHarmExact.LossyHarmIsExact`,
  `ApHarmExact.ThresholdIsTheBoundDespiteLossesIff`).
- A new MAC that a scan names twice breaks the registry's unique constraint: the cycle raises
  before it has sent anything (`ApReboot.RunCycle`). On every other scan a cycle power-cycles one
  AP twice, for some settings and power readings, if and only if two usable entries of the scan
  share a MAC that is not excluded (`ApTrace.NoApTwiceIff`).
- The command goes to a port, not to an AP. On a scan that keeps the unique constraint, a port is
  cycled twice, for some settings and power readings, if and only if two qualifying live entries
  or silent rows sit on it (`ApTrace.NoPortTwiceIff`), and any port that one of these names can be
  cycled, whoever is connected there now (`ApTrace.CanCyclePortIff`): an excluded AP that is up
  loses its power when a silent row still remembers its port (`ApTrace.ExcludedApIsCutOff`).
- The ML lock reads the key and deletes it with two commands. A DEL sent d seconds after its
  run entered is safe in every history whose other DELs are in time if and only if d is below
  the lock's 1900 seconds (`MlCycleLock.DeleteIsSafeIffInTime`).
- The stored poll state outlives every open circuit by a minute when polls are gated by
  `is_circuit_open`. Without the gate it does in every run if and only if the plain TTL covers
  the base window and a minute, as the shipped settings do (`PollResilience.MarginWithoutGate`);
  when the EXPIRE of the poll that opens the circuit is lost, if and only if the expiry set by
  the poll before happens to reach as far (`PollResilience.LostExpireKeepsMarginIff`), which no
  settings ensure (`PollResilience.ExpireIsNeeded`).
- IP overrides keep Honest Sign targets apart for a fixed configuration; an entry added to the
  configuration later can be checked at an address an override already uses
  (`HonestSignTargets.ALaterEntryCanCollide`, with the exact condition in
  `HonestSignTargets.AddedEntryIsSeparatedIff`).

## Assumptions

- Tokens and owner ids are fresh: no two deliveries draw the same one. A key is live while
  `now < expiresAt`. Scopes and switch ids hold no colon, which makes the key names injective.
- Time is whole seconds in the Redis models and a real number in the cache; rates and days are
  real numbers.
- A listing without ORDER BY may return its rows in any order; the registry's is a parameter.
  Cartridge rows are listed in creation order, which decides only the order of movements.
- All registry rows are active (nothing in the source clears that flag). Each scan, reply,
  power draw and connect is an arbitrary oracle. In ApHarm a PoE command keeps its cycle busy
  for at least `seconds`, and a scan names one MAC at most `repeats` times; both are parameters
  (the source holds the power off for five seconds; the CDP parser removes no repetitions).
- A commit is atomic and a rollback restores what was there.

## Model

| member | source | states |
|---|---|---|
| `SwitchLease.EvalAcquire` | app/worker/tasks.py:126-173 | the check-and-lock script: refused for a live marker, then for a live lock, otherwise the lock is stored under the caller's token, all in one step |
| `SwitchLease.EvalMark` | app/worker/tasks.py:79-98 | the mark script writes the marker and drops the lock only for the token that still holds it, and otherwise changes nothing |
| `SwitchLease.Lease.MarkAttempted` | app/worker/tasks.py:79-98 | marking under a lost request changes nothing, under a lost reply takes effect all the same; the zero dedup window falls back to the default |
| `SwitchLease.MarkLasts` | app/worker/tasks.py:79-98 | a mark by the holder keeps the marker live exactly for the lease's own dedup window, or the default one when that is zero, and drops the lock |
| `SwitchLease.AcquireSwitchLease` | app/worker/tasks.py:126-173 | a lease exactly when the claim was made and its reply arrived; which refusal each other case gives; fails closed on an error although the lock may be stored |
| `SwitchLease.RunSwitchTask` | app/worker/tasks.py:394-428 | however the body ends, a run that got the lease marks and closes it; a refused run leaves Redis alone |
| `SwitchLease.NamesAreInjective` | app/worker/tasks.py:129-130 | the key strings of different locks and markers never coincide |
| `LeaseProtocol.AtMostOnce` | app/worker/tasks.py:79-98 | in every run, a second claim of one (scope, switch, cycle) comes no sooner than the dedup window after the first one's mark, or than the lock window after its claim when that mark never took effect |
| `LeaseProtocol.MutualExclusion` | app/worker/tasks.py:126-173 | two runs of one switch are at work together only if the first has outlived its lock window |
| `LeaseProtocol.LateOwnerIsHarmless` | app/worker/tasks.py:80-98 | a mark past the lock window changes nothing, and no mark deletes a successor's lock or writes another task's marker |
| `LeaseProtocol.RefusedOnlyForAReason` | app/worker/tasks.py:142-173 | the verdict of a delivery in any reachable state, both directions, from the history of runs alone |
| `LeaseProtocol.StepsAreTheScripts` | app/worker/tasks.py:79-173 | the protocol's steps do to Redis what the lease's methods do, also when a request or a reply is lost (elementary) |
| `RedisLock.Acquire` | app/core/redis_lock.py:24-29 | stored exactly when the key was free; an error is reported although the lock may be stored |
| `RedisLock.Release` | app/core/redis_lock.py:32-38 | deletes the key only for its present owner |
| `RedisLock.Renew` | app/core/redis_lock.py:41-51 | extends the expiry only for the present owner; an error is told apart from a lost lock |
| `RedisLock.TenuresAreDisjoint` | app/core/redis_lock.py:9-51 | ownership intervals of one key never overlap, and the holder at any time is the owner whose interval contains it, both ways |
| `RedisLock.ForeignStepsLeaveNoTrace` | app/core/redis_lock.py:9-21 | striking a renew or release by a non-holder from a history changes no later state |
| `RedisLock.HeldThroughout` | app/core/redis_lock.py:24-51 | who holds a key after acquiring it has held it at every step in between |
| `RedisLock.RenewTrueMeansNoGap` | app/core/redis_lock.py:41-51 | a renew that returns True proves possession without a gap since the acquire |
| `RedisLock.InTimeRenewSucceeds` | app/core/redis_lock.py:9-51 | before the expiry of an effective acquire, a healthy renew by its owner returns True whatever the other clients did |
| `RedisLock.StepsAreTheOperations` | app/core/redis_lock.py:9-51 | the history's steps do to Redis what the three operations do (elementary) |
| `MlCycleLock.CycleLock.Enter` | app/worker/tasks.py:523-541 | taken when free; on an error the run goes ahead without a token although the lock may be stored; the same functions make up the protocol's step |
| `MlCycleLock.CycleLock.ReadsOwnToken` | app/worker/tasks.py:543-545 | the release goes on exactly when the run has a token and reads it back |
| `MlCycleLock.CycleLock.DeleteLock` | app/worker/tasks.py:546 | the unconditional DEL, the store of the protocol's Delete step |
| `MlCycleLock.InTimeReleaseIsSafe` | app/worker/tasks.py:516-548 | while no DEL comes past its run's window, a DEL finds its own run's lock, and two holders never overlap within their windows |
| `MlCycleLock.UnlockedRunNeverWrites` | app/worker/tasks.py:536-546 | in every history, no step of a run that went ahead without a lock, or was turned away, changes what Redis holds |
| `MlCycleLock.DeleteIsSafeIffInTime` | app/worker/tasks.py:543-546 | a DEL sent d seconds after entering takes nobody else's lock, in every history whose other DELs are in time, if and only if d is below the lock's lifetime |
| `PollResilience.ClosedForm` | app/services/poll_resilience.py:35-70 | after any probes: online iff the trailing failures are fewer than the confirmations, and the circuit counter is the best suffix balance of errors against plain failures, floored at zero |
| `PollResilience.ResilienceStore.IsCircuitOpen` | app/services/poll_resilience.py:105-117 | open exactly when the stored deadline lies ahead; fails open |
| `PollResilience.ResilienceStore.ApplyPollOutcome` | app/services/poll_resilience.py:120-184 | the stored hash, its TTL and the verdict after one poll, for every point at which Redis can fail; other entities untouched |
| `PollResilience.EventMeaning` | app/services/poll_resilience.py:45-70 | when each of the five events is counted (elementary) |
| `PollResilience.VerdictMeaning` | app/services/poll_resilience.py:35-150 | the verdict of one poll from the stored failures, the previous flag and the probe; when the read fails, from the last two alone |
| `PollResilience.StoredMeaning` | app/services/poll_resilience.py:50-180 | both counters, the circuit deadline and the expiry after one poll, field by field, for every point at which Redis can fail |
| `PollResilience.StoredRunIsTracked` | app/services/poll_resilience.py:120-184 | while the state does not expire, the machine that lives in Redis is the pure one |
| `PollResilience.GatedRunKeepsMargin` | app/services/poll_resilience.py:155-180 | in every gated run the hash expires at least 60 s past any open circuit's deadline, whatever the settings |
| `PollResilience.OpenCircuitIsHonoured` | app/services/poll_resilience.py:105-117 | corollary of the margin: in a gated run the gate reads an opened circuit as open at every second of its window, and the next poll comes no sooner than its end |
| `PollResilience.MarginWithoutGate` | app/services/poll_resilience.py:155-180 | every ungated run keeps that margin if and only if the plain TTL covers the base window and a minute |
| `PollResilience.LostExpireKeepsMarginIff` | app/services/poll_resilience.py:175-180 | after a lost EXPIRE the margin holds if and only if the expiry left by the poll before reaches a minute past the new deadline, or there is none |
| `PollResilience.ExpireIsNeeded` | app/services/poll_resilience.py:175-180 | for all settings, a gated run that a lost EXPIRE robs of the margin |
| `PollResilience.ClampIsInvisible` | app/services/poll_resilience.py:73-88 | the exponent clamp of 20 changes no open window if and only if the cap is within 20 doublings of the base |
| `PollResilience.WindowReachesCap` | app/services/poll_resilience.py:73-88 | the window is the cap from ceil(log2(cap/base)) failures past the threshold on |
| `PollResilience.AttemptsAreBounded` | app/services/poll_resilience.py:73-180 | a device whose every probe errors is attempted at most K + ceil(log2(cap/base)) + T/cap times in any T seconds |
| `BoundedCache.Cache.Lookup` | app/core/bounded_cache.py:29-40 | a hit moves the entry to the end, an expired entry is dropped and missed |
| `BoundedCache.Cache.Set` | app/core/bounded_cache.py:42-49 | expired entries go first, then the oldest until the size fits |
| `BoundedCache.Cache.RemoveExpired` | app/core/bounded_cache.py:61-64 | exactly the unexpired entries stay, in their order |
| `BoundedCache.Cache.Length` | app/core/bounded_cache.py:55-59 | the number of unexpired entries, after dropping the others |
| `BoundedCache.NeverOverfull` | app/core/bounded_cache.py:42-49 | in any history: at most maxsize entries, one per key |
| `BoundedCache.HeldIsLastSet` | app/core/bounded_cache.py:29-64 | whatever is held for a key is what its last set stored |
| `BoundedCache.HitIsLastSetUnexpired` | app/core/bounded_cache.py:29-40 | a hit is the value of the key's last set, less than the TTL ago |
| `BoundedCache.Retained` | app/core/bounded_cache.py:29-64 | an unexpired key since whose last touch fewer than maxsize other keys were touched is still held, with its last value |
| `BoundedCache.EvictedIsLeastRecent` | app/core/bounded_cache.py:42-49 | a live entry is evicted only when the cache is full of live entries touched more recently |
| `Reachability.ProbeHostPorts` | app/domains/inventory/reachability.py:104-172 | the port-by-port loop nest, against its first decisive connect |
| `Reachability.ProbePortsConcurrently` | app/domains/inventory/reachability.py:269-294 | for any completion order: none as soon as a connect is accepted, otherwise each finished port with its own reason |
| `Reachability.ProbeHostPortsAsync` | app/domains/inventory/reachability.py:191-255 | the attempt-by-attempt loop nest under any completion orders |
| `Reachability.SyncScanMeaning` | app/domains/inventory/reachability.py:142-172 | the sync probe stops on a decisive connect iff there is one anywhere |
| `Reachability.AsyncScanMeaning` | app/domains/inventory/reachability.py:242-255 | the async probe stops at the first attempt that has a decisive connect, on one of them |
| `Reachability.VerdictsAgreeIff` | app/domains/inventory/reachability.py:142-255 | both probes agree for every completion order if and only if the first decisive attempt is uncontested |
| `Reachability.SyncVerdictMeaning` | app/domains/inventory/reachability.py:123-172 | the sync verdict in terms of the connects alone: the first accepted or routeless connect, port by port, or else the last port's last failure |
| `Reachability.AsyncVerdictMeaning` | app/domains/inventory/reachability.py:217-255 | the async verdict likewise: the first such connect to complete, attempt by attempt, or else the last port's last failure; none for an empty port list |
| `Reachability.AsyncMatchesSync` | app/domains/inventory/reachability.py:142-255 | the same flag and reason whenever "no route" is met by every connect or by none |
| `Reachability.ProbesCanDiffer` | app/domains/inventory/reachability.py:242-255 | inputs on which the probes disagree |
| `DnsMessage.SkipDnsName` | app/services/hostname_resolver.py:191-199 | the skipping loop, on arbitrary bytes |
| `DnsMessage.ParseDnsARecord` | app/services/hostname_resolver.py:162-188 | the parsing loops never read past the end, on arbitrary bytes |
| `DnsMessage.AnswerIsInsidePayload` | app/services/hostname_resolver.py:162-188 | an answer is four consecutive payload bytes behind the header |
| `DnsMessage.ParseInvertsEncode` | app/services/hostname_resolver.py:162-188 | parsing any well-formed reply, with label or compressed names and any question and record counts, gives the rdata of its first A/IN record of length four, or none |
| `DnsMessage.SkipsEncodedName` | app/services/hostname_resolver.py:191-199 | skipping starts where an encoded name starts and ends where it ends, inside any bytes |
| `DnsMessage.QueryNameIsEncodedLabels` | app/services/hostname_resolver.py:148-159 | when a query is built at all, and that its name is the encoding of the labels |
| `DnsMessage.SplitInvertsJoin` | app/services/hostname_resolver.py:150 | splitting at dots loses nothing |
| `DnsMessage.QuerySkipsToItsTail` | app/services/hostname_resolver.py:148-199 | skipping a built query's name from offset 12 lands on its last four bytes if and only if every label is shorter than 192 |
| `DnsMessage.LongLabelIsMisread` | app/services/hostname_resolver.py:148-199 | every single ASCII label of 192 to 255 characters gives a built query whose name is not skipped to its end |
| `DnsMessage.QueryIsAWellFormedMessage` | app/services/hostname_resolver.py:148-159 | a built query is the one-question message for the hostname, type A, class IN |
| `DnsMessage.QueryBytes` | app/services/hostname_resolver.py:148-159 | when a query is built, its twelve header bytes, and the five bytes behind the labels |
| `DnsMessage.QueryNameFailure` | app/services/hostname_resolver.py:148-156 | which label keeps a query from being built, and whether that raises |
| `DnsMessage.NonEmptyMeaning` | app/services/hostname_resolver.py:150 | the labels are all the non-empty parts, in order |
| `ApRegistry.Registry.RecordSeenAps` | app/domains/inventory/ap_registry.py:47-75 | one commit per scan: all of it stored, or nothing when a new MAC comes twice |
| `ApRegistry.RecordSeenMeaning` | app/domains/inventory/ap_registry.py:47-75 | which rows exist afterwards; a sighting clears both streaks and the attention mark, and keeps an operator's exclusion; other rows untouched |
| `ApRegistry.RecordedPlace` | app/domains/inventory/ap_registry.py:60-67 | after a scan a row's port is that of the last usable entry naming its MAC, its CDP name the last one reported, else the one it had |
| `ApRegistry.Registry.RecoverMissingMacs` | app/domains/inventory/ap_registry.py:78-103 | an AP without a MAC gets the one remembered for its port and CDP name |
| `ApRegistry.RecoveredMeaning` | app/domains/inventory/ap_registry.py:96-103 | an entry without a MAC gets the one of the last listed row that has both its port and its CDP name; everything else stays |
| `ApRegistry.UsableApsMeaning` | app/domains/inventory/ap_auto_reboot.py:172 | the usable entries are all those with a MAC and a port, in order |
| `ApRegistry.Registry.MergeLiveAndKnown` | app/domains/inventory/ap_registry.py:115-171 | live APs, then the silent ones of the last seven days |
| `ApRegistry.Registry.SetApExcluded` | app/domains/inventory/ap_registry.py:204-225 | re-inclusion clears the streaks, exclusion keeps them |
| `ApRegistry.Registry.RegisterRebootOutcome` | app/domains/inventory/ap_registry.py:228-277 | streaks, the one escalation and the exclusion that comes with it |
| `ApRegistry.StreaksMeaning` | app/domains/inventory/ap_registry.py:254-277 | after any outcomes: the two streaks count failures and skips since the last recovery, and attention dates from the outcome with which one of them reached the threshold |
| `ApRegistry.ExcludedIff` | app/domains/inventory/ap_registry.py:254-277 | excluded by the operator or by an outcome that raised attention, and by nothing else; no outcome includes an AP again |
| `ApRegistry.ExclusionMeaning` | app/domains/inventory/ap_registry.py:204-225 | an operator's decision field by field (elementary) |
| `ApReboot.VerifyApBackOnline` | app/domains/inventory/ap_auto_reboot.py:74-105 | true exactly when one of the scans made before the maximum wait shows the MAC |
| `ApReboot.HandleOneAp` | app/domains/inventory/ap_auto_reboot.py:245-370 | a write goes out unless dry run or a silent AP without power draw; the outcome registered matches |
| `ApReboot.RunTargetLoop` | app/domains/inventory/ap_auto_reboot.py:206-242 | the loop over the targets with its re-read of the toggle |
| `ApReboot.RunCycle` | app/domains/inventory/ap_auto_reboot.py:131-242 | the whole cycle, with the commands really sent: none after a failed scan or a violated constraint |
| `ApTrace.CycleReports` | app/domains/inventory/ap_auto_reboot.py:206-370 | one result for each target up to the one at which the toggle reads off: what was done, whether the switch took the command, whether the AP came back |
| `ApTrace.RegistryLearns` | app/domains/inventory/ap_auto_reboot.py:245-370 | the row of a target after the cycle: a skip, a failure or cleared streaks, as the power reading, the command and the verification scans say; other rows stay |
| `SwitchHealth.Switch.RegisterOutcome` | app/domains/inventory/ap_auto_reboot.py:406-462 | the counters of the switch and its one escalation |
| `SwitchHealth.CountersMeaning` | app/domains/inventory/ap_auto_reboot.py:406-462 | after any run of cycles: the unreachable count is the trailing run of unreachable cycles, the other the number of empty scans since the last good cycle |
| `SwitchHealth.SwitchLatch` | app/domains/inventory/ap_auto_reboot.py:406-462 | the latch is up exactly when some cycle since the last good one completed `threshold` unreachable ones in a row or had as many empty scans behind it, consecutive or not |
| `SwitchHealth.NoApsIsConsecutiveIff` | app/domains/inventory/ap_auto_reboot.py:428-441 | the count reported as consecutive is so if and only if no unreachable cycle follows an empty scan since the last good cycle |
| `SwitchHealth.LatchWithoutConsecutiveEmpties` | app/domains/inventory/ap_auto_reboot.py:428-441 | a history with the latch up for two "consecutive" empty scans that were not |
| `ApTrace.MergedAreJustified` | app/domains/inventory/ap_registry.py:115-171 | where each merged AP comes from; distinct MACs when the scan's are |
| `ApTrace.ViewEntries` | app/domains/inventory/ap_registry.py:115-171 | the merged view entry by entry, in terms of the scan and the registry before it |
| `ApTrace.TargetsShape` | app/domains/inventory/ap_auto_reboot.py:180-182 | targets are not excluded, silent ones first, at most the maximum |
| `ApTrace.CandidatesApartIff` | app/domains/inventory/ap_auto_reboot.py:180-182 | filtering and sorting bring no two clashing targets together and lose none, if and only if no two qualifying entries clash |
| `ApTrace.RunTrace` | app/domains/inventory/ap_auto_reboot.py:206-242 | the writes are exactly the targets that qualify while the toggle is on, in order |
| `ApTrace.HardwareTrace` | app/domains/inventory/ap_auto_reboot.py:131-314 | one cycle's writes, for any scan: who may be cycled, the maximum, silent first, none in dry run, none once the toggle reads off, none when the unique constraint rejects the scan, and otherwise nothing that qualifies is passed over |
| `ApTrace.AllOnTwiceIff` | app/domains/inventory/ap_auto_reboot.py:206-314 | in a live cycle with the toggle on and power everywhere, a MAC or port is cycled twice if and only if the scan keeps the unique constraint and two targets share it |
| `ApTrace.NoApTwiceIff` | app/domains/inventory/ap_auto_reboot.py:131-314 | no cycle over a scan cycles an AP twice, whatever the world and the settings, if and only if the unique constraint rejects the scan or no two usable live entries share a MAC that is not excluded |
| `ApTrace.NoPortTwiceIff` | app/domains/inventory/ap_auto_reboot.py:306-315 | no cycle over a scan cycles a port twice if and only if the unique constraint rejects the scan or qualifying live entries and qualifying silent rows all sit on ports of their own |
| `ApTrace.CanCyclePortIff` | app/domains/inventory/ap_auto_reboot.py:306-315 | some cycle over a scan cycles a port if and only if the unique constraint does not reject the scan and a qualifying live entry or silent row names the port, whoever else is connected there |
| `ApTrace.ExcludedApIsCutOff` | app/domains/inventory/ap_auto_reboot.py:273-315 | a scan and registry, for any names, in which the port of a live excluded AP can be cycled |
| `ApTrace.CycledWhereLastSeen` | app/domains/inventory/ap_registry.py:60-171 | over two cycles: an AP that the first saw and the second misses is cycled on the port of its last sighting and no other, if and only if it is not excluded and the sighting is at most seven days old |
| `ApHarm.PlansAreRecent` | app/domains/inventory/ap_registry.py:145-151 | in every run, what a cycle has pending was planned within seven days of the AP's last sighting |
| `ApHarm.BoundedHarm` | app/domains/inventory/ap_registry.py:228-277 | in any run of overlapping cycles, scans that may name a MAC several times, and operator actions: one AP's PoE-cycles without recovery stay within the worst toll plus the lost outcomes, and within what seven days have room for; attention implies exclusion; without attention both streaks are below the threshold |
| `ApHarmExact.Schedule` | app/domains/inventory/ap_auto_reboot.py:306-361 | a run for every number of PoE-cycles of a silent AP that seven days have room for, registered up to the threshold or lost |
| `ApHarmExact.TollIsAttained` | app/domains/inventory/ap_auto_reboot.py:131-361 | a run that attains the toll for any number of slots that plan the silent AP, the others holding a whole plan from before |
| `ApHarmExact.LosslessHarmIsExact` | app/domains/inventory/ap_registry.py:228-277 | when every outcome is registered, the least bound, for any threshold, repetition in a scan and length of a cycle, is the worst toll over the number of slots that plan the AP for staying silent |
| `ApHarmExact.PlainTollIsExact` | app/domains/inventory/ap_registry.py:228-277 | while seven days have room for the threshold that is max(threshold, r) + (cycles - 1) * r, for scans that name an AP at most r times |
| `ApHarmExact.LossyHarmIsExact` | app/domains/inventory/ap_auto_reboot.py:306-361 | when outcomes can be lost, the least bound is what seven days, or one plan, have room for in each slot, whatever the threshold |
| `ApHarmExact.ThresholdIsTheBoundIff` | app/domains/inventory/ap_registry.py:228-277 | the threshold itself is the bound if and only if cycles never overlap and no scan names an AP more often than it, or it exceeds what seven days, or one plan, have room for |
| `ApHarmExact.ThresholdIsTheBoundDespiteLossesIff` | app/domains/inventory/ap_registry.py:228-277 | with lost outcomes it is the bound if and only if it exceeds that room |
| `ApRefinement.CycleIsAPath` | app/domains/inventory/ap_auto_reboot.py:131-361 | one cycle over any scan, with its unique constraint and its target loop, is a path of its slot in the many-cycles relation: same registry, one command per write |
| `ApRefinement.CycleStaysBounded` | app/domains/inventory/ap_auto_reboot.py:131-361 | the bounds and invariants hold of the registry a cycle leaves behind |
| `ApRefinement.ExclusionIsHonoured` | app/domains/inventory/ap_auto_reboot.py:178-182 | in any run of overlapping cycles, an excluded AP stays excluded until an operator includes it, and no cycle that begins meanwhile plans it |
| `CartridgeStock.StockTable.Create` | app/services/cartridge_stock.py:95-130 | refuses a taken name, archived or not; an opening movement for a non-zero quantity |
| `CartridgeStock.StockTable.Update` | app/services/cartridge_stock.py:193-244 | the missing and duplicate errors; which fields change; a movement for a changed quantity |
| `CartridgeStock.StockTable.IssueStock` | app/services/cartridge_stock.py:247-271 | never issues more than is on hand, and records what it issues |
| `CartridgeStock.StockTable.Deactivate` | app/services/cartridge_stock.py:133-152 | archiving keeps the row, its quantity and its movements |
| `CartridgeStock.CreatedMeaning` | app/services/cartridge_stock.py:95-130 | field by field: a free name appends one row with the item's quantity, minimum, colour and models and its opening movement; a taken one changes nothing |
| `CartridgeStock.UpdatedMeaning` | app/services/cartridge_stock.py:193-244 | every sent field takes the value sent, every other field and row stays, and a movement records a changed quantity |
| `CartridgeStock.IssuedMeaning` | app/services/cartridge_stock.py:247-271 | the quantity drops by exactly what was asked for, or nothing changes |
| `CartridgeStock.ArchivedMeaning` | app/services/cartridge_stock.py:133-152 | the row is taken out of use and nothing else changes |
| `CartridgeStock.Discover` | app/services/cartridge_stock.py:50-62 | the loop nest over printers and colours |
| `CartridgeStock.DiscoveryMeaning` | app/services/cartridge_stock.py:50-62 | per name: found iff some slot holds it, the colour of the first slot, the number of slots, the printer models |
| `CartridgeStock.SlotsMeaning` | app/services/cartridge_stock.py:50-62 | which toner of which printer each slot is |
| `CartridgeStock.StockTable.SyncFromPrinters` | app/services/cartridge_stock.py:64-86 | metadata of active rows, new rows with nothing on hand, no movement; which rows are returned |
| `CartridgeStock.SyncIsHarmless` | app/services/cartridge_stock.py:64-86 | the synchronisation never resurrects an archived row, never changes a quantity, and keeps the ledger balanced and names distinct |
| `CartridgeStock.SyncMeaning` | app/services/cartridge_stock.py:64-86 | every row after a synchronisation, field by field, from the printers' slots |
| `CartridgeInventory.ValidatorAcceptsExactly` | app/services/cartridge_inventory.py:27-36 | the validator accepts exactly the documents with distinct names and matching totals |
| `CartridgeInventory.Reconcile` | app/services/cartridge_inventory.py:56-142 | the store becomes the reconciled one, or for a preview stays as it was; the same counts either way, each read off the store before and after |
| `CartridgeInventory.UpsertItems` | app/services/cartridge_inventory.py:73-108 | the item loop, its dictionary and its counters |
| `CartridgeInventory.DropMissing` | app/services/cartridge_inventory.py:110-130 | the deactivation loop and its counters |
| `CartridgeInventory.ReconcileIsExact` | app/services/cartridge_inventory.py:56-142 | with deactivation of what is missing, the active names, positions and total quantity afterwards are exactly the document's, and created + updated is its position count |
| `CartridgeInventory.ReconciledMeaning` | app/services/cartridge_inventory.py:73-130 | every row after a reconciliation, field by field, from the item that names it or from the row before |
| `CartridgeInventory.ReportMeaning` | app/services/cartridge_inventory.py:66-142 | the counts reported, as numbers of items and rows; exactly one movement for each row whose quantity changed, saying by how much |
| `CartridgeInventory.SecondApplyDoesNothing` | app/services/cartridge_inventory.py:56-142 | applying a document again changes nothing, and creates, deactivates and moves nothing |
| `CartridgeInventory.ReconciledIsSound` | app/services/cartridge_inventory.py:73-130 | reconciling keeps the ledger balanced and names distinct |
| `CartridgeInventory.LedgerIsConserved` | app/services/cartridge_stock.py:49-271 | in every state of every run: each quantity is the sum of its row's movements and not negative, and names are distinct |
| `CartridgeInventory.HistoryOnlyGrows` | app/services/cartridge_stock.py:133-145 | no operation rewrites or removes a movement or a row |
| `CartridgeDemand.CountsDueReplacements` | app/services/cartridge_demand.py:49-56 | elementary: replacement k is due within the horizon exactly when k is below the count |
| `CartridgeDemand.LongerHorizonNeedsNoFewer` | app/services/cartridge_demand.py:49-56 | elementary: the count is monotone in the horizon |
| `CartridgeDemand.ToOrder` | app/services/cartridge_demand.py:38-42 | the least order that covers the need and leaves the minimum on the shelf |
| `CartridgeDemand.Forecast` | app/services/cartridge_demand.py:59-83 | per cartridge: the sum of the counts, the earliest due day and the printers behind it |
| `CartridgeDemand.StockedIsLast` | app/services/cartridge_demand.py:60-63 | the shelf is read from the last active row of the name |
| `CartridgeDemand.OrderDoesNotMatter` | app/services/cartridge_demand.py:65-83 | any order of the predictions gives the same forecast |
| `HonestSignTargets.ConfiguredTargets` | app/services/honest_sign.py:40-70 | the loop with its set of hosts seen |
| `HonestSignTargets.ConfiguredMeaning` | app/services/honest_sign.py:40-70 | one target per distinct valid host, each at its effective address |
| `HonestSignTargets.ConfiguredEntries` | app/services/honest_sign.py:40-70 | the targets are those of the entries that introduce an address, in order, with the entry's title and name |
| `HonestSignTargets.OverridesOnlyMoveHosts` | app/services/honest_sign.py:53-69 | overrides change addresses only: the targets, their order, labels and host names are those of the configuration |
| `HonestSignTargets.OverrideTable.SetTargetIpOverride` | app/services/honest_sign.py:104-143 | when it is accepted, which error otherwise, and what is stored and returned |
| `HonestSignTargets.AcceptedIffStillSeparated` | app/services/honest_sign.py:124-130 | the in-use check accepts exactly the requests that keep the targets apart |
| `HonestSignTargets.OverridesKeepTargetsSeparated` | app/services/honest_sign.py:104-143 | after any sequence of requests, effective hosts are distinct and none is another target's original host |
| `HonestSignTargets.AddedEntryIsSeparatedIff` | app/services/honest_sign.py:40-75 | exactly when a new configuration entry keeps the targets apart |
| `HonestSignTargets.ALaterEntryCanCollide` | app/services/honest_sign.py:40-75 | for any two addresses, an override and a later entry that put two targets at one address |
| `HonestSignTargets.LinkCashRegisters` | app/services/honest_sign.py:284-316 | linked exactly for names carried once on both sides; what is ambiguous and what is unmatched |
| `HonestSignTargets.LinksAreAMatching` | app/services/honest_sign.py:284-316 | no target and no register is linked twice |
| `HonestSignTargets.EveryTargetHasOneFate` | app/services/honest_sign.py:304-316 | every target is linked, unmatched or ambiguous, and only one of these |
| `HonestSignTargets.LinksMeaning` | app/services/honest_sign.py:284-316 | linked, ambiguous and unmatched, from the two lists alone, both ways |
| `HonestSignAlerts.StatusStore.RecordCheckResults` | app/services/honest_sign.py:324-400 | the table and the event log after a batch; registers absent from it are dropped |
| `HonestSignAlerts.StatusStore.Observe` | app/services/honest_sign.py:334-392 | one row of the batch, field by field |
| `HonestSignAlerts.RecordMeaning` | app/services/honest_sign.py:334-384 | over any history: the streak is the trailing run of failures at this address, the latch is up exactly when it has reached the threshold, and the state dates from its first check |
| `HonestSignAlerts.EmittedExactly` | app/services/honest_sign.py:364-392 | a problem is logged by the check that completes the streak and by no other, a recovery by the first ready check after a reported streak at the same address |
| `HonestSignAlerts.EventsAlternate` | app/services/honest_sign.py:364-392 | since the last drop or move, problems and recoveries alternate, a problem first, and the latch is up after an odd number |
| `HonestSignAlerts.RegistersAreIndependent` | app/services/honest_sign.py:332-400 | over any batches, a register's record and events depend on its own results only |
| `DhcpClear.ClassifyRole` | app/services/cisco_dhcp.py:221-230 | local server exactly when the VLAN interface lies in a pool range |
| `DhcpClear.SelectApBindings` | app/services/cisco_dhcp.py:233-260 | exactly the bindings tagged with the AP VLAN or inside its subnet |
| `DhcpClear.RoleMeaning` | app/services/cisco_dhcp.py:213-230 | each role both ways, from the ends of the pool ranges and the interface's address |
| `DhcpClear.InSubnetMeaning` | app/services/cisco_dhcp.py:242-256 | an address is in the subnet exactly when it lies in the interval of 2^(32 - prefix) addresses around the interface |
| `DhcpClear.ApBindingsMeaning` | app/services/cisco_dhcp.py:247-260 | the selection keeps every tagged or in-subnet binding, in the order of the table |
| `DhcpClear.LeasesMeaning` | app/services/cisco_dhcp.py:316-318 | the leases to clear are all the automatic bindings among those, in order |
| `DhcpClear.PlannedFromReading` | app/services/cisco_dhcp.py:292-331 | the planned commands, read off the switch, the actions and the cap |
| `DhcpClear.PlanClear` | app/services/cisco_dhcp.py:292-331 | which commands are planned, in which order, and what is reported as skipped |
| `DhcpClear.PlannedIsSafe` | app/services/cisco_dhcp.py:292-331 | every planned command is the conflict clear, at most once and first, or clears an automatic lease of the AP VLAN, within the cap |
| `DhcpClear.Execute` | app/services/cisco_dhcp.py:399-413 | what is sent is an initial stretch of the plan, cut short only by a dead session; successes plus errors are the commands sent |
| `DhcpClear.RunDhcpClear` | app/services/cisco_dhcp.py:362-429 | end to end: what is planned, in a dry run too, is read off the switch, the actions and the cap; all of it is sent unless the run is dry or the session dies; all that is sent is safe; role, counts and errors are those of the reading and the replies |

## Left out

- Network protocols (SSH, SNMP, HTTP, sockets, ping, ARP) and text scraping: results enter as parsed records or arbitrary oracles.
- SQLAlchemy sessions beyond rows, atomic commit and rollback; updates by other transactions during a cycle appear only in ApHarm.
- Event texts, metrics, log lines, timestamps such as `updated_at`, and the actor and note of a movement.
- The `lock:poll-all:*` locks of the pollers, whose release is not owner-checked: no mutual exclusion is claimed for them.
- Eligibility gates (`switch_eligible_for_auto_reboot`, the allowlists) and dispatchers: conjunctions of flags.
- NetBIOS resolution, hosts-file lookup, ML statistics, documents and QR codes, authentication, routes, migrations and the frontend.
- DnsMessage.ParseDnsARecord: returns the four address bytes; the dotted text is not built.
- BoundedCache.Cache.Set: the thread lock and the constructor's ValueError are not modelled; a positive size is required instead.
- LeaseProtocol.MutualExclusion: the bound is on the run's lock window; that a worker is killed at its time limit is an assumption of the deployment.
- CartridgeDemand.Forecast: the displayed name and colour of a cartridge without a stock row come from its first prediction, and the sorted output order, are not modelled.
- CartridgeStock.StockTable.SyncFromPrinters: new rows are created in any order rather than by sorted name; the compatible models are kept as a set, not as the joined and truncated text.
- HonestSignTargets.LinkCashRegisters: keys arrive folded, and the ambiguous names are not sorted.
- HonestSignAlerts.RecordMeaning: is stated for a threshold that stays the same over the history; status, version and message texts are not kept.
- DhcpClear.SelectApBindings: the mask arrives as a prefix length.
