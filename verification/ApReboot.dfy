/** One switch's AP reboot cycle (app/domains/inventory/ap_auto_reboot.py): which
    APs are power-cycled, in what order, and what the registry learns from it. */
module ApReboot {
  import opened Wrappers
  import opened Arithmetic
  import opened ApRegistry
  import opened SwitchHealth

  datatype Settings = Settings(maxPerSwitch: int, verifyMaxWait: int, verifyInterval: int, escalateAfter: int)

  /** Everything the cycle asks of the outside world, by target index (and verify poll).
      `now` is the time of the scan, `doneAt` when the outcome of a target is registered. */
  datatype World = World(
    scan: Option<seq<LiveAp>>,
    enabledNow: nat -> bool,
    drawsPower: nat -> bool,
    cycleOk: nat -> bool,
    verifyScan: (nat, nat) -> Option<seq<LiveAp>>,
    now: int,
    doneAt: nat -> int)

  // ----- Targets -----

  function Pick(merged: seq<MergedAp>, responding: bool): (picked: seq<MergedAp>)
    ensures forall i :: 0 <= i < |picked| ==>
              picked[i] in merged && picked[i].responding == responding && !picked[i].excluded
  {
    if merged == [] then []
    else
      var last := merged[|merged| - 1];
      Pick(merged[..|merged| - 1], responding)
        + (if !last.excluded && last.responding == responding then [last] else [])
  }

  /** `s[:n]` of Python: a negative n drops from the end. */
  function SliceTo<T>(s: seq<T>, n: int): seq<T> {
    if n >= 0 then s[..if n <= |s| then n else |s|]
    else s[..if |s| + n >= 0 then |s| + n else 0]
  }

  /** The stable sort by `is_responding` puts the silent ones first. */
  function Targets(merged: seq<MergedAp>, maxPerSwitch: int): seq<MergedAp> {
    SliceTo(Pick(merged, false) + Pick(merged, true), maxPerSwitch)
  }

  // ----- Verification -----

  /** How often `_verify_ap_back_online` scans: until `elapsed` reaches the maximum wait. */
  function VerifyPolls(maxWait: int, interval: int): nat {
    var step := Max(interval, 1);
    if maxWait <= 0 then 0 else (maxWait + step - 1) / step
  }

  predicate SeenIn(scan: Option<seq<LiveAp>>, mac: string) {
    scan.Some? && IsLive(scan.value, mac)
  }

  predicate BackOnline(world: World, i: nat, mac: string, cfg: Settings) {
    exists k: nat :: k < VerifyPolls(cfg.verifyMaxWait, cfg.verifyInterval) && SeenIn(world.verifyScan(i, k), mac)
  }

  /** The k-th verification scan of target i answered and lists the MAC. */
  predicate Shows(world: World, i: nat, k: nat, mac: string) {
    world.verifyScan(i, k).Some? &&
    exists j :: 0 <= j < |world.verifyScan(i, k).value| && world.verifyScan(i, k).value[j].mac == mac
  }

  lemma BackOnlineMeaning(world: World, i: nat, mac: string, cfg: Settings)
    ensures BackOnline(world, i, mac, cfg) <==>
            exists k: nat :: k * Max(cfg.verifyInterval, 1) < cfg.verifyMaxWait && Shows(world, i, k, mac)
  {
    forall k: nat
      ensures k * Max(cfg.verifyInterval, 1) < cfg.verifyMaxWait <==>
              k < VerifyPolls(cfg.verifyMaxWait, cfg.verifyInterval)
      ensures Shows(world, i, k, mac) == SeenIn(world.verifyScan(i, k), mac)
    {
      PollHappens(cfg.verifyMaxWait, Max(cfg.verifyInterval, 1), k);
    }
    hide VerifyPolls;
  }

  method VerifyApBackOnline(world: World, i: nat, mac: string, cfg: Settings) returns (back: bool)
    ensures back == BackOnline(world, i, mac, cfg)
    ensures back <==> exists k: nat :: k * Max(cfg.verifyInterval, 1) < cfg.verifyMaxWait && Shows(world, i, k, mac)
  {
    BackOnlineMeaning(world, i, mac, cfg);
    var interval := Max(cfg.verifyInterval, 1);
    var elapsed, k: nat := 0, 0;
    while elapsed < cfg.verifyMaxWait
      invariant elapsed == k * interval
      invariant forall j: nat :: j < k ==> !SeenIn(world.verifyScan(i, j), mac)
      decreases cfg.verifyMaxWait - elapsed
    {
      PollHappens(cfg.verifyMaxWait, interval, k);
      elapsed := elapsed + interval;
      var aps := world.verifyScan(i, k);
      if aps.Some? && IsLive(aps.value, mac) {
        return true;
      }
      k := k + 1;
    }
    PollHappens(cfg.verifyMaxWait, interval, k);
    back := false;
  }

  lemma PollHappens(maxWait: int, interval: int, k: nat)
    requires interval >= 1
    ensures k * interval < maxWait <==> k < VerifyPolls(maxWait, interval)
  {
    if maxWait > 0 {
      var n := (maxWait + interval - 1) / interval;
      var r := (maxWait + interval - 1) % interval;
      assert n * interval + r == maxWait + interval - 1;
      if k < n {
        assert k * interval <= (n - 1) * interval by { MulLe(interval, k, n - 1); }
        assert (n - 1) * interval == n * interval - interval;
      } else {
        MulLe(interval, n, k);
      }
    } else {
      MulLe(interval, 0, k);
    }
  }

  // ----- One target -----

  datatype Action = DryRun | SkippedNoPower | Rebooted(ok: bool, backOnline: bool)

  function ActionFor(target: MergedAp, i: nat, dryRun: bool, world: World, cfg: Settings): Action {
    if dryRun then DryRun
    else if !target.responding && !world.drawsPower(i) then SkippedNoPower
    else
      var ok := world.cycleOk(i);
      Rebooted(ok, ok && BackOnline(world, i, target.mac, cfg))
  }

  /** What `register_reboot_outcome` is told; a dry run tells it nothing. */
  function RowsAfter(rows: Rows, target: MergedAp, action: Action, cfg: Settings, now: int): Rows {
    match action
    case DryRun => rows
    case SkippedNoPower => RegisterOutcome(rows, target.mac, None, cfg.escalateAfter, now)
    case Rebooted(ok, back) => RegisterOutcome(rows, target.mac, Some(ok && back), cfg.escalateAfter, now)
  }

  // ----- The whole cycle -----

  /** One PoE-cycle command sent to the switch, for the i-th target. */
  datatype Write = Write(i: nat, target: MergedAp)

  datatype Result = Result(i: nat, mac: string, action: Action)

  datatype Cycle = Cycle(writes: seq<Write>, results: seq<Result>, rows: Rows, cancelled: bool)

  /** The cycle from target `from` on, `done` being what it has produced so far. */
  function RunTargets(targets: seq<MergedAp>, from: nat, done: Cycle, stopWhenDisabled: bool, dryRun: bool,
                      world: World, cfg: Settings): Cycle
    decreases |targets| - from
  {
    if from >= |targets| then done
    else if stopWhenDisabled && !world.enabledNow(from) then done.(cancelled := true)
    else
      var action := ActionFor(targets[from], from, dryRun, world, cfg);
      var next := After(done, targets[from], from, action, cfg, world.doneAt(from));
      RunTargets(targets, from + 1, next, stopWhenDisabled, dryRun, world, cfg)
  }

  function After(done: Cycle, target: MergedAp, i: nat, action: Action, cfg: Settings, now: int): Cycle {
    Cycle(done.writes + if action.Rebooted? then [Write(i, target)] else [],
          done.results + [Result(i, target.mac, action)],
          RowsAfter(done.rows, target, action, cfg, now), done.cancelled)
  }

  function StartOf(rows: Rows): Cycle { Cycle([], [], rows, false) }

  method HandleOneAp(registry: Registry, target: MergedAp, i: nat, dryRun: bool, world: World, cfg: Settings,
                     sent: seq<Write>)
    returns (action: Action, writes: seq<Write>)
    modifies registry
    ensures action == ActionFor(target, i, dryRun, world, cfg)
    ensures writes == sent + if action.Rebooted? then [Write(i, target)] else []
    ensures registry.rows == RowsAfter(old(registry.rows), target, action, cfg, world.doneAt(i))
  {
    writes := sent;
    if dryRun {
      return DryRun, writes;
    }
    var escalated;
    if !target.responding && !world.drawsPower(i) {
      escalated := registry.RegisterRebootOutcome(target.mac, None, cfg.escalateAfter, world.doneAt(i));
      return SkippedNoPower, writes;
    }
    var ok := world.cycleOk(i);
    writes := writes + [Write(i, target)];
    var back := false;
    if ok {
      back := VerifyApBackOnline(world, i, target.mac, cfg);
    }
    var recovered := if ok then back else false;
    escalated := registry.RegisterRebootOutcome(target.mac, Some(recovered), cfg.escalateAfter, world.doneAt(i));
    action := Rebooted(ok, back);
  }

  method RunTargetLoop(registry: Registry, switch: Switch, targets: seq<MergedAp>, stopWhenDisabled: bool, world: World,
                       cfg: Settings)
    returns (cycle: Cycle)
    modifies registry, switch`enabled
    ensures cycle == RunTargets(targets, 0, StartOf(old(registry.rows)), stopWhenDisabled, !switch.live, world, cfg)
    ensures registry.rows == cycle.rows
  {
    hide ActionFor, RowsAfter;
    var dryRun := !switch.live;
    var writes: seq<Write>, results: seq<Result> := [], [];
    var i := 0;
    while i < |targets|
      invariant 0 <= i <= |targets|
      invariant RunTargets(targets, 0, StartOf(old(registry.rows)), stopWhenDisabled, dryRun, world, cfg) ==
                RunTargets(targets, i, Cycle(writes, results, registry.rows, false), stopWhenDisabled, dryRun,
                           world, cfg)
    {
      if stopWhenDisabled {
        switch.enabled := world.enabledNow(i); // session.refresh(switch)
        if !switch.enabled {
          return Cycle(writes, results, registry.rows, true);
        }
      }
      var action;
      action, writes := HandleOneAp(registry, targets[i], i, dryRun, world, cfg, writes);
      results := results + [Result(i, targets[i].mac, action)];
      i := i + 1;
    }
    cycle := Cycle(writes, results, registry.rows, false);
  }

  datatype Outcome = Skipped | UniqueViolation | Ran(targets: seq<MergedAp>, cycle: Cycle)

  /** The live APs the cycle works with: MACs recovered from the registry, unusable entries dropped. */
  function UsableScan(scan: seq<LiveAp>, known: seq<string>, rows: Rows): seq<LiveAp>
    requires forall i :: 0 <= i < |known| ==> known[i] in rows
  {
    UsableAps(RecoverMacs(scan, known, rows))
  }

  /** The merged view after the scan has been recorded. */
  function MergedView(scan: seq<LiveAp>, known: seq<string>, rows: Rows, now: int): seq<MergedAp>
    requires forall i :: 0 <= i < |known| ==> known[i] in rows
  {
    var live := UsableScan(scan, known, rows);
    var rows' := RecordSeen(rows, live, now);
    assert forall i :: 0 <= i < |known| ==> known[i] in rows' by { RecordSeenMeaning(rows, live, now); }
    Merge(live, known, rows', now)
  }

  /** The whole cycle over a scan, from the registry it found. */
  function CycleOf(scan: seq<LiveAp>, known: seq<string>, rows: Rows, stopWhenDisabled: bool, dryRun: bool,
                   world: World, cfg: Settings): Cycle
    requires forall i :: 0 <= i < |known| ==> known[i] in rows
  {
    RunTargets(Targets(MergedView(scan, known, rows, world.now), cfg.maxPerSwitch), 0,
               StartOf(RecordSeen(rows, UsableScan(scan, known, rows), world.now)), stopWhenDisabled, dryRun,
               world, cfg)
  }

  /** The commands the switch is really sent: none over a scan that breaks the unique constraint. */
  function Sent(scan: seq<LiveAp>, known: seq<string>, rows: Rows, stopWhenDisabled: bool, dryRun: bool, world: World,
                cfg: Settings): seq<Write>
    requires forall i :: 0 <= i < |known| ==> known[i] in rows
  {
    if Violates(rows, UsableScan(scan, known, rows)) then []
    else CycleOf(scan, known, rows, stopWhenDisabled, dryRun, world, cfg).writes
  }

  /** The registry the cycle leaves behind: untouched by a scan that breaks the constraint. */
  function RowsLeft(scan: seq<LiveAp>, known: seq<string>, rows: Rows, stopWhenDisabled: bool, dryRun: bool,
                    world: World, cfg: Settings): Rows
    requires forall i :: 0 <= i < |known| ==> known[i] in rows
  {
    if Violates(rows, UsableScan(scan, known, rows)) then rows
    else CycleOf(scan, known, rows, stopWhenDisabled, dryRun, world, cfg).rows
  }

  function WritesOf(outcome: Outcome): seq<Write> { if outcome.Ran? then outcome.cycle.writes else [] }

  method RunCycle(registry: Registry, switch: Switch, known: seq<string>, world: World, cfg: Settings)
    returns (outcome: Outcome)
    requires IsListing(known, registry.rows)
    modifies registry, switch
    ensures world.scan.None? ==> outcome == Skipped && registry.rows == old(registry.rows)
    ensures world.scan.None? ==>
              switch.health == HealthAfter(old(switch.health), Unreachable, cfg.escalateAfter, world.now)
    ensures world.scan.Some? ==>
      var live := UsableScan(world.scan.value, known, old(registry.rows));
      var merged := MergedView(world.scan.value, known, old(registry.rows), world.now);
      if Violates(old(registry.rows), live) then outcome == UniqueViolation && registry.rows == old(registry.rows)
      else
        && outcome == Ran(Targets(merged, cfg.maxPerSwitch),
                          CycleOf(world.scan.value, known, old(registry.rows), old(switch.enabled), !switch.live,
                                  world, cfg))
        && registry.rows == outcome.cycle.rows
        && switch.health ==
          HealthAfter(old(switch.health), if merged == [] then FoundNone else FoundAps, cfg.escalateAfter, world.now)
    ensures WritesOf(outcome) ==
            if world.scan.None? then []
            else Sent(world.scan.value, known, old(registry.rows), old(switch.enabled), !switch.live, world, cfg)
    ensures registry.rows ==
            if world.scan.None? then old(registry.rows)
            else RowsLeft(world.scan.value, known, old(registry.rows), old(switch.enabled), !switch.live, world, cfg)
    ensures switch.live == old(switch.live)
  {
    hide RunTargets, Merge, RecoverMacs, UsableAps, RecordSeen, Violates, Targets, HealthAfter;
    var stopWhenDisabled := switch.enabled;
    var escalated;
    if world.scan.None? {
      escalated := switch.RegisterOutcome(Unreachable, cfg.escalateAfter, world.now);
      return Skipped;
    }
    var recovered := registry.RecoverMissingMacs(world.scan.value, known);
    var live := UsableAps(recovered);
    RecordSeenMeaning(registry.rows, live, world.now);
    var raised := registry.RecordSeenAps(live, world.now);
    if raised {
      return UniqueViolation;
    }
    var merged := registry.MergeLiveAndKnown(live, known, world.now);
    escalated := switch.RegisterOutcome(if merged == [] then FoundNone else FoundAps, cfg.escalateAfter, world.now);
    var cycle := RunTargetLoop(registry, switch, Targets(merged, cfg.maxPerSwitch), stopWhenDisabled, world, cfg);
    outcome := Ran(Targets(merged, cfg.maxPerSwitch), cycle);
  }
}
