/** The cycle of ApReboot, loop and all, is a path of the many-cycles relation of ApHarm. */
module ApRefinement {
  import opened Wrappers
  import opened Arithmetic
  import opened ApRegistry
  import opened ApReboot
  import opened ApTrace
  import opened ApHarm

  /** When the cycle turns to its i-th target. */
  function TurnOf(i: nat, world: World): int { if i == 0 then world.now else world.doneAt(i - 1) }

  /** Targets are handled one after the other, and a PoE command is given its time. */
  predicate Paced(targets: seq<MergedAp>, world: World, seconds: nat) {
    forall i: nat :: i < |targets| ==>
      world.doneAt(i) >= TurnOf(i, world) + if targets[i].responding || world.drawsPower(i) then seconds else 0
  }

  /** Only the clock and slot `s` move. */
  predicate OwnStep(step: Step, s: nat) {
    match step
    case Tick(_) => true
    case Begin(k, _, _, _) => k == s
    case SkipNoPower(k) => k == s
    case PoeCycle(k) => k == s
    case Verify(k, _) => k == s
    case Abort(k) => k == s
    case Sight(_) => false
    case Exclude(_, _) => false
  }

  predicate OwnSteps(steps: seq<Step>, s: nat) {
    forall k :: 0 <= k < |steps| ==> OwnStep(steps[k], s)
  }

  /** The APs that are sent a PoE command along the steps, in order. */
  ghost function Commands(w: Fleet, steps: seq<Step>, l: Limits, w': Fleet): seq<string>
    requires Reaches(w, steps, l, w')
    decreases |steps|
  {
    if steps == [] then []
    else
      (if steps[0].PoeCycle? then [w.slots[steps[0].slot].plan[0]] else []) +
      Commands(Next(w, steps[0], l), steps[1..], l, w')
  }

  lemma {:induction false} CommandsJoin(w: Fleet, first: seq<Step>, mid: Fleet, second: seq<Step>, l: Limits,
                                        w': Fleet)
    requires Reaches(w, first, l, mid) && Reaches(mid, second, l, w')
    ensures Reaches(w, first + second, l, w')
    ensures Commands(w, first + second, l, w') ==
            Commands(w, first, l, mid) + Commands(mid, second, l, w')
    decreases |first|
  {
    if first == [] {
      assert first + second == second;
    } else {
      assert (first + second)[1..] == first[1..] + second;
      CommandsJoin(Next(w, first[0], l), first[1..], mid, second, l, w');
    }
  }

  function WriteMacs(writes: seq<Write>): (macs: seq<string>)
    ensures |macs| == |writes| && forall k :: 0 <= k < |writes| ==> macs[k] == writes[k].target.mac
  {
    seq(|writes|, k requires 0 <= k < |writes| => writes[k].target.mac)
  }

  // ----- One target -----

  /** The steps that handle the next target: the clock moves to when its outcome is registered. */
  lemma HandleTarget(v: Fleet, s: nat, target: MergedAp, i: nat, world: World, cfg: Settings, l: Limits)
    returns (steps: seq<Step>, v': Fleet)
    requires l.threshold == cfg.escalateAfter
    requires s < |v.slots| && v.slots[s].plan != [] && v.slots[s].plan[0] == target.mac && v.slots[s].inFlight == None
    requires v.now + (if target.responding || world.drawsPower(i) then l.seconds else 0) <= world.doneAt(i)
    ensures Reaches(v, steps, l, v') && OwnSteps(steps, s)
    ensures var action := ActionFor(target, i, false, world, cfg);
            && v'.rows == RowsAfter(v.rows, target, action, cfg, world.doneAt(i))
            && Commands(v, steps, l, v') == if action.Rebooted? then [target.mac] else []
    ensures v'.now == world.doneAt(i) && |v'.slots| == |v.slots|
    ensures v'.slots[s].plan == v.slots[s].plan[1..] && v'.slots[s].inFlight == None
  {
    hide BackOnline, RegisterOutcome, Copies;
    var wait := Tick(world.doneAt(i) - v.now);
    match ActionFor(target, i, false, world, cfg) {
      case SkippedNoPower =>
        steps := [wait, SkipNoPower(s)];
        var v1 := Next(v, wait, l);
        v' := Next(v1, SkipNoPower(s), l);
        TwoSteps(v, wait, v1, SkipNoPower(s), v', l);
      case Rebooted(ok, back) =>
        var verify := Verify(s, ok && back);
        steps := [PoeCycle(s)] + [wait, verify];
        var v0 := Next(v, PoeCycle(s), l);
        var v1 := Next(v0, wait, l);
        v' := Next(v1, verify, l);
        SilentStep(v, PoeCycle(s), l);
        TwoSteps(v0, wait, v1, verify, v', l);
        CommandsJoin(v, [PoeCycle(s)], v0, [wait, verify], l, v');
    }
  }

  lemma TwoSteps(v: Fleet, first: Step, mid: Fleet, second: Step, v': Fleet, l: Limits)
    requires Enabled(v, first, l) && mid == Next(v, first, l) && Enabled(mid, second, l) &&
             v' == Next(mid, second, l)
    requires !first.PoeCycle? && !second.PoeCycle?
    ensures Reaches(v, [first, second], l, v') && Commands(v, [first, second], l, v') == []
  {
    SilentStep(v, first, l);
    SilentStep(mid, second, l);
    CommandsJoin(v, [first], mid, [second], l, v');
    assert [first] + [second] == [first, second];
  }

  lemma SilentStep(v: Fleet, step: Step, l: Limits)
    requires Enabled(v, step, l)
    ensures Reaches(v, [step], l, Next(v, step, l))
    ensures !step.PoeCycle? ==> Commands(v, [step], l, Next(v, step, l)) == []
    ensures step.PoeCycle? ==> Commands(v, [step], l, Next(v, step, l)) == [v.slots[step.slot].plan[0]]
  {
    hide Next, Enabled;
    OneStep(v, step, l);
    assert [step][1..] == [];
  }

  // ----- The target loop -----

  lemma {:induction false} WritesGrow(targets: seq<MergedAp>, from: nat, done: Cycle, stop: bool, dryRun: bool,
                                      world: World, cfg: Settings)
    ensures done.writes <= RunTargets(targets, from, done, stop, dryRun, world, cfg).writes
    decreases |targets| - from
  {
    hide ActionFor, RowsAfter;
    if from < |targets| && !(stop && !world.enabledNow(from)) {
      var action := ActionFor(targets[from], from, dryRun, world, cfg);
      var next := After(done, targets[from], from, action, cfg, world.doneAt(from));
      WritesGrow(targets, from + 1, next, stop, dryRun, world, cfg);
    }
  }

  /** What the rest of the loop sends, as steps of slot `s`. */
  lemma {:induction false} LoopIsPath(v: Fleet, s: nat, targets: seq<MergedAp>, from: nat, done: Cycle, stop: bool,
                                      world: World, cfg: Settings, l: Limits)
    returns (steps: seq<Step>, v': Fleet)
    requires l.threshold == cfg.escalateAfter
    requires Paced(targets, world, l.seconds) && from <= |targets| && s < |v.slots|
    requires v.slots[s].plan == Macs(targets)[from..] && v.slots[s].inFlight == None
    requires v.rows == done.rows && v.now == TurnOf(from, world)
    ensures Reaches(v, steps, l, v') && OwnSteps(steps, s)
    ensures var cycle := RunTargets(targets, from, done, stop, false, world, cfg);
            && v'.rows == cycle.rows && done.writes <= cycle.writes
            && Commands(v, steps, l, v') == WriteMacs(cycle.writes[|done.writes|..])
    ensures |v'.slots| == |v.slots| && Idle(v'.slots[s])
    decreases |targets| - from
  {
    hide ActionFor, RowsAfter, Next, Enabled, Reaches, Commands, RunTargets, TurnOf, OwnStep, WriteMacs;
    WritesGrow(targets, from, done, stop, false, world, cfg);
    LoopUnfolds(targets, from, done, stop, world, cfg);
    if from == |targets| {
      steps, v' := [], v;
      NoSteps(v, l);
    } else if stop && !world.enabledNow(from) {
      steps := [Abort(s)];
      v' := DropPlan(v, s, l);
    } else {
      var target := targets[from];
      var action := ActionFor(target, from, false, world, cfg);
      TurnsPass(from, world);
      var one, v1 := HandleTarget(v, s, target, from, world, cfg, l);
      var done' := After(done, target, from, action, cfg, world.doneAt(from));
      assert Macs(targets)[from..][1..] == Macs(targets)[from + 1..];
      var rest;
      rest, v' := LoopIsPath(v1, s, targets, from + 1, done', stop, world, cfg, l);
      CommandsJoin(v, one, v1, rest, l, v');
      steps := one + rest;
      WriteMacsJoin(done.writes, if action.Rebooted? then [Write(from, target)] else [],
                    RunTargets(targets, from + 1, done', stop, false, world, cfg).writes);
    }
  }

  lemma LoopUnfolds(targets: seq<MergedAp>, from: nat, done: Cycle, stop: bool, world: World, cfg: Settings)
    ensures RunTargets(targets, from, done, stop, false, world, cfg) ==
            if from >= |targets| then done
            else if stop && !world.enabledNow(from) then done.(cancelled := true)
            else
              var action := ActionFor(targets[from], from, false, world, cfg);
              RunTargets(targets, from + 1, After(done, targets[from], from, action, cfg, world.doneAt(from)), stop,
                         false, world, cfg)
  {
  }

  lemma TurnsPass(i: nat, world: World)
    ensures TurnOf(i + 1, world) == world.doneAt(i)
  {
  }

  lemma WriteMacsJoin(before: seq<Write>, added: seq<Write>, all: seq<Write>)
    requires before + added <= all
    ensures WriteMacs(all[|before|..]) == WriteMacs(added) + WriteMacs(all[|before| + |added|..])
    ensures |added| == 1 ==> WriteMacs(added) == [added[0].target.mac]
    ensures before <= all
  {
    assert all[|before|..] == added + all[|before| + |added|..];
  }

  lemma NoSteps(v: Fleet, l: Limits)
    ensures Reaches(v, [], l, v) && Commands(v, [], l, v) == []
  {
  }

  lemma DropPlan(v: Fleet, s: nat, l: Limits) returns (v': Fleet)
    requires s < |v.slots| && v.slots[s].inFlight == None
    ensures Reaches(v, [Abort(s)], l, v') && Commands(v, [Abort(s)], l, v') == [] &&
            OwnSteps([Abort(s)], s)
    ensures v'.rows == v.rows && |v'.slots| == |v.slots| && Idle(v'.slots[s])
  {
    v' := Next(v, Abort(s), l);
    assert [Abort(s)][1..] == [];
    NoSteps(v', l);
  }

  lemma {:induction false} DryRunKeepsRows(targets: seq<MergedAp>, from: nat, done: Cycle, stop: bool, world: World,
                                           cfg: Settings)
    ensures RunTargets(targets, from, done, stop, true, world, cfg).rows == done.rows
    decreases |targets| - from
  {
    if from < |targets| && !(stop && !world.enabledNow(from)) {
      var next := After(done, targets[from], from, DryRun, cfg, world.doneAt(from));
      DryRunKeepsRows(targets, from + 1, next, stop, world, cfg);
    }
  }

  // ----- The whole cycle -----

  /** The cycle keeps its pace, if it handles any targets at all. */
  predicate OnTime(scan: seq<LiveAp>, known: seq<string>, rows: Rows, dryRun: bool, world: World, cfg: Settings,
                   seconds: nat)
    requires forall i :: 0 <= i < |known| ==> known[i] in rows
  {
    dryRun || Violates(rows, UsableScan(scan, known, rows)) ||
    Paced(Targets(MergedView(scan, known, rows, world.now), cfg.maxPerSwitch), world, seconds)
  }

  /** One cycle of ApReboot over any scan - its unique constraint, its target loop, a toggle read
      off half-way - is a path of its slot in ApHarm: the same registry afterwards, and a command
      for each of its writes. */
  lemma CycleIsAPath(w: Fleet, s: nat, scan: seq<LiveAp>, known: seq<string>, stop: bool, dryRun: bool,
                     world: World, cfg: Settings, l: Limits)
    returns (steps: seq<Step>, w': Fleet)
    requires s < |w.slots| && Idle(w.slots[s]) && IsListing(known, w.rows)
    requires RepeatsAtMost(UsableScan(scan, known, w.rows), l.repeats)
    requires world.now == w.now && OnTime(scan, known, w.rows, dryRun, world, cfg, l.seconds)
    requires l.threshold == cfg.escalateAfter
    ensures Reaches(w, steps, l, w') && OwnSteps(steps, s)
    ensures w'.rows == RowsLeft(scan, known, w.rows, stop, dryRun, world, cfg)
    ensures Commands(w, steps, l, w') == WriteMacs(Sent(scan, known, w.rows, stop, dryRun, world, cfg))
    ensures |w'.slots| == |w.slots| && Idle(w'.slots[s])
  {
    hide Targets, MergedView, UsableScan, RecordSeen, RunTargets, Violates, RepeatsAtMost, Next;
    if Violates(w.rows, UsableScan(scan, known, w.rows)) {
      steps, w' := [], w;
      NoSteps(w, l);
    } else {
      var begin := Begin(s, scan, known, cfg.maxPerSwitch);
      var v := BeginIsAStep(w, s, scan, known, world, cfg, l);
      var rest;
      rest, w' := TargetsArePath(w, v, s, scan, known, stop, dryRun, world, cfg, l);
      CommandsJoin(w, [begin], v, rest, l, w');
      steps := [begin] + rest;
    }
  }

  lemma BeginIsAStep(w: Fleet, s: nat, scan: seq<LiveAp>, known: seq<string>, world: World, cfg: Settings, l: Limits)
    returns (v: Fleet)
    requires Enabled(w, Begin(s, scan, known, cfg.maxPerSwitch), l) && world.now == w.now
    ensures Reaches(w, [Begin(s, scan, known, cfg.maxPerSwitch)], l, v)
    ensures Commands(w, [Begin(s, scan, known, cfg.maxPerSwitch)], l, v) == []
    ensures v.rows == RecordSeen(w.rows, UsableScan(scan, known, w.rows), w.now) && v.now == w.now
    ensures |v.slots| == |w.slots| && v.slots[s].inFlight == None
    ensures v.slots[s].plan == Macs(Targets(MergedView(scan, known, w.rows, world.now), cfg.maxPerSwitch))
  {
    hide Targets, MergedView, UsableScan, RecordSeen, Violates, RepeatsAtMost;
    SilentStep(w, Begin(s, scan, known, cfg.maxPerSwitch), l);
    v := Next(w, Begin(s, scan, known, cfg.maxPerSwitch), l);
  }

  lemma TargetsArePath(w: Fleet, v: Fleet, s: nat, scan: seq<LiveAp>, known: seq<string>, stop: bool, dryRun: bool,
                       world: World, cfg: Settings, l: Limits)
    returns (steps: seq<Step>, w': Fleet)
    requires forall i :: 0 <= i < |known| ==> known[i] in w.rows
    requires var live, merged := UsableScan(scan, known, w.rows), MergedView(scan, known, w.rows, world.now);
             && v.rows == RecordSeen(w.rows, live, world.now) && v.now == world.now
             && s < |v.slots| && v.slots[s].inFlight == None
             && v.slots[s].plan == Macs(Targets(merged, cfg.maxPerSwitch))
             && (dryRun || Paced(Targets(merged, cfg.maxPerSwitch), world, l.seconds))
    requires l.threshold == cfg.escalateAfter
    ensures Reaches(v, steps, l, w') && OwnSteps(steps, s) && |w'.slots| == |v.slots| && Idle(w'.slots[s])
    ensures var cycle := CycleOf(scan, known, w.rows, stop, dryRun, world, cfg);
            w'.rows == cycle.rows && Commands(v, steps, l, w') == WriteMacs(cycle.writes)
  {
    hide Targets, MergedView, UsableScan, RecordSeen, RunTargets, Next;
    var targets := Targets(MergedView(scan, known, w.rows, world.now), cfg.maxPerSwitch);
    var done := StartOf(v.rows);
    assert Macs(targets)[0..] == Macs(targets);
    if dryRun {
      DryRunKeepsRows(targets, 0, done, stop, world, cfg);
      DryRunSendsNothing(targets, 0, done, stop, world, cfg);
      w' := DropPlan(v, s, l);
      steps := [Abort(s)];
    } else {
      steps, w' := LoopIsPath(v, s, targets, 0, done, stop, world, cfg, l);
      var writes := RunTargets(targets, 0, done, stop, false, world, cfg).writes;
      assert writes[0..] == writes;
    }
  }

  /** So what holds in every run of ApHarm holds of the registry a cycle leaves behind. */
  lemma CycleStaysBounded(cycles: nat, before: seq<Step>, w: Fleet, s: nat, scan: seq<LiveAp>, known: seq<string>,
                          stop: bool, dryRun: bool, world: World, cfg: Settings, l: Limits, mac: string)
    requires cycles >= 1 && Reaches(Start(cycles), before, l, w)
    requires s < |w.slots| && Idle(w.slots[s]) && IsListing(known, w.rows)
    requires RepeatsAtMost(UsableScan(scan, known, w.rows), l.repeats)
    requires world.now == w.now && OnTime(scan, known, w.rows, dryRun, world, cfg, l.seconds)
    requires l.threshold == cfg.escalateAfter
    ensures var rows := RowsLeft(scan, known, w.rows, stop, dryRun, world, cfg);
            mac in rows ==>
              && (rows[mac].needsAttention.Some? ==> rows[mac].excluded)
              && (rows[mac].needsAttention.None? ==> rows[mac].failures < Threshold(l))
              && rows[mac].failures <= WorstToll(cycles, cycles, l) <= PlainToll(cycles, l)
  {
    hide RowsLeft, OnTime, WorstToll, PlainToll, RepeatsAtMost;
    var steps, w' := CycleIsAPath(w, s, scan, known, stop, dryRun, world, cfg, l);
    Join(Start(cycles), before, w, steps, l, w');
    BoundedHarm(cycles, before + steps, l, w', mac);
    PlainTollIsWorst(cycles, l);
    StartInv(cycles, l);
    ReachableInv(Start(cycles), before + steps, l, w');
    assert MacOk(w', mac, l);
  }

  // ----- An exclusion is honoured -----

  predicate AllActive(rows: Rows) { forall mac :: mac in rows ==> rows[mac].isActive }

  lemma StepKeepsExclusion(w: Fleet, step: Step, l: Limits, mac: string)
    requires Enabled(w, step, l) && step != Exclude(mac, false)
    requires AllActive(w.rows) && mac in w.rows && w.rows[mac].excluded
    ensures var rows' := Next(w, step, l).rows; AllActive(rows') && mac in rows' && rows'[mac].excluded
  {
    hide Violates, Planned, RecordSeen, UsableScan;
    match step
    case Sight(aps) => SightingKeepsExclusion(w.rows, aps, w.now, mac);
    case Begin(s, scan, known, _) => SightingKeepsExclusion(w.rows, UsableScan(scan, known, w.rows), w.now, mac);
    case _ =>
  }

  lemma SightingKeepsExclusion(rows: Rows, aps: seq<LiveAp>, now: int, mac: string)
    requires AllActive(rows) && mac in rows && rows[mac].excluded
    ensures var rows' := RecordSeen(rows, aps, now); AllActive(rows') && mac in rows' && rows'[mac].excluded
  {
    hide RecordSeen;
    RecordSeenMeaning(rows, aps, now);
    var rows' := RecordSeen(rows, aps, now);
    forall m | m in rows'
      ensures rows'[m].isActive
      ensures m == mac ==> rows'[m].excluded
    {
      if i :| 0 <= i < |aps| && Usable(aps[i]) && aps[i].mac == m {
        assert rows'[aps[i].mac].isActive;
      }
    }
  }

  /** Once an AP is excluded, by an operator or by escalation, it stays so until an operator
      includes it again, whatever the overlapping cycles and scans do; and no cycle that begins
      meanwhile plans it. */
  lemma {:induction false} ExclusionIsHonoured(w: Fleet, steps: seq<Step>, l: Limits, w': Fleet, mac: string,
                                               scan: seq<LiveAp>, known: seq<string>, maxPerSwitch: int)
    requires Reaches(w, steps, l, w') && AllActive(w.rows) && mac in w.rows && w.rows[mac].excluded
    requires forall k :: 0 <= k < |steps| ==> steps[k] != Exclude(mac, false)
    requires IsListing(known, w'.rows)
    ensures mac in w'.rows && w'.rows[mac].excluded
    ensures mac !in Planned(w', scan, known, maxPerSwitch)
    decreases |steps|
  {
    hide Next, Enabled;
    if steps == [] {
      NotPlanned(w, mac, scan, known, maxPerSwitch);
    } else {
      StepKeepsExclusion(w, steps[0], l, mac);
      ExclusionIsHonoured(Next(w, steps[0], l), steps[1..], l, w', mac, scan, known, maxPerSwitch);
    }
  }

  lemma NotPlanned(w: Fleet, mac: string, scan: seq<LiveAp>, known: seq<string>, maxPerSwitch: int)
    requires AllActive(w.rows) && mac in w.rows && w.rows[mac].excluded && IsListing(known, w.rows)
    ensures mac !in Planned(w, scan, known, maxPerSwitch)
  {
    hide Targets, MergedView, UsableScan;
    var merged := MergedView(scan, known, w.rows, w.now);
    TargetsShape(merged, maxPerSwitch);
    var targets := Targets(merged, maxPerSwitch);
    forall i | 0 <= i < |targets|
      ensures targets[i].mac != mac
    {
      MergedIsEligible(targets[i], scan, known, w.rows, w.now);
    }
  }
}
