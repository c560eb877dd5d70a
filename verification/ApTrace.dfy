/** What one reboot cycle sends to the switch: which APs and ports it power-cycles, in which
    order, and when it cycles one of them twice. */
module ApTrace {
  import opened Wrappers
  import opened Arithmetic
  import opened ApRegistry
  import opened ApReboot

  // ----- Where the targets come from -----

  ghost predicate DistinctLive(live: seq<LiveAp>) {
    forall i, j :: 0 <= i < j < |live| ==> live[i].mac != live[j].mac
  }

  ghost predicate DistinctMerged(merged: seq<MergedAp>) {
    forall i, j :: 0 <= i < j < |merged| ==> merged[i].mac != merged[j].mac
  }

  /** The merged entry of a live AP. */
  function LiveEntry(ap: LiveAp, known: seq<string>, rows: Rows): MergedAp
    requires forall i :: 0 <= i < |known| ==> known[i] in rows
  {
    MergedAp(ap.mac, ap.port, true, ap.mac in known && rows[ap.mac].excluded)
  }

  function SilentEntry(mac: string, rows: Rows): MergedAp
    requires mac in rows
  {
    MergedAp(mac, rows[mac].port, false, rows[mac].excluded)
  }

  /** The row stayed silent in the scan but was seen within seven days. */
  predicate FreshSilent(live: seq<LiveAp>, rows: Rows, now: int, mac: string) {
    mac in rows && !IsLive(live, mac) && rows[mac].lastSeen >= now - STALE_AFTER_SECONDS
  }

  lemma {:induction false} MergeLiveEntries(live: seq<LiveAp>, known: seq<string>, rows: Rows)
    requires forall i :: 0 <= i < |known| ==> known[i] in rows
    ensures |MergeLive(live, known, rows)| == |live|
    ensures forall i :: 0 <= i < |live| ==> MergeLive(live, known, rows)[i] == LiveEntry(live[i], known, rows)
    decreases |live|
  {
    if live != [] {
      MergeLiveEntries(live[..|live| - 1], known, rows);
    }
  }

  lemma {:induction false} MergeSilentEntries(live: seq<LiveAp>, known: seq<string>, rows: Rows, now: int)
    requires forall i :: 0 <= i < |known| ==> known[i] in rows
    requires forall i, j :: 0 <= i < j < |known| ==> known[i] != known[j]
    ensures forall x :: x in MergeSilent(live, known, rows, now) <==>
              x.mac in known && FreshSilent(live, rows, now, x.mac) && x == SilentEntry(x.mac, rows)
    ensures DistinctMerged(MergeSilent(live, known, rows, now))
    decreases |known|
  {
    if known != [] {
      var init, mac := known[..|known| - 1], known[|known| - 1];
      MergeSilentEntries(live, init, rows, now);
      var shorter := MergeSilent(live, init, rows, now);
      assert known == init + [mac];
      assert mac !in init;
      forall i | 0 <= i < |shorter|
        ensures shorter[i].mac != mac
      {
        assert shorter[i] in shorter;
      }
    }
  }

  /** Where a merged AP comes from: this scan, or a known row that stayed silent. */
  ghost predicate Justified(t: MergedAp, live: seq<LiveAp>, known: seq<string>, rows: Rows, now: int) {
    if t.responding then
      && (exists i :: 0 <= i < |live| && live[i].mac == t.mac && live[i].port == t.port)
      && (t.excluded <==> t.mac in known && t.mac in rows && rows[t.mac].excluded)
    else
      && t.mac in known && !IsLive(live, t.mac) && t.mac in rows
      && rows[t.mac].lastSeen >= now - STALE_AFTER_SECONDS
      && rows[t.mac].port == t.port && t.excluded == rows[t.mac].excluded
  }

  lemma MergedAreJustified(live: seq<LiveAp>, known: seq<string>, rows: Rows, now: int)
    requires forall i :: 0 <= i < |known| ==> known[i] in rows
    requires forall i, j :: 0 <= i < j < |known| ==> known[i] != known[j]
    ensures forall x :: x in Merge(live, known, rows, now) ==> Justified(x, live, known, rows, now)
    ensures DistinctLive(live) ==> DistinctMerged(Merge(live, known, rows, now))
  {
    MergeLiveEntries(live, known, rows);
    MergeSilentEntries(live, known, rows, now);
    var ls, ss := MergeLive(live, known, rows), MergeSilent(live, known, rows, now);
    forall x | x in ls
      ensures Justified(x, live, known, rows, now)
    {
      var i :| 0 <= i < |ls| && ls[i] == x;
      assert live[i].mac == x.mac;
    }
    forall i, j | 0 <= i < |ls| && 0 <= j < |ss|
      ensures ls[i].mac != ss[j].mac
    {
      assert ss[j] in ss;
      assert live[i].mac == ls[i].mac;
    }
  }

  // ----- Two targets that clash -----

  /** The command goes to a port, the outcome to the row of a MAC. */
  datatype Clash = SameMac | SamePort

  predicate Clashes(c: Clash, t: MergedAp, u: MergedAp) {
    match c
    case SameMac => t.mac == u.mac
    case SamePort => t.port == u.port
  }

  predicate Apart(c: Clash, ts: seq<MergedAp>) {
    forall i, j :: 0 <= i < j < |ts| ==> !Clashes(c, ts[i], ts[j])
  }

  predicate Picked(t: MergedAp, responding: bool) { !t.excluded && t.responding == responding }

  /** No two entries that qualify clash. */
  predicate OpenApart(c: Clash, merged: seq<MergedAp>) {
    forall i, j :: 0 <= i < j < |merged| && !merged[i].excluded && !merged[j].excluded ==>
        !Clashes(c, merged[i], merged[j])
  }

  lemma {:induction false} PickMembers(merged: seq<MergedAp>, responding: bool)
    ensures forall x :: x in Pick(merged, responding) <==> x in merged && Picked(x, responding)
  {
    if merged != [] {
      PickMembers(merged[..|merged| - 1], responding);
      assert merged == merged[..|merged| - 1] + [merged[|merged| - 1]];
    }
  }

  /** Within one kind. */
  predicate KindApart(c: Clash, merged: seq<MergedAp>, responding: bool) {
    forall i, j :: 0 <= i < j < |merged| && Picked(merged[i], responding) && Picked(merged[j], responding) ==>
      !Clashes(c, merged[i], merged[j])
  }

  lemma ApartSnoc(c: Clash, ts: seq<MergedAp>, t: MergedAp)
    ensures Apart(c, ts + [t]) <==> Apart(c, ts) && forall x :: x in ts ==> !Clashes(c, x, t)
  {
    var longer := ts + [t];
    if Apart(c, longer) {
      forall i, j | 0 <= i < j < |ts|
        ensures !Clashes(c, ts[i], ts[j])
      {
        assert longer[i] == ts[i] && longer[j] == ts[j];
      }
      forall x | x in ts
        ensures !Clashes(c, x, t)
      {
        var i :| 0 <= i < |ts| && ts[i] == x;
        assert longer[i] == x && longer[|ts|] == t;
      }
    }
  }

  lemma KindApartSnoc(c: Clash, ts: seq<MergedAp>, t: MergedAp, responding: bool)
    ensures KindApart(c, ts + [t], responding) <==>
            KindApart(c, ts, responding) &&
            (Picked(t, responding) ==> forall x :: x in ts && Picked(x, responding) ==> !Clashes(c, x, t))
  {
    hide Picked, Clashes;
    var longer := ts + [t];
    if KindApart(c, longer, responding) {
      forall i, j | 0 <= i < j < |ts| && Picked(ts[i], responding) && Picked(ts[j], responding)
        ensures !Clashes(c, ts[i], ts[j])
      {
        assert longer[i] == ts[i] && longer[j] == ts[j];
      }
      forall x | x in ts && Picked(x, responding) && Picked(t, responding)
        ensures !Clashes(c, x, t)
      {
        var i :| 0 <= i < |ts| && ts[i] == x;
        assert longer[i] == x && longer[|ts|] == t;
      }
    }
  }

  lemma PickSnoc(ts: seq<MergedAp>, t: MergedAp, responding: bool)
    ensures Pick(ts + [t], responding) ==
            if Picked(t, responding) then Pick(ts, responding) + [t] else Pick(ts, responding)
  {
    assert (ts + [t])[..|ts|] == ts;
  }

  lemma {:induction false} PickApartIff(c: Clash, merged: seq<MergedAp>, responding: bool)
    ensures Apart(c, Pick(merged, responding)) <==> KindApart(c, merged, responding)
  {
    if merged != [] {
      hide Apart, KindApart, Clashes, Pick;
      var init, last := merged[..|merged| - 1], merged[|merged| - 1];
      PickApartIff(c, init, responding);
      PickMembers(init, responding);
      assert merged == init + [last];
      KindApartSnoc(c, init, last, responding);
      ApartSnoc(c, Pick(init, responding), last);
      PickSnoc(init, last, responding);
    }
  }

  function Candidates(merged: seq<MergedAp>): seq<MergedAp> { Pick(merged, false) + Pick(merged, true) }

  lemma ApartJoin(c: Clash, ss: seq<MergedAp>, ts: seq<MergedAp>)
    ensures Apart(c, ss + ts) <==>
            Apart(c, ss) && Apart(c, ts) && forall x, y :: x in ss && y in ts ==> !Clashes(c, x, y)
  {
    var all := ss + ts;
    if Apart(c, all) {
      forall i, j | 0 <= i < j < |ss|
        ensures !Clashes(c, ss[i], ss[j])
      {
        assert all[i] == ss[i] && all[j] == ss[j];
      }
      forall i, j | 0 <= i < j < |ts|
        ensures !Clashes(c, ts[i], ts[j])
      {
        assert all[|ss| + i] == ts[i] && all[|ss| + j] == ts[j];
      }
      forall x, y | x in ss && y in ts
        ensures !Clashes(c, x, y)
      {
        var i :| 0 <= i < |ss| && ss[i] == x;
        var j :| 0 <= j < |ts| && ts[j] == y;
        assert all[i] == x && all[|ss| + j] == y;
      }
    } else {
      var i, j :| 0 <= i < j < |all| && Clashes(c, all[i], all[j]);
      assert if j < |ss| then all[j] == ss[j] else all[j] == ts[j - |ss|];
      assert if i < |ss| then all[i] == ss[i] else all[i] == ts[i - |ss|];
    }
  }

  lemma CandidatesApartIff(c: Clash, merged: seq<MergedAp>)
    ensures Apart(c, Candidates(merged)) <==> OpenApart(c, merged)
  {
    PickApartIff(c, merged, false);
    PickApartIff(c, merged, true);
    PickMembers(merged, false);
    PickMembers(merged, true);
    ApartJoin(c, Pick(merged, false), Pick(merged, true));
    hide Apart, Pick;
    if OpenApart(c, merged) {
      forall x, y | x in merged && y in merged && Picked(x, false) && Picked(y, true)
        ensures !Clashes(c, x, y)
      {
        var i :| 0 <= i < |merged| && merged[i] == x;
        var j :| 0 <= j < |merged| && merged[j] == y;
        assert i != j;
      }
    } else {
      var i, j :| 0 <= i < j < |merged| && !merged[i].excluded && !merged[j].excluded &&
        Clashes(c, merged[i], merged[j]);
      assert merged[i] in merged && merged[j] in merged;
      assert Clashes(c, merged[j], merged[i]);
      assert Picked(merged[i], merged[i].responding) && Picked(merged[j], merged[j].responding);
    }
  }

  /** Targets: not excluded, from the merged view, silent ones first, no more of them than
      allowed, and apart wherever the entries that qualify are. */
  lemma TargetsShape(merged: seq<MergedAp>, maxPerSwitch: int)
    ensures var ts := Targets(merged, maxPerSwitch);
            && ts <= Candidates(merged)
            && (forall i :: 0 <= i < |ts| ==> ts[i] in merged && !ts[i].excluded)
            && (forall i, j :: 0 <= i < j < |ts| && !ts[j].responding ==> !ts[i].responding)
            && |ts| == (if maxPerSwitch >= 0 then Min(maxPerSwitch, |Candidates(merged)|)
                        else Max(|Candidates(merged)| + maxPerSwitch, 0))
            && (maxPerSwitch >= |Candidates(merged)| ==> ts == Candidates(merged))
            && (forall c :: OpenApart(c, merged) ==> Apart(c, ts))
  {
    var all, ts := Candidates(merged), Targets(merged, maxPerSwitch);
    assert forall i :: 0 <= i < |ts| ==> ts[i] == all[i];
    forall c | OpenApart(c, merged)
      ensures Apart(c, ts)
    {
      CandidatesApartIff(c, merged);
    }
  }

  // ----- The hardware trace of one cycle -----

  /** When target i is power-cycled: the toggle was on at every re-read up to it, and it
      responds or draws power. */
  ghost predicate Cycled(t: MergedAp, i: nat, stopWhenDisabled: bool, dryRun: bool, world: World) {
    && !dryRun && (stopWhenDisabled ==> forall j: nat :: j <= i ==> world.enabledNow(j))
    && (t.responding || world.drawsPower(i))
  }

  /** The writes are exactly the cycled targets below `n`, in target order. */
  ghost predicate ExactTrace(writes: seq<Write>, n: nat, targets: seq<MergedAp>, stopWhenDisabled: bool, dryRun: bool,
                             world: World)
    requires n <= |targets|
  {
    && (forall k :: 0 <= k < |writes| ==> writes[k].i < n && writes[k].target == targets[writes[k].i])
    && (forall k, l :: 0 <= k < l < |writes| ==> writes[k].i < writes[l].i)
    && (forall i: nat :: i < n ==>
          ((exists k :: 0 <= k < |writes| && writes[k].i == i) <==>
            Cycled(targets[i], i, stopWhenDisabled, dryRun, world)))
  }

  lemma TraceExtends(done: Cycle, n: nat, targets: seq<MergedAp>, stop: bool, dryRun: bool, world: World, cfg: Settings)
    requires n < |targets| && ExactTrace(done.writes, n, targets, stop, dryRun, world)
    requires stop ==> forall j: nat :: j <= n ==> world.enabledNow(j)
    ensures ExactTrace(After(done, targets[n], n, ActionFor(targets[n], n, dryRun, world, cfg), cfg,
                             world.doneAt(n)).writes,
                       n + 1, targets, stop, dryRun, world)
  {
    hide RowsAfter, BackOnline;
    var writes := done.writes;
    var action := ActionFor(targets[n], n, dryRun, world, cfg);
    var writes' := After(done, targets[n], n, action, cfg, world.doneAt(n)).writes;
    assert action.Rebooted? <==> Cycled(targets[n], n, stop, dryRun, world);
    forall i: nat | i < n + 1
      ensures (exists k :: 0 <= k < |writes'| && writes'[k].i == i) <==> Cycled(targets[i], i, stop, dryRun, world)
    {
      if i < n {
        if k :| 0 <= k < |writes| && writes[k].i == i {
          assert writes'[k].i == i;
        }
      } else if action.Rebooted? {
        assert writes'[|writes|].i == n;
      }
    }
  }

  lemma {:induction false} RunTrace(targets: seq<MergedAp>, from: nat, done: Cycle, stop: bool, dryRun: bool,
                                    world: World, cfg: Settings)
    requires from <= |targets| && ExactTrace(done.writes, from, targets, stop, dryRun, world)
    requires stop ==> forall j: nat :: j < from ==> world.enabledNow(j)
    ensures ExactTrace(RunTargets(targets, from, done, stop, dryRun, world, cfg).writes, |targets|, targets,
                       stop, dryRun, world)
    decreases |targets| - from
  {
    hide ActionFor, After;
    if from < |targets| {
      if stop && !world.enabledNow(from) {
        TraceStops(done.writes, from, targets, dryRun, world);
      } else {
        TraceExtends(done, from, targets, stop, dryRun, world, cfg);
        var action := ActionFor(targets[from], from, dryRun, world, cfg);
        var next := After(done, targets[from], from, action, cfg, world.doneAt(from));
        RunTrace(targets, from + 1, next, stop, dryRun, world, cfg);
      }
    }
  }

  lemma TraceStops(writes: seq<Write>, from: nat, targets: seq<MergedAp>, dryRun: bool, world: World)
    requires from < |targets| && !world.enabledNow(from) && ExactTrace(writes, from, targets, true, dryRun, world)
    ensures ExactTrace(writes, |targets|, targets, true, dryRun, world)
  {
    forall i: nat | from <= i < |targets| ensures !Cycled(targets[i], i, true, dryRun, world) {
      assert from <= i;
    }
  }

  lemma {:induction false} DryRunSendsNothing(targets: seq<MergedAp>, from: nat, done: Cycle, stop: bool, world: World,
                                              cfg: Settings)
    ensures RunTargets(targets, from, done, stop, true, world, cfg).writes == done.writes
    decreases |targets| - from
  {
    if from < |targets| && !(stop && !world.enabledNow(from)) {
      var action := ActionFor(targets[from], from, true, world, cfg);
      var next := After(done, targets[from], from, action, cfg, world.doneAt(from));
      DryRunSendsNothing(targets, from + 1, next, stop, world, cfg);
    }
  }

  /** What the registry and the scan say of an AP the cycle may touch. */
  ghost predicate Eligible(t: MergedAp, live: seq<LiveAp>, rows: Rows, now: int) {
    && (t.mac in rows ==> !rows[t.mac].excluded)
    && (if t.responding then exists i :: 0 <= i < |live| && live[i].mac == t.mac && live[i].port == t.port
        else
          && t.mac in rows && (forall i :: 0 <= i < |live| ==> live[i].mac != t.mac)
          && rows[t.mac].lastSeen >= now - 7 * 24 * 3600 && rows[t.mac].port == t.port)
  }

  lemma MergedIsEligible(t: MergedAp, scan: seq<LiveAp>, known: seq<string>, rows: Rows, now: int)
    requires IsListing(known, rows) && (forall mac :: mac in rows ==> rows[mac].isActive)
    requires t in MergedView(scan, known, rows, now) && !t.excluded
    ensures Eligible(t, UsableScan(scan, known, rows), rows, now)
  {
    hide UsableAps, RecoverMacs, Merge, RecordSeen;
    var live := UsableScan(scan, known, rows);
    var rows' := RecordSeen(rows, live, now);
    RecordSeenMeaning(rows, live, now);
    MergedAreJustified(live, known, rows', now);
    assert Justified(t, live, known, rows', now);
    if t.responding {
      var i :| 0 <= i < |live| && live[i].mac == t.mac && live[i].port == t.port;
      assert Usable(live[i]);
    } else {
      assert forall i :: 0 <= i < |live| && Usable(live[i]) ==> live[i].mac != t.mac;
    }
  }

  /** One cycle's hardware writes, given an all-active registry: each goes to a non-excluded
      AP that this scan saw, or that stayed silent, was seen within seven days and draws
      power; no more than the maximum; silent APs first; none in a dry run; none from the
      target on at which the toggle read off; none over a scan that the unique constraint
      rejects. Otherwise nothing that qualifies is passed over. */
  lemma HardwareTrace(scan: seq<LiveAp>, known: seq<string>, rows: Rows, stop: bool, dryRun: bool,
                      world: World, cfg: Settings)
    requires IsListing(known, rows) && (forall mac :: mac in rows ==> rows[mac].isActive)
    ensures var live := UsableScan(scan, known, rows);
            var targets := Targets(MergedView(scan, known, rows, world.now), cfg.maxPerSwitch);
            var writes := Sent(scan, known, rows, stop, dryRun, world, cfg);
            && (forall k :: 0 <= k < |writes| ==>
                  Eligible(writes[k].target, live, rows, world.now) &&
                  (writes[k].target.responding || world.drawsPower(writes[k].i)))
            && (forall k, l :: 0 <= k < l < |writes| && !writes[l].target.responding ==> !writes[k].target.responding)
            && (cfg.maxPerSwitch >= 0 ==> |writes| <= cfg.maxPerSwitch)
            && (dryRun ==> writes == [])
            && (forall j: nat, k :: stop && !world.enabledNow(j) && 0 <= k < |writes| ==> writes[k].i < j)
            && (if Violates(rows, live) then writes == []
                else ExactTrace(writes, |targets|, targets, stop, dryRun, world))
  {
    hide Targets, RunTargets, MergedView, UsableScan, RecordSeen, Eligible, Violates;
    var live := UsableScan(scan, known, rows);
    var merged := MergedView(scan, known, rows, world.now);
    TargetsShape(merged, cfg.maxPerSwitch);
    var targets := Targets(merged, cfg.maxPerSwitch);
    var start := StartOf(RecordSeen(rows, live, world.now));
    RunTrace(targets, 0, start, stop, dryRun, world, cfg);
    var writes := RunTargets(targets, 0, start, stop, dryRun, world, cfg).writes;
    forall k | 0 <= k < |writes|
      ensures Cycled(writes[k].target, writes[k].i, stop, dryRun, world)
      ensures Eligible(writes[k].target, live, rows, world.now)
    {
      assert writes[k].target == targets[writes[k].i];
      MergedIsEligible(writes[k].target, scan, known, rows, world.now);
    }
    if dryRun {
      DryRunSendsNothing(targets, 0, start, stop, world, cfg);
    }
    TraceIsShort(writes, |targets|);
  }

  lemma {:induction false} TraceIsShort(writes: seq<Write>, n: nat)
    requires forall k :: 0 <= k < |writes| ==> writes[k].i < n
    requires forall k, l :: 0 <= k < l < |writes| ==> writes[k].i < writes[l].i
    ensures |writes| <= n
    decreases |writes|
  {
    if writes != [] {
      TraceIsShort(writes[..|writes| - 1], writes[|writes| - 1].i);
    }
  }

  // ----- Cycled twice -----

  predicate ApartWrites(c: Clash, writes: seq<Write>) {
    forall k, l :: 0 <= k < l < |writes| ==> !Clashes(c, writes[k].target, writes[l].target)
  }

  lemma TraceIsApart(c: Clash, writes: seq<Write>, targets: seq<MergedAp>, stop: bool, dryRun: bool, world: World)
    requires ExactTrace(writes, |targets|, targets, stop, dryRun, world) && Apart(c, targets)
    ensures ApartWrites(c, writes)
  {
    forall k, l | 0 <= k < l < |writes|
      ensures !Clashes(c, writes[k].target, writes[l].target)
    {
      assert writes[k].i < writes[l].i;
    }
  }

  /** The toggle stays on and everything draws power. */
  ghost predicate AllOn(world: World) {
    (forall i: nat :: world.enabledNow(i)) && forall i: nat :: world.drawsPower(i)
  }

  /** In a live cycle with the toggle on and power on every port, something is cycled twice
      exactly when two of the targets clash and the scan is not rejected. */
  lemma AllOnTwiceIff(c: Clash, scan: seq<LiveAp>, known: seq<string>, rows: Rows, stop: bool, world: World,
                      cfg: Settings)
    requires IsListing(known, rows) && AllOn(world)
    ensures ApartWrites(c, Sent(scan, known, rows, stop, false, world, cfg)) <==>
            Violates(rows, UsableScan(scan, known, rows)) ||
            Apart(c, Targets(MergedView(scan, known, rows, world.now), cfg.maxPerSwitch))
  {
    assert ApartWrites(c, []);
    hide Targets, RunTargets, MergedView, UsableScan, RecordSeen, ExactTrace, ApartWrites, Apart, AllOn, Violates;
    var targets := Targets(MergedView(scan, known, rows, world.now), cfg.maxPerSwitch);
    NothingWritten(targets, stop, false, world);
    RunTrace(targets, 0, StartOf(RecordSeen(rows, UsableScan(scan, known, rows), world.now)), stop, false, world, cfg);
    FullTraceIff(c, CycleOf(scan, known, rows, stop, false, world, cfg).writes, targets, stop, world);
  }

  lemma NothingWritten(targets: seq<MergedAp>, stop: bool, dryRun: bool, world: World)
    ensures ExactTrace([], 0, targets, stop, dryRun, world)
  {
  }

  lemma FullTraceIff(c: Clash, writes: seq<Write>, targets: seq<MergedAp>, stop: bool, world: World)
    requires ExactTrace(writes, |targets|, targets, stop, false, world) && AllOn(world)
    ensures ApartWrites(c, writes) <==> Apart(c, targets)
  {
    hide Clashes;
    if Apart(c, targets) {
      TraceIsApart(c, writes, targets, stop, false, world);
    } else {
      var i: nat, j: nat :| i < j < |targets| && Clashes(c, targets[i], targets[j]);
      var k := WriteOf(writes, i, targets, stop, world);
      var l := WriteOf(writes, j, targets, stop, world);
      assert k < l;
      assert Clashes(c, writes[k].target, writes[l].target);
    }
  }

  lemma WriteOf(writes: seq<Write>, i: nat, targets: seq<MergedAp>, stop: bool, world: World) returns (k: nat)
    requires ExactTrace(writes, |targets|, targets, stop, false, world) && AllOn(world) && i < |targets|
    ensures k < |writes| && writes[k] == Write(i, targets[i])
  {
    assert Cycled(targets[i], i, stop, false, world);
    k :| 0 <= k < |writes| && writes[k].i == i;
  }

  /** No cycle over this scan cycles anything twice, whatever the settings, the switch and
      the toggle do. */
  ghost predicate NeverTwice(c: Clash, scan: seq<LiveAp>, known: seq<string>, rows: Rows, now: int)
    requires forall i :: 0 <= i < |known| ==> known[i] in rows
  {
    forall stop, dryRun, world: World, cfg :: world.now == now ==>
      ApartWrites(c, Sent(scan, known, rows, stop, dryRun, world, cfg))
  }

  function Powered(now: int): World {
    World(None, (i: nat) => true, (i: nat) => true, (i: nat) => true, (i: nat, k: nat) => None, now, (i: nat) => now)
  }

  lemma NeverTwiceIff(c: Clash, scan: seq<LiveAp>, known: seq<string>, rows: Rows, now: int)
    requires IsListing(known, rows)
    ensures NeverTwice(c, scan, known, rows, now) <==>
            Violates(rows, UsableScan(scan, known, rows)) || OpenApart(c, MergedView(scan, known, rows, now))
  {
    hide Targets, RunTargets, MergedView, UsableScan, RecordSeen, CycleOf, Candidates, Violates;
    var merged := MergedView(scan, known, rows, now);
    CandidatesApartIff(c, merged);
    if OpenApart(c, merged) {
      forall stop, dryRun, world: World, cfg | world.now == now
        ensures ApartWrites(c, Sent(scan, known, rows, stop, dryRun, world, cfg))
      {
        OpenApartIsEnough(c, scan, known, rows, stop, dryRun, world, cfg);
      }
    } else if !Violates(rows, UsableScan(scan, known, rows)) {
      var cfg := Settings(|Candidates(merged)|, 0, 0, 0);
      TargetsShape(merged, cfg.maxPerSwitch);
      AllOnTwiceIff(c, scan, known, rows, true, Powered(now), cfg);
    }
  }

  lemma OpenApartIsEnough(c: Clash, scan: seq<LiveAp>, known: seq<string>, rows: Rows, stop: bool, dryRun: bool,
                          world: World, cfg: Settings)
    requires IsListing(known, rows) && OpenApart(c, MergedView(scan, known, rows, world.now))
    ensures ApartWrites(c, Sent(scan, known, rows, stop, dryRun, world, cfg))
  {
    hide Targets, RunTargets, MergedView, UsableScan, RecordSeen, OpenApart, Violates;
    var merged := MergedView(scan, known, rows, world.now);
    TargetsShape(merged, cfg.maxPerSwitch);
    var targets := Targets(merged, cfg.maxPerSwitch);
    RunTrace(targets, 0, StartOf(RecordSeen(rows, UsableScan(scan, known, rows), world.now)), stop, dryRun, world, cfg);
    TraceIsApart(c, CycleOf(scan, known, rows, stop, dryRun, world, cfg).writes, targets, stop, dryRun, world);
  }

  // ----- The same, in terms of the scan and the registry -----

  /** Live entry i qualifies: no operator and no escalation excluded its MAC. */
  predicate OpenLive(live: seq<LiveAp>, rows: Rows, i: nat) {
    i < |live| && !(live[i].mac in rows && rows[live[i].mac].excluded)
  }

  predicate OpenSilent(live: seq<LiveAp>, rows: Rows, now: int, mac: string) {
    FreshSilent(live, rows, now, mac) && !rows[mac].excluded
  }

  ghost predicate LiveApart(c: Clash, live: seq<LiveAp>, rows: Rows) {
    forall i: nat, j: nat :: i < j && OpenLive(live, rows, i) && OpenLive(live, rows, j) ==>
      match c case SameMac => live[i].mac != live[j].mac case SamePort => live[i].port != live[j].port
  }

  /** No two qualifying live entries report one port, no two qualifying silent rows remember
      one, and none of these is one of those. */
  ghost predicate PortsApart(live: seq<LiveAp>, rows: Rows, now: int) {
    && LiveApart(SamePort, live, rows)
    && (forall m, n :: m != n && OpenSilent(live, rows, now, m) && OpenSilent(live, rows, now, n) ==>
          rows[m].port != rows[n].port)
    && (forall i: nat, m :: OpenLive(live, rows, i) && OpenSilent(live, rows, now, m) ==> live[i].port != rows[m].port)
  }

  /** What the merged view holds, read off the scan and the registry as they were. */
  lemma ViewEntries(scan: seq<LiveAp>, known: seq<string>, rows: Rows, now: int)
    returns (ls: seq<MergedAp>, ss: seq<MergedAp>)
    requires IsListing(known, rows) && (forall mac :: mac in rows ==> rows[mac].isActive)
    ensures MergedView(scan, known, rows, now) == ls + ss
    ensures var live := UsableScan(scan, known, rows);
            && |ls| == |live|
            && (forall i: nat :: i < |live| ==>
                ls[i] == MergedAp(live[i].mac, live[i].port, true, !OpenLive(live, rows, i)))
            && (forall x :: x in ss <==>
                  FreshSilent(live, rows, now, x.mac) &&
                    x == MergedAp(x.mac, rows[x.mac].port, false, rows[x.mac].excluded))
    ensures DistinctMerged(ss)
  {
    hide UsableAps, RecoverMacs, RecordSeen, MergeLive, MergeSilent;
    var live := UsableScan(scan, known, rows);
    var rows' := RecordSeen(rows, live, now);
    RecordSeenMeaning(rows, live, now);
    MergeLiveEntries(live, known, rows');
    MergeSilentEntries(live, known, rows', now);
    ls, ss := MergeLive(live, known, rows'), MergeSilent(live, known, rows', now);
    UsableAreUsable(scan, known, rows);
    forall i: nat | i < |live|
      ensures ls[i] == MergedAp(live[i].mac, live[i].port, true, !OpenLive(live, rows, i))
    {
      assert Usable(live[i]);
    }
    forall mac
      ensures mac in known && FreshSilent(live, rows', now, mac) <==> FreshSilent(live, rows, now, mac)
      ensures FreshSilent(live, rows, now, mac) ==> rows'[mac] == rows[mac]
    {
      if mac in rows && !IsLive(live, mac) {
        assert rows'[mac] == rows[mac];
      }
    }
  }

  lemma UsableAreUsable(scan: seq<LiveAp>, known: seq<string>, rows: Rows)
    requires forall i :: 0 <= i < |known| ==> known[i] in rows
    ensures forall i :: 0 <= i < |UsableScan(scan, known, rows)| ==> Usable(UsableScan(scan, known, rows)[i])
  {
  }

  lemma LiveApartIff(c: Clash, live: seq<LiveAp>, rows: Rows, ls: seq<MergedAp>)
    requires |ls| == |live|
    requires forall i: nat :: i < |live| ==>
               ls[i] == MergedAp(live[i].mac, live[i].port, true, !OpenLive(live, rows, i))
    ensures OpenApart(c, ls) <==> LiveApart(c, live, rows)
  {
    hide OpenLive;
    assert forall i: nat :: OpenLive(live, rows, i) ==> i < |live| by { OpenLiveInside(live, rows); }
    if OpenApart(c, ls) {
      forall i: nat, j: nat | i < j && OpenLive(live, rows, i) && OpenLive(live, rows, j)
        ensures !Clashes(c, ls[i], ls[j])
      {
      }
    }
  }

  lemma OpenLiveInside(live: seq<LiveAp>, rows: Rows)
    ensures forall i: nat :: OpenLive(live, rows, i) ==> i < |live|
  {
  }

  lemma OpenApartJoin(c: Clash, ls: seq<MergedAp>, ss: seq<MergedAp>)
    ensures OpenApart(c, ls + ss) <==>
            OpenApart(c, ls) && OpenApart(c, ss) &&
            forall x, y :: x in ls && y in ss && !x.excluded && !y.excluded ==> !Clashes(c, x, y)
  {
    var all := ls + ss;
    if OpenApart(c, all) {
      forall i, j | 0 <= i < j < |ls| && !ls[i].excluded && !ls[j].excluded
        ensures !Clashes(c, ls[i], ls[j])
      {
        assert all[i] == ls[i] && all[j] == ls[j];
      }
      forall i, j | 0 <= i < j < |ss| && !ss[i].excluded && !ss[j].excluded
        ensures !Clashes(c, ss[i], ss[j])
      {
        assert all[|ls| + i] == ss[i] && all[|ls| + j] == ss[j];
      }
      forall x, y | x in ls && y in ss && !x.excluded && !y.excluded
        ensures !Clashes(c, x, y)
      {
        var i :| 0 <= i < |ls| && ls[i] == x;
        var j :| 0 <= j < |ss| && ss[j] == y;
        assert all[i] == x && all[|ls| + j] == y;
      }
    } else {
      var i, j :| 0 <= i < j < |all| && !all[i].excluded && !all[j].excluded && Clashes(c, all[i], all[j]);
      assert if j < |ls| then all[j] == ls[j] else all[j] == ss[j - |ls|];
      assert if i < |ls| then all[i] == ls[i] else all[i] == ss[i - |ls|];
    }
  }

  /** No AP is cycled twice by any cycle over this scan if and only if the unique constraint
      rejects it or no two of its usable entries share a MAC that is not excluded. */
  lemma NoApTwiceIff(scan: seq<LiveAp>, known: seq<string>, rows: Rows, now: int)
    requires IsListing(known, rows) && (forall mac :: mac in rows ==> rows[mac].isActive)
    ensures var live := UsableScan(scan, known, rows);
            NeverTwice(SameMac, scan, known, rows, now) <==> Violates(rows, live) || LiveApart(SameMac, live, rows)
  {
    hide MergedView, UsableScan, NeverTwice, OpenLive, Violates;
    NeverTwiceIff(SameMac, scan, known, rows, now);
    var live := UsableScan(scan, known, rows);
    var ls, ss := ViewEntries(scan, known, rows, now);
    LiveApartIff(SameMac, live, rows, ls);
    OpenApartJoin(SameMac, ls, ss);
    assert OpenApart(SameMac, ss);
    forall x, y | x in ls && y in ss
      ensures !Clashes(SameMac, x, y)
    {
      var i: nat :| i < |ls| && ls[i] == x;
      assert live[i].mac == x.mac && !IsLive(live, y.mac);
    }
  }

  lemma SilentApartIff(live: seq<LiveAp>, rows: Rows, now: int, ss: seq<MergedAp>)
    requires DistinctMerged(ss)
    requires forall x :: x in ss <==>
               FreshSilent(live, rows, now, x.mac) &&
                 x == MergedAp(x.mac, rows[x.mac].port, false, rows[x.mac].excluded)
    ensures OpenApart(SamePort, ss) <==>
            forall m, n :: m != n && OpenSilent(live, rows, now, m) && OpenSilent(live, rows, now, n) ==>
              rows[m].port != rows[n].port
  {
    if OpenApart(SamePort, ss) {
      forall m, n | m != n && OpenSilent(live, rows, now, m) && OpenSilent(live, rows, now, n)
        ensures rows[m].port != rows[n].port
      {
        FreshIsKnown(live, rows, now, m);
        FreshIsKnown(live, rows, now, n);
        var i := IndexOf(ss, MergedAp(m, rows[m].port, false, false));
        var j := IndexOf(ss, MergedAp(n, rows[n].port, false, false));
        assert !Clashes(SamePort, ss[i], ss[j]) by {
          assert i < j || j < i;
          assert !Clashes(SamePort, ss[if i < j then i else j], ss[if i < j then j else i]);
        }
      }
    } else {
      var i, j :| 0 <= i < j < |ss| && !ss[i].excluded && !ss[j].excluded && Clashes(SamePort, ss[i], ss[j]);
      assert ss[i] in ss && ss[j] in ss;
      FreshIsKnown(live, rows, now, ss[i].mac);
      FreshIsKnown(live, rows, now, ss[j].mac);
      assert OpenSilent(live, rows, now, ss[i].mac) && OpenSilent(live, rows, now, ss[j].mac);
    }
  }

  lemma FreshIsKnown(live: seq<LiveAp>, rows: Rows, now: int, mac: string)
    ensures FreshSilent(live, rows, now, mac) ==> mac in rows
  {
  }

  lemma IndexOf(ts: seq<MergedAp>, t: MergedAp) returns (i: nat)
    requires t in ts
    ensures i < |ts| && ts[i] == t
  {
    i :| 0 <= i < |ts| && ts[i] == t;
  }

  /** No port is cycled twice by any cycle over this scan if and only if the unique constraint
      rejects it or the qualifying live entries and silent rows all sit on ports of their own. */
  lemma NoPortTwiceIff(scan: seq<LiveAp>, known: seq<string>, rows: Rows, now: int)
    requires IsListing(known, rows) && (forall mac :: mac in rows ==> rows[mac].isActive)
    ensures var live := UsableScan(scan, known, rows);
            NeverTwice(SamePort, scan, known, rows, now) <==> Violates(rows, live) || PortsApart(live, rows, now)
  {
    hide MergedView, UsableScan, NeverTwice, OpenLive, Violates;
    NeverTwiceIff(SamePort, scan, known, rows, now);
    var live := UsableScan(scan, known, rows);
    var ls, ss := ViewEntries(scan, known, rows, now);
    LiveApartIff(SamePort, live, rows, ls);
    SilentApartIff(live, rows, now, ss);
    OpenApartJoin(SamePort, ls, ss);
    OpenLiveInside(live, rows);
    if forall x, y :: x in ls && y in ss && !x.excluded && !y.excluded ==> !Clashes(SamePort, x, y) {
      forall i: nat, m | OpenLive(live, rows, i) && OpenSilent(live, rows, now, m)
        ensures live[i].port != rows[m].port
      {
        FreshIsKnown(live, rows, now, m);
        assert ls[i] in ls && MergedAp(m, rows[m].port, false, false) in ss;
        assert !Clashes(SamePort, ls[i], MergedAp(m, rows[m].port, false, false));
      }
    }
    if forall i: nat, m :: OpenLive(live, rows, i) && OpenSilent(live, rows, now, m) ==> live[i].port != rows[m].port {
      forall x, y | x in ls && y in ss && !x.excluded && !y.excluded
        ensures !Clashes(SamePort, x, y)
      {
        var i := IndexOf(ls, x);
        FreshIsKnown(live, rows, now, y.mac);
        assert OpenLive(live, rows, i) && OpenSilent(live, rows, now, y.mac);
      }
    }
  }

  // ----- Which ports can be cycled at all -----

  /** Some cycle over this scan sends a command for this AP to this port. */
  ghost predicate CanCycle(scan: seq<LiveAp>, known: seq<string>, rows: Rows, now: int, mac: string, port: string)
    requires forall i :: 0 <= i < |known| ==> known[i] in rows
  {
    exists stop, dryRun, world: World, cfg ::
      world.now == now && Cycles(Sent(scan, known, rows, stop, dryRun, world, cfg), mac, port)
  }

  predicate Cycles(writes: seq<Write>, mac: string, port: string) {
    exists k :: 0 <= k < |writes| && writes[k].target.mac == mac && writes[k].target.port == port
  }

  ghost predicate CanCyclePort(scan: seq<LiveAp>, known: seq<string>, rows: Rows, now: int, port: string)
    requires forall i :: 0 <= i < |known| ==> known[i] in rows
  {
    exists mac :: CanCycle(scan, known, rows, now, mac, port)
  }

  /** A port can be cycled if and only if the unique constraint does not reject the scan and a
      qualifying live entry reports the port or a qualifying silent row remembers it - whoever
      else, excluded or not, is connected there. */
  lemma CanCyclePortIff(scan: seq<LiveAp>, known: seq<string>, rows: Rows, now: int, port: string)
    requires IsListing(known, rows) && (forall mac :: mac in rows ==> rows[mac].isActive)
    ensures var live := UsableScan(scan, known, rows);
            CanCyclePort(scan, known, rows, now, port) <==>
            && !Violates(rows, live)
            && ((exists i: nat :: OpenLive(live, rows, i) && live[i].port == port) ||
                (exists m :: OpenSilent(live, rows, now, m) && rows[m].port == port))
  {
    hide MergedView, UsableScan, OpenLive, CycleOf, Targets, Violates, CanCycle;
    var live := UsableScan(scan, known, rows);
    var ls, ss := ViewEntries(scan, known, rows, now);
    var merged := MergedView(scan, known, rows, now);
    OpenLiveInside(live, rows);
    if mac :| CanCycle(scan, known, rows, now, mac, port) {
      var t := CycledIsOpen(scan, known, rows, now, mac, port);
      if t in ls {
        var i := IndexOf(ls, t);
        assert OpenLive(live, rows, i);
      } else {
        assert t in ss;
        FreshIsKnown(live, rows, now, t.mac);
        assert OpenSilent(live, rows, now, t.mac);
      }
    }
    if i: nat :| OpenLive(live, rows, i) && live[i].port == port && !Violates(rows, live) {
      assert ls[i] in merged;
      OpenIsCycled(scan, known, rows, now, ls[i]);
    }
    if m :| OpenSilent(live, rows, now, m) && rows[m].port == port && !Violates(rows, live) {
      FreshIsKnown(live, rows, now, m);
      var t := MergedAp(m, port, false, false);
      assert t in ss;
      OpenIsCycled(scan, known, rows, now, t);
    }
  }

  lemma CycledIsOpen(scan: seq<LiveAp>, known: seq<string>, rows: Rows, now: int, mac: string, port: string)
    returns (t: MergedAp)
    requires IsListing(known, rows) && CanCycle(scan, known, rows, now, mac, port)
    ensures t in MergedView(scan, known, rows, now) && !t.excluded && t.mac == mac && t.port == port
    ensures !Violates(rows, UsableScan(scan, known, rows))
  {
    hide Targets, RunTargets, MergedView, UsableScan, RecordSeen, Violates;
    var stop, dryRun, world: World, cfg :|
      world.now == now && Cycles(Sent(scan, known, rows, stop, dryRun, world, cfg), mac, port);
    var merged := MergedView(scan, known, rows, now);
    var targets := Targets(merged, cfg.maxPerSwitch);
    TargetsShape(merged, cfg.maxPerSwitch);
    RunTrace(targets, 0, StartOf(RecordSeen(rows, UsableScan(scan, known, rows), now)), stop, dryRun, world, cfg);
    var writes := Sent(scan, known, rows, stop, dryRun, world, cfg);
    var k :| 0 <= k < |writes| && writes[k].target.mac == mac && writes[k].target.port == port;
    t := writes[k].target;
    assert t == targets[writes[k].i];
  }

  lemma OpenIsCycled(scan: seq<LiveAp>, known: seq<string>, rows: Rows, now: int, t: MergedAp)
    requires IsListing(known, rows) && t in MergedView(scan, known, rows, now) && !t.excluded
    requires !Violates(rows, UsableScan(scan, known, rows))
    ensures CanCycle(scan, known, rows, now, t.mac, t.port)
  {
    hide Targets, RunTargets, MergedView, UsableScan, RecordSeen, Pick;
    var merged := MergedView(scan, known, rows, now);
    PickMembers(merged, t.responding);
    var all, world := Candidates(merged), Powered(now);
    var cfg := Settings(|all|, 0, 0, 0);
    TargetsShape(merged, cfg.maxPerSwitch);
    assert t in Pick(merged, t.responding) && t in all;
    var i := IndexOf(all, t);
    RunTrace(all, 0, StartOf(RecordSeen(rows, UsableScan(scan, known, rows), now)), true, false, world, cfg);
    var writes := Sent(scan, known, rows, true, false, world, cfg);
    var k := WriteOf(writes, i, all, true, world);
    assert writes[k].target == t;
    assert Cycles(writes, t.mac, t.port);
  }

  // ----- What a cycle reports -----

  /** Result k is target k's, with what was done to it and whether it came back. */
  ghost predicate Reports(r: Result, t: MergedAp, k: nat, dryRun: bool, world: World, cfg: Settings) {
    && r.i == k && r.mac == t.mac
    && (r.action == DryRun <==> dryRun)
    && (r.action == SkippedNoPower <==> !dryRun && !t.responding && !world.drawsPower(k))
    && (r.action.Rebooted? ==> r.action.ok == world.cycleOk(k) && (r.action.backOnline <==> CameBack(t, k, world, cfg)))
  }

  /** The results so far: one for each target below `n`, none of which the toggle stopped. */
  ghost predicate ReportsAll(results: seq<Result>, n: nat, targets: seq<MergedAp>, stop: bool, dryRun: bool,
                             world: World, cfg: Settings)
    requires n <= |targets|
  {
    && |results| == n
    && (forall k: nat :: k < n ==> Reports(results[k], targets[k], k, dryRun, world, cfg))
    && (stop ==> forall j: nat :: j < n ==> world.enabledNow(j))
  }

  lemma OneReport(t: MergedAp, k: nat, dryRun: bool, world: World, cfg: Settings)
    ensures Reports(Result(k, t.mac, ActionFor(t, k, dryRun, world, cfg)), t, k, dryRun, world, cfg)
  {
    BackOnlineMeaning(world, k, t.mac, cfg);
    hide BackOnline, Shows;
  }

  lemma {:induction false} LoopReports(targets: seq<MergedAp>, from: nat, done: Cycle, stop: bool, dryRun: bool,
                                       world: World, cfg: Settings)
    requires from <= |targets| && !done.cancelled
    requires ReportsAll(done.results, from, targets, stop, dryRun, world, cfg)
    ensures var cycle := RunTargets(targets, from, done, stop, dryRun, world, cfg);
            && |cycle.results| <= |targets|
            && ReportsAll(cycle.results, |cycle.results|, targets, stop, dryRun, world, cfg)
            && (cycle.cancelled <==> |cycle.results| < |targets|)
            && (cycle.cancelled ==> stop && !world.enabledNow(|cycle.results|))
    decreases |targets| - from
  {
    hide ActionFor, RowsAfter, Reports;
    if from < |targets| && !(stop && !world.enabledNow(from)) {
      var action := ActionFor(targets[from], from, dryRun, world, cfg);
      OneReport(targets[from], from, dryRun, world, cfg);
      var next := After(done, targets[from], from, action, cfg, world.doneAt(from));
      LoopReports(targets, from + 1, next, stop, dryRun, world, cfg);
    }
  }

  /** What a cycle reports: in order, one result for each target up to the first one at which the
      toggle reads off - for all of them, and not as cancelled, if there is none - saying what was
      done to it, whether the switch took the command and whether the AP came back. */
  lemma CycleReports(scan: seq<LiveAp>, known: seq<string>, rows: Rows, stop: bool, dryRun: bool, world: World,
                     cfg: Settings)
    requires forall i :: 0 <= i < |known| ==> known[i] in rows
    ensures var targets := Targets(MergedView(scan, known, rows, world.now), cfg.maxPerSwitch);
            var cycle := CycleOf(scan, known, rows, stop, dryRun, world, cfg);
            && |cycle.results| <= |targets|
            && ReportsAll(cycle.results, |cycle.results|, targets, stop, dryRun, world, cfg)
            && (cycle.cancelled <==> |cycle.results| < |targets|)
            && (cycle.cancelled ==> stop && !world.enabledNow(|cycle.results|))
  {
    hide Targets, MergedView, UsableScan, RecordSeen, RunTargets;
    LoopReports(Targets(MergedView(scan, known, rows, world.now), cfg.maxPerSwitch), 0,
                StartOf(RecordSeen(rows, UsableScan(scan, known, rows), world.now)), stop, dryRun, world, cfg);
  }

  // ----- What the registry learns from a cycle -----

  /** The live cycle gets to target k. */
  predicate GetsTo(k: nat, stop: bool, dryRun: bool, world: World) {
    !dryRun && (stop ==> forall j: nat :: j <= k ==> world.enabledNow(j))
  }

  /** The switch took the command for target k, and the AP showed up again in time. */
  ghost predicate CameBack(t: MergedAp, k: nat, world: World, cfg: Settings) {
    world.cycleOk(k) &&
    exists p: nat :: p * Max(cfg.verifyInterval, 1) < cfg.verifyMaxWait && Shows(world, k, p, t.mac)
  }

  /** A row whose streak has reached the threshold asks for attention and is excluded, once. */
  predicate Alerted(r: Row, r': Row, streak: int, at: int, cfg: Settings) {
    if streak >= cfg.escalateAfter && r.needsAttention.None? then r'.needsAttention == Some(at) && r'.excluded
    else r'.needsAttention == r.needsAttention && r'.excluded == r.excluded
  }

  /** The row of a target before and after its outcome: a silent one without power is a skip,
      one that came back has its streaks cleared, and anything else is a failure. */
  ghost predicate Learned(r: Row, r': Row, t: MergedAp, k: nat, world: World, cfg: Settings) {
    if !t.responding && !world.drawsPower(k) then
      r'.skips == r.skips + 1 && r'.failures == r.failures && Alerted(r, r', r'.skips, world.doneAt(k), cfg)
    else if CameBack(t, k, world, cfg) then
      r'.failures == 0 && r'.skips == 0 && r'.needsAttention.None? && r'.excluded == r.excluded
    else r'.failures == r.failures + 1 && r'.skips == r.skips && Alerted(r, r', r'.failures, world.doneAt(k), cfg)
  }

  lemma OneOutcome(rows: Rows, t: MergedAp, k: nat, world: World, cfg: Settings)
    ensures var rows' := RowsAfter(rows, t, ActionFor(t, k, false, world, cfg), cfg, world.doneAt(k));
            && rows'.Keys == rows.Keys && (forall mac :: mac in rows && mac != t.mac ==> rows'[mac] == rows[mac])
            && (t.mac in rows ==> Learned(rows[t.mac], rows'[t.mac], t, k, world, cfg))
  {
    BackOnlineMeaning(world, k, t.mac, cfg);
    hide BackOnline, Shows;
  }

  lemma {:induction false} LoopLeavesOthers(targets: seq<MergedAp>, from: nat, done: Cycle, stop: bool, dryRun: bool,
                                            world: World, cfg: Settings, mac: string)
    requires mac in done.rows
    requires dryRun || forall j :: from <= j < |targets| ==> targets[j].mac != mac
    ensures var rows' := RunTargets(targets, from, done, stop, dryRun, world, cfg).rows;
            mac in rows' && rows'[mac] == done.rows[mac]
    decreases |targets| - from
  {
    hide ActionFor, RowsAfter;
    if from < |targets| && !(stop && !world.enabledNow(from)) {
      var action := ActionFor(targets[from], from, dryRun, world, cfg);
      var next := After(done, targets[from], from, action, cfg, world.doneAt(from));
      LeavesOthers(done.rows, targets[from], from, dryRun, world, cfg, world.doneAt(from), mac);
      LoopLeavesOthers(targets, from + 1, next, stop, dryRun, world, cfg, mac);
    }
  }

  lemma LeavesOthers(rows: Rows, t: MergedAp, k: nat, dryRun: bool, world: World, cfg: Settings, now: int, mac: string)
    requires mac in rows && (dryRun || t.mac != mac)
    ensures var rows' := RowsAfter(rows, t, ActionFor(t, k, dryRun, world, cfg), cfg, now);
            mac in rows' && rows'[mac] == rows[mac]
  {
  }

  lemma {:induction false} LoopLearns(targets: seq<MergedAp>, from: nat, done: Cycle, stop: bool, world: World,
                                      cfg: Settings, k: nat)
    requires from <= k < |targets| && targets[k].mac in done.rows
    requires forall j :: from <= j < |targets| && j != k ==> targets[j].mac != targets[k].mac
    requires stop ==> forall j: nat :: j < from ==> world.enabledNow(j)
    ensures var mac, rows' := targets[k].mac, RunTargets(targets, from, done, stop, false, world, cfg).rows;
            && mac in rows'
            && (if GetsTo(k, stop, false, world) then Learned(done.rows[mac], rows'[mac], targets[k], k, world, cfg)
                else rows'[mac] == done.rows[mac])
    decreases |targets| - from
  {
    hide ActionFor, RowsAfter, Learned;
    if !(stop && !world.enabledNow(from)) {
      var t, mac := targets[from], targets[k].mac;
      var action := ActionFor(t, from, false, world, cfg);
      var next := After(done, t, from, action, cfg, world.doneAt(from));
      OneOutcome(done.rows, t, from, world, cfg);
      if from < k {
        LoopLearns(targets, from + 1, next, stop, world, cfg, k);
      } else {
        LoopLeavesOthers(targets, from + 1, next, stop, false, world, cfg, mac);
      }
    }
  }

  /** What one cycle teaches the registry of an AP that is a target once, at position k: the row
      the scan recorded gains a skip or a failure or is cleared, as the power reading, the command
      and the verification scans say - if the cycle is live and gets that far. An AP that is no
      target keeps the row the scan recorded. */
  lemma RegistryLearns(scan: seq<LiveAp>, known: seq<string>, rows: Rows, stop: bool, dryRun: bool, world: World,
                       cfg: Settings, mac: string)
    requires forall i :: 0 <= i < |known| ==> known[i] in rows
    requires mac in RecordSeen(rows, UsableScan(scan, known, rows), world.now)
    ensures var seen := RecordSeen(rows, UsableScan(scan, known, rows), world.now);
            var targets := Targets(MergedView(scan, known, rows, world.now), cfg.maxPerSwitch);
            var rows' := CycleOf(scan, known, rows, stop, dryRun, world, cfg).rows;
            && mac in rows'
            && ((forall j :: 0 <= j < |targets| ==> targets[j].mac != mac) ==> rows'[mac] == seen[mac])
            && (forall k: nat :: k < |targets| && targets[k].mac == mac &&
                                 (forall j :: 0 <= j < |targets| && j != k ==> targets[j].mac != mac) ==>
                  if GetsTo(k, stop, dryRun, world) then Learned(seen[mac], rows'[mac], targets[k], k, world, cfg)
                  else rows'[mac] == seen[mac])
  {
    hide Targets, MergedView, UsableScan, RecordSeen, RunTargets, Learned;
    var start := StartOf(RecordSeen(rows, UsableScan(scan, known, rows), world.now));
    var targets := Targets(MergedView(scan, known, rows, world.now), cfg.maxPerSwitch);
    if dryRun || forall j :: 0 <= j < |targets| ==> targets[j].mac != mac {
      LoopLeavesOthers(targets, 0, start, stop, dryRun, world, cfg, mac);
    } else {
      forall k: nat | k < |targets| && targets[k].mac == mac &&
                      (forall j :: 0 <= j < |targets| && j != k ==> targets[j].mac != mac)
        ensures var rows' := CycleOf(scan, known, rows, stop, dryRun, world, cfg).rows;
                && mac in rows'
                && (if GetsTo(k, stop, dryRun, world)
                    then Learned(start.rows[mac], rows'[mac], targets[k], k, world, cfg)
                    else rows'[mac] == start.rows[mac])
      {
        LoopLearns(targets, 0, start, stop, world, cfg, k);
      }
      LoopKeepsPlaces(targets, 0, start, stop, dryRun, world, cfg);
    }
  }

  // ----- Two cycles in a row -----

  lemma {:induction false} LoopKeepsPlaces(targets: seq<MergedAp>, from: nat, done: Cycle, stop: bool, dryRun: bool,
                                           world: World, cfg: Settings)
    ensures SamePlaces(done.rows, RunTargets(targets, from, done, stop, dryRun, world, cfg).rows)
    decreases |targets| - from
  {
    hide ActionFor, SamePlaces;
    PlacesCompose();
    if from < |targets| && !(stop && !world.enabledNow(from)) {
      var action := ActionFor(targets[from], from, dryRun, world, cfg);
      var next := After(done, targets[from], from, action, cfg, world.doneAt(from));
      OutcomeKeepsPlaces(done.rows, targets[from], action, cfg, world.doneAt(from));
      LoopKeepsPlaces(targets, from + 1, next, stop, dryRun, world, cfg);
    }
  }

  /** The same APs, on the same ports, seen last at the same times. */
  predicate SamePlaces(rows: Rows, rows': Rows) {
    && rows'.Keys == rows.Keys
    && forall mac :: mac in rows ==>
         rows'[mac].port == rows[mac].port && rows'[mac].lastSeen == rows[mac].lastSeen &&
         rows'[mac].isActive == rows[mac].isActive
  }

  lemma PlacesCompose()
    ensures forall a :: SamePlaces(a, a)
    ensures forall a, b, c :: SamePlaces(a, b) && SamePlaces(b, c) ==> SamePlaces(a, c)
  {
  }

  lemma OutcomeKeepsPlaces(rows: Rows, target: MergedAp, action: Action, cfg: Settings, now: int)
    ensures SamePlaces(rows, RowsAfter(rows, target, action, cfg, now))
  {
  }

  /** What the first of two cycles leaves of an AP it saw: its row, on the port of its last sighting. */
  lemma LeftBehind(scan: seq<LiveAp>, known: seq<string>, rows: Rows, stop: bool, dryRun: bool, world: World,
                   cfg: Settings, mac: string, i: nat)
    requires IsListing(known, rows) && (forall m :: m in rows ==> rows[m].isActive)
    requires !Violates(rows, UsableScan(scan, known, rows))
    requires LastReport(UsableScan(scan, known, rows), i, mac, false)
    ensures var live, left := UsableScan(scan, known, rows), RowsLeft(scan, known, rows, stop, dryRun, world, cfg);
            && (forall m :: m in left ==> left[m].isActive)
            && mac in left && left[mac].port == live[i].port && left[mac].lastSeen == world.now
  {
    hide Targets, MergedView, UsableScan, RecordSeen, RunTargets, Violates;
    var live := UsableScan(scan, known, rows);
    RecordSeenMeaning(rows, live, world.now);
    RecordedPlace(rows, live, world.now, mac);
    LoopKeepsPlaces(Targets(MergedView(scan, known, rows, world.now), cfg.maxPerSwitch), 0,
                    StartOf(RecordSeen(rows, live, world.now)), stop, dryRun, world, cfg);
    assert Usable(live[i]);
  }

  /** An AP that a cycle saw and that the next scan misses: the next cycle sends its command to
      the port where the AP was seen last, wherever it was before, and to no other; it does so,
      for some settings and power readings, if and only if the AP has not been excluded since and
      that sighting is at most seven days old. */
  lemma CycledWhereLastSeen(scan: seq<LiveAp>, known: seq<string>, rows: Rows, stop: bool, dryRun: bool, world: World,
                            cfg: Settings, mac: string, i: nat,
                            scan': seq<LiveAp>, known': seq<string>, now': int, port: string)
    requires IsListing(known, rows) && (forall m :: m in rows ==> rows[m].isActive)
    requires !Violates(rows, UsableScan(scan, known, rows))
    requires LastReport(UsableScan(scan, known, rows), i, mac, false)
    requires var left := RowsLeft(scan, known, rows, stop, dryRun, world, cfg);
             && IsListing(known', left)
             && var live' := UsableScan(scan', known', left);
                !Violates(left, live') && forall k :: 0 <= k < |live'| ==> live'[k].mac != mac
    ensures var left := RowsLeft(scan, known, rows, stop, dryRun, world, cfg);
            CanCycle(scan', known', left, now', mac, port) <==>
            && mac in left && !left[mac].excluded && now' <= world.now + 7 * 24 * 3600
            && port == UsableScan(scan, known, rows)[i].port
  {
    hide MergedView, UsableScan, Violates, CanCycle, RowsLeft, LastReport;
    LeftBehind(scan, known, rows, stop, dryRun, world, cfg, mac, i);
    var left := RowsLeft(scan, known, rows, stop, dryRun, world, cfg);
    var live' := UsableScan(scan', known', left);
    var ls, ss := ViewEntries(scan', known', left, now');
    if CanCycle(scan', known', left, now', mac, port) {
      var t := CycledIsOpen(scan', known', left, now', mac, port);
      forall k: nat | k < |ls|
        ensures ls[k] != t
      {
        assert ls[k].mac == live'[k].mac;
      }
      assert t in ss;
    }
    if !left[mac].excluded && now' <= world.now + 7 * 24 * 3600 {
      var t := MergedAp(mac, left[mac].port, false, false);
      assert t in ss;
      OpenIsCycled(scan', known', left, now', t);
    }
  }

  /** An excluded AP that is up loses its power all the same: a silent row that remembers the
      port it now sits on qualifies, and the power it draws there passes for the silent AP's. */
  lemma ExcludedApIsCutOff(silent: Row, shut: Row, gone: string, here: string, port: string, now: int)
    requires gone != here && gone != "" && here != "" && port != ""
    requires silent.port == port && silent.isActive && !silent.excluded && silent.lastSeen >= now - STALE_AFTER_SECONDS
    requires shut.isActive && shut.excluded
    ensures var rows: Rows, known, scan := map[gone := silent, here := shut], [gone, here], [LiveAp(here, port, "")];
            IsListing(known, rows) && UsableScan(scan, known, rows) == scan &&
              CanCyclePort(scan, known, rows, now, port)
  {
    var rows: Rows, known, scan := map[gone := silent, here := shut], [gone, here], [LiveAp(here, port, "")];
    assert IsListing(known, rows);
    assert scan[..0] == [] && scan[0].mac == here;
    assert RecoverMacs([], known, rows) == [] && UsableAps([]) == [];
    assert RecoverMacs(scan, known, rows) == [] + scan == scan;
    assert UsableAps(scan) == [] + scan == scan;
    hide RecoverMacs, UsableAps, CanCyclePort;
    CanCyclePortIff(scan, known, rows, now, port);
    assert OpenSilent(scan, rows, now, gone) && rows[gone].port == port;
  }
}
