/** The bounds of ApHarm are exact: runs that attain them, for every number of overlapping
    cycles, every threshold, every repetition in a scan and every length of a cycle. */
module ApHarmExact {
  import opened Wrappers
  import opened Arithmetic
  import opened ApRegistry
  import opened ApReboot
  import opened ApTrace
  import opened ApHarm

  const AP := "m"
  const PORT := "Gi1"

  // ----- One AP that never recovers -----

  /** The registry knows the one AP, and no failure below the threshold has excluded it. */
  predicate OnlyAp(rows: Rows, failures: nat, l: Limits) {
    && rows.Keys == {AP}
    && rows[AP].port == PORT && rows[AP].cdpName == "" && rows[AP].isActive
    && rows[AP].failures == failures && rows[AP].skips == 0
    && (failures < Threshold(l) ==> !rows[AP].excluded && rows[AP].needsAttention.None?)
  }

  predicate AllIdle(slots: seq<Slot>, n: nat) {
    n <= |slots| && forall s :: 0 <= s < n ==> Idle(slots[s])
  }

  predicate SamePlan(a: Slot, b: Slot) {
    a.plan == b.plan && a.inFlight == b.inFlight && a.sentAt == b.sentAt
  }

  /** From slot `from` on, the slots have the same work pending as before. */
  predicate SameWork(slots: seq<Slot>, slots': seq<Slot>, from: nat) {
    |slots'| == |slots| && forall s :: from <= s < |slots| ==> SamePlan(slots[s], slots'[s])
  }

  predicate CanBePlanned(w: Fleet) {
    && AP in w.rows && !w.rows[AP].excluded && w.rows[AP].needsAttention.None?
    && w.rows[AP].lastSeen >= w.now - STALE_AFTER_SECONDS
  }

  /** What a fleet has been through with its one AP. */
  predicate Tally(w: Fleet, failures: nat, lost: nat, l: Limits) {
    && OnlyAp(w.rows, failures, l)
    && Count(w.lost, AP) == lost && Unsuccessful(w.slots, AP) == failures + lost
  }

  // ----- A silent AP is planned once -----

  lemma SilentView(rows: Rows, now: int)
    requires rows.Keys == {AP} && rows[AP].port == PORT && !rows[AP].excluded
    requires rows[AP].lastSeen >= now - STALE_AFTER_SECONDS
    ensures MergedView([], [AP], rows, now) == [MergedAp(AP, PORT, false, false)]
  {
    var known: seq<string>, none: seq<LiveAp> := [AP], [];
    assert known[..0] == [] && known[0] == AP;
    assert UsableScan(none, known, rows) == none;
    assert RecordSeen(rows, none, now) == rows;
    assert !IsLive(none, AP);
    assert MergeLive(none, known, rows) == [];
    assert MergeSilent(none, known[..0], rows, now) == [];
    assert MergeSilent(none, known, rows, now) == [] + [MergedAp(AP, PORT, false, false)];
  }

  lemma SilentTarget(t: MergedAp)
    requires !t.responding && !t.excluded
    ensures Targets([t], 1) == [t]
  {
    assert [t][..0] == [] && [t][0] == t;
    assert Pick([t], false) == Pick([], false) + [t] && Pick([t], true) == Pick([], true);
  }

  lemma NothingSeen(w: Fleet, l: Limits)
    ensures !Violates(w.rows, []) && RepeatsAtMost([], l.repeats) && Sighted(w, []) == w
  {
    var none: seq<LiveAp> := [];
    assert LiveMacs(none) == [];
    assert SeenMacs(none) == {};
    assert ClearSlots(w.slots, {}) == w.slots by {
      forall s | 0 <= s < |w.slots|
        ensures ClearSlots(w.slots, {})[s] == w.slots[s]
      {
        assert w.slots[s].spent - {} == w.slots[s].spent && w.slots[s].again - {} == w.slots[s].again;
      }
    }
    assert w.lost - {} == w.lost;
  }

  lemma BeginPlans(w: Fleet, s: nat, failures: nat, l: Limits)
    requires OnlyAp(w.rows, failures, l) && CanBePlanned(w) && s < |w.slots| && Idle(w.slots[s])
    ensures Enabled(w, Begin(s, [], [AP], 1), l)
    ensures Next(w, Begin(s, [], [AP], 1), l) == WithSlot(w, s, WithPlan(w.slots[s], [AP], [], w.now))
  {
    hide Targets, MergedView, RecordSeen, Violates, RepeatsAtMost, Sighted;
    SilentView(w.rows, w.now);
    SilentTarget(MergedAp(AP, PORT, false, false));
    NothingSeen(w, l);
    assert UsableScan([], [AP], w.rows) == [];
    assert Planned(w, [], [AP], 1) == [AP];
  }

  // ----- An AP that a scan names again and again -----

  function Named(n: nat): (scan: seq<LiveAp>)
    ensures |scan| == n
  {
    seq(n, _ => LiveAp(AP, PORT, ""))
  }

  function NamedTargets(n: nat): (ts: seq<MergedAp>)
    ensures |ts| == n
  {
    seq(n, _ => MergedAp(AP, PORT, true, false))
  }

  function NamedMacs(n: nat): (macs: seq<string>)
    ensures |macs| == n
  {
    seq(n, _ => AP)
  }

  lemma {:induction false} NamedIsUsable(n: nat, known: seq<string>, rows: Rows)
    requires forall i :: 0 <= i < |known| ==> known[i] in rows
    ensures UsableScan(Named(n), known, rows) == Named(n)
  {
    if n > 0 {
      assert Named(n)[..n - 1] == Named(n - 1);
      NamedIsUsable(n - 1, known, rows);
      NamedRecovered(n, known, rows);
      NamedRecovered(n - 1, known, rows);
      assert Named(n - 1) + [Named(n)[n - 1]] == Named(n);
    }
  }

  lemma {:induction false} NamedRecovered(n: nat, known: seq<string>, rows: Rows)
    requires forall i :: 0 <= i < |known| ==> known[i] in rows
    ensures RecoverMacs(Named(n), known, rows) == Named(n)
  {
    if n > 0 {
      assert Named(n)[..n - 1] == Named(n - 1);
      NamedRecovered(n - 1, known, rows);
    }
  }

  lemma {:induction false} NamedSeen(n: nat, rows: Rows, failures: nat, now: int, l: Limits)
    requires n >= 1 && OnlyAp(rows, failures, l) && !rows[AP].excluded
    ensures var rows' := RecordSeen(rows, Named(n), now);
            && OnlyAp(rows', 0, l) && rows'[AP].lastSeen == now
            && !rows'[AP].excluded && rows'[AP].needsAttention.None?
  {
    assert Named(n)[..n - 1] == Named(n - 1);
    if n > 1 {
      NamedSeen(n - 1, rows, failures, now, l);
    } else {
      assert RecordSeen(rows, [], now) == rows;
    }
  }

  lemma {:induction false} NamedCopies(n: nat, mac: string)
    ensures Copies(NamedMacs(n), mac) == if mac == AP then n else 0
  {
    if n > 0 {
      assert NamedMacs(n)[1..] == NamedMacs(n - 1);
      NamedCopies(n - 1, mac);
    }
  }

  lemma {:induction false} NamedLive(n: nat, known: seq<string>, rows: Rows)
    requires AP in rows && !rows[AP].excluded && forall i :: 0 <= i < |known| ==> known[i] in rows
    ensures MergeLive(Named(n), known, rows) == NamedTargets(n)
  {
    if n > 0 {
      assert Named(n)[..n - 1] == Named(n - 1);
      NamedLive(n - 1, known, rows);
    }
  }

  lemma {:induction false} NamedPicked(n: nat)
    ensures Pick(NamedTargets(n), true) == NamedTargets(n) && Pick(NamedTargets(n), false) == []
  {
    if n > 0 {
      assert NamedTargets(n)[..n - 1] == NamedTargets(n - 1);
      NamedPicked(n - 1);
    }
  }

  lemma NamedView(rows: Rows, n: nat, failures: nat, now: int, l: Limits)
    requires n >= 1 && OnlyAp(rows, failures, l) && !rows[AP].excluded
    ensures MergedView(Named(n), [AP], rows, now) == NamedTargets(n)
  {
    hide RecordSeen, UsableScan, MergeLive;
    var known, scan := [AP], Named(n);
    NamedIsUsable(n, known, rows);
    NamedSeen(n, rows, failures, now, l);
    var rows' := RecordSeen(rows, scan, now);
    NamedLive(n, known, rows');
    assert IsLive(scan, AP) by { assert scan[0].mac == AP; }
    assert MergeSilent(scan, known, rows', now) == [] by {
      assert known[..0] == [] && known[0] == AP;
      assert MergeSilent(scan, known[..0], rows', now) == [];
    }
    assert NamedTargets(n) + [] == NamedTargets(n);
  }

  lemma NamedArePlanned(n: nat)
    ensures Macs(Targets(NamedTargets(n), n)) == NamedMacs(n)
  {
    hide Pick;
    NamedPicked(n);
    assert Targets(NamedTargets(n), n) == [] + NamedTargets(n) == NamedTargets(n);
  }

  lemma NamedPlan(w: Fleet, n: nat, failures: nat, l: Limits)
    requires n >= 1 && OnlyAp(w.rows, failures, l) && !w.rows[AP].excluded
    ensures IsListing([AP], w.rows) && Planned(w, Named(n), [AP], n) == NamedMacs(n)
  {
    hide Targets, MergedView;
    NamedView(w.rows, n, failures, w.now, l);
    NamedArePlanned(n);
  }

  /** A cycle over such a scan clears the AP and plans it as often as it is named. */
  lemma BeginNamed(w: Fleet, s: nat, n: nat, failures: nat, l: Limits) returns (w': Fleet)
    requires 1 <= n <= l.repeats && OnlyAp(w.rows, failures, l) && !w.rows[AP].excluded
    requires s < |w.slots| && Idle(w.slots[s])
    ensures Enabled(w, Begin(s, Named(n), [AP], n), l) && w' == Next(w, Begin(s, Named(n), [AP], n), l)
    ensures Tally(w', 0, 0, l) && w'.rows[AP].lastSeen == w.now && !w'.rows[AP].excluded && w'.now == w.now
    ensures w'.slots[s].plan == NamedMacs(n) && w'.slots[s].inFlight == None && |w'.slots| == |w.slots|
    ensures forall k :: 0 <= k < |w.slots| && k != s ==> SamePlan(w.slots[k], w'.slots[k])
  {
    hide Planned, UsableScan, RecordSeen, Violates, IsListing;
    var scan := Named(n);
    NamedPlan(w, n, failures, l);
    NamedIsUsable(n, [AP], w.rows);
    NamedSeen(n, w.rows, failures, w.now, l);
    NamedNeverViolates(w.rows, n);
    assert LiveMacs(scan) == NamedMacs(n);
    assert RepeatsAtMost(scan, l.repeats) by {
      forall mac
        ensures Copies(LiveMacs(scan), mac) <= l.repeats
      {
        NamedCopies(n, mac);
      }
    }
    SeenIsAp(n);
    w' := Next(w, Begin(s, scan, [AP], n), l);
    var v := Sighted(w, scan);
    ClearedSums(w.slots, {AP}, AP);
    SlotUpdate(v.slots, s, w'.slots[s], AP);
  }

  lemma NamedNeverViolates(rows: Rows, n: nat)
    requires AP in rows
    ensures !Violates(rows, Named(n))
  {
  }

  lemma SeenIsAp(n: nat)
    requires n >= 1
    ensures SeenMacs(Named(n)) == {AP}
  {
    assert Named(n)[0].mac == AP;
  }

  // ----- One round: some slots cycle the AP at the same time -----

  lemma CycleIsSent(w: Fleet, s: nat, l: Limits)
    requires s < |w.slots| && w.slots[s].plan == [AP] && w.slots[s].inFlight == None
    ensures Enabled(w, PoeCycle(s), l)
    ensures Next(w, PoeCycle(s), l) == WithSlot(w, s, w.slots[s].(plan := [], inFlight := Some(AP), sentAt := w.now))
  {
    assert [AP][1..] == [];
  }

  /** The slot plans the silent AP and sends the command. */
  lemma Launch(w: Fleet, s: nat, failures: nat, l: Limits) returns (steps: seq<Step>, w': Fleet)
    requires OnlyAp(w.rows, failures, l) && CanBePlanned(w) && s < |w.slots| && Idle(w.slots[s])
    ensures Reaches(w, steps, l, w')
    ensures |w'.slots| == |w.slots|
    ensures w' == WithSlot(w, s, w'.slots[s]) && w'.slots[s].plan == [] && w'.slots[s].inFlight == Some(AP)
    ensures w'.slots[s].sentAt == w.now && w'.slots[s].spent == w.slots[s].spent
  {
    var begin := Begin(s, [], [AP], 1);
    BeginPlans(w, s, failures, l);
    OneStep(w, begin, l);
    var w1 := Next(w, begin, l);
    CycleIsSent(w1, s, l);
    OneStep(w1, PoeCycle(s), l);
    w' := Next(w1, PoeCycle(s), l);
    Join(w, [begin], w1, [PoeCycle(s)], l, w');
    steps := [begin] + [PoeCycle(s)];
    assert w.slots[s := w1.slots[s]][s := w'.slots[s]] == w.slots[s := w'.slots[s]];
  }

  /** How a cycle ends without a recovery: verified as failed, or killed before it could say so. */
  function Ending(s: nat, lossy: bool): Step { if lossy then Abort(s) else Verify(s, false) }

  lemma EndFlight(w: Fleet, s: nat, lossy: bool, failures: nat, lost: nat, l: Limits) returns (w': Fleet)
    requires Tally(w, failures, lost, l) && s < |w.slots| && w.slots[s].inFlight == Some(AP)
    requires w.now >= w.slots[s].sentAt + l.seconds
    ensures Enabled(w, Ending(s, lossy), l) && w' == Next(w, Ending(s, lossy), l)
    ensures Tally(w', if lossy then failures else failures + 1, if lossy then lost + 1 else lost, l)
    ensures w'.now == w.now && w'.rows[AP].lastSeen == w.rows[AP].lastSeen
    ensures |w'.slots| == |w.slots| && w'.slots[s].inFlight == None
    ensures w'.slots[s].plan == if lossy then [] else w.slots[s].plan
    ensures forall k :: 0 <= k < |w.slots| && k != s ==> w'.slots[k] == w.slots[k]
  {
    hide Unsuccessful;
    w' := Next(w, Ending(s, lossy), l);
    var slot := Spend(w.slots[s].(plan := if lossy then [] else w.slots[s].plan, inFlight := None), AP);
    assert w'.slots == w.slots[s := slot];
    SlotUpdate(w.slots, s, slot, AP);
  }

  /** The time all the commands take; the AP may answer a scan at its end. */
  lemma Wait(w: Fleet, again: bool, failures: nat, lost: nat, l: Limits) returns (steps: seq<Step>, w': Fleet)
    requires Tally(w, failures, lost, l) && (again ==> CanBePlanned(w))
    ensures Reaches(w, steps, l, w')
    ensures Tally(w', if again then 0 else failures, if again then 0 else lost, l)
    ensures w'.now == w.now + l.seconds
    ensures w'.rows[AP].lastSeen == if again then w'.now else w.rows[AP].lastSeen
    ensures SameWork(w.slots, w'.slots, 0)
  {
    hide Unsuccessful;
    var tick := Tick(l.seconds);
    OneStep(w, tick, l);
    var w1 := Next(w, tick, l);
    if again {
      hide RecordSeen, Violates;
      var aps := Named(1);
      NamedSeen(1, w1.rows, failures, w1.now, l);
      NamedNeverViolates(w1.rows, 1);
      OneStep(w1, Sight(aps), l);
      w' := Next(w1, Sight(aps), l);
      Join(w, [tick], w1, [Sight(aps)], l, w');
      steps := [tick] + [Sight(aps)];
      SeenIsAp(1);
      ClearedSums(w1.slots, {AP}, AP);
    } else {
      steps, w' := [tick], w1;
    }
  }

  /** The first `j` slots launch, wait and end together. */
  lemma {:induction false} Round(w: Fleet, j: nat, lossy: bool, again: bool, failures: nat, lost: nat, l: Limits)
    returns (steps: seq<Step>, w': Fleet)
    requires Tally(w, failures, lost, l) && AllIdle(w.slots, j) && (j > 0 || again ==> CanBePlanned(w))
    ensures Reaches(w, steps, l, w')
    ensures Tally(w', (if again then 0 else failures) + (if lossy then 0 else j),
                  (if again then 0 else lost) + (if lossy then j else 0), l)
    ensures w'.now == w.now + l.seconds
    ensures w'.rows[AP].lastSeen == if again then w'.now else w.rows[AP].lastSeen
    ensures AllIdle(w'.slots, j) && SameWork(w.slots, w'.slots, j)
    decreases j
  {
    hide Next, Reaches, Enabled;
    if j == 0 {
      steps, w' := Wait(w, again, failures, lost, l);
    } else {
      var s := j - 1;
      var launch, w1 := Launch(w, s, failures, l);
      LaunchKeepsTally(w, w1, s, failures, lost, l);
      var inner, w2 := Round(w1, s, lossy, again, failures, lost, l);
      assert SamePlan(w1.slots[s], w2.slots[s]);
      w' := EndFlight(w2, s, lossy, (if again then 0 else failures) + (if lossy then 0 else s),
                      (if again then 0 else lost) + (if lossy then s else 0), l);
      OneStep(w2, Ending(s, lossy), l);
      Join(w, launch, w1, inner, l, w2);
      Join(w, launch + inner, w2, [Ending(s, lossy)], l, w');
      steps := launch + inner + [Ending(s, lossy)];
      forall k | j <= k < |w.slots|
        ensures SamePlan(w.slots[k], w'.slots[k])
      {
        assert w1.slots[k] == w.slots[k];
        assert SamePlan(w1.slots[k], w2.slots[k]);
      }
    }
  }

  lemma LaunchKeepsTally(w: Fleet, w1: Fleet, s: nat, failures: nat, lost: nat, l: Limits)
    requires Tally(w, failures, lost, l) && s < |w.slots|
    requires |w1.slots| == |w.slots| && w1 == WithSlot(w, s, w1.slots[s]) && w1.slots[s].spent == w.slots[s].spent
    ensures Tally(w1, failures, lost, l)
  {
    SlotUpdate(w.slots, s, w1.slots[s], AP);
  }

  // ----- Slots that hold a whole plan -----

  /** The slot has a command under way and `rest` more of the same AP to come. */
  predicate Holds(s: Slot, rest: nat, sentBy: int) {
    s.inFlight == Some(AP) && s.plan == NamedMacs(rest) && s.sentAt <= sentBy
  }

  lemma FirstSighting(cycles: nat, l: Limits) returns (steps: seq<Step>, w: Fleet)
    ensures Reaches(Start(cycles), steps, l, w)
    ensures Tally(w, 0, 0, l) && |w.slots| == cycles && AllIdle(w.slots, cycles)
    ensures w.now == 0 && w.rows[AP].lastSeen == 0 && CanBePlanned(w)
  {
    var aps := Named(1);
    assert aps[..0] == [] && aps[0].mac == AP;
    var none: Rows := map[];
    assert RecordSeen(none, aps, 0) == none[AP := Row(PORT, "", 0, true, false, 0, 0, None)];
    assert !Violates(none, aps);
    OneStep(Start(cycles), Sight(aps), l);
    steps, w := [Sight(aps)], Next(Start(cycles), Sight(aps), l);
    NothingSpent(Start(cycles).slots, AP);
    ClearedSums(Start(cycles).slots, SeenMacs(aps), AP);
  }

  /** Slots from..|slots| have begun over a scan that names the AP as often as can be. */
  lemma {:induction false} Fill(w: Fleet, from: nat, l: Limits) returns (steps: seq<Step>, w': Fleet)
    requires Tally(w, 0, 0, l) && AllIdle(w.slots, |w.slots|) && CanBePlanned(w) && from <= |w.slots|
    requires w.rows[AP].lastSeen == w.now
    ensures Reaches(w, steps, l, w')
    ensures Tally(w', 0, 0, l) && CanBePlanned(w') && w'.now == w.now && w'.rows[AP].lastSeen == w.now
    ensures |w'.slots| == |w.slots| && AllIdle(w'.slots, from)
    ensures forall s :: from <= s < |w.slots| ==> Holds(w'.slots[s], l.repeats - 1, w.now)
    decreases |w.slots| - from
  {
    hide Next, Enabled, Tally;
    if from == |w.slots| {
      steps, w' := [], w;
    } else {
      var before, w1 := Fill(w, from + 1, l);
      var one, w2 := FillOne(w1, from, l);
      Join(w, before, w1, one, l, w2);
      steps, w' := before + one, w2;
      forall s | from <= s < |w.slots|
        ensures Holds(w'.slots[s], l.repeats - 1, w.now)
      {
        assert s > from ==> SamePlan(w1.slots[s], w2.slots[s]);
      }
      forall s | 0 <= s < from
        ensures Idle(w'.slots[s])
      {
        assert Idle(w1.slots[s]) && SamePlan(w1.slots[s], w2.slots[s]);
      }
    }
  }

  lemma FillOne(w: Fleet, s: nat, l: Limits) returns (steps: seq<Step>, w': Fleet)
    requires Tally(w, 0, 0, l) && s < |w.slots| && Idle(w.slots[s])
    ensures Reaches(w, steps, l, w')
    ensures Tally(w', 0, 0, l) && CanBePlanned(w') && w'.now == w.now && w'.rows[AP].lastSeen == w.now
    ensures |w'.slots| == |w.slots| && Holds(w'.slots[s], l.repeats - 1, w.now)
    ensures forall k :: 0 <= k < |w.slots| && k != s ==> SamePlan(w.slots[k], w'.slots[k])
  {
    hide Unsuccessful;
    var begin := Begin(s, Named(l.repeats), [AP], l.repeats);
    var w1 := BeginNamed(w, s, l.repeats, 0, l);
    OneStep(w, begin, l);
    w' := SendNext(w1, s, l.repeats, 0, 0, l);
    OneStep(w1, PoeCycle(s), l);
    Join(w, [begin], w1, [PoeCycle(s)], l, w');
    steps := [begin] + [PoeCycle(s)];
  }

  lemma SendNext(w: Fleet, s: nat, n: nat, failures: nat, lost: nat, l: Limits) returns (w': Fleet)
    requires Tally(w, failures, lost, l) && s < |w.slots| && n >= 1
    requires w.slots[s].plan == NamedMacs(n) && w.slots[s].inFlight == None
    ensures Enabled(w, PoeCycle(s), l) && w' == Next(w, PoeCycle(s), l)
    ensures Tally(w', failures, lost, l) && w'.now == w.now && w'.rows == w.rows
    ensures |w'.slots| == |w.slots| && Holds(w'.slots[s], n - 1, w.now)
    ensures forall k :: 0 <= k < |w.slots| && k != s ==> w'.slots[k] == w.slots[k]
  {
    w' := Next(w, PoeCycle(s), l);
    assert NamedMacs(n)[1..] == NamedMacs(n - 1);
    SlotUpdate(w.slots, s, w'.slots[s], AP);
  }

  /** One slot spends all it holds, each command verified as failed - escalated or not. */
  lemma {:induction false} Drain(w: Fleet, s: nat, rest: nat, failures: nat, l: Limits)
    returns (steps: seq<Step>, w': Fleet)
    requires Tally(w, failures, 0, l) && s < |w.slots| && Holds(w.slots[s], rest, w.now - l.seconds)
    ensures Reaches(w, steps, l, w')
    ensures Tally(w', failures + rest + 1, 0, l) && w'.now >= w.now && |w'.slots| == |w.slots|
    ensures forall k :: 0 <= k < |w.slots| && k != s ==> SamePlan(w.slots[k], w'.slots[k])
    decreases rest
  {
    hide Next, Reaches, Enabled, Tally;
    var verify := Verify(s, false);
    var w1 := EndFlight(w, s, false, failures, 0, l);
    assert Ending(s, false) == verify;
    OneStep(w, verify, l);
    if rest == 0 {
      steps, w' := [verify], w1;
    } else {
      var w2 := SendNext(w1, s, rest, failures + 1, 0, l);
      OneStep(w1, PoeCycle(s), l);
      var wait, w3 := Wait(w2, false, failures + 1, 0, l);
      assert SamePlan(w2.slots[s], w3.slots[s]);
      var more, w4 := Drain(w3, s, rest - 1, failures + 1, l);
      Join(w, [verify], w1, [PoeCycle(s)], l, w2);
      Join(w, [verify] + [PoeCycle(s)], w2, wait, l, w3);
      Join(w, [verify] + [PoeCycle(s)] + wait, w3, more, l, w4);
      steps, w' := [verify] + [PoeCycle(s)] + wait + more, w4;
      forall k | 0 <= k < |w.slots| && k != s
        ensures SamePlan(w.slots[k], w'.slots[k])
      {
        assert SamePlan(w2.slots[k], w3.slots[k]) && SamePlan(w3.slots[k], w4.slots[k]);
      }
    }
  }

  lemma {:induction false} DrainAll(w: Fleet, from: nat, failures: nat, sentBy: int, l: Limits)
    returns (steps: seq<Step>, w': Fleet)
    requires Tally(w, failures, 0, l) && from <= |w.slots| && sentBy <= w.now - l.seconds
    requires forall s :: from <= s < |w.slots| ==> Holds(w.slots[s], l.repeats - 1, sentBy)
    ensures Reaches(w, steps, l, w')
    ensures Tally(w', failures + (|w.slots| - from) * l.repeats, 0, l)
    decreases |w.slots| - from
  {
    hide Next, Enabled, Tally;
    var left := |w.slots| - from;
    if left == 0 {
      steps, w' := [], w;
    } else {
      var one, w1 := Drain(w, from, l.repeats - 1, failures, l);
      forall s | from + 1 <= s < |w1.slots|
        ensures Holds(w1.slots[s], l.repeats - 1, sentBy)
      {
        assert SamePlan(w.slots[s], w1.slots[s]);
      }
      var rest, w2 := DrainAll(w1, from + 1, failures + l.repeats, sentBy, l);
      Join(w, one, w1, rest, l, w2);
      steps, w' := one + rest, w2;
      assert (left - 1) * l.repeats + l.repeats == left * l.repeats;
    }
  }

  // ----- Rounds for seven days -----

  lemma RestFits(again: nat, q: nat, p: nat)
    requires q >= 1 && p <= q * again
    ensures p - Min(again, p) <= (q - 1) * again
  {
    assert (q - 1) * again == q * again - again;
  }

  lemma RoundIsRecent(q: nat, l: Limits)
    requires 2 <= q <= MostPerSlot(l)
    ensures q * l.seconds - 2 * l.seconds <= STALE_AFTER_SECONDS
  {
    var most := STALE_AFTER_SECONDS / l.seconds;
    MulLe(l.seconds, q - 2, most);
    assert (q - 2) * l.seconds == q * l.seconds - 2 * l.seconds;
  }

  /** Where a schedule of `q` rounds has got to. */
  predicate Scheduled(w0: Fleet, w: Fleet, again: nat, q: nat, l: Limits) {
    && AllIdle(w.slots, again) && SameWork(w0.slots, w.slots, again)
    && w.now == w0.now + q * l.seconds && AP in w.rows && w.rows[AP].lastSeen == w0.now + l.seconds
  }

  /** In `q` rounds the first `again` slots cycle the silent AP `p` times, for every `p` that
      fits: below the threshold before the last round, or never registered at all. */
  lemma {:induction false} Schedule(w0: Fleet, again: nat, q: nat, p: nat, lossy: bool, l: Limits)
    returns (steps: seq<Step>, w: Fleet)
    requires Tally(w0, 0, 0, l) && CanBePlanned(w0) && AllIdle(w0.slots, again)
    requires 1 <= q <= MostPerSlot(l) && p <= q * again
    requires lossy || p == 0 || p <= Threshold(l) + again - 1
    ensures Reaches(w0, steps, l, w)
    ensures Tally(w, if lossy then 0 else p, if lossy then p else 0, l) && Scheduled(w0, w, again, q, l)
    decreases q
  {
    hide Reaches, MostPerSlot;
    var j := Min(again, p);
    if q == 1 {
      steps, w := Round(w0, j, lossy, true, 0, 0, l);
      RoundsKeepWork(w0, w0, w, again, j);
    } else {
      RestFits(again, q, p);
      var before, w1 := Schedule(w0, again, q - 1, p - j, lossy, l);
      RoundIsRecent(q, l);
      assert (q - 1) * l.seconds + l.seconds == q * l.seconds;
      var round;
      round, w := Round(w1, j, lossy, false, if lossy then 0 else p - j, if lossy then p - j else 0, l);
      Join(w0, before, w1, round, l, w);
      steps := before + round;
      RoundsKeepWork(w0, w1, w, again, j);
    }
  }

  lemma RoundsKeepWork(w0: Fleet, w1: Fleet, w: Fleet, again: nat, j: nat)
    requires j <= again <= |w0.slots| && AllIdle(w1.slots, again) && SameWork(w0.slots, w1.slots, again)
    requires AllIdle(w.slots, j) && SameWork(w1.slots, w.slots, j)
    ensures AllIdle(w.slots, again) && SameWork(w0.slots, w.slots, again)
  {
    forall s | 0 <= s < again
      ensures Idle(w.slots[s])
    {
      assert Idle(w1.slots[s]);
      assert s >= j ==> SamePlan(w1.slots[s], w.slots[s]);
    }
    forall s | again <= s < |w0.slots|
      ensures SamePlan(w0.slots[s], w.slots[s])
    {
      assert SamePlan(w0.slots[s], w1.slots[s]) && SamePlan(w1.slots[s], w.slots[s]);
    }
  }

  // ----- The worst runs -----

  /** Some slots hold a plan that names the AP as often as can be, the others cycle it whenever
      it is silent; then the plans are spent. */
  lemma TollIsAttained(cycles: nat, again: nat, l: Limits) returns (steps: seq<Step>, w: Fleet)
    requires again <= cycles
    ensures Reaches(Start(cycles), steps, l, w)
    ensures Count(w.lost, AP) == 0 && Unsuccessful(w.slots, AP) == Toll(again, cycles, l)
  {
    hide Reaches, Unsuccessful, Count;
    var first, w0 := FirstSighting(cycles, l);
    var fill, w1 := Fill(w0, again, l);
    var q, p := MostPerSlot(l), Min(Threshold(l) + again - 1, again * MostPerSlot(l));
    MulLe(again, 0, MostPerSlot(l));
    var rounds, w2 := Schedule(w1, again, q, p, false, l);
    MulLe(l.seconds, 1, q);
    forall s | again <= s < |w2.slots|
      ensures Holds(w2.slots[s], l.repeats - 1, w1.now)
    {
      assert SamePlan(w1.slots[s], w2.slots[s]);
    }
    var drain, w3 := DrainAll(w2, again, p, w1.now, l);
    Join(Start(cycles), first, w0, fill, l, w1);
    Join(Start(cycles), first + fill, w1, rounds, l, w2);
    Join(Start(cycles), first + fill + rounds, w2, drain, l, w3);
    steps, w := first + fill + rounds + drain, w3;
  }

  lemma LossesAreAttained(cycles: nat, l: Limits) returns (steps: seq<Step>, w: Fleet)
    ensures Reaches(Start(cycles), steps, l, w)
    ensures Unsuccessful(w.slots, AP) == cycles * MostPerSlot(l)
  {
    hide Reaches, Unsuccessful;
    var first, w0 := FirstSighting(cycles, l);
    MulLe(cycles, 0, MostPerSlot(l));
    var rounds, w1 := Schedule(w0, cycles, MostPerSlot(l), cycles * MostPerSlot(l), true, l);
    Join(Start(cycles), first, w0, rounds, l, w1);
    steps, w := first + rounds, w1;
  }

  // ----- Exact bounds -----

  /** Every run leaves every AP with at most `bound` PoE-cycles without recovery; `lossless`
      looks only at APs none of whose outcomes was lost. */
  ghost predicate Bounded(cycles: nat, l: Limits, lossless: bool, bound: int) {
    forall steps, w, mac :: Reaches(Start(cycles), steps, l, w) && (lossless ==> Count(w.lost, mac) == 0) ==>
      Unsuccessful(w.slots, mac) <= bound
  }

  /** When every outcome is registered, the worst toll is the least bound. */
  lemma LosslessHarmIsExact(cycles: nat, l: Limits, bound: int)
    requires cycles >= 1
    ensures Bounded(cycles, l, true, bound) <==> bound >= WorstToll(cycles, cycles, l)
  {
    hide Reaches, Unsuccessful, WorstToll, Toll;
    forall steps, w, mac | Reaches(Start(cycles), steps, l, w) && Count(w.lost, mac) == 0
      ensures Unsuccessful(w.slots, mac) <= WorstToll(cycles, cycles, l)
    {
      BoundedHarm(cycles, steps, l, w, mac);
    }
    var worst := WorstIsWorst(cycles, cycles, l);
    var steps, w := TollIsAttained(cycles, worst, l);
    assert Unsuccessful(w.slots, AP) == WorstToll(cycles, cycles, l);
  }

  /** In plain terms, while seven days have room for the threshold: the threshold, or one plan
      if that names the AP more often, and one plan for each further cycle. */
  lemma PlainTollIsExact(cycles: nat, l: Limits, bound: int)
    requires cycles >= 1 && Threshold(l) <= MostPerSlot(l)
    ensures Bounded(cycles, l, true, bound) <==>
            bound >= Max(Threshold(l), l.repeats) + (cycles - 1) * l.repeats
  {
    hide WorstToll, MostPerSlot;
    LosslessHarmIsExact(cycles, l, bound);
    PlainTollIsWorst(cycles, l);
  }

  /** When outcomes can be lost, the threshold does not matter at all. */
  lemma LossyHarmIsExact(cycles: nat, l: Limits, bound: int)
    requires cycles >= 1
    ensures Bounded(cycles, l, false, bound) <==> bound >= cycles * Max(MostPerSlot(l), l.repeats)
  {
    hide Reaches, Unsuccessful, MostPerSlot, Toll, WorstToll, Max;
    var most := cycles * Max(MostPerSlot(l), l.repeats);
    forall steps, w, mac | Reaches(Start(cycles), steps, l, w)
      ensures Unsuccessful(w.slots, mac) <= most
    {
      BoundedHarm(cycles, steps, l, w, mac);
    }
    var steps, w := MostIsAttained(cycles, l);
    assert Count(w.lost, AP) >= 0 && Unsuccessful(w.slots, AP) == most;
  }

  lemma MostIsAttained(cycles: nat, l: Limits) returns (steps: seq<Step>, w: Fleet)
    ensures Reaches(Start(cycles), steps, l, w)
    ensures Unsuccessful(w.slots, AP) == cycles * Max(MostPerSlot(l), l.repeats)
  {
    hide Reaches, Unsuccessful, MostPerSlot, Toll;
    if MostPerSlot(l) >= l.repeats {
      steps, w := LossesAreAttained(cycles, l);
    } else {
      steps, w := TollIsAttained(cycles, 0, l);
      HeldToll(cycles, l);
    }
  }

  lemma HeldToll(cycles: nat, l: Limits)
    ensures Toll(0, cycles, l) == cycles * l.repeats
  {
  }

  lemma FullToll(cycles: nat, l: Limits)
    ensures Toll(cycles, cycles, l) == Min(Threshold(l) + cycles - 1, cycles * MostPerSlot(l))
  {
  }

  lemma TollHasRoom(again: nat, cycles: nat, l: Limits)
    requires again <= cycles
    ensures Toll(again, cycles, l) <= cycles * Max(MostPerSlot(l), l.repeats)
  {
    var most := Max(MostPerSlot(l), l.repeats);
    MulLe(again, MostPerSlot(l), most);
    MulLe(cycles - again, l.repeats, most);
    assert again * most + (cycles - again) * most == cycles * most;
  }

  /** The plain bound of `threshold`, for runs that lose no outcome, holds if and only if cycles
      never overlap and no scan names an AP more often than the threshold, or the threshold is
      beyond what seven days, and a plan, have room for. */
  lemma ThresholdIsTheBoundIff(cycles: nat, l: Limits)
    requires cycles >= 1
    ensures Bounded(cycles, l, true, Threshold(l)) <==>
            (cycles == 1 && l.repeats <= Threshold(l)) || Threshold(l) >= cycles * Max(MostPerSlot(l), l.repeats)
  {
    LosslessHarmIsExact(cycles, l, Threshold(l));
    HeldToll(cycles, l);
    FullToll(cycles, l);
    hide MostPerSlot, Toll, Threshold, WorstToll;
    var worst := WorstIsWorst(cycles, cycles, l);
    TollHasRoom(worst, cycles, l);
    assert cycles == 1 ==> worst == 0 || worst == 1;
    var toll := WorstToll(cycles, cycles, l);
    assert Toll(0, cycles, l) <= toll && Toll(cycles, cycles, l) <= toll;
  }

  /** With lost outcomes it holds only for a threshold that large. */
  lemma ThresholdIsTheBoundDespiteLossesIff(cycles: nat, l: Limits)
    requires cycles >= 1
    ensures Bounded(cycles, l, false, Threshold(l)) <==>
            Threshold(l) >= cycles * Max(MostPerSlot(l), l.repeats)
  {
    LossyHarmIsExact(cycles, l, Threshold(l));
  }
}
