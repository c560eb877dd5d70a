/** Many cycles over one registry, interleaved with scans from the UI, operator
    actions and crashes: how often one AP can be power-cycled without recovering.

    A scheduled cycle holds the task lease and a manual run the switch-write lock,
    so cycles of one switch may overlap: each has a slot of its own here. */
module ApHarm {
  import opened Wrappers
  import opened Arithmetic
  import opened ApRegistry
  import opened ApReboot
  import opened ApTrace

  /** The MACs a cycle still has to handle, the one it has just sent a PoE command for, when its
      scan was and when that command was sent. `spent` counts, per AP, the PoE-cycles of this slot
      that were not verified as a recovery since the AP's streak was last cleared; `again` holds
      the APs the slot has since then planned for staying silent. */
  datatype Slot = Slot(plan: seq<string>, inFlight: Option<string>, beganAt: int, sentAt: int,
                       spent: map<string, nat>, again: set<string>)

  /** `lost` counts the spent PoE-cycles whose outcome was never registered. */
  datatype Fleet = Fleet(now: int, rows: Rows, slots: seq<Slot>, lost: map<string, nat>)

  /** The escalation threshold; how often at most one scan names one MAC; and the seconds, at
      least, from a PoE command to its outcome. */
  datatype Parameters = Parameters(threshold: int, repeats: int, seconds: int)

  type Limits = l: Parameters | l.repeats >= 1 && l.seconds >= 1 witness Parameters(1, 1, 1)

  datatype Step =
    | Tick(elapsed: nat)
    | Sight(aps: seq<LiveAp>)
    | Begin(slot: nat, scan: seq<LiveAp>, known: seq<string>, maxPerSwitch: int)
    | SkipNoPower(slot: nat)
    | PoeCycle(slot: nat)
    | Verify(slot: nat, recovered: bool)
    | Abort(slot: nat)
    | Exclude(mac: string, excluded: bool)

  function Count(m: map<string, nat>, mac: string): nat { if mac in m then m[mac] else 0 }

  predicate Idle(s: Slot) { s.plan == [] && s.inFlight == None }

  function Copies(macs: seq<string>, mac: string): nat {
    if macs == [] then 0 else (if macs[0] == mac then 1 else 0) + Copies(macs[1..], mac)
  }

  function LiveMacs(live: seq<LiveAp>): (macs: seq<string>)
    ensures |macs| == |live| && forall i :: 0 <= i < |live| ==> macs[i] == live[i].mac
  {
    seq(|live|, i requires 0 <= i < |live| => live[i].mac)
  }

  /** No MAC is named more than `most` times. */
  ghost predicate RepeatsAtMost(live: seq<LiveAp>, most: int) {
    forall mac :: Copies(LiveMacs(live), mac) <= most
  }

  /** A PoE command keeps its cycle busy for at least so long. */
  predicate CanLetGo(w: Fleet, s: nat, l: Limits)
    requires s < |w.slots|
  {
    w.slots[s].inFlight.Some? ==> w.now >= w.slots[s].sentAt + l.seconds
  }

  predicate HasNext(w: Fleet, s: nat) {
    s < |w.slots| && w.slots[s].plan != [] && w.slots[s].inFlight == None
  }

  ghost predicate Enabled(w: Fleet, step: Step, l: Limits) {
    match step
    case Tick(_) => true
    case Sight(aps) => !Violates(w.rows, aps)
    case Begin(s, scan, known, _) =>
      && s < |w.slots| && Idle(w.slots[s]) && IsListing(known, w.rows)
      && !Violates(w.rows, UsableScan(scan, known, w.rows)) && RepeatsAtMost(UsableScan(scan, known, w.rows), l.repeats)
    case SkipNoPower(s) => HasNext(w, s)
    case PoeCycle(s) => HasNext(w, s)
    case Verify(s, _) => s < |w.slots| && w.slots[s].inFlight.Some? && CanLetGo(w, s, l)
    case Abort(s) => s < |w.slots| && CanLetGo(w, s, l)
    case Exclude(_, _) => true
  }

  function Macs(targets: seq<MergedAp>): (macs: seq<string>)
    ensures |macs| == |targets| && forall i :: 0 <= i < |targets| ==> macs[i] == targets[i].mac
  {
    seq(|targets|, i requires 0 <= i < |targets| => targets[i].mac)
  }

  function Clear(s: Slot, macs: set<string>): Slot { s.(spent := s.spent - macs, again := s.again - macs) }

  function ClearSlots(slots: seq<Slot>, macs: set<string>): (cleared: seq<Slot>)
    ensures |cleared| == |slots|
    ensures forall s :: 0 <= s < |slots| ==> cleared[s] == Clear(slots[s], macs)
  {
    seq(|slots|, s requires 0 <= s < |slots| => Clear(slots[s], macs))
  }

  /** The streaks of these APs are over, and with them their counts. */
  function Forgotten(w: Fleet, rows: Rows, macs: set<string>): Fleet {
    Fleet(w.now, rows, ClearSlots(w.slots, macs), w.lost - macs)
  }

  function SeenMacs(aps: seq<LiveAp>): set<string> {
    set i | 0 <= i < |aps| && Usable(aps[i]) :: aps[i].mac
  }

  function Sighted(w: Fleet, aps: seq<LiveAp>): Fleet {
    Forgotten(w, RecordSeen(w.rows, aps, w.now), SeenMacs(aps))
  }

  function WithSlot(w: Fleet, s: nat, slot: Slot): Fleet
    requires s < |w.slots|
  {
    w.(slots := w.slots[s := slot])
  }

  function Spend(slot: Slot, mac: string): Slot {
    slot.(spent := slot.spent[mac := Count(slot.spent, mac) + 1])
  }

  function Planned(w: Fleet, scan: seq<LiveAp>, known: seq<string>, maxPerSwitch: int): seq<string>
    requires forall i :: 0 <= i < |known| ==> known[i] in w.rows
  {
    Macs(Targets(MergedView(scan, known, w.rows, w.now), maxPerSwitch))
  }

  /** The slot once it has planned `plan` over a scan. */
  function WithPlan(slot: Slot, plan: seq<string>, live: seq<LiveAp>, now: int): Slot {
    slot.(plan := plan, beganAt := now, again := slot.again + set mac | mac in plan && !IsLive(live, mac))
  }

  ghost function Next(w: Fleet, step: Step, l: Limits): Fleet
    requires Enabled(w, step, l)
  {
    match step
    case Tick(d) => w.(now := w.now + d)
    case Sight(aps) => Sighted(w, aps)
    case Begin(s, scan, known, maxPerSwitch) =>
      var live := UsableScan(scan, known, w.rows);
      var w' := Sighted(w, live);
      WithSlot(w', s, WithPlan(w'.slots[s], Planned(w, scan, known, maxPerSwitch), live, w.now))
    case SkipNoPower(s) =>
      var slot := w.slots[s];
      var w' := w.(rows := RegisterOutcome(w.rows, slot.plan[0], None, l.threshold, w.now));
      WithSlot(w', s, slot.(plan := slot.plan[1..]))
    case PoeCycle(s) =>
      var slot := w.slots[s];
      WithSlot(w, s, slot.(plan := slot.plan[1..], inFlight := Some(slot.plan[0]), sentAt := w.now))
    case Verify(s, recovered) =>
      var slot := w.slots[s].(inFlight := None);
      var mac := w.slots[s].inFlight.value;
      var rows := RegisterOutcome(w.rows, mac, Some(recovered), l.threshold, w.now);
      if recovered then Forgotten(WithSlot(w, s, slot), rows, {mac})
      else WithSlot(w.(rows := rows), s, Spend(slot, mac))
    case Abort(s) =>
      var slot := w.slots[s].(plan := [], inFlight := None);
      if w.slots[s].inFlight.None? then WithSlot(w, s, slot)
      else
        var mac := w.slots[s].inFlight.value;
        WithSlot(w.(lost := w.lost[mac := Count(w.lost, mac) + 1]), s, Spend(slot, mac))
    case Exclude(mac, excluded) =>
      var rows := SetExcluded(w.rows, mac, excluded);
      if excluded then w.(rows := rows) else Forgotten(w, rows, {mac})
  }

  ghost predicate Reaches(w: Fleet, steps: seq<Step>, l: Limits, w': Fleet)
    decreases |steps|
  {
    if steps == [] then w' == w
    else Enabled(w, steps[0], l) && Reaches(Next(w, steps[0], l), steps[1..], l, w')
  }

  /** An empty registry and `cycles` slots for cycles that may overlap. */
  function Start(cycles: nat): Fleet {
    Fleet(0, map[], seq(cycles, i => Slot([], None, 0, 0, map[], {})), map[])
  }

  lemma {:induction false} Join(w: Fleet, first: seq<Step>, mid: Fleet, second: seq<Step>, l: Limits, w': Fleet)
    requires Reaches(w, first, l, mid) && Reaches(mid, second, l, w')
    ensures Reaches(w, first + second, l, w')
    decreases |first|
  {
    if first == [] {
      assert first + second == second;
    } else {
      assert (first + second)[1..] == first[1..] + second;
      Join(Next(w, first[0], l), first[1..], mid, second, l, w');
    }
  }

  lemma OneStep(w: Fleet, step: Step, l: Limits)
    requires Enabled(w, step, l)
    ensures Reaches(w, [step], l, Next(w, step, l))
  {
    assert [step][1..] == [];
    assert Reaches(Next(w, step, l), [], l, Next(w, step, l));
  }

  // ----- Sums over the slots -----

  /** How often the slot still has to handle the AP. */
  function Left(s: Slot, mac: string): nat { Copies(s.plan, mac) + (if s.inFlight == Some(mac) then 1 else 0) }

  function PendingCount(slots: seq<Slot>, mac: string): nat {
    if slots == [] then 0 else Left(slots[0], mac) + PendingCount(slots[1..], mac)
  }

  /** PoE-cycles of the AP, by all slots, not verified as a recovery since its streak was last cleared. */
  function Unsuccessful(slots: seq<Slot>, mac: string): nat {
    if slots == [] then 0 else Count(slots[0].spent, mac) + Unsuccessful(slots[1..], mac)
  }

  /** How many slots have planned the silent AP since. */
  function AgainCount(slots: seq<Slot>, mac: string): nat {
    if slots == [] then 0 else (if mac in slots[0].again then 1 else 0) + AgainCount(slots[1..], mac)
  }

  /** `again` slots of `cycles` weigh `most` each, the others `other`. */
  function Weighed(cycles: nat, again: nat, most: int, other: int): int {
    again * most + (cycles - again) * other
  }

  lemma WeighOne(cycles: nat, again: nat, most: int, other: int)
    ensures Weighed(cycles + 1, again + 1, most, other) == Weighed(cycles, again, most, other) + most
    ensures Weighed(cycles + 1, again, most, other) == Weighed(cycles, again, most, other) + other
  {
  }

  lemma {:induction false} SumsBounded(slots: seq<Slot>, mac: string, l: Limits)
    requires forall s :: 0 <= s < |slots| ==> WithinRoom(slots[s], mac, l)
    ensures AgainCount(slots, mac) <= |slots|
    ensures PendingCount(slots, mac) <= Weighed(|slots|, AgainCount(slots, mac), 1, l.repeats)
    ensures Unsuccessful(slots, mac) <= Weighed(|slots|, AgainCount(slots, mac), MostPerSlot(l), l.repeats)
  {
    if slots != [] {
      hide Weighed, Left;
      SumsBounded(slots[1..], mac, l);
      assert WithinRoom(slots[0], mac, l);
      WeighOne(|slots| - 1, AgainCount(slots[1..], mac), 1, l.repeats);
      WeighOne(|slots| - 1, AgainCount(slots[1..], mac), MostPerSlot(l), l.repeats);
    } else {
      assert Weighed(0, 0, 1, l.repeats) == 0 == Weighed(0, 0, MostPerSlot(l), l.repeats);
    }
  }

  lemma {:induction false} SlotUpdate(slots: seq<Slot>, s: nat, slot: Slot, mac: string)
    requires s < |slots|
    ensures PendingCount(slots[s := slot], mac) == PendingCount(slots, mac) - Left(slots[s], mac) + Left(slot, mac)
    ensures Unsuccessful(slots[s := slot], mac) ==
            Unsuccessful(slots, mac) - Count(slots[s].spent, mac) + Count(slot.spent, mac)
    ensures AgainCount(slots[s := slot], mac) ==
            AgainCount(slots, mac) - (if mac in slots[s].again then 1 else 0) + (if mac in slot.again then 1 else 0)
  {
    hide Left;
    if s == 0 {
      assert slots[0 := slot][1..] == slots[1..];
    } else {
      assert slots[s := slot][1..] == slots[1..][s - 1 := slot];
      SlotUpdate(slots[1..], s - 1, slot, mac);
    }
  }

  lemma {:induction false} ClearedSums(slots: seq<Slot>, macs: set<string>, mac: string)
    ensures PendingCount(ClearSlots(slots, macs), mac) == PendingCount(slots, mac)
    ensures Unsuccessful(ClearSlots(slots, macs), mac) == if mac in macs then 0 else Unsuccessful(slots, mac)
    ensures AgainCount(ClearSlots(slots, macs), mac) == if mac in macs then 0 else AgainCount(slots, mac)
  {
    if slots != [] {
      assert ClearSlots(slots, macs)[1..] == ClearSlots(slots[1..], macs);
      ClearedSums(slots[1..], macs, mac);
    }
  }

  // ----- What a cycle plans -----

  lemma {:induction false} CopiesJoin(a: seq<string>, b: seq<string>, mac: string)
    ensures Copies(a + b, mac) == Copies(a, mac) + Copies(b, mac)
  {
    if a == [] {
      assert a + b == b;
    } else {
      assert (a + b)[1..] == a[1..] + b;
      CopiesJoin(a[1..], b, mac);
    }
  }

  lemma {:induction false} CopiesPresent(macs: seq<string>, mac: string)
    ensures Copies(macs, mac) > 0 <==> mac in macs
    ensures (forall i, j :: 0 <= i < j < |macs| ==> macs[i] != macs[j]) ==> Copies(macs, mac) <= 1
  {
    if macs != [] {
      CopiesPresent(macs[1..], mac);
      assert macs == [macs[0]] + macs[1..];
      assert forall i :: 0 <= i < |macs| - 1 ==> macs[1..][i] == macs[i + 1];
    }
  }

  lemma MacsJoin(a: seq<MergedAp>, b: seq<MergedAp>)
    ensures Macs(a + b) == Macs(a) + Macs(b)
  {
  }

  lemma {:induction false} PickedCopies(merged: seq<MergedAp>, mac: string)
    ensures Copies(Macs(Pick(merged, false)), mac) + Copies(Macs(Pick(merged, true)), mac) <= Copies(Macs(merged), mac)
  {
    if merged != [] {
      hide Copies, Pick;
      var init, last := merged[..|merged| - 1], merged[|merged| - 1];
      assert merged == init + [last];
      PickedCopies(init, mac);
      PickSnoc(init, last, false);
      PickSnoc(init, last, true);
      MacsJoin(init, [last]);
      MacsJoin(Pick(init, false), [last]);
      MacsJoin(Pick(init, true), [last]);
      CopiesJoin(Macs(init), Macs([last]), mac);
      CopiesJoin(Macs(Pick(init, false)), Macs([last]), mac);
      CopiesJoin(Macs(Pick(init, true)), Macs([last]), mac);
    } else {
      assert Macs(Pick([], false)) == [] && Macs(Pick([], true)) == [];
    }
  }

  lemma TargetCopies(merged: seq<MergedAp>, maxPerSwitch: int, mac: string)
    ensures Copies(Macs(Targets(merged, maxPerSwitch)), mac) <= Copies(Macs(merged), mac)
  {
    hide Copies, Targets, Pick;
    TargetsShape(merged, maxPerSwitch);
    var all, ts := Candidates(merged), Targets(merged, maxPerSwitch);
    PickedCopies(merged, mac);
    MacsJoin(Pick(merged, false), Pick(merged, true));
    CopiesJoin(Macs(Pick(merged, false)), Macs(Pick(merged, true)), mac);
    assert all == ts + all[|ts|..];
    MacsJoin(ts, all[|ts|..]);
    CopiesJoin(Macs(ts), Macs(all[|ts|..]), mac);
  }

  /** A plan names an AP the scan saw no more often than the scan does, and a silent one once. */
  lemma PlannedCopies(w: Fleet, scan: seq<LiveAp>, known: seq<string>, maxPerSwitch: int, mac: string)
    requires IsListing(known, w.rows)
    ensures var live, plan := UsableScan(scan, known, w.rows), Planned(w, scan, known, maxPerSwitch);
            Copies(plan, mac) <= if IsLive(live, mac) then Copies(LiveMacs(live), mac) else 1
  {
    hide Copies, Targets, UsableAps, RecoverMacs, RecordSeen, MergeLive, MergeSilent;
    var live := UsableScan(scan, known, w.rows);
    var rows' := RecordSeen(w.rows, live, w.now);
    RecordSeenMeaning(w.rows, live, w.now);
    MergeLiveEntries(live, known, rows');
    MergeSilentEntries(live, known, rows', w.now);
    var ls, ss := MergeLive(live, known, rows'), MergeSilent(live, known, rows', w.now);
    TargetCopies(ls + ss, maxPerSwitch, mac);
    MacsJoin(ls, ss);
    CopiesJoin(Macs(ls), Macs(ss), mac);
    assert Macs(ls) == LiveMacs(live);
    CopiesPresent(LiveMacs(live), mac);
    CopiesPresent(Macs(ss), mac);
    if IsLive(live, mac) {
      SilentAreNotLive(live, known, rows', w.now, mac);
    } else {
      assert mac !in LiveMacs(live);
    }
  }

  lemma SilentAreNotLive(live: seq<LiveAp>, known: seq<string>, rows: Rows, now: int, mac: string)
    requires forall i :: 0 <= i < |known| ==> known[i] in rows
    requires forall i, j :: 0 <= i < j < |known| ==> known[i] != known[j]
    requires IsLive(live, mac)
    ensures mac !in Macs(MergeSilent(live, known, rows, now))
  {
    hide MergeSilent;
    MergeSilentEntries(live, known, rows, now);
    var ss := MergeSilent(live, known, rows, now);
    forall i | 0 <= i < |ss|
      ensures Macs(ss)[i] != mac
    {
      assert ss[i] in ss;
    }
  }

  // ----- The invariant -----

  function Threshold(l: Limits): int { Max(l.threshold, 1) }

  /** One slot fits this many cycles of a silent AP into seven days, the one under way when the
      AP was last seen included. */
  function MostPerSlot(l: Limits): (n: int)
    ensures n >= 2
  {
    STALE_AFTER_SECONDS / l.seconds + 2
  }

  function Took(n: nat, l: Limits): (t: nat)
    ensures n == 0 ==> t == 0
  {
    n * l.seconds
  }

  lemma TookMore(n: nat, l: Limits)
    ensures Took(n + 1, l) == Took(n, l) + l.seconds
  {
  }

  lemma TookTooLong(n: nat, l: Limits)
    requires n >= MostPerSlot(l)
    ensures Took(n, l) > STALE_AFTER_SECONDS + l.seconds
  {
    var q := STALE_AFTER_SECONDS / l.seconds;
    assert STALE_AFTER_SECONDS < (q + 1) * l.seconds;
    MulLe(l.seconds, q + 2, n);
    assert (q + 2) * l.seconds == (q + 1) * l.seconds + l.seconds;
  }

  lemma TookBound(n: nat, l: Limits)
    requires Took(n, l) <= STALE_AFTER_SECONDS + l.seconds
    ensures n + 1 <= MostPerSlot(l)
  {
    if n >= MostPerSlot(l) {
      TookTooLong(n, l);
    }
  }

  /** What the slot has spent on the AP and may still spend: one plan from before its last
      sighting, or as much as seven days have room for. */
  predicate WithinRoom(s: Slot, mac: string, l: Limits) {
    if mac in s.again then Count(s.spent, mac) + Left(s, mac) <= MostPerSlot(l) && Left(s, mac) <= 1
    else Count(s.spent, mac) + Left(s, mac) <= l.repeats
  }

  /** A plan is made while the AP's last sighting is at most seven days old, and every PoE
      command since that sighting has taken its time - but for one that was under way then. */
  predicate InTime(s: Slot, mac: string, rows: Rows, now: int, l: Limits) {
    var n := Count(s.spent, mac);
    && (Left(s, mac) > 0 || n > 0 || mac in s.again ==> mac in rows)
    && (Left(s, mac) > 0 ==> s.beganAt <= rows[mac].lastSeen + STALE_AFTER_SECONDS)
    && (n > 0 ==> Took(n, l) <= now - rows[mac].lastSeen + l.seconds)
    && (n > 0 && s.inFlight == Some(mac) ==> Took(n, l) <= s.sentAt - rows[mac].lastSeen + l.seconds)
  }

  /** needs_attention implies excluded; without it both streaks are below the threshold. */
  predicate RowOk(row: Row, threshold: int) {
    && row.failures >= 0 && row.skips >= 0
    && (row.needsAttention.None? ==> row.failures < Max(threshold, 1) && row.skips < Max(threshold, 1))
    && (row.needsAttention.Some? ==> row.excluded)
  }

  /** Once a silent AP has been planned, its failures and what is still pending stay within one
      less than the threshold, one for each slot that did so, and a whole plan for each other. */
  predicate Restrained(failures: int, pending: nat, cycles: nat, again: nat, l: Limits) {
    again >= 1 ==> failures + pending <= Threshold(l) - 1 + Weighed(cycles, again, 1, l.repeats)
  }

  ghost predicate MacOk(w: Fleet, mac: string, l: Limits) {
    && (mac in w.rows ==>
          && RowOk(w.rows[mac], l.threshold) && w.rows[mac].lastSeen <= w.now
          && Restrained(w.rows[mac].failures, PendingCount(w.slots, mac), |w.slots|, AgainCount(w.slots, mac), l))
    && Unsuccessful(w.slots, mac) == (if mac in w.rows then w.rows[mac].failures else 0) + Count(w.lost, mac)
    && (mac !in w.rows ==> Count(w.lost, mac) == 0)
    && (forall s :: 0 <= s < |w.slots| ==>
          WithinRoom(w.slots[s], mac, l) && InTime(w.slots[s], mac, w.rows, w.now, l))
  }

  ghost predicate Inv(w: Fleet, l: Limits) {
    forall mac :: MacOk(w, mac, l)
  }

  /** Rows of forgotten APs start afresh, the others keep theirs; sightings only move forward. */
  predicate Afresh(rows: Rows, rows': Rows, macs: set<string>, now: int) {
    && (forall mac :: mac in rows ==> mac in rows' && rows'[mac].lastSeen >= rows[mac].lastSeen)
    && (forall mac :: mac in rows' ==>
          if mac in macs then
            && rows'[mac].failures == 0 && rows'[mac].skips == 0 && rows'[mac].needsAttention.None?
            && rows'[mac].lastSeen <= now
          else mac in rows && rows'[mac] == rows[mac])
  }

  lemma ForgottenKeepsInv(w: Fleet, rows': Rows, macs: set<string>, l: Limits)
    requires Inv(w, l) && Afresh(w.rows, rows', macs, w.now)
    ensures Inv(Forgotten(w, rows', macs), l)
  {
    var w' := Forgotten(w, rows', macs);
    hide PendingCount, Unsuccessful, AgainCount, Took, MostPerSlot, Left, Weighed;
    forall mac
      ensures MacOk(w', mac, l)
    {
      assert MacOk(w, mac, l);
      ClearedSums(w.slots, macs, mac);
      forall s | 0 <= s < |w.slots|
        ensures WithinRoom(w'.slots[s], mac, l) && InTime(w'.slots[s], mac, rows', w.now, l)
      {
        assert WithinRoom(w.slots[s], mac, l) && InTime(w.slots[s], mac, w.rows, w.now, l);
        SameLeft(w.slots[s], macs, mac);
      }
    }
  }

  lemma SameLeft(s: Slot, macs: set<string>, mac: string)
    ensures Left(Clear(s, macs), mac) == Left(s, mac)
  {
  }

  lemma SightIsAfresh(w: Fleet, aps: seq<LiveAp>, l: Limits)
    requires Inv(w, l)
    ensures Afresh(w.rows, RecordSeen(w.rows, aps, w.now), SeenMacs(aps), w.now)
  {
    hide RecordSeen, MacOk;
    RecordSeenMeaning(w.rows, aps, w.now);
    var rows' := RecordSeen(w.rows, aps, w.now);
    forall mac | mac in rows'
      ensures if mac in SeenMacs(aps) then
                && rows'[mac].failures == 0 && rows'[mac].skips == 0 && rows'[mac].needsAttention.None?
                && rows'[mac].lastSeen == w.now
              else mac in w.rows && rows'[mac] == w.rows[mac]
    {
      if mac in SeenMacs(aps) {
        var i :| 0 <= i < |aps| && Usable(aps[i]) && aps[i].mac == mac;
        assert rows'[aps[i].mac].failures == 0;
      } else {
        assert forall i :: 0 <= i < |aps| && Usable(aps[i]) ==> aps[i].mac != mac;
      }
    }
    forall mac | mac in w.rows
      ensures mac in rows' && rows'[mac].lastSeen >= w.rows[mac].lastSeen
    {
      SeenBefore(w, mac, l);
    }
  }

  lemma SeenBefore(w: Fleet, mac: string, l: Limits)
    requires Inv(w, l) && mac in w.rows
    ensures w.rows[mac].lastSeen <= w.now && (!w.rows[mac].excluded ==> w.rows[mac].needsAttention.None?)
  {
    assert MacOk(w, mac, l);
  }

  lemma RecoveryIsAfresh(w: Fleet, mac: string, l: Limits)
    requires Inv(w, l)
    ensures Afresh(w.rows, RegisterOutcome(w.rows, mac, Some(true), l.threshold, w.now), {mac}, w.now)
    ensures Afresh(w.rows, SetExcluded(w.rows, mac, false), {mac}, w.now)
  {
    hide MacOk;
    if mac in w.rows {
      SeenBefore(w, mac, l);
    }
  }

  // ----- Steps that leave rows and counts alone -----

  /** Same counts; no AP is left more often than before. */
  ghost predicate Eases(before: Slot, after: Slot) {
    && after.spent == before.spent && after.again == before.again && after.beganAt == before.beganAt
    && (after.inFlight.Some? ==> after.inFlight == before.inFlight && after.sentAt == before.sentAt)
    && (forall m :: Left(after, m) <= Left(before, m))
  }

  lemma EasingKeepsInv(w: Fleet, s: nat, slot: Slot, l: Limits)
    requires Inv(w, l) && s < |w.slots| && Eases(w.slots[s], slot)
    ensures Inv(WithSlot(w, s, slot), l)
  {
    var w' := WithSlot(w, s, slot);
    hide PendingCount, Unsuccessful, AgainCount, Took, MostPerSlot, Left, Weighed;
    forall mac
      ensures MacOk(w', mac, l)
    {
      assert MacOk(w, mac, l);
      SlotUpdate(w.slots, s, slot, mac);
      assert WithinRoom(w.slots[s], mac, l) && InTime(w.slots[s], mac, w.rows, w.now, l);
    }
  }

  lemma SendKeepsInv(w: Fleet, s: nat, l: Limits)
    requires Inv(w, l) && HasNext(w, s)
    ensures Inv(Next(w, PoeCycle(s), l), l)
  {
    var before := w.slots[s];
    var slot := before.(plan := before.plan[1..], inFlight := Some(before.plan[0]), sentAt := w.now);
    assert forall mac :: Left(slot, mac) == Left(before, mac);
    hide PendingCount, Unsuccessful, AgainCount, Took, MostPerSlot, Left, Weighed;
    forall mac
      ensures MacOk(WithSlot(w, s, slot), mac, l)
    {
      assert MacOk(w, mac, l);
      SlotUpdate(w.slots, s, slot, mac);
      assert WithinRoom(before, mac, l) && InTime(before, mac, w.rows, w.now, l);
    }
  }

  lemma TickKeepsInv(w: Fleet, d: nat, l: Limits)
    requires Inv(w, l)
    ensures Inv(w.(now := w.now + d), l)
  {
    var w' := w.(now := w.now + d);
    hide PendingCount, Unsuccessful, AgainCount, Took, MostPerSlot, Left, Weighed;
    forall mac
      ensures MacOk(w', mac, l)
    {
      assert MacOk(w, mac, l);
      forall s | 0 <= s < |w.slots|
        ensures WithinRoom(w.slots[s], mac, l) && InTime(w.slots[s], mac, w.rows, w'.now, l)
      {
        assert WithinRoom(w.slots[s], mac, l) && InTime(w.slots[s], mac, w.rows, w.now, l);
      }
    }
  }

  lemma ExcludeKeepsInv(w: Fleet, mac: string, l: Limits)
    requires Inv(w, l)
    ensures Inv(w.(rows := SetExcluded(w.rows, mac, true)), l)
  {
    var w' := w.(rows := SetExcluded(w.rows, mac, true));
    hide PendingCount, Unsuccessful, AgainCount, Took, MostPerSlot, Left, Weighed;
    forall m
      ensures MacOk(w', m, l)
    {
      assert MacOk(w, m, l);
      forall s | 0 <= s < |w.slots|
        ensures WithinRoom(w.slots[s], m, l) && InTime(w.slots[s], m, w'.rows, w.now, l)
      {
        assert WithinRoom(w.slots[s], m, l) && InTime(w.slots[s], m, w.rows, w.now, l);
      }
    }
  }

  // ----- Letting go of an AP -----

  /** The slot before and after it lets go of an AP it has skipped, or cycled without success. */
  ghost predicate LetsGo(before: Slot, after: Slot, mac: string, spends: bool) {
    && after.again == before.again && after.beganAt == before.beganAt && after.inFlight == None
    && (forall m :: Left(after, m) <= Left(before, m)) && Left(after, mac) + 1 <= Left(before, mac)
    && (forall m :: m != mac ==> Count(after.spent, m) == Count(before.spent, m))
    && Count(after.spent, mac) == Count(before.spent, mac) + (if spends then 1 else 0)
    && (spends ==> before.inFlight == Some(mac))
  }

  /** How it is recorded: as failed or skipped in the registry, or not at all. */
  datatype Record = Failed | NoPower | Lost

  function Recorded(w: Fleet, mac: string, how: Record, l: Limits): Fleet {
    match how
    case Failed => w.(rows := RegisterOutcome(w.rows, mac, Some(false), l.threshold, w.now))
    case NoPower => w.(rows := RegisterOutcome(w.rows, mac, None, l.threshold, w.now))
    case Lost => w.(lost := w.lost[mac := Count(w.lost, mac) + 1])
  }

  lemma RegisteredRowOk(row: Row, threshold: int, recovered: Option<bool>, now: int)
    requires RowOk(row, threshold) && recovered != Some(true)
    ensures var row' := Registered(row, recovered, threshold, now);
            && RowOk(row', threshold) && row'.lastSeen == row.lastSeen
            && row'.failures == row.failures + (if recovered == Some(false) then 1 else 0)
  {
  }

  lemma RecordedRows(w: Fleet, mac: string, how: Record, l: Limits)
    requires Inv(w, l)
    ensures var w' := Recorded(w, mac, how, l);
            && w'.now == w.now && w'.slots == w.slots && w'.rows.Keys == w.rows.Keys
            && (forall m :: m in w.rows ==>
                  && RowOk(w'.rows[m], l.threshold) && w'.rows[m].lastSeen == w.rows[m].lastSeen
                  && w'.rows[m].failures == w.rows[m].failures + (if m == mac && how == Failed then 1 else 0))
            && (forall m :: Count(w'.lost, m) == Count(w.lost, m) + (if m == mac && how == Lost then 1 else 0))
  {
    hide Registered, PendingCount, Unsuccessful, AgainCount;
    if mac in w.rows {
      assert MacOk(w, mac, l);
      RegisteredRowOk(w.rows[mac], l.threshold, if how == Failed then Some(false) else None, w.now);
    }
    forall m | m in w.rows
      ensures RowOk(w.rows[m], l.threshold)
    {
      assert MacOk(w, m, l);
    }
  }

  lemma LettingGoKeepsInv(w: Fleet, s: nat, slot: Slot, mac: string, how: Record, l: Limits)
    requires Inv(w, l) && s < |w.slots| && LetsGo(w.slots[s], slot, mac, how != NoPower)
    requires how != NoPower ==> w.now >= w.slots[s].sentAt + l.seconds
    ensures Inv(WithSlot(Recorded(w, mac, how, l), s, slot), l)
  {
    var w' := WithSlot(Recorded(w, mac, how, l), s, slot);
    RecordedRows(w, mac, how, l);
    hide Recorded, MacOk, LetsGo, RowOk, Count;
    forall m
      ensures MacOk(w', m, l)
    {
      LettingGoKeepsMacOk(w, w', s, slot, mac, how, m, l);
    }
  }

  lemma LettingGoKeepsMacOk(w: Fleet, w': Fleet, s: nat, slot: Slot, mac: string, how: Record, m: string, l: Limits)
    requires MacOk(w, m, l) && s < |w.slots| && LetsGo(w.slots[s], slot, mac, how != NoPower)
    requires how != NoPower ==> w.now >= w.slots[s].sentAt + l.seconds
    requires w'.now == w.now && w'.slots == w.slots[s := slot] && w'.rows.Keys == w.rows.Keys
    requires m in w.rows ==>
               && RowOk(w'.rows[m], l.threshold) && w'.rows[m].lastSeen == w.rows[m].lastSeen
               && w'.rows[m].failures == w.rows[m].failures + (if m == mac && how == Failed then 1 else 0)
    requires Count(w'.lost, m) == Count(w.lost, m) + (if m == mac && how == Lost then 1 else 0)
    ensures MacOk(w', m, l)
  {
    hide PendingCount, Unsuccessful, AgainCount, Took, MostPerSlot, Left, Weighed, RowOk, Count, WithinRoom, InTime;
    SlotUpdate(w.slots, s, slot, m);
    assert WithinRoom(w.slots[s], m, l) && InTime(w.slots[s], m, w.rows, w.now, l);
    SpendingTakesTime(w.slots[s], slot, m, mac, how != NoPower, w.rows, w'.rows, w.now, l);
    forall k | 0 <= k < |w'.slots| && k != s
      ensures WithinRoom(w'.slots[k], m, l) && InTime(w'.slots[k], m, w'.rows, w.now, l)
    {
      assert WithinRoom(w.slots[k], m, l) && InTime(w.slots[k], m, w.rows, w.now, l);
      StillInTime(w.slots[k], m, w.rows, w'.rows, w.now, l);
    }
  }

  lemma StillInTime(s: Slot, mac: string, rows: Rows, rows': Rows, now: int, l: Limits)
    requires InTime(s, mac, rows, now, l) && rows'.Keys == rows.Keys
    requires mac in rows ==> rows'[mac].lastSeen == rows[mac].lastSeen
    ensures InTime(s, mac, rows', now, l)
  {
  }

  lemma SpendingTakesTime(before: Slot, after: Slot, m: string, mac: string, spends: bool, rows: Rows, rows': Rows,
                          now: int, l: Limits)
    requires LetsGo(before, after, mac, spends) && WithinRoom(before, m, l) && InTime(before, m, rows, now, l)
    requires spends ==> now >= before.sentAt + l.seconds
    requires rows'.Keys == rows.Keys && (m in rows ==> rows'[m].lastSeen == rows[m].lastSeen <= now)
    ensures WithinRoom(after, m, l) && InTime(after, m, rows', now, l) && (m == mac ==> m in rows)
  {
    hide Left, Took, MostPerSlot;
    TookMore(Count(before.spent, m), l);
  }

  // ----- Beginning a cycle -----

  /** What a cycle plans was sighted by this very scan, or its row is not excluded and was
      sighted within seven days. */
  lemma PlannedIsAllowed(w: Fleet, scan: seq<LiveAp>, known: seq<string>, maxPerSwitch: int, l: Limits, mac: string)
    requires Inv(w, l) && IsListing(known, w.rows)
    requires mac in Planned(w, scan, known, maxPerSwitch)
    ensures var live := UsableScan(scan, known, w.rows);
            var rows' := RecordSeen(w.rows, live, w.now);
            && mac in rows' && rows'[mac].needsAttention.None? && w.now <= rows'[mac].lastSeen + STALE_AFTER_SECONDS
            && (IsLive(live, mac) ==> mac in SeenMacs(live) && rows'[mac].lastSeen == w.now)
  {
    hide Targets, UsableAps, RecoverMacs, Merge, RecordSeen, MacOk;
    var live := UsableScan(scan, known, w.rows);
    var rows' := RecordSeen(w.rows, live, w.now);
    var merged := MergedView(scan, known, w.rows, w.now);
    RecordSeenMeaning(w.rows, live, w.now);
    MergedAreJustified(live, known, rows', w.now);
    TargetsShape(merged, maxPerSwitch);
    UsableAreUsable(scan, known, w.rows);
    var targets := Targets(merged, maxPerSwitch);
    var i :| 0 <= i < |targets| && targets[i].mac == mac;
    var t := targets[i];
    assert t in merged && Justified(t, live, known, rows', w.now);
    if IsLive(live, mac) {
      var k :| 0 <= k < |live| && live[k].mac == mac;
      assert Usable(live[k]);
    } else {
      assert forall k :: 0 <= k < |live| && Usable(live[k]) ==> live[k].mac != mac;
      assert !t.responding;
      SeenBefore(w, mac, l);
    }
  }

  lemma BeginKeepsInv(w: Fleet, s: nat, scan: seq<LiveAp>, known: seq<string>, maxPerSwitch: int, l: Limits)
    requires Inv(w, l) && Enabled(w, Begin(s, scan, known, maxPerSwitch), l)
    ensures Inv(Next(w, Begin(s, scan, known, maxPerSwitch), l), l)
  {
    hide Planned, RecordSeen, UsableScan, MacOk, Afresh, Inv;
    var live, plan := UsableScan(scan, known, w.rows), Planned(w, scan, known, maxPerSwitch);
    SightIsAfresh(w, live, l);
    ForgottenKeepsInv(w, RecordSeen(w.rows, live, w.now), SeenMacs(live), l);
    var v := Sighted(w, live);
    forall mac
      ensures Copies(plan, mac) <= (if IsLive(live, mac) then l.repeats else 1)
      ensures Copies(plan, mac) > 0 <==> mac in plan
      ensures mac in plan ==>
                && mac in v.rows && v.rows[mac].needsAttention.None?
                && v.now <= v.rows[mac].lastSeen + STALE_AFTER_SECONDS
                && (IsLive(live, mac) ==> Fresh(v, mac))
    {
      PlannedCopies(w, scan, known, maxPerSwitch, mac);
      CopiesPresent(plan, mac);
      if mac in plan {
        PlannedIsAllowed(w, scan, known, maxPerSwitch, l, mac);
      }
    }
    PlanKeepsInv(v, s, plan, live, l);
  }

  /** Nothing has been spent on the AP since it was last cleared. */
  predicate Fresh(w: Fleet, mac: string) {
    forall s :: 0 <= s < |w.slots| ==> mac !in w.slots[s].spent && mac !in w.slots[s].again
  }

  lemma PlanKeepsInv(w: Fleet, s: nat, plan: seq<string>, live: seq<LiveAp>, l: Limits)
    requires Inv(w, l) && s < |w.slots| && Idle(w.slots[s])
    requires forall mac :: Copies(plan, mac) <= if IsLive(live, mac) then l.repeats else 1
    requires forall mac :: Copies(plan, mac) > 0 <==> mac in plan
    requires forall mac :: mac in plan ==>
               && mac in w.rows && w.rows[mac].needsAttention.None?
               && w.now <= w.rows[mac].lastSeen + STALE_AFTER_SECONDS && (IsLive(live, mac) ==> Fresh(w, mac))
    ensures Inv(WithSlot(w, s, WithPlan(w.slots[s], plan, live, w.now)), l)
  {
    var slot := WithPlan(w.slots[s], plan, live, w.now);
    var w' := WithSlot(w, s, slot);
    hide Copies;
    assert forall mac :: Left(slot, mac) == Copies(plan, mac) && Left(w.slots[s], mac) == 0 by {
      assert [] == w.slots[s].plan;
      NoCopies();
    }
    hide PendingCount, Unsuccessful, AgainCount, Took, MostPerSlot, Left, Weighed, IsLive;
    forall mac
      ensures MacOk(w', mac, l)
    {
      assert MacOk(w, mac, l);
      SlotUpdate(w.slots, s, slot, mac);
      assert WithinRoom(w.slots[s], mac, l) && InTime(w.slots[s], mac, w.rows, w.now, l);
      if mac in plan && !IsLive(live, mac) {
        TookBound(Count(slot.spent, mac), l);
      }
      assert WithinRoom(slot, mac, l) && InTime(slot, mac, w.rows, w.now, l);
      forall k | 0 <= k < |w'.slots|
        ensures WithinRoom(w'.slots[k], mac, l) && InTime(w'.slots[k], mac, w.rows, w.now, l)
      {
        assert k != s ==> WithinRoom(w.slots[k], mac, l) && InTime(w.slots[k], mac, w.rows, w.now, l);
      }
      SumsBounded(w'.slots, mac, l);
      if mac in plan && IsLive(live, mac) {
        NeverAgain(w'.slots, mac);
      }
    }
  }

  lemma NoCopies()
    ensures forall mac :: Copies([], mac) == 0
  {
  }

  lemma {:induction false} NeverAgain(slots: seq<Slot>, mac: string)
    requires forall s :: 0 <= s < |slots| ==> mac !in slots[s].again
    ensures AgainCount(slots, mac) == 0
  {
    if slots != [] {
      NeverAgain(slots[1..], mac);
    }
  }

  // ----- Every step -----

  lemma VerifyKeepsInv(w: Fleet, s: nat, recovered: bool, l: Limits)
    requires Inv(w, l) && Enabled(w, Verify(s, recovered), l)
    ensures Inv(Next(w, Verify(s, recovered), l), l)
  {
    hide MacOk, RegisterOutcome;
    var slot, mac := w.slots[s].(inFlight := None), w.slots[s].inFlight.value;
    if recovered {
      EasingKeepsInv(w, s, slot, l);
      var v := WithSlot(w, s, slot);
      RecoveryIsAfresh(v, mac, l);
      ForgottenKeepsInv(v, RegisterOutcome(w.rows, mac, Some(true), l.threshold, w.now), {mac}, l);
    } else {
      LettingGoKeepsInv(w, s, Spend(slot, mac), mac, Failed, l);
    }
  }

  lemma AbortKeepsInv(w: Fleet, s: nat, l: Limits)
    requires Inv(w, l) && Enabled(w, Abort(s), l)
    ensures Inv(Next(w, Abort(s), l), l)
  {
    hide MacOk, RegisterOutcome;
    var slot := w.slots[s].(plan := [], inFlight := None);
    if w.slots[s].inFlight.None? {
      EasingKeepsInv(w, s, slot, l);
    } else {
      LettingGoKeepsInv(w, s, Spend(slot, w.slots[s].inFlight.value), w.slots[s].inFlight.value, Lost, l);
    }
  }

  lemma StepKeepsInv(w: Fleet, step: Step, l: Limits)
    requires Inv(w, l) && Enabled(w, step, l)
    ensures Inv(Next(w, step, l), l)
  {
    hide Inv, Afresh, RegisterOutcome, SetExcluded, RecordSeen;
    match step
    case Tick(d) => TickKeepsInv(w, d, l);
    case Sight(aps) =>
      SightIsAfresh(w, aps, l);
      ForgottenKeepsInv(w, RecordSeen(w.rows, aps, w.now), SeenMacs(aps), l);
    case Begin(s, scan, known, maxPerSwitch) => BeginKeepsInv(w, s, scan, known, maxPerSwitch, l);
    case SkipNoPower(s) =>
      LettingGoKeepsInv(w, s, w.slots[s].(plan := w.slots[s].plan[1..]), w.slots[s].plan[0], NoPower, l);
    case PoeCycle(s) => SendKeepsInv(w, s, l);
    case Verify(s, recovered) => VerifyKeepsInv(w, s, recovered, l);
    case Abort(s) => AbortKeepsInv(w, s, l);
    case Exclude(mac, excluded) =>
      if excluded {
        ExcludeKeepsInv(w, mac, l);
      } else {
        RecoveryIsAfresh(w, mac, l);
        ForgottenKeepsInv(w, SetExcluded(w.rows, mac, false), {mac}, l);
      }
  }

  lemma StepKeepsSlots(w: Fleet, step: Step, l: Limits)
    requires Enabled(w, step, l)
    ensures |Next(w, step, l).slots| == |w.slots|
    ensures Next(w, step, l).now >= w.now
  {
  }

  lemma {:induction false} ReachableInv(w: Fleet, steps: seq<Step>, l: Limits, w': Fleet)
    requires Inv(w, l) && Reaches(w, steps, l, w')
    ensures Inv(w', l) && |w'.slots| == |w.slots|
    decreases |steps|
  {
    hide Inv, Enabled, Next;
    if steps != [] {
      StepKeepsInv(w, steps[0], l);
      StepKeepsSlots(w, steps[0], l);
      ReachableInv(Next(w, steps[0], l), steps[1..], l, w');
    }
  }

  predicate Unspent(s: Slot) { s.spent == map[] && s.again == {} }

  lemma {:induction false} NothingSpent(slots: seq<Slot>, mac: string)
    requires forall s :: 0 <= s < |slots| ==> Unspent(slots[s])
    ensures Unsuccessful(slots, mac) == 0 && AgainCount(slots, mac) == 0
  {
    if slots != [] {
      NothingSpent(slots[1..], mac);
    }
  }

  lemma StartInv(cycles: nat, l: Limits)
    ensures Inv(Start(cycles), l)
  {
    forall mac
      ensures MacOk(Start(cycles), mac, l)
    {
      NothingSpent(Start(cycles).slots, mac);
    }
  }

  // ----- Bounded harm -----

  /** Whatever is pending was planned while the AP's last sighting was at most seven days old. */
  lemma PlansAreRecent(cycles: nat, steps: seq<Step>, l: Limits, w: Fleet, s: nat, mac: string)
    requires Reaches(Start(cycles), steps, l, w) && s < |w.slots| && Left(w.slots[s], mac) > 0
    ensures mac in w.rows && w.slots[s].beganAt <= w.rows[mac].lastSeen + STALE_AFTER_SECONDS
  {
    StartInv(cycles, l);
    ReachableInv(Start(cycles), steps, l, w);
    assert MacOk(w, mac, l);
    assert InTime(w.slots[s], mac, w.rows, w.now, l);
  }

  /** The most one AP can be cycled when `again` of the slots plan it for staying silent: those
      share the threshold, less one, and have one more each; every other slot has one plan from
      before the AP's last sighting. */
  function Toll(again: nat, cycles: nat, l: Limits): int {
    Min(Threshold(l) + again - 1, again * MostPerSlot(l)) + (cycles - again) * l.repeats
  }

  function WorstToll(upTo: nat, cycles: nat, l: Limits): int {
    if upTo == 0 then Toll(0, cycles, l) else Max(Toll(upTo, cycles, l), WorstToll(upTo - 1, cycles, l))
  }

  lemma {:induction false} WorstIsWorst(upTo: nat, cycles: nat, l: Limits) returns (worst: nat)
    ensures forall again: nat :: again <= upTo ==> Toll(again, cycles, l) <= WorstToll(upTo, cycles, l)
    ensures worst <= upTo && WorstToll(upTo, cycles, l) == Toll(worst, cycles, l)
  {
    hide Toll;
    if upTo == 0 {
      worst := 0;
    } else {
      worst := WorstIsWorst(upTo - 1, cycles, l);
      if Toll(upTo, cycles, l) >= WorstToll(upTo - 1, cycles, l) {
        worst := upTo;
      }
    }
  }

  /** The bound in plain terms: the threshold, or one plan if that repeats the AP more often,
      and one plan for each further cycle; exact while seven days have room for the threshold. */
  function PlainToll(cycles: nat, l: Limits): int {
    Max(Threshold(l), l.repeats) + (cycles - 1) * l.repeats
  }

  lemma PlainTollIsWorst(cycles: nat, l: Limits)
    requires cycles >= 1
    ensures WorstToll(cycles, cycles, l) <= PlainToll(cycles, l)
    ensures Threshold(l) <= MostPerSlot(l) ==> WorstToll(cycles, cycles, l) == PlainToll(cycles, l)
  {
    hide WorstToll;
    var worst := WorstIsWorst(cycles, cycles, l);
    if worst >= 1 {
      MulLe(worst - 1, 1, l.repeats);
      assert (cycles - worst) * l.repeats + (worst - 1) * l.repeats == (cycles - 1) * l.repeats;
    }
    assert cycles * l.repeats == (cycles - 1) * l.repeats + l.repeats;
    assert Toll(0, cycles, l) == cycles * l.repeats;
    assert Threshold(l) <= MostPerSlot(l) ==> Toll(1, cycles, l) == Threshold(l) + (cycles - 1) * l.repeats;
    assert 0 <= cycles;
  }

  /** How much one AP is cycled in a state of a run, by the slots that planned it silent. */
  lemma TollIsKept(w: Fleet, mac: string, l: Limits) returns (again: nat)
    requires MacOk(w, mac, l)
    ensures again <= |w.slots|
    ensures Unsuccessful(w.slots, mac) <= Toll(again, |w.slots|, l) + Count(w.lost, mac)
    ensures Unsuccessful(w.slots, mac) <= Weighed(|w.slots|, again, MostPerSlot(l), l.repeats)
  {
    again := AgainCount(w.slots, mac);
    SumsBounded(w.slots, mac, l);
    hide PendingCount, Unsuccessful, AgainCount, MostPerSlot;
    assert again == 0 ==> again * MostPerSlot(l) == 0;
    assert again * 1 == again;
  }

  /** Between two events that clear its streak, one AP is power-cycled without a verified
      recovery at most as often as the worst toll says - at most the plain one - plus once for
      every cycle that died before registering its outcome; and in any case no more often than
      the cycles of seven days, or one plan each, allow. */
  lemma BoundedHarm(cycles: nat, steps: seq<Step>, l: Limits, w: Fleet, mac: string)
    requires cycles >= 1 && Reaches(Start(cycles), steps, l, w)
    ensures Unsuccessful(w.slots, mac) <= WorstToll(cycles, cycles, l) + Count(w.lost, mac)
    ensures Unsuccessful(w.slots, mac) <= PlainToll(cycles, l) + Count(w.lost, mac)
    ensures Unsuccessful(w.slots, mac) <= cycles * Max(MostPerSlot(l), l.repeats)
    ensures mac in w.rows && w.rows[mac].needsAttention.Some? ==> w.rows[mac].excluded
    ensures mac in w.rows && w.rows[mac].needsAttention.None? ==>
              w.rows[mac].failures < Threshold(l) && w.rows[mac].skips < Threshold(l)
  {
    StartInv(cycles, l);
    ReachableInv(Start(cycles), steps, l, w);
    assert MacOk(w, mac, l);
    hide Unsuccessful, Toll, WorstToll, MostPerSlot, PlainToll, PendingCount, AgainCount;
    var again := TollIsKept(w, mac, l);
    var _ := WorstIsWorst(cycles, cycles, l);
    PlainTollIsWorst(cycles, l);
    var most := Max(MostPerSlot(l), l.repeats);
    MulLe(again, MostPerSlot(l), most);
    MulLe(cycles - again, l.repeats, most);
    assert again * most + (cycles - again) * most == cycles * most;
  }
}
