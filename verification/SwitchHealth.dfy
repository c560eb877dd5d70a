/** The switch-level counters of the reboot cycle and their one escalation
    (`_register_switch_outcome_and_maybe_escalate` in app/domains/inventory/ap_auto_reboot.py). */
module SwitchHealth {
  import opened Wrappers
  import opened Arithmetic

  datatype ScanOutcome = Unreachable | FoundNone | FoundAps

  datatype Health = Health(unreachable: int, noAps: int, needsAttention: Option<int>)

  function HealthAfter(h: Health, outcome: ScanOutcome, threshold: int, now: int): Health {
    match outcome
    case FoundAps => Health(0, 0, None)
    case Unreachable =>
      var n := h.unreachable + 1;
      Health(n, h.noAps, if n >= threshold && h.needsAttention == None then Some(now) else h.needsAttention)
    case FoundNone =>
      var n := h.noAps + 1;
      Health(0, n, if n >= threshold && h.needsAttention == None then Some(now) else h.needsAttention)
  }

  /** The switch row, as far as the cycle reads and writes it. */
  class Switch {
    var enabled: bool
    var live: bool
    var health: Health

    constructor (enabled: bool, live: bool)
      ensures this.enabled == enabled && this.live == live && health == Health(0, 0, None)
    {
      this.enabled := enabled;
      this.live := live;
      health := Health(0, 0, None);
    }

    method RegisterOutcome(outcome: ScanOutcome, threshold: int, now: int) returns (escalated: bool)
      modifies this`health
      ensures health == HealthAfter(old(health), outcome, threshold, now)
      ensures escalated <==> old(health).needsAttention == None && health.needsAttention.Some?
    {
      escalated := false;
      match outcome {
        case Unreachable =>
          health := health.(unreachable := health.unreachable + 1);
          escalated := health.unreachable >= threshold && health.needsAttention == None;
        case FoundAps =>
          health := Health(0, 0, None);
        case FoundNone =>
          health := health.(unreachable := 0, noAps := health.noAps + 1);
          escalated := health.noAps >= threshold && health.needsAttention == None;
      }
      if escalated {
        health := health.(needsAttention := Some(now));
      }
    }
  }

  // ----- Whole histories -----

  /** The counters after a history of cycles, from a switch without any. */
  function HealthRun(outcomes: seq<ScanOutcome>, threshold: int, now: nat -> int): Health {
    if outcomes == [] then Health(0, 0, None)
    else
      var n := |outcomes|;
      HealthAfter(HealthRun(outcomes[..n - 1], threshold, now), outcomes[n - 1], threshold, now(n))
  }

  /** From cycle `g` on no cycle found APs, and the one before it did. */
  predicate SinceGood(outcomes: seq<ScanOutcome>, g: nat) {
    && g <= |outcomes| && (g > 0 ==> outcomes[g - 1] == FoundAps)
    && (forall i :: g <= i < |outcomes| ==> outcomes[i] != FoundAps)
  }

  /** The history ends in exactly `k` outcomes of this kind. */
  predicate EndsIn(outcomes: seq<ScanOutcome>, kind: ScanOutcome, k: nat) {
    && k <= |outcomes| && (forall i :: |outcomes| - k <= i < |outcomes| ==> outcomes[i] == kind)
    && (k < |outcomes| ==> outcomes[|outcomes| - k - 1] != kind)
  }

  /** The empty scans among cycles from..to. */
  function Empties(outcomes: seq<ScanOutcome>, from: nat, to: nat): set<int>
    requires to <= |outcomes|
  {
    set i | from <= i < to && outcomes[i] == FoundNone
  }

  /** Cycle `e` completes `most` unreachable cycles in a row, or has that many empty scans
      behind it since cycle `g`, itself included. */
  predicate Alarms(outcomes: seq<ScanOutcome>, g: nat, e: nat, most: int) {
    && g <= e < |outcomes|
    && ((e + 1 >= most && forall i :: 0 <= i <= e && e + 1 - most <= i ==> outcomes[i] == Unreachable) ||
        |Empties(outcomes, g, e + 1)| >= most)
  }

  lemma EmptiesSnoc(outcomes: seq<ScanOutcome>, from: nat)
    requires outcomes != [] && from < |outcomes|
    ensures var n := |outcomes| - 1;
            |Empties(outcomes, from, n + 1)| ==
              |Empties(outcomes, from, n)| + (if outcomes[n] == FoundNone then 1 else 0)
  {
    var n := |outcomes| - 1;
    assert Empties(outcomes, from, n + 1) ==
           Empties(outcomes, from, n) + (if outcomes[n] == FoundNone then {n} else {});
  }

  lemma EmptiesOfPrefix(outcomes: seq<ScanOutcome>, n: nat, from: nat, to: nat)
    requires to <= n <= |outcomes|
    ensures Empties(outcomes[..n], from, to) == Empties(outcomes, from, to)
  {
  }

  lemma AlarmsInPrefix(outcomes: seq<ScanOutcome>, g: nat, e: nat, most: int)
    requires outcomes != [] && e < |outcomes| - 1
    ensures Alarms(outcomes[..|outcomes| - 1], g, e, most) == Alarms(outcomes, g, e, most)
  {
    var init := outcomes[..|outcomes| - 1];
    EmptiesOfPrefix(outcomes, |init|, g, e + 1);
    assert forall i :: 0 <= i <= e ==> init[i] == outcomes[i];
  }

  /** The last cycle alarms exactly when it finds or pushes a count at the threshold. */
  lemma LastAlarms(outcomes: seq<ScanOutcome>, g: nat, u: nat, most: int)
    requires outcomes != [] && SinceGood(outcomes, g) && g < |outcomes|
    requires EndsIn(outcomes, Unreachable, u) && most >= 1
    ensures Alarms(outcomes, g, |outcomes| - 1, most) <==>
            u >= most || |Empties(outcomes, g, |outcomes|)| >= most
  {
    var n := |outcomes|;
    assert u < most <= n ==> outcomes[n - u - 1] != Unreachable;
  }

  lemma {:induction false} CountersMeaning(outcomes: seq<ScanOutcome>, threshold: int, now: nat -> int)
    returns (g: nat, u: nat)
    ensures SinceGood(outcomes, g) && EndsIn(outcomes, Unreachable, u)
    ensures var h := HealthRun(outcomes, threshold, now);
            h.unreachable == u && h.noAps == |Empties(outcomes, g, |outcomes|)|
  {
    if outcomes == [] {
      g, u := 0, 0;
    } else {
      var n := |outcomes| - 1;
      g, u := CountersMeaning(outcomes[..n], threshold, now);
      if outcomes[n] == FoundAps {
        g, u := n + 1, 0;
      } else {
        u := if outcomes[n] == Unreachable then u + 1 else 0;
        EmptiesOfPrefix(outcomes, n, g, n);
        EmptiesSnoc(outcomes, g);
      }
    }
  }

  lemma SinceGoodIsUnique(outcomes: seq<ScanOutcome>, g: nat, h: nat)
    requires SinceGood(outcomes, g) && SinceGood(outcomes, h)
    ensures g == h
  {
  }

  /** The attention latch over any run of cycles, `g` being the first cycle since the last
      good one: it is up exactly when some cycle since then completed `threshold` unreachable
      ones in a row, or had as many empty scans behind it, consecutive or not. */
  lemma {:induction false} SwitchLatch(outcomes: seq<ScanOutcome>, threshold: int, now: nat -> int, g: nat)
    requires SinceGood(outcomes, g)
    ensures HealthRun(outcomes, threshold, now).needsAttention.Some? <==>
            exists e: nat :: Alarms(outcomes, g, e, Max(threshold, 1))
  {
    hide SinceGood, Alarms, Empties, EndsIn;
    NoAlarmBefore(outcomes, g);
    if outcomes != [] {
      var n, most := |outcomes| - 1, Max(threshold, 1);
      if outcomes[n] == FoundAps {
        NothingSinceGood(outcomes, g);
      } else {
        SinceGoodOfPrefix(outcomes, g);
        SwitchLatch(outcomes[..n], threshold, now, g);
        LatchStep(outcomes, g, threshold, now);
        forall e: nat | e < n
          ensures Alarms(outcomes[..n], g, e, most) == Alarms(outcomes, g, e, most)
        {
          AlarmsInPrefix(outcomes, g, e, most);
        }
        forall e: nat
          ensures Alarms(outcomes, g, e, most) ==> e <= n
          ensures Alarms(outcomes[..n], g, e, most) ==> e < n
        {
          AlarmsInside(outcomes, g, e, most);
          AlarmsInside(outcomes[..n], g, e, most);
        }
      }
    }
  }

  lemma AlarmsInside(outcomes: seq<ScanOutcome>, g: nat, e: nat, most: int)
    ensures Alarms(outcomes, g, e, most) ==> g <= e < |outcomes|
  {
  }

  lemma NoAlarmBefore(outcomes: seq<ScanOutcome>, g: nat)
    ensures g >= |outcomes| ==> forall e: nat, most :: !Alarms(outcomes, g, e, most)
  {
  }

  lemma NothingSinceGood(outcomes: seq<ScanOutcome>, g: nat)
    requires outcomes != [] && outcomes[|outcomes| - 1] == FoundAps && SinceGood(outcomes, g)
    ensures g == |outcomes|
  {
  }

  lemma SinceGoodOfPrefix(outcomes: seq<ScanOutcome>, g: nat)
    requires outcomes != [] && outcomes[|outcomes| - 1] != FoundAps && SinceGood(outcomes, g)
    ensures g < |outcomes| && SinceGood(outcomes[..|outcomes| - 1], g)
  {
  }

  /** A cycle raises the latch exactly when it alarms and none before it did. */
  lemma LatchStep(outcomes: seq<ScanOutcome>, g: nat, threshold: int, now: nat -> int)
    requires outcomes != [] && outcomes[|outcomes| - 1] != FoundAps && SinceGood(outcomes, g)
    ensures var n, most := |outcomes| - 1, Max(threshold, 1);
            var before := HealthRun(outcomes[..n], threshold, now).needsAttention.Some?;
            var latched := HealthRun(outcomes, threshold, now).needsAttention.Some?;
            && (before || Alarms(outcomes, g, n, most) ==>
                  latched || exists e: nat :: e < n && Alarms(outcomes[..n], g, e, most))
            && (latched ==> before || Alarms(outcomes, g, n, most))
  {
    var n, most := |outcomes| - 1, Max(threshold, 1);
    var init := outcomes[..n];
    var g', u := CountersMeaning(outcomes, threshold, now);
    SinceGoodIsUnique(outcomes, g, g');
    LastAlarms(outcomes, g, u, most);
    var empties := |Empties(outcomes, g, n + 1)|;
    assert HealthRun(outcomes, threshold, now) ==
           HealthAfter(HealthRun(init, threshold, now), outcomes[n], threshold, now(n + 1));
    assert Alarms(outcomes, g, n, most) <==> u >= most || empties >= most;
    assert outcomes[n] == Unreachable ==> u >= 1 && (u >= threshold <==> u >= most);
    assert outcomes[n] == FoundNone ==> u == 0;
    EmptiesSnoc(outcomes, g);
    if outcomes[n] == Unreachable && |Empties(outcomes, g, n + 1)| >= most {
      EmptiesOfPrefix(outcomes, n, g, n);
      assert Empties(outcomes, n, n) == {};
      assert Alarms(init, g, n - 1, most);
    }
  }

  /** The documented "consecutive" count: it is the number of empty scans the history ends in
      exactly when no unreachable cycle follows an empty scan since the last good cycle. */
  lemma NoApsIsConsecutiveIff(outcomes: seq<ScanOutcome>, threshold: int, now: nat -> int, g: nat, k: nat)
    requires SinceGood(outcomes, g) && EndsIn(outcomes, FoundNone, k)
    ensures HealthRun(outcomes, threshold, now).noAps == k <==>
            forall i, j :: g <= i < j < |outcomes| && outcomes[i] == FoundNone ==> outcomes[j] != Unreachable
  {
    var n := |outcomes|;
    var g', _ := CountersMeaning(outcomes, threshold, now);
    SinceGoodIsUnique(outcomes, g, g');
    assert g > 0 ==> outcomes[g - 1] == FoundAps;
    assert g <= n - k;
    var trailing, empties := Empties(outcomes, n - k, n), Empties(outcomes, g, n);
    AllEmpty(outcomes, n - k, n);
    assert trailing <= empties;
    if forall i, j :: g <= i < j < n && outcomes[i] == FoundNone ==> outcomes[j] != Unreachable {
      assert n - k > g ==> outcomes[n - k - 1] == Unreachable;
      assert empties == trailing;
    }
    if |empties| == k {
      SameSize(trailing, empties);
      forall i, j | g <= i < j < n && outcomes[i] == FoundNone
        ensures outcomes[j] != Unreachable
      {
        assert i in empties;
      }
    }
  }

  lemma {:induction false} AllEmpty(outcomes: seq<ScanOutcome>, lo: nat, hi: nat)
    requires lo <= hi <= |outcomes| && forall i :: lo <= i < hi ==> outcomes[i] == FoundNone
    ensures |Empties(outcomes, lo, hi)| == hi - lo
    decreases hi
  {
    if lo < hi {
      AllEmpty(outcomes, lo, hi - 1);
      assert Empties(outcomes, lo, hi) == Empties(outcomes, lo, hi - 1) + {hi - 1};
    }
  }

  lemma SameSize(a: set<int>, b: set<int>)
    requires a <= b && |a| == |b|
    ensures a == b
  {
    assert b == a + (b - a);
  }

  /** An unreachable cycle between two empty scans: the latch goes up for two "consecutive"
      empty scans although no two of them were. */
  lemma LatchWithoutConsecutiveEmpties(now: nat -> int)
    ensures var outcomes := [FoundNone, Unreachable, FoundNone];
            var h := HealthRun(outcomes, 2, now);
            h.noAps == 2 && h.needsAttention.Some? && EndsIn(outcomes, FoundNone, 1)
  {
    var outcomes := [FoundNone, Unreachable, FoundNone];
    assert outcomes[..2] == [FoundNone, Unreachable] && outcomes[..2][..1] == [FoundNone] && [FoundNone][..0] == [];
    assert HealthRun([FoundNone], 2, now) == Health(0, 1, None);
    assert HealthRun([FoundNone, Unreachable], 2, now) == Health(1, 1, None) by {
      assert [FoundNone, Unreachable][..1] == [FoundNone];
    }
  }
}
