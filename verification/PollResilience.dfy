/** Confirm-offline and circuit breaking for polled devices
    (app/services/poll_resilience.py). */
module PollResilience {
  import opened Wrappers
  import opened Arithmetic

  // ----- The pure decision -----

  datatype Event = Recovered | Online | OfflinePending | OfflineConfirmed | CircuitOpened

  datatype Decision = Decision(effectiveOnline: bool, event: Event, failures: int, circuitFailures: int)

  datatype Settings = Settings(confirmations: int, threshold: int, openSeconds: int, maxOpenSeconds: int, stateTtl: int)

  function Decide(previousOnline: bool, probedOnline: bool, probedError: bool,
                  failures: int, circuitFailures: int, cfg: Settings): Decision {
    if probedOnline then
      Decision(true, if failures > 0 || circuitFailures > 0 then Recovered else Online, 0, 0)
    else
      var nextFailures := failures + 1;
      var counted := circuitFailures + (if probedError then 1 else 0);
      var nextCircuit := if !probedError && counted > 0 then counted - 1 else counted;
      if previousOnline && nextFailures < Max(cfg.confirmations, 1) then
        Decision(true, OfflinePending, nextFailures, nextCircuit)
      else
        Decision(false, if nextCircuit >= Max(cfg.threshold, 1) then CircuitOpened else OfflineConfirmed,
                 nextFailures, nextCircuit)
  }

  function CircuitOpenSeconds(circuitFailures: int, threshold: int, base: int, maxSeconds: int): int {
    var overshoot := Max(circuitFailures - Max(threshold, 1), 0);
    Min(base * Pow2(Min(overshoot, 20)), Max(maxSeconds, base))
  }

  // ----- Closed form of the state machine -----

  datatype Probe = Up | Down(error: bool)

  datatype Tracked = Tracked(online: bool, failures: int, circuitFailures: int)

  function Step(s: Tracked, probe: Probe, cfg: Settings): Tracked {
    var d := Decide(s.online, probe.Up?, probe.Down? && probe.error, s.failures, s.circuitFailures, cfg);
    Tracked(d.effectiveOnline, d.failures, d.circuitFailures)
  }

  /** The state after the probes, from a device known online with clean counters. */
  function Track(probes: seq<Probe>, cfg: Settings): Tracked {
    if probes == [] then Tracked(true, 0, 0)
    else Step(Track(probes[..|probes| - 1], cfg), probes[|probes| - 1], cfg)
  }

  /** Infrastructure errors minus plain failures, over a stretch of failed probes. */
  function Balance(probes: seq<Probe>): int {
    if probes == [] then 0
    else Balance(probes[..|probes| - 1]) +
         (if probes[|probes| - 1] == Down(true) then 1 else if probes[|probes| - 1] == Down(false) then -1 else 0)
  }

  /** `k` is the length of the trailing run of failed probes. */
  predicate TrailingFailures(probes: seq<Probe>, k: int) {
    && 0 <= k <= |probes|
    && (forall i :: |probes| - k <= i < |probes| ==> probes[i].Down?)
    && (k < |probes| ==> probes[|probes| - 1 - k].Up?)
  }

  /** `c` is the largest balance of a suffix of the last k probes (the empty suffix included). */
  ghost predicate BestSuffix(probes: seq<Probe>, k: int, c: int)
    requires 0 <= k <= |probes|
  {
    && (forall s :: |probes| - k <= s <= |probes| ==> Balance(probes[s..]) <= c)
    && (exists s :: |probes| - k <= s <= |probes| && Balance(probes[s..]) == c)
  }

  lemma BestSuffixExtends(probes: seq<Probe>, last: Probe, k: int, c: int)
    requires 0 <= k <= |probes| && last.Down? && BestSuffix(probes, k, c)
    ensures BestSuffix(probes + [last], k + 1, if last.error then c + 1 else Max(c - 1, 0))
  {
    var all := probes + [last];
    var c' := if last.error then c + 1 else Max(c - 1, 0);
    forall s | |probes| - k <= s <= |probes|
      ensures Balance(all[s..]) == Balance(probes[s..]) + (if last.error then 1 else -1)
    {
      assert all[s..][..|all[s..]| - 1] == probes[s..];
    }
    assert Balance(all[|all|..]) == 0;
    assert Balance(probes[|probes|..]) == 0;
    forall s | |all| - (k + 1) <= s <= |all| ensures Balance(all[s..]) <= c' {
      if s <= |probes| {
        assert Balance(probes[s..]) <= c;
      }
    }
    var s :| |probes| - k <= s <= |probes| && Balance(probes[s..]) == c;
    assert Balance(all[if c' == 0 && !last.error then |all| else s..]) == c';
  }

  /** What the counters of a tracked device mean, in terms of its probes. */
  ghost predicate Closed(probes: seq<Probe>, s: Tracked, cfg: Settings) {
    && TrailingFailures(probes, s.failures)
    && (s.online <==> s.failures < Max(cfg.confirmations, 1))
    && BestSuffix(probes, s.failures, s.circuitFailures)
  }

  lemma ClosedExtends(probes: seq<Probe>, s: Tracked, last: Probe, cfg: Settings)
    requires Closed(probes, s, cfg)
    ensures Closed(probes + [last], Step(s, last, cfg), cfg)
  {
    var all := probes + [last];
    assert all[|probes|] == last && forall i :: 0 <= i < |probes| ==> all[i] == probes[i];
    assert Balance(all[|all|..]) == 0 && Balance(probes[|probes|..]) == 0;
    if last.Down? {
      assert s.circuitFailures >= 0;
      BestSuffixExtends(probes, last, s.failures, s.circuitFailures);
    }
  }

  /** Effectively online iff the trailing run of failures is shorter than the
      confirmations asked for; the circuit counter is the best error balance of
      any suffix of that run. */
  lemma {:induction false} ClosedForm(probes: seq<Probe>, cfg: Settings)
    ensures var s := Track(probes, cfg);
            && TrailingFailures(probes, s.failures)
            && (s.online <==> s.failures < Max(cfg.confirmations, 1))
            && BestSuffix(probes, s.failures, s.circuitFailures)
  {
    if probes == [] {
      assert Balance(probes[0..]) == 0;
    } else {
      hide BestSuffix, TrailingFailures, Step;
      var init, last := probes[..|probes| - 1], probes[|probes| - 1];
      ClosedForm(init, cfg);
      assert probes == init + [last];
      ClosedExtends(init, Track(init, cfg), last, cfg);
    }
  }

  // ----- The stored hash -----

  /** HSET keeps a key's expiry; a key it creates has none until EXPIRE. */
  datatype Hash = Hash(failures: int, circuitFailures: int, openUntil: int, expiresAt: Option<int>)

  /** Where a Redis error strikes one apply_poll_outcome. */
  datatype Fault = Healthy | ReadFails | WriteFails | ExpireFails

  function Present(h: Option<Hash>, now: int): Option<Hash> {
    if h.Some? && h.value.expiresAt.Some? && h.value.expiresAt.value <= now then None else h
  }

  function IsOpen(h: Option<Hash>, now: int): bool {
    var p := Present(h, now);
    p.Some? && p.value.openUntil > now
  }

  function Outcome(h: Option<Hash>, now: int, previousOnline: bool, probe: Probe, cfg: Settings,
                   fault: Fault): Decision {
    var p := if fault == ReadFails then None else Present(h, now);
    var (f, c) := if p.Some? then (p.value.failures, p.value.circuitFailures) else (0, 0);
    Decide(previousOnline, probe.Up?, probe.Down? && probe.error, f, c, cfg)
  }

  function OpenWindow(circuitFailures: int, cfg: Settings): int {
    CircuitOpenSeconds(circuitFailures, cfg.threshold, Max(cfg.openSeconds, 5), cfg.maxOpenSeconds)
  }

  function StateTtl(d: Decision, cfg: Settings): int {
    var ttl := Max(cfg.stateTtl, 300);
    if d.event == CircuitOpened then Max(ttl, OpenWindow(d.circuitFailures, cfg) + 60) else ttl
  }

  function AfterOutcome(h: Option<Hash>, now: int, previousOnline: bool, probe: Probe, cfg: Settings,
                        fault: Fault): Option<Hash> {
    if fault == ReadFails || fault == WriteFails then h
    else
      var d := Outcome(h, now, previousOnline, probe, cfg, fault);
      var p := Present(h, now);
      var openUntil := if d.event == CircuitOpened then now + OpenWindow(d.circuitFailures, cfg)
                       else if probe.Up? then 0
                       else if p.Some? then p.value.openUntil else 0;
      var expiresAt := if fault != ExpireFails then Some(now + StateTtl(d, cfg))
                       else if p.Some? then p.value.expiresAt else None;
      Some(Hash(d.failures, d.circuitFailures, openUntil, expiresAt))
  }

  /** The counters one poll goes by: none if the read fails, or the state is missing or has expired. */
  function Known(h: Option<Hash>, now: int, fault: Fault): (int, int) {
    if fault == ReadFails || h.None? || (h.value.expiresAt.Some? && h.value.expiresAt.value <= now) then (0, 0)
    else (h.value.failures, h.value.circuitFailures)
  }

  /** The verdict of one poll, from the stored failures, the flag before and the probe: online if
      the probe was, or if the device was and this failure does not complete the confirmations.
      When the read fails, this one failure is all there is to go by. */
  lemma VerdictMeaning(h: Option<Hash>, now: int, previousOnline: bool, probe: Probe, cfg: Settings, fault: Fault)
    ensures Outcome(h, now, previousOnline, probe, cfg, fault).effectiveOnline <==>
            probe.Up? || (previousOnline && Known(h, now, fault).0 + 1 < Max(cfg.confirmations, 1))
    ensures fault == ReadFails ==>
              (Outcome(h, now, previousOnline, probe, cfg, fault).effectiveOnline <==>
               probe.Up? || (previousOnline && 2 <= cfg.confirmations))
  {
  }

  /** The event one poll is counted under. */
  lemma EventMeaning(previousOnline: bool, probe: Probe, failures: int, circuitFailures: int, cfg: Settings)
    ensures var d := Decide(previousOnline, probe.Up?, probe.Down? && probe.error, failures, circuitFailures, cfg);
            match d.event
            case Recovered => probe.Up? && !(failures <= 0 && circuitFailures <= 0)
            case Online => probe.Up? && failures <= 0 && circuitFailures <= 0
            case OfflinePending => probe.Down? && d.effectiveOnline
            case OfflineConfirmed =>
              probe.Down? && !d.effectiveOnline && !(d.circuitFailures >= 1 && d.circuitFailures >= cfg.threshold)
            case CircuitOpened =>
              probe.Down? && !d.effectiveOnline && d.circuitFailures >= 1 && d.circuitFailures >= cfg.threshold
  {
  }

  /** What one poll leaves in Redis. Nothing changes if the read or the write fails. Otherwise a
      success clears all; a failure counts one up, and the circuit counter up for an error and down,
      to zero, for a plain failure. If that leaves the device offline and the counter at the
      threshold, the circuit is open for the base window, doubled for every failure past the
      threshold - twenty times at most - within the cap, and the state lives a minute longer than
      that; a lost EXPIRE keeps the old expiry. */
  lemma StoredMeaning(h: Option<Hash>, now: int, previousOnline: bool, probe: Probe, cfg: Settings, fault: Fault)
    ensures fault == ReadFails || fault == WriteFails ==>
              AfterOutcome(h, now, previousOnline, probe, cfg, fault) == h
    ensures fault == Healthy || fault == ExpireFails ==>
      var (f, c), h' := Known(h, now, fault), AfterOutcome(h, now, previousOnline, probe, cfg, fault);
      var gone := h.None? || (h.value.expiresAt.Some? && h.value.expiresAt.value <= now);
      var base := if cfg.openSeconds < 5 then 5 else cfg.openSeconds;
      var ttl := if cfg.stateTtl < 300 then 300 else cfg.stateTtl;
      && h'.Some?
      && h'.value.failures == (if probe.Up? then 0 else f + 1)
      && h'.value.circuitFailures ==
         (if probe.Up? then 0 else if probe.error then c + 1 else if c > 0 then c - 1 else c)
      && var c' := h'.value.circuitFailures;
         var offline := probe.Down? && !(previousOnline && f + 1 < Max(cfg.confirmations, 1));
         var opens := offline && c' >= 1 && c' >= cfg.threshold;
         var window := Min(base * Pow2(Min(Max(c' - Max(cfg.threshold, 1), 0), 20)), Max(cfg.maxOpenSeconds, base));
         && h'.value.openUntil ==
            (if opens then now + window else if probe.Up? || gone then 0 else h.value.openUntil)
         && h'.value.expiresAt ==
            (if fault == ExpireFails then (if gone then None else h.value.expiresAt)
             else Some(now + if opens then Max(ttl, window + 60) else ttl))
  {
    hide Pow2;
  }

  datatype Entity = Entity(kind: string, id: string)

  class ResilienceStore {
    var now: int
    var hashes: map<Entity, Hash>

    constructor (now: int)
      ensures this.now == now && hashes == map[]
    {
      this.now := now;
      hashes := map[];
    }

    function At(e: Entity): Option<Hash>
      reads this
    {
      if e in hashes then Some(hashes[e]) else None
    }

    /** Fails open: without state there is no circuit. */
    method IsCircuitOpen(e: Entity, redisDown: bool) returns (open: bool)
      ensures open == (!redisDown && IsOpen(At(e), now))
      ensures open <==>
        && !redisDown && e in hashes && now < hashes[e].openUntil
        && (hashes[e].expiresAt.Some? ==> now < hashes[e].expiresAt.value)
    {
      if redisDown {
        return false;
      }
      var p := Present(At(e), now);
      var openUntil := if p.Some? then p.value.openUntil else 0;
      open := p.Some? && openUntil > now;
    }

    method ApplyPollOutcome(e: Entity, previousOnline: bool, probe: Probe, cfg: Settings, fault: Fault)
      returns (online: bool)
      modifies this`hashes
      ensures online == Outcome(old(At(e)), now, previousOnline, probe, cfg, fault).effectiveOnline
      ensures At(e) == AfterOutcome(old(At(e)), now, previousOnline, probe, cfg, fault)
      ensures forall other :: other != e ==> At(other) == old(At(other))
    {
      hide Decide, CircuitOpenSeconds;
      var ttl := Max(cfg.stateTtl, 300);
      var failures, circuitFailures := 0, 0;
      var p := Present(At(e), now);
      if fault != ReadFails && p.Some? {
        failures, circuitFailures := p.value.failures, p.value.circuitFailures;
      }
      var d := Decide(previousOnline, probe.Up?, probe.Down? && probe.error, failures, circuitFailures, cfg);
      online := d.effectiveOnline;
      if fault == ReadFails {
        return;
      }
      var openUntil := if p.Some? then p.value.openUntil else 0;
      if d.event == CircuitOpened {
        var openSeconds := CircuitOpenSeconds(d.circuitFailures, cfg.threshold, Max(cfg.openSeconds, 5),
          cfg.maxOpenSeconds);
        openUntil := now + openSeconds;
        ttl := Max(ttl, openSeconds + 60);
      } else if probe.Up? {
        openUntil := 0;
      }
      if fault != WriteFails {
        var expiresAt := if p.Some? then p.value.expiresAt else None;
        hashes := hashes[e := Hash(d.failures, d.circuitFailures, openUntil, expiresAt)];
        if fault != ExpireFails {
          hashes := hashes[e := hashes[e].(expiresAt := Some(now + ttl))];
        }
      }
    }
  }

  function Base(cfg: Settings): int { Max(cfg.openSeconds, 5) }

  // ----- Runs of the stored machine -----

  datatype Poll = Poll(at: int, probe: Probe)

  datatype Device = Device(hash: Option<Hash>, online: bool)

  function PollDevice(d: Device, poll: Poll, cfg: Settings): Device {
    Device(AfterOutcome(d.hash, poll.at, d.online, poll.probe, cfg, Healthy),
           Outcome(d.hash, poll.at, d.online, poll.probe, cfg, Healthy).effectiveOnline)
  }

  /** The device before poll k, from no stored state. */
  function Before(online: bool, polls: seq<Poll>, k: nat, cfg: Settings): Device
    requires k <= |polls|
  {
    if k == 0 then Device(None, online) else PollDevice(Before(online, polls, k - 1, cfg), polls[k - 1], cfg)
  }

  predicate Ordered(polls: seq<Poll>) {
    forall k :: 0 < k < |polls| ==> polls[k - 1].at <= polls[k].at
  }

  /** Every poll comes before the state left by the previous one expires. */
  predicate Timely(online: bool, polls: seq<Poll>, cfg: Settings) {
    && Ordered(polls)
    && (forall k :: 0 <= k < |polls| ==>
          Present(Before(online, polls, k, cfg).hash, polls[k].at) == Before(online, polls, k, cfg).hash)
  }

  /** Every poll was let through by is_circuit_open. */
  predicate Gated(online: bool, polls: seq<Poll>, cfg: Settings) {
    forall k :: 0 <= k < |polls| ==> !IsOpen(Before(online, polls, k, cfg).hash, polls[k].at)
  }

  function Probes(polls: seq<Poll>): seq<Probe> {
    seq(|polls|, i requires 0 <= i < |polls| => polls[i].probe)
  }

  /** The stored device and the tracked one agree on everything the decision reads. */
  predicate Agree(d: Device, s: Tracked) {
    && d.online == s.online
    && (if d.hash.None? then s.failures == 0 && s.circuitFailures == 0
        else d.hash.value.failures == s.failures && d.hash.value.circuitFailures == s.circuitFailures)
  }

  lemma PollIsStep(d: Device, s: Tracked, poll: Poll, cfg: Settings)
    requires Agree(d, s) && Present(d.hash, poll.at) == d.hash
    ensures Agree(PollDevice(d, poll, cfg), Step(s, poll.probe, cfg))
  {
  }

  lemma StartAgrees(polls: seq<Poll>, cfg: Settings)
    ensures Agree(Before(true, polls, 0, cfg), Track(Probes(polls[..0]), cfg))
  {
  }

  lemma ProbesSnoc(polls: seq<Poll>, k: nat)
    requires 0 < k <= |polls|
    ensures var ps := Probes(polls[..k]);
            |ps| == k && ps[..k - 1] == Probes(polls[..k - 1]) && ps[k - 1] == polls[k - 1].probe
  {
  }

  /** As long as the state does not expire, the stored machine is the tracked one. */
  lemma {:induction false} StoredRunIsTracked(polls: seq<Poll>, k: nat, cfg: Settings)
    requires Timely(true, polls, cfg) && k <= |polls|
    ensures Agree(Before(true, polls, k, cfg), Track(Probes(polls[..k]), cfg))
  {
    hide PollDevice, Step, Probes, Agree, Present;
    assert k == 0 ==> Agree(Before(true, polls, k, cfg), Track(Probes(polls[..k]), cfg)) by { StartAgrees(polls, cfg); }
    if k > 0 {
      StoredRunIsTracked(polls, k - 1, cfg);
      ProbesSnoc(polls, k);
      var d := Before(true, polls, k - 1, cfg);
      assert Present(d.hash, polls[k - 1].at) == d.hash;
      PollIsStep(d, Track(Probes(polls[..k - 1]), cfg), polls[k - 1], cfg);
    }
  }

  // ----- How long an open circuit stays on record -----

  /** The state is kept for at least a minute past an open circuit's deadline, or for good. */
  predicate OutlivesCircuit(h: Option<Hash>, now: int) {
    h.Some? && h.value.openUntil > now ==> h.value.expiresAt.None? || h.value.expiresAt.value >= h.value.openUntil + 60
  }

  /** Polls in order, stamped with the seconds of a Unix clock. */
  predicate Clocked(polls: seq<Poll>) {
    Ordered(polls) && (polls != [] ==> polls[0].at >= 0)
  }

  predicate KeepsMargin(online: bool, polls: seq<Poll>, cfg: Settings) {
    forall k :: 0 < k <= |polls| ==> OutlivesCircuit(Before(online, polls, k, cfg).hash, polls[k - 1].at)
  }

  lemma GatedPollKeepsMargin(h: Option<Hash>, now: int, online: bool, probe: Probe, cfg: Settings)
    requires !IsOpen(h, now) && now >= 0
    ensures OutlivesCircuit(AfterOutcome(h, now, online, probe, cfg, Healthy), now)
  {
  }

  lemma {:induction false} ClockedFromZero(polls: seq<Poll>, k: nat)
    requires Clocked(polls) && k < |polls|
    ensures polls[k].at >= 0
  {
    if k > 0 {
      ClockedFromZero(polls, k - 1);
    }
  }

  /** The gate alone is enough, whatever the settings. */
  lemma GatedRunKeepsMargin(online: bool, polls: seq<Poll>, cfg: Settings)
    requires Clocked(polls) && Gated(online, polls, cfg)
    ensures KeepsMargin(online, polls, cfg)
  {
    hide AfterOutcome, Outcome, OutlivesCircuit, IsOpen;
    forall k | 0 < k <= |polls|
      ensures OutlivesCircuit(Before(online, polls, k, cfg).hash, polls[k - 1].at)
    {
      var d, poll := Before(online, polls, k - 1, cfg), polls[k - 1];
      ClockedFromZero(polls, k - 1);
      GatedPollKeepsMargin(d.hash, poll.at, d.online, poll.probe, cfg);
    }
  }

  /** Poll k - 1 opened the circuit. */
  predicate Opened(online: bool, polls: seq<Poll>, k: nat, cfg: Settings)
    requires 0 < k <= |polls|
  {
    var d := Before(online, polls, k - 1, cfg);
    Outcome(d.hash, polls[k - 1].at, d.online, polls[k - 1].probe, cfg, Healthy).event == CircuitOpened
  }

  /** The window the poll that opened the circuit asked for. */
  function WindowOf(online: bool, polls: seq<Poll>, k: nat, cfg: Settings): int
    requires 0 < k <= |polls|
  {
    OpenWindow(Before(online, polls, k, cfg).hash.value.circuitFailures, cfg)
  }

  /** An open circuit is honoured for the whole of its window: the gate reads it as open at
      every second of it, so a gated run does not poll again before the window is over. */
  lemma OpenCircuitIsHonoured(online: bool, polls: seq<Poll>, k: nat, cfg: Settings, t: int)
    requires Clocked(polls) && Gated(online, polls, cfg) && 0 < k <= |polls| && Opened(online, polls, k, cfg)
    ensures polls[k - 1].at <= t < polls[k - 1].at + WindowOf(online, polls, k, cfg) ==>
              IsOpen(Before(online, polls, k, cfg).hash, t)
    ensures k < |polls| ==> polls[k].at >= polls[k - 1].at + WindowOf(online, polls, k, cfg)
  {
    hide Decide, CircuitOpenSeconds;
    GatedRunKeepsMargin(online, polls, cfg);
    var h, at := Before(online, polls, k, cfg).hash, polls[k - 1].at;
    assert h.Some? && h.value.openUntil == at + WindowOf(online, polls, k, cfg);
    assert OutlivesCircuit(h, at);
    assert forall u :: at <= u < h.value.openUntil ==> IsOpen(h, u);
    if k < |polls| {
      assert at <= polls[k].at && !IsOpen(h, polls[k].at);
    }
  }

  // ----- Polling without the gate -----

  /** A device still taken for online has no open circuit; one that fell below the threshold
      was opened at most the base window ago; at or above it the margin was just renewed. */
  predicate Ungated(d: Device, at: int, cfg: Settings) {
    d.hash.Some? ==>
      var h := d.hash.value;
      && (d.online ==> h.openUntil <= 0)
      && h.circuitFailures >= 0
      && (h.circuitFailures < Max(cfg.threshold, 1) ==> h.openUntil <= at + Base(cfg))
      && h.expiresAt.Some? && h.expiresAt.value >= at + Max(cfg.stateTtl, 300)
      && (h.circuitFailures >= Max(cfg.threshold, 1) && h.openUntil > at ==> h.expiresAt.value >= h.openUntil + 60)
  }

  lemma BaseWindow(c: int, cfg: Settings)
    requires c == Max(cfg.threshold, 1)
    ensures OpenWindow(c, cfg) == Base(cfg)
  {
    assert Pow2(0) == 1;
  }

  /** Where the counter stands exactly at the threshold, the window last opened is the base one. */
  predicate AtThreshold(d: Device, at: int, cfg: Settings) {
    d.hash.Some? && d.hash.value.circuitFailures == Max(cfg.threshold, 1) ==> d.hash.value.openUntil <= at + Base(cfg)
  }

  lemma UngatedPoll(d: Device, last: int, poll: Poll, cfg: Settings)
    requires Ungated(d, last, cfg) && AtThreshold(d, last, cfg) && last <= poll.at && poll.at >= 0
    ensures Ungated(PollDevice(d, poll, cfg), poll.at, cfg) && AtThreshold(PollDevice(d, poll, cfg), poll.at, cfg)
  {
    hide CircuitOpenSeconds;
    BaseWindow(Max(cfg.threshold, 1), cfg);
    hide OpenWindow;
  }

  lemma {:induction false} UngatedRun(online: bool, polls: seq<Poll>, k: nat, cfg: Settings)
    requires Clocked(polls) && 0 < k <= |polls|
    ensures var d := Before(online, polls, k, cfg);
            Ungated(d, polls[k - 1].at, cfg) && AtThreshold(d, polls[k - 1].at, cfg)
  {
    hide PollDevice, Ungated, AtThreshold;
    var d, poll := Before(online, polls, k - 1, cfg), polls[k - 1];
    ClockedFromZero(polls, k - 1);
    if k == 1 {
      NoStateIsUngated(online, poll.at, cfg);
      UngatedPoll(d, poll.at, poll, cfg);
    } else {
      UngatedRun(online, polls, k - 1, cfg);
      UngatedPoll(d, polls[k - 2].at, poll, cfg);
    }
  }

  lemma NoStateIsUngated(online: bool, at: int, cfg: Settings)
    ensures Ungated(Device(None, online), at, cfg) && AtThreshold(Device(None, online), at, cfg)
  {
  }

  /** The opening run: plain failures until the device is confirmed offline, then errors up to
      the threshold, all within one second; then `tail`. */
  function OpeningPoll(i: nat, cfg: Settings): Poll {
    Poll(0, Down(i >= Max(cfg.confirmations, 1)))
  }

  function OpeningRun(n: nat, cfg: Settings): (polls: seq<Poll>)
    ensures |polls| == n
  {
    seq(n, i requires 0 <= i < n => OpeningPoll(i, cfg))
  }

  lemma {:induction false} OpeningCounts(online: bool, polls: seq<Poll>, k: nat, cfg: Settings)
    requires k <= |polls| && k <= Max(cfg.confirmations, 1) + Max(cfg.threshold, 1)
    requires forall i :: 0 <= i < k ==> polls[i] == OpeningPoll(i, cfg)
    ensures var d, c := Before(online, polls, k, cfg), Max(k - Max(cfg.confirmations, 1), 0);
            && (k >= Max(cfg.confirmations, 1) ==> !d.online)
            && (if k == 0 then d.hash.None?
                else
                  && d.hash.Some? && d.hash.value.failures == k && d.hash.value.circuitFailures == c
                  && d.hash.value.openUntil == (if c == Max(cfg.threshold, 1) then Base(cfg) else 0)
                  && d.hash.value.expiresAt.Some? && d.hash.value.expiresAt.value >= 300)
  {
    if k > 0 {
      OpeningCounts(online, polls, k - 1, cfg);
      BaseWindow(Max(cfg.threshold, 1), cfg);
      hide OpenWindow;
    }
  }

  /** One plain failure after the circuit opened at the threshold: the counter drops below it,
      the deadline stays and the expiry falls back to the plain TTL. */
  lemma ShortenedByPlainFailure(online: bool, cfg: Settings) returns (polls: seq<Poll>)
    ensures Clocked(polls) && polls != []
    ensures var h := Before(online, polls, |polls|, cfg).hash;
            h.Some? && h.value.openUntil == Base(cfg) && h.value.expiresAt == Some(Max(cfg.stateTtl, 300)) &&
            polls[|polls| - 1].at == 0
  {
    var n := Max(cfg.confirmations, 1) + Max(cfg.threshold, 1);
    polls := OpeningRun(n, cfg) + [Poll(0, Down(false))];
    OpeningCounts(online, polls, n, cfg);
    hide OpenWindow;
    assert Before(online, polls, n + 1, cfg) == PollDevice(Before(online, polls, n, cfg), Poll(0, Down(false)), cfg);
  }

  /** Without the gate the margin depends on the settings: every run keeps it if and only if
      the plain TTL covers the base window and a minute. */
  lemma MarginWithoutGate(online: bool, cfg: Settings)
    ensures (forall polls :: Clocked(polls) ==> KeepsMargin(online, polls, cfg)) <==>
            Base(cfg) + 60 <= Max(cfg.stateTtl, 300)
  {
    hide Before;
    if Base(cfg) + 60 <= Max(cfg.stateTtl, 300) {
      forall polls: seq<Poll>, k | Clocked(polls) && 0 < k <= |polls|
        ensures OutlivesCircuit(Before(online, polls, k, cfg).hash, polls[k - 1].at)
      {
        UngatedRun(online, polls, k, cfg);
      }
    } else {
      var polls := ShortenedByPlainFailure(online, cfg);
      assert !OutlivesCircuit(Before(online, polls, |polls|, cfg).hash, polls[|polls| - 1].at);
      assert !KeepsMargin(online, polls, cfg);
    }
  }

  // ----- A lost EXPIRE -----

  /** The hash after one more poll whose EXPIRE is lost. */
  function AfterLostExpire(online: bool, polls: seq<Poll>, last: Poll, cfg: Settings): Option<Hash> {
    var d := Before(online, polls, |polls|, cfg);
    AfterOutcome(d.hash, last.at, d.online, last.probe, cfg, ExpireFails)
  }

  /** A poll that opens the circuit and loses its EXPIRE leaves the expiry the poll before it
      set: the margin holds if and only if that one happens to be far enough ahead. */
  lemma LostExpireKeepsMarginIff(online: bool, polls: seq<Poll>, last: Poll, cfg: Settings)
    requires Clocked(polls + [last]) && Gated(online, polls + [last], cfg)
    requires Opened(online, polls + [last], |polls| + 1, cfg)
    ensures OutlivesCircuit(AfterLostExpire(online, polls, last, cfg), last.at) <==>
            var p := Present(Before(online, polls, |polls|, cfg).hash, last.at);
            p.None? || p.value.expiresAt.None? ||
            p.value.expiresAt.value >= last.at + WindowOf(online, polls + [last], |polls| + 1, cfg) + 60
  {
    hide Decide, CircuitOpenSeconds;
    SamePrefix(online, polls, last, |polls|, cfg);
    ClockedFromZero(polls + [last], |polls|);
    assert OpenWindow(AfterLostExpire(online, polls, last, cfg).value.circuitFailures, cfg) ==
           WindowOf(online, polls + [last], |polls| + 1, cfg);
    WindowIsPositive(AfterLostExpire(online, polls, last, cfg).value.circuitFailures, cfg);
  }

  lemma WindowIsPositive(c: int, cfg: Settings)
    ensures OpenWindow(c, cfg) >= 5
  {
    var e := Min(Max(c - Max(cfg.threshold, 1), 0), 20);
    MulLe(Base(cfg), 1, Pow2(e));
  }

  lemma {:induction false} SamePrefix(online: bool, polls: seq<Poll>, last: Poll, k: nat, cfg: Settings)
    requires k <= |polls|
    ensures Before(online, polls + [last], k, cfg) == Before(online, polls, k, cfg)
  {
    if k > 0 {
      SamePrefix(online, polls, last, k - 1, cfg);
    }
  }

  /** Whatever the settings, some gated run is caught by it: the circuit opens in the last
      second of the state's life and the state is gone a second later. */
  lemma ExpireIsNeeded(online: bool, cfg: Settings) returns (polls: seq<Poll>, last: Poll)
    ensures Clocked(polls + [last]) && Gated(online, polls + [last], cfg)
    ensures Opened(online, polls + [last], |polls| + 1, cfg)
    ensures !OutlivesCircuit(AfterLostExpire(online, polls, last, cfg), last.at)
  {
    var n := Max(cfg.confirmations, 1) + Max(cfg.threshold, 1) - 1;
    polls := OpeningRun(n, cfg);
    OpeningCounts(online, polls, n, cfg);
    var h := Before(online, polls, n, cfg).hash;
    last := Poll(h.value.expiresAt.value - 1, Down(true));
    var all := polls + [last];
    forall k | 0 <= k < |all|
      ensures !IsOpen(Before(online, all, k, cfg).hash, all[k].at)
    {
      SamePrefix(online, polls, last, k, cfg);
      OpeningCounts(online, polls, k, cfg);
    }
    SamePrefix(online, polls, last, n, cfg);
    hide OpenWindow;
    LostExpireKeepsMarginIff(online, polls, last, cfg);
    WindowIsPositive(Before(online, all, n + 1, cfg).hash.value.circuitFailures, cfg);
  }

  // ----- How often a dead device is attempted -----

  /** The longest open window: the configured cap, unless the exponent clamp bites first. */
  function Cap(cfg: Settings): (c: int)
    ensures c >= Base(cfg) >= 5 && c <= Base(cfg) * Pow2(20)
  {
    Pow2Monotone(0, 20);
    assert Base(cfg) * 1 <= Base(cfg) * Pow2(20);
    Min(Base(cfg) * Pow2(20), Max(cfg.maxOpenSeconds, Base(cfg)))
  }

  /** Polls before the breaker can open: the later of its two thresholds. */
  function Patience(cfg: Settings): (k: int)
    ensures k >= 1
  {
    Max(Max(cfg.threshold, 1), Max(cfg.confirmations, 1))
  }

  lemma {:induction false} Pow2Monotone(m: nat, n: nat)
    requires m <= n
    ensures Pow2(m) <= Pow2(n)
    decreases n
  {
    if m < n {
      Pow2Monotone(m, n - 1);
    }
  }

  /** ceil(log2(cap / base)): the fewest doublings of `base` from `from` on that reach `cap`. */
  function Doublings(base: int, cap: int, from: nat): (n: nat)
    requires base >= 1 && from <= 20 && cap <= base * Pow2(20)
    ensures from <= n <= 20 && base * Pow2(n) >= cap
    ensures forall m :: from <= m < n ==> base * Pow2(m) < cap
    decreases 20 - from
  {
    if base * Pow2(from) >= cap then from else Doublings(base, cap, from + 1)
  }

  /** The clamp of the exponent at 20 is invisible exactly when the cap is within 20 doublings. */
  lemma ClampIsInvisible(threshold: int, base: int, maxSeconds: int)
    requires base >= 1
    ensures (forall c: int :: CircuitOpenSeconds(c, threshold, base, maxSeconds) ==
                              Min(base * Pow2(Max(c - Max(threshold, 1), 0)), Max(maxSeconds, base)))
            <==> Max(maxSeconds, base) <= base * Pow2(20)
  {
    var cap := Max(maxSeconds, base);
    if cap <= base * Pow2(20) {
      hide Pow2;
      forall c: int
        ensures CircuitOpenSeconds(c, threshold, base, maxSeconds) ==
                Min(base * Pow2(Max(c - Max(threshold, 1), 0)), cap)
      {
        var overshoot := Max(c - Max(threshold, 1), 0);
        if overshoot > 20 {
          Pow2Monotone(20, overshoot);
          MulLe(base, Pow2(20), Pow2(overshoot));
        }
      }
    } else {
      ClampShows(threshold, base, maxSeconds, Max(threshold, 1) + 21);
    }
  }

  lemma DoublingGrows(base: int, n: nat)
    requires base >= 1
    ensures base * Pow2(n + 1) > base * Pow2(n)
  {
    var p := Pow2(n);
    assert Pow2(n + 1) == p + p;
    assert base * (p + p) == base * p + base * p;
    MulLe(p, 1, base);
  }

  /** One failure past the clamp, a larger cap would have been used. */
  lemma ClampShows(threshold: int, base: int, maxSeconds: int, c: int)
    requires base >= 1 && c == Max(threshold, 1) + 21
    requires Max(maxSeconds, base) > base * Pow2(20)
    ensures CircuitOpenSeconds(c, threshold, base, maxSeconds) !=
            Min(base * Pow2(Max(c - Max(threshold, 1), 0)), Max(maxSeconds, base))
  {
    hide Pow2;
    DoublingGrows(base, 20);
  }

  /** Past the threshold by `Doublings` failures, the window is the cap. */
  lemma WindowReachesCap(cfg: Settings, c: int)
    requires c >= Max(cfg.threshold, 1) + Doublings(Base(cfg), Cap(cfg), 0)
    ensures OpenWindow(c, cfg) == Cap(cfg)
  {
    hide Pow2;
    var base, n := Base(cfg), Doublings(Base(cfg), Cap(cfg), 0);
    var exponent := Min(Max(c - Max(cfg.threshold, 1), 0), 20);
    Pow2Monotone(n, exponent);
    Pow2Monotone(exponent, 20);
    MulLe(base, Pow2(n), Pow2(exponent));
    MulLe(base, Pow2(exponent), Pow2(20));
  }

  predicate AllErrors(polls: seq<Poll>) {
    forall k :: 0 <= k < |polls| ==> polls[k].probe == Down(true)
  }

  lemma {:induction false} ErrorsAccumulate(online: bool, polls: seq<Poll>, k: nat, cfg: Settings)
    requires AllErrors(polls) && Timely(online, polls, cfg) && 1 <= k <= |polls|
    ensures var d := Before(online, polls, k, cfg);
            && d.hash.Some? && d.hash.value.failures == k && d.hash.value.circuitFailures == k
            && (d.online ==> k < Max(cfg.confirmations, 1))
            && (k >= Patience(cfg) ==> d.hash.value.openUntil == polls[k - 1].at + OpenWindow(k, cfg))
  {
    var prior := Before(online, polls, k - 1, cfg);
    assert Present(prior.hash, polls[k - 1].at) == prior.hash;
    if k > 1 {
      ErrorsAccumulate(online, polls, k - 1, cfg);
    }
  }

  lemma AttemptsAreSpaced(online: bool, polls: seq<Poll>, k: nat, cfg: Settings)
    requires AllErrors(polls) && Timely(online, polls, cfg) && Gated(online, polls, cfg)
    requires Patience(cfg) + Doublings(Base(cfg), Cap(cfg), 0) <= k < |polls|
    ensures polls[k].at >= polls[k - 1].at + Cap(cfg)
  {
    ErrorsAccumulate(online, polls, k, cfg);
    WindowReachesCap(cfg, k);
    assert !IsOpen(Before(online, polls, k, cfg).hash, polls[k].at);
    assert Present(Before(online, polls, k, cfg).hash, polls[k].at) == Before(online, polls, k, cfg).hash;
  }

  lemma {:induction false} SpacingAdds(polls: seq<Poll>, a: nat, b: nat, gap: int)
    requires a <= b < |polls|
    requires forall k :: a < k <= b ==> polls[k].at >= polls[k - 1].at + gap
    ensures polls[b].at - polls[a].at >= (b - a) * gap
    decreases b
  {
    if a < b {
      SpacingAdds(polls, a, b - 1, gap);
      assert (b - a) * gap == (b - 1 - a) * gap + gap;
    }
  }

  lemma CountFits(n: nat, cap: int, window: nat)
    requires cap >= 1 && n * cap <= window
    ensures n <= window / cap
  {
    assert cap * (window / cap) + window % cap == window;
    assert cap * (window / cap + 1) == cap * (window / cap) + cap;
    if n > window / cap {
      MulLe(cap, window / cap + 1, n);
    }
  }

  /** Attempts that are `gap` apart from index `settled` on are few in any window. */
  lemma SpacedAttemptsAreFew(polls: seq<Poll>, a: nat, b: nat, window: nat, settled: nat, gap: int)
    requires Ordered(polls) && gap >= 1
    requires forall k :: settled < k < |polls| ==> polls[k].at >= polls[k - 1].at + gap
    requires a <= b < |polls| && polls[b].at - polls[a].at <= window
    ensures b - a + 1 <= settled + 1 + window / gap
  {
    var from := Max(a, settled);
    if from <= b {
      SpacingAdds(polls, from, b, gap);
      SpacingAdds(polls, a, from, 0);
      CountFits(b - from, gap, window);
    } else {
      CountFits(0, gap, window);
    }
  }

  /** A device whose every probe errors is attempted at most
      K + ceil(log2(cap / base)) + T / cap times in any window of T seconds. */
  lemma AttemptsAreBounded(online: bool, polls: seq<Poll>, a: nat, b: nat, window: nat, cfg: Settings)
    requires AllErrors(polls) && Timely(online, polls, cfg) && Gated(online, polls, cfg)
    requires a <= b < |polls| && polls[b].at - polls[a].at <= window
    ensures b - a + 1 <= Max(Max(cfg.threshold, 1), Max(cfg.confirmations, 1)) + Doublings(Base(cfg), Cap(cfg), 0)
                           + window / Cap(cfg)
  {
    assert Patience(cfg) == Max(Max(cfg.threshold, 1), Max(cfg.confirmations, 1));
    hide Cap, Doublings, Base, Patience, Pow2, Before;
    var settled := Patience(cfg) + Doublings(Base(cfg), Cap(cfg), 0) - 1;
    forall k | settled < k < |polls| ensures polls[k].at >= polls[k - 1].at + Cap(cfg) {
      AttemptsAreSpaced(online, polls, k, cfg);
    }
    SpacedAttemptsAreFew(polls, a, b, window, settled, Cap(cfg));
  }
}
