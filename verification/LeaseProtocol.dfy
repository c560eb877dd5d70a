/** The lease as a protocol: any number of deliveries of any tasks, on one Redis,
    interleaved with crashes, lost requests, lost replies, late marks and clock
    ticks. Each step performs exactly the script functions of SwitchLease. */
module LeaseProtocol {
  import opened Wrappers
  import opened RedisStore
  import opened SwitchLease

  /** Orphaned: the claim took effect but its reply was lost, so no task body runs. */
  datatype Phase = Working | Closed | Orphaned

  /** One effective claim of the lock, in the order the claims took effect. */
  datatype Run = Run(scope: string, switchId: string, cycleId: string, token: string,
                     acquiredAt: int, phase: Phase, markedAt: Option<int>)

  datatype World = World(now: int, store: Store<Key>, runs: seq<Run>, tokens: set<string>)

  /** The lock and dedup windows of each scope. */
  type Timings = string -> Timing

  datatype Step =
    | Tick(elapsed: nat)
    | Deliver(scope: string, switchId: string, cycleId: string, token: string, fault: Fault)
    | Finish(run: nat, fault: Fault)
    | LateMark(run: nat)
    | Crash(run: nat)

  /** Tokens are 24 random bytes: the model takes each delivery's token as new. */
  predicate Enabled(w: World, step: Step) {
    match step
    case Tick(_) => true
    case Deliver(_, _, _, token, _) => token !in w.tokens
    case Finish(i, _) => i < |w.runs| && w.runs[i].phase == Working
    case LateMark(i) => i < |w.runs| && w.runs[i].phase == Closed
    case Crash(i) => i < |w.runs| && w.runs[i].phase == Working
  }

  function LockOf(r: Run): Key { LockKey(r.scope, r.switchId) }

  function DoneOf(r: Run): Key { DoneKey(r.scope, r.switchId, r.cycleId) }

  function DeliverNext(w: World, t: Timings, scope: string, switchId: string, cycleId: string,
                       token: string, fault: Fault): World {
    var lock, done := LockKey(scope, switchId), DoneKey(scope, switchId, cycleId);
    var ttl := t(scope).lockSeconds;
    var w' := w.(tokens := w.tokens + {token});
    if fault == LostRequest || AcquireReply(w.store, w.now, lock, done, ttl) != Claimed then w'
    else w'.(store := AcquireStore(w.store, w.now, lock, done, token, ttl),
             runs := w.runs + [Run(scope, switchId, cycleId, token, w.now,
                                   if fault == LostReply then Orphaned else Working, None)])
  }

  /** The mark script of run `i` executing on Redis now. */
  function MarkNext(w: World, t: Timings, i: nat): World
    requires i < |w.runs|
  {
    var r := w.runs[i];
    var ttl := DedupSeconds(t(r.scope));
    if MarkApplies(w.store, w.now, LockOf(r), r.token, ttl) then
      w.(store := MarkStore(w.store, w.now, LockOf(r), DoneOf(r), r.token, ttl),
         runs := w.runs[i := r.(markedAt := Some(w.now))])
    else w
  }

  function CloseNext(w: World, i: nat): World
    requires i < |w.runs|
  {
    w.(runs := w.runs[i := w.runs[i].(phase := Closed)])
  }

  function Next(w: World, t: Timings, step: Step): World
    requires Enabled(w, step)
  {
    match step
    case Tick(d) => w.(now := w.now + d)
    case Deliver(sc, sw, c, token, fault) => DeliverNext(w, t, sc, sw, c, token, fault)
    case Finish(i, fault) => if fault == LostRequest then CloseNext(w, i) else MarkNext(CloseNext(w, i), t, i)
    case LateMark(i) => MarkNext(w, t, i)
    case Crash(i) => CloseNext(w, i)
  }

  /** w' is reached from w by the steps, each of them enabled when taken. */
  predicate Reaches(w: World, t: Timings, steps: seq<Step>, w': World)
    decreases |steps|
  {
    if steps == [] then w' == w
    else Enabled(w, steps[0]) && Reaches(Next(w, t, steps[0]), t, steps[1..], w')
  }

  /** What a delivery, a mark and a crash do here is what the lease's methods do to Redis: a
      claim whose reply was lost is stored but never worked on, a mark whose reply was lost
      counts, and a request that was lost changes nothing. */
  lemma StepsAreTheScripts(w: World, t: Timings, step: Step)
    requires Enabled(w, step)
    ensures var w' := Next(w, t, step);
            match step
            case Tick(d) => w'.now == w.now + d && w'.store == w.store && w'.runs == w.runs
            case Deliver(sc, sw, c, token, fault) =>
              var lock, done, ttl := LockKey(sc, sw), DoneKey(sc, sw, c), t(sc).lockSeconds;
              var claimed := fault != LostRequest && AcquireReply(w.store, w.now, lock, done, ttl) == Claimed;
              && w'.now == w.now
              && w'.store == (if fault == LostRequest then w.store
                              else AcquireStore(w.store, w.now, lock, done, token, ttl))
              && |w'.runs| == |w.runs| + (if claimed then 1 else 0) && w.runs <= w'.runs
              && (claimed ==>
                    var r := w'.runs[|w.runs|];
                    && LockOf(r) == lock && DoneOf(r) == done && r.token == token && r.acquiredAt == w.now
                    && r.markedAt == None && (r.phase == Working <==> fault == Healthy) && r.phase != Closed)
            case Finish(i, fault) =>
              && w'.now == w.now && w'.runs == w.runs[i := w'.runs[i]] && w'.runs[i].phase == Closed
              && (fault == LostRequest ==> w'.store == w.store && w'.runs[i].markedAt == w.runs[i].markedAt)
              && (fault != LostRequest ==> Marks(w, w', t, i))
            case LateMark(i) => w'.now == w.now && w'.runs == w.runs[i := w'.runs[i]] && Marks(w, w', t, i)
            case Crash(i) =>
              && w'.now == w.now && w'.store == w.store && w'.runs == w.runs[i := w'.runs[i]]
              && w'.runs[i].phase == Closed && w'.runs[i].markedAt == w.runs[i].markedAt
  {
  }

  /** The mark script has run for run i; it is on record exactly if the token still held the lock. */
  predicate Marks(w: World, w': World, t: Timings, i: nat)
    requires i < |w.runs| && i < |w'.runs|
  {
    var r, ttl := w.runs[i], DedupSeconds(t(w.runs[i].scope));
    && w'.store == MarkStore(w.store, w.now, LockOf(r), DoneOf(r), r.token, ttl)
    && w'.runs[i].markedAt ==
       if ttl > 0 && Get(w.store, LockOf(r), w.now) == Some(r.token) then Some(w.now) else r.markedAt
  }

  function Start(now: int): World { World(now, map[], [], {}) }

  // ----- Safety -----

  predicate SameSwitch(r: Run, s: Run) { r.scope == s.scope && r.switchId == s.switchId }

  predicate SameTask(r: Run, s: Run) { SameSwitch(r, s) && r.cycleId == s.cycleId }

  function LockEnd(t: Timings, r: Run): int { r.acquiredAt + t(r.scope).lockSeconds }

  function DedupEnd(t: Timings, r: Run): int
    requires r.markedAt.Some?
  {
    r.markedAt.value + if t(r.scope).dedupSeconds != 0 then t(r.scope).dedupSeconds else t(r.scope).defaultDedup
  }

  /** `later` may have claimed the same task after `earlier`. */
  predicate Separated(t: Timings, earlier: Run, later: Run) {
    match earlier.markedAt
    case Some(m) => later.acquiredAt >= DedupEnd(t, earlier)
    case None => later.acquiredAt >= LockEnd(t, earlier)
  }

  /** What Redis holds because of one run. */
  predicate RunHeld(w: World, t: Timings, r: Run) {
    && r.token in w.tokens
    && r.acquiredAt <= w.now
    && (match r.markedAt
        case None =>
          w.now < LockEnd(t, r) ==> LockOf(r) in w.store && w.store[LockOf(r)] == Entry(r.token, LockEnd(t, r))
        case Some(m) =>
          && r.phase == Closed && r.acquiredAt <= m <= w.now && m < DedupEnd(t, r)
          && (w.now < DedupEnd(t, r) ==> DoneOf(r) in w.store && DedupEnd(t, r) <= w.store[DoneOf(r)].expiresAt))
    && (LockOf(r) in w.store && w.store[LockOf(r)].value == r.token ==>
          r.markedAt.None? && w.store[LockOf(r)].expiresAt == LockEnd(t, r))
  }

  predicate Inv(w: World, t: Timings) {
    && (forall i :: 0 <= i < |w.runs| ==> RunHeld(w, t, w.runs[i]))
    && (forall i, j :: 0 <= i < j < |w.runs| ==> w.runs[i].token != w.runs[j].token)
    && (forall i, j :: 0 <= i < j < |w.runs| && SameTask(w.runs[i], w.runs[j]) ==>
          Separated(t, w.runs[i], w.runs[j]))
    && (forall i, j :: 0 <= i < j < |w.runs| && SameSwitch(w.runs[i], w.runs[j]) && w.runs[i].phase != Closed ==>
          w.runs[j].acquiredAt >= LockEnd(t, w.runs[i]))
  }

  /** A claim only succeeds where no earlier run's lock or marker is in force. */
  lemma ClaimSeparates(w: World, t: Timings, r: Run, sc: string, sw: string, c: string)
    requires RunHeld(w, t, r) && r.scope == sc && r.switchId == sw
    requires AcquireReply(w.store, w.now, LockKey(sc, sw), DoneKey(sc, sw, c), t(sc).lockSeconds) == Claimed
    ensures r.markedAt.None? ==> w.now >= LockEnd(t, r)
    ensures r.markedAt.Some? && r.cycleId == c ==> w.now >= DedupEnd(t, r)
  {
  }

  /** A new claim disturbs nothing Redis still holds because of another run. */
  lemma ClaimKeepsHeld(w: World, t: Timings, r: Run, sc: string, sw: string, c: string, token: string, fault: Fault)
    requires RunHeld(w, t, r) && token !in w.tokens
    ensures RunHeld(DeliverNext(w, t, sc, sw, c, token, fault), t, r)
  {
  }

  lemma DeliverKeepsInv(w: World, t: Timings, sc: string, sw: string, c: string, token: string, fault: Fault)
    requires Inv(w, t) && token !in w.tokens
    ensures Inv(DeliverNext(w, t, sc, sw, c, token, fault), t)
  {
    var w' := DeliverNext(w, t, sc, sw, c, token, fault);
    forall i | 0 <= i < |w.runs| ensures RunHeld(w', t, w.runs[i]) && w.runs[i].token != token {
      ClaimKeepsHeld(w, t, w.runs[i], sc, sw, c, token, fault);
    }
    if |w'.runs| > |w.runs| {
      var n := |w.runs|;
      assert RunHeld(w', t, w'.runs[n]);
      forall i | 0 <= i < n && SameSwitch(w.runs[i], w'.runs[n])
        ensures SameTask(w.runs[i], w'.runs[n]) ==> Separated(t, w.runs[i], w'.runs[n])
        ensures w.runs[i].phase != Closed ==> w'.runs[n].acquiredAt >= LockEnd(t, w.runs[i])
      {
        assert RunHeld(w, t, w.runs[i]);
        ClaimSeparates(w, t, w.runs[i], sc, sw, c);
      }
      assert forall i :: 0 <= i < n ==> w'.runs[i] == w.runs[i];
    }
  }

  lemma MarkKeepsInv(w: World, t: Timings, i: nat)
    requires Inv(w, t) && i < |w.runs| && w.runs[i].phase == Closed
    ensures Inv(MarkNext(w, t, i), t)
  {
    var r := w.runs[i];
    assert RunHeld(w, t, r);
    if MarkApplies(w.store, w.now, LockOf(r), r.token, DedupSeconds(t(r.scope))) {
      var w' := MarkNext(w, t, i);
      forall k | 0 <= k < |w.runs| ensures RunHeld(w', t, w'.runs[k]) {
        var s := w.runs[k];
        assert RunHeld(w, t, s);
      }
      // While r still holds the live lock, nobody can have claimed it since.
      assert forall b :: 0 <= b < |w.runs| ==> w.runs[b].acquiredAt <= w.now by {
        forall b | 0 <= b < |w.runs| ensures w.runs[b].acquiredAt <= w.now {
          assert RunHeld(w, t, w.runs[b]);
        }
      }
      forall a, b | 0 <= a < b < |w'.runs| && SameTask(w'.runs[a], w'.runs[b])
        ensures Separated(t, w'.runs[a], w'.runs[b])
      {
        assert Separated(t, w.runs[a], w.runs[b]);
      }
    }
  }

  lemma StepKeepsInv(w: World, t: Timings, step: Step)
    requires Inv(w, t) && Enabled(w, step)
    ensures Inv(Next(w, t, step), t)
  {
    match step
    case Tick(d) =>
      forall i | 0 <= i < |w.runs| ensures RunHeld(Next(w, t, step), t, w.runs[i]) {
        assert RunHeld(w, t, w.runs[i]);
      }
    case Deliver(sc, sw, c, token, fault) => DeliverKeepsInv(w, t, sc, sw, c, token, fault);
    case LateMark(i) => MarkKeepsInv(w, t, i);
    case Finish(i, fault) =>
      CloseKeepsInv(w, t, i);
      MarkKeepsInv(CloseNext(w, i), t, i);
    case Crash(i) => CloseKeepsInv(w, t, i);
  }

  lemma CloseKeepsInv(w: World, t: Timings, i: nat)
    requires Inv(w, t) && i < |w.runs|
    ensures Inv(CloseNext(w, i), t)
  {
    forall k | 0 <= k < |w.runs| ensures RunHeld(CloseNext(w, i), t, CloseNext(w, i).runs[k]) {
      assert RunHeld(w, t, w.runs[k]);
    }
  }

  lemma {:induction false} ReachableInv(w: World, t: Timings, steps: seq<Step>, w': World)
    requires Inv(w, t) && Reaches(w, t, steps, w')
    ensures Inv(w', t)
    decreases |steps|
  {
    if steps != [] {
      StepKeepsInv(w, t, steps[0]);
      ReachableInv(Next(w, t, steps[0]), t, steps[1..], w');
    }
  }

  /** At most once under redelivery: a second claim of the same (scope, switch,
      cycle) waits out the dedup window of the first one's mark or, if that mark
      never took effect, the whole lock window. */
  lemma AtMostOnce(now: int, t: Timings, steps: seq<Step>, w: World, i: nat, j: nat)
    requires Reaches(Start(now), t, steps, w)
    requires i < j < |w.runs| && SameTask(w.runs[i], w.runs[j])
    ensures match w.runs[i].markedAt
            case Some(m) =>
              var timing := t(w.runs[i].scope);
              w.runs[j].acquiredAt >= m + if timing.dedupSeconds == 0 then timing.defaultDedup else timing.dedupSeconds
            case None => w.runs[j].acquiredAt >= w.runs[i].acquiredAt + t(w.runs[i].scope).lockSeconds
  {
    ReachableInv(Start(now), t, steps, w);
    assert Separated(t, w.runs[i], w.runs[j]);
  }

  /** Two runs of one switch are only ever at work together if the first has
      outlived its lock; when none has, at most one is at work. */
  lemma MutualExclusion(now: int, t: Timings, steps: seq<Step>, w: World, i: nat, j: nat)
    requires Reaches(Start(now), t, steps, w)
    requires i < j < |w.runs| && SameSwitch(w.runs[i], w.runs[j])
    requires w.runs[i].phase == Working && w.runs[j].phase == Working
    ensures w.runs[i].acquiredAt + t(w.runs[i].scope).lockSeconds <= w.runs[j].acquiredAt <= w.now
  {
    ReachableInv(Start(now), t, steps, w);
    assert RunHeld(w, t, w.runs[j]);
  }

  /** A mark by a run that no longer holds the lock changes nothing; one by the
      holder removes only the holder's own lock and writes only its own marker. */
  lemma LateOwnerIsHarmless(now: int, t: Timings, steps: seq<Step>, w: World, i: nat)
    requires Reaches(Start(now), t, steps, w) && i < |w.runs|
    ensures w.now >= LockEnd(t, w.runs[i]) ==> MarkNext(w, t, i) == w
    ensures forall j :: 0 <= j < |w.runs| && j != i &&
                        Get(w.store, LockOf(w.runs[j]), w.now) == Some(w.runs[j].token) ==>
              Get(MarkNext(w, t, i).store, LockOf(w.runs[j]), w.now) == Some(w.runs[j].token)
    ensures forall key :: key in MarkNext(w, t, i).store && key != DoneOf(w.runs[i]) ==>
              key in w.store && MarkNext(w, t, i).store[key] == w.store[key]
  {
    ReachableInv(Start(now), t, steps, w);
    assert RunHeld(w, t, w.runs[i]);
    forall j | 0 <= j < |w.runs| && j != i && Get(w.store, LockOf(w.runs[j]), w.now) == Some(w.runs[j].token)
      ensures Get(MarkNext(w, t, i).store, LockOf(w.runs[j]), w.now) == Some(w.runs[j].token)
    {
      var r, s := w.runs[i], w.runs[j];
      assert r.token != s.token by { if i < j {} else {} }
    }
  }

  // ----- The lease refuses only for a reason -----

  /** The lock of (sc, sw) that Redis holds is run r's, still unmarked. */
  predicate LockFrom(w: World, t: Timings, r: Run, sc: string, sw: string)
    requires LockKey(sc, sw) in w.store
  {
    r.scope == sc && r.switchId == sw && r.markedAt.None? && LockEnd(t, r) == w.store[LockKey(sc, sw)].expiresAt
  }

  /** The marker of (sc, sw, c) that Redis holds was written by run r. */
  predicate MarkFrom(w: World, t: Timings, r: Run, sc: string, sw: string, c: string)
    requires DoneKey(sc, sw, c) in w.store
  {
    && r.scope == sc && r.switchId == sw && r.cycleId == c && r.markedAt.Some?
    && DedupEnd(t, r) == w.store[DoneKey(sc, sw, c)].expiresAt
  }

  /** Every lock and marker in Redis was put there by a run that accounts for it. */
  ghost predicate Grounded(w: World, t: Timings) {
    && (forall sc, sw :: LockKey(sc, sw) in w.store ==>
          exists i :: 0 <= i < |w.runs| && LockFrom(w, t, w.runs[i], sc, sw))
    && (forall sc, sw, c :: DoneKey(sc, sw, c) in w.store ==>
          exists i :: 0 <= i < |w.runs| && MarkFrom(w, t, w.runs[i], sc, sw, c))
  }

  lemma DeliverKeepsGrounded(w: World, t: Timings, sc: string, sw: string, c: string, token: string, fault: Fault)
    requires Grounded(w, t)
    ensures Grounded(DeliverNext(w, t, sc, sw, c, token, fault), t)
  {
    var w' := DeliverNext(w, t, sc, sw, c, token, fault);
    forall a, b | LockKey(a, b) in w'.store
      ensures exists i :: 0 <= i < |w'.runs| && LockFrom(w', t, w'.runs[i], a, b)
    {
      if LockKey(a, b) == LockKey(sc, sw) && w'.runs != w.runs {
        assert LockFrom(w', t, w'.runs[|w.runs|], a, b);
      } else {
        var i :| 0 <= i < |w.runs| && LockFrom(w, t, w.runs[i], a, b);
        assert LockFrom(w', t, w'.runs[i], a, b);
      }
    }
    forall a, b, d | DoneKey(a, b, d) in w'.store
      ensures exists i :: 0 <= i < |w'.runs| && MarkFrom(w', t, w'.runs[i], a, b, d)
    {
      var i :| 0 <= i < |w.runs| && MarkFrom(w, t, w.runs[i], a, b, d);
      assert MarkFrom(w', t, w'.runs[i], a, b, d);
    }
  }

  lemma MarkKeepsGrounded(w: World, t: Timings, i: nat)
    requires Inv(w, t) && Grounded(w, t) && i < |w.runs|
    ensures Grounded(MarkNext(w, t, i), t)
  {
    var r := w.runs[i];
    if MarkApplies(w.store, w.now, LockOf(r), r.token, DedupSeconds(t(r.scope))) {
      var w' := MarkNext(w, t, i);
      assert RunHeld(w, t, r);
      forall a, b | LockKey(a, b) in w'.store
        ensures exists k :: 0 <= k < |w'.runs| && LockFrom(w', t, w'.runs[k], a, b)
      {
        var k :| 0 <= k < |w.runs| && LockFrom(w, t, w.runs[k], a, b);
        assert LockFrom(w', t, w'.runs[k], a, b);
      }
      forall a, b, d | DoneKey(a, b, d) in w'.store
        ensures exists k :: 0 <= k < |w'.runs| && MarkFrom(w', t, w'.runs[k], a, b, d)
      {
        if DoneKey(a, b, d) == DoneOf(r) {
          assert MarkFrom(w', t, w'.runs[i], a, b, d);
        } else {
          var k :| 0 <= k < |w.runs| && MarkFrom(w, t, w.runs[k], a, b, d);
          assert MarkFrom(w', t, w'.runs[k], a, b, d);
        }
      }
    }
  }

  lemma CloseKeepsGrounded(w: World, t: Timings, i: nat)
    requires Grounded(w, t) && i < |w.runs|
    ensures Grounded(CloseNext(w, i), t)
  {
    var w' := CloseNext(w, i);
    forall a, b | LockKey(a, b) in w'.store
      ensures exists k :: 0 <= k < |w'.runs| && LockFrom(w', t, w'.runs[k], a, b)
    {
      var k :| 0 <= k < |w.runs| && LockFrom(w, t, w.runs[k], a, b);
      assert LockFrom(w', t, w'.runs[k], a, b);
    }
    forall a, b, d | DoneKey(a, b, d) in w'.store
      ensures exists k :: 0 <= k < |w'.runs| && MarkFrom(w', t, w'.runs[k], a, b, d)
    {
      var k :| 0 <= k < |w.runs| && MarkFrom(w, t, w.runs[k], a, b, d);
      assert MarkFrom(w', t, w'.runs[k], a, b, d);
    }
  }

  lemma TickKeepsGrounded(w: World, t: Timings, d: nat)
    requires Grounded(w, t)
    ensures Grounded(w.(now := w.now + d), t)
  {
    var w' := w.(now := w.now + d);
    forall a, b | LockKey(a, b) in w'.store
      ensures exists k :: 0 <= k < |w'.runs| && LockFrom(w', t, w'.runs[k], a, b)
    {
      var k :| 0 <= k < |w.runs| && LockFrom(w, t, w.runs[k], a, b);
      assert LockFrom(w', t, w'.runs[k], a, b);
    }
    forall a, b, c | DoneKey(a, b, c) in w'.store
      ensures exists k :: 0 <= k < |w'.runs| && MarkFrom(w', t, w'.runs[k], a, b, c)
    {
      var k :| 0 <= k < |w.runs| && MarkFrom(w, t, w.runs[k], a, b, c);
      assert MarkFrom(w', t, w'.runs[k], a, b, c);
    }
  }

  lemma StepKeepsGrounded(w: World, t: Timings, step: Step)
    requires Inv(w, t) && Grounded(w, t) && Enabled(w, step)
    ensures Grounded(Next(w, t, step), t)
  {
    match step
    case Tick(d) => TickKeepsGrounded(w, t, d);
    case Deliver(sc, sw, c, token, fault) => DeliverKeepsGrounded(w, t, sc, sw, c, token, fault);
    case LateMark(i) => MarkKeepsGrounded(w, t, i);
    case Crash(i) => CloseKeepsGrounded(w, t, i);
    case Finish(i, fault) =>
      CloseKeepsGrounded(w, t, i);
      CloseKeepsInv(w, t, i);
      MarkKeepsGrounded(CloseNext(w, i), t, i);
  }

  lemma {:induction false} ReachableGrounded(w: World, t: Timings, steps: seq<Step>, w': World)
    requires Inv(w, t) && Grounded(w, t) && Reaches(w, t, steps, w')
    ensures Grounded(w', t)
    decreases |steps|
  {
    if steps != [] {
      StepKeepsInv(w, t, steps[0]);
      StepKeepsGrounded(w, t, steps[0]);
      ReachableGrounded(Next(w, t, steps[0]), t, steps[1..], w');
    }
  }

  /** A run of this switch holds an unmarked claim whose lock window is not over. */
  ghost predicate LockInForce(w: World, t: Timings, sc: string, sw: string) {
    exists i :: 0 <= i < |w.runs| && w.runs[i].scope == sc && w.runs[i].switchId == sw &&
                w.runs[i].markedAt.None? && w.now < LockEnd(t, w.runs[i])
  }

  /** A run of this very task was marked within the dedup window. */
  ghost predicate MarkInForce(w: World, t: Timings, sc: string, sw: string, c: string) {
    exists i :: 0 <= i < |w.runs| && w.runs[i].scope == sc && w.runs[i].switchId == sw && w.runs[i].cycleId == c &&
                w.runs[i].markedAt.Some? && Recent(w, w.runs[i].markedAt.value, t(sc))
  }

  /** A mark at `markedAt` is within its own dedup window, or the default one if that is zero. */
  predicate Recent(w: World, markedAt: int, timing: Timing) {
    if timing.dedupSeconds == 0 then w.now < markedAt + timing.defaultDedup
    else w.now < markedAt + timing.dedupSeconds
  }

  lemma LockLiveIffInForce(w: World, t: Timings, sc: string, sw: string)
    requires Inv(w, t) && Grounded(w, t)
    ensures Live(w.store, LockKey(sc, sw), w.now) <==> LockInForce(w, t, sc, sw)
  {
    if Live(w.store, LockKey(sc, sw), w.now) {
      var i :| 0 <= i < |w.runs| && LockFrom(w, t, w.runs[i], sc, sw);
    }
    forall i | 0 <= i < |w.runs| && w.runs[i].scope == sc && w.runs[i].switchId == sw
      ensures w.runs[i].markedAt.None? && w.now < LockEnd(t, w.runs[i]) ==> Live(w.store, LockKey(sc, sw), w.now)
    {
      assert RunHeld(w, t, w.runs[i]);
    }
  }

  lemma MarkLiveIffInForce(w: World, t: Timings, sc: string, sw: string, c: string)
    requires Inv(w, t) && Grounded(w, t)
    ensures Live(w.store, DoneKey(sc, sw, c), w.now) <==> MarkInForce(w, t, sc, sw, c)
  {
    if Live(w.store, DoneKey(sc, sw, c), w.now) {
      var i :| 0 <= i < |w.runs| && MarkFrom(w, t, w.runs[i], sc, sw, c);
    }
    forall i | 0 <= i < |w.runs| && w.runs[i].scope == sc && w.runs[i].switchId == sw && w.runs[i].cycleId == c
      ensures w.runs[i].markedAt.Some? && Recent(w, w.runs[i].markedAt.value, t(sc)) ==>
                Live(w.store, DoneKey(sc, sw, c), w.now)
    {
      assert RunHeld(w, t, w.runs[i]);
    }
  }

  /** The verdict of a healthy delivery, from the history of runs alone: refused as
      attempted iff a marked run of the task is recent, as running iff an unmarked
      run of the switch is, and granted otherwise (when the window is valid). */
  lemma RefusedOnlyForAReason(now: int, t: Timings, steps: seq<Step>, w: World, sc: string, sw: string, c: string)
    requires Reaches(Start(now), t, steps, w)
    ensures var reply := AcquireReply(w.store, w.now, LockKey(sc, sw), DoneKey(sc, sw, c), t(sc).lockSeconds);
            && (reply == AlreadyDone <==> MarkInForce(w, t, sc, sw, c))
            && (reply == Busy <==> !MarkInForce(w, t, sc, sw, c) && LockInForce(w, t, sc, sw) && t(sc).lockSeconds > 0)
            && (reply == Claimed <==>
                  !MarkInForce(w, t, sc, sw, c) && !LockInForce(w, t, sc, sw) && t(sc).lockSeconds > 0)
  {
    ReachableInv(Start(now), t, steps, w);
    ReachableGrounded(Start(now), t, steps, w);
    LockLiveIffInForce(w, t, sc, sw);
    MarkLiveIffInForce(w, t, sc, sw, c);
  }
}
