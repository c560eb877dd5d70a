/** The ML cycle lock (app/worker/tasks.py, `_ml_cycle_lock`): taken with SET NX EX,
    released by a separate GET and DEL, and open when Redis cannot be reached. */
module MlCycleLock {
  import opened Wrappers
  import opened RedisStore

  const LOCK_SECONDS := 1900
  const LOCK_KEY := "lock:ml-cycle"

  type Keys = Store<string>

  /** The two locals of the context manager; an empty token is a run without a lock. */
  datatype Locals = Locals(acquired: bool, token: string)

  // ----- One command each -----

  function EnterStore(s: Keys, now: int, token: string, fault: Fault): Keys {
    if fault == LostRequest || Live(s, LOCK_KEY, now) then s
    else s[LOCK_KEY := Entry(token, now + LOCK_SECONDS)]
  }

  /** An error, even one that hides a stored lock, means "go ahead without a lock". */
  function Entered(s: Keys, now: int, token: string, fault: Fault): Locals {
    if fault == Healthy then Locals(!Live(s, LOCK_KEY, now), token) else Locals(true, "")
  }

  /** Does the key still hold the run's own token? */
  predicate ReadsOwn(s: Keys, now: int, run: Locals, fault: Fault) {
    run.acquired && run.token != "" && fault == Healthy && Get(s, LOCK_KEY, now) == Some(run.token)
  }

  function DeletedStore(s: Keys, fault: Fault): Keys {
    if fault == LostRequest then s else s - {LOCK_KEY}
  }

  // ----- The context manager -----

  class CycleLock {
    var acquired: bool
    var token: string

    function Value(): Locals
      reads this
    {
      Locals(acquired, token)
    }

    constructor (token: string)
      ensures Value() == Locals(false, token)
    {
      acquired := false;
      this.token := token;
    }

    /** Up to the yield. */
    method Enter(server: Server<string>, fault: Fault)
      modifies this, server`store
      ensures server.store == EnterStore(old(server.store), server.now, old(token), fault)
      ensures Value() == Entered(old(server.store), server.now, old(token), fault)
      ensures var free := !Live(old(server.store), "lock:ml-cycle", server.now);
        && (fault == Healthy ==> acquired == free && token == old(token))
        && (fault != Healthy ==> acquired && token == "")
        && server.store == (if fault != LostRequest && free
                            then old(server.store)["lock:ml-cycle" := Entry(old(token), server.now + 1900)]
                            else old(server.store))
    {
      var reply := NotStored;
      if fault != LostRequest {
        reply := server.SetNxEx(LOCK_KEY, token, LOCK_SECONDS);
      }
      if fault == Healthy {
        acquired := reply == Stored;
      } else {
        acquired := true;
        token := "";
      }
    }

    /** First half of the finally block. */
    method ReadsOwnToken(server: Server<string>, fault: Fault) returns (mine: bool)
      ensures mine == ReadsOwn(server.store, server.now, Value(), fault)
      ensures mine <==>
        acquired && token != "" && fault == Healthy && Get(server.store, "lock:ml-cycle", server.now) == Some(token)
    {
      if !acquired || token == "" || fault != Healthy {
        return false;
      }
      var value := server.GetValue(LOCK_KEY);
      mine := value == Some(token);
    }

    /** Second half, a command of its own: other clients run in between. */
    method DeleteLock(server: Server<string>, fault: Fault)
      modifies server`store
      ensures server.store == DeletedStore(old(server.store), fault)
      ensures server.store == if fault == LostRequest then old(server.store)
                              else old(server.store) - {"lock:ml-cycle"}
    {
      if fault != LostRequest {
        server.Delete(LOCK_KEY);
      }
    }
  }

  // ----- Interleavings -----

  /** Checked: the GET returned the run's own token and the DEL has not been sent yet. */
  datatype Phase = Running | Checked | Done

  datatype Run = Run(locals: Locals, enteredAt: int, phase: Phase)

  datatype World = World(now: int, store: Keys, runs: seq<Run>, tokens: set<string>)

  datatype Step =
    | Tick(elapsed: nat)
    | Enter(token: string, fault: Fault)
    | Check(run: nat, fault: Fault)
    | Delete(run: nat, fault: Fault)
    | Crash(run: nat)

  predicate Enabled(w: World, step: Step) {
    match step
    case Tick(_) => true
    case Enter(token, _) => token != "" && token !in w.tokens
    case Check(i, _) => i < |w.runs| && w.runs[i].phase == Running
    case Delete(i, _) => i < |w.runs| && w.runs[i].phase == Checked
    case Crash(i) => i < |w.runs|
  }

  function WithPhase(w: World, i: nat, phase: Phase): seq<Run>
    requires i < |w.runs|
  {
    w.runs[i := w.runs[i].(phase := phase)]
  }

  function Next(w: World, step: Step): World
    requires Enabled(w, step)
  {
    match step
    case Tick(d) => w.(now := w.now + d)
    case Enter(token, fault) =>
      var run := Run(Entered(w.store, w.now, token, fault), w.now, Running);
      World(w.now, EnterStore(w.store, w.now, token, fault), w.runs + [run], w.tokens + {token})
    case Check(i, fault) =>
      w.(runs := WithPhase(w, i, if ReadsOwn(w.store, w.now, w.runs[i].locals, fault) then Checked else Done))
    case Delete(i, fault) => w.(store := DeletedStore(w.store, fault), runs := WithPhase(w, i, Done))
    case Crash(i) => w.(runs := WithPhase(w, i, Done))
  }

  function Start(now: int): World { World(now, map[], [], {}) }

  /** No DEL is sent after its run's lock window: what the 1800 s task limit is for. */
  predicate InTime(w: World, step: Step)
    requires Enabled(w, step)
  {
    step.Delete? ==> w.now < w.runs[step.run].enteredAt + LOCK_SECONDS
  }

  predicate Reaches(w: World, steps: seq<Step>, w': World)
    decreases |steps|
  {
    if steps == [] then w' == w
    else Enabled(w, steps[0]) && Reaches(Next(w, steps[0]), steps[1..], w')
  }

  predicate AllInTime(w: World, steps: seq<Step>)
    decreases |steps|
  {
    steps == [] ||
    (Enabled(w, steps[0]) && InTime(w, steps[0]) && AllInTime(Next(w, steps[0]), steps[1..]))
  }

  /** The run took the lock and has not let go of it. */
  predicate Holding(r: Run) { r.locals.acquired && r.locals.token != "" && r.phase != Done }

  predicate RunHeld(w: World, r: Run) {
    && r.enteredAt <= w.now
    && (r.phase == Checked ==> r.locals.acquired && r.locals.token != "")
    && (r.locals.token != "" ==> r.locals.token in w.tokens)
    && (Holding(r) && w.now < r.enteredAt + LOCK_SECONDS ==>
          LOCK_KEY in w.store && w.store[LOCK_KEY] == Entry(r.locals.token, r.enteredAt + LOCK_SECONDS))
  }

  predicate Inv(w: World) {
    && (forall i :: 0 <= i < |w.runs| ==> RunHeld(w, w.runs[i]))
    && (forall i, j :: 0 <= i < j < |w.runs| && w.runs[i].locals.token != "" ==>
          w.runs[i].locals.token != w.runs[j].locals.token)
  }

  lemma StepKeepsInv(w: World, step: Step)
    requires Inv(w) && Enabled(w, step) && InTime(w, step)
    ensures Inv(Next(w, step))
  {
    var w' := Next(w, step);
    forall i | 0 <= i < |w'.runs| ensures RunHeld(w', w'.runs[i]) {
      if i < |w.runs| {
        assert RunHeld(w, w.runs[i]);
      }
      if step.Delete? {
        assert RunHeld(w, w.runs[step.run]);
      }
    }
  }

  lemma {:induction false} ReachableInv(w: World, steps: seq<Step>, w': World)
    requires Inv(w) && Reaches(w, steps, w') && AllInTime(w, steps)
    ensures Inv(w')
    decreases |steps|
  {
    if steps != [] {
      StepKeepsInv(w, steps[0]);
      ReachableInv(Next(w, steps[0]), steps[1..], w');
    }
  }

  /** A DEL of run i sent now takes nobody else's lock away. */
  predicate SafeDelete(w: World, i: nat)
    requires i < |w.runs|
  {
    Get(w.store, LOCK_KEY, w.now) == None || Get(w.store, LOCK_KEY, w.now) == Some(w.runs[i].locals.token)
  }

  /** While no DEL comes late, a DEL finds its own run's lock, and two locked cycles never
      run together within their windows. */
  lemma InTimeReleaseIsSafe(now: int, steps: seq<Step>, w: World, i: nat)
    requires Reaches(Start(now), steps, w) && AllInTime(Start(now), steps) && i < |w.runs|
    ensures w.runs[i].phase == Checked && w.now < w.runs[i].enteredAt + LOCK_SECONDS ==>
              Get(w.store, LOCK_KEY, w.now) == Some(w.runs[i].locals.token)
    ensures forall j :: 0 <= j < i && Holding(w.runs[i]) && Holding(w.runs[j]) ==>
              w.now >= w.runs[j].enteredAt + LOCK_SECONDS || w.now >= w.runs[i].enteredAt + LOCK_SECONDS
  {
    ReachableInv(Start(now), steps, w);
    assert RunHeld(w, w.runs[i]);
    forall j | 0 <= j < i && Holding(w.runs[i]) && Holding(w.runs[j])
      ensures w.now >= w.runs[j].enteredAt + LOCK_SECONDS || w.now >= w.runs[i].enteredAt + LOCK_SECONDS
    {
      assert RunHeld(w, w.runs[j]);
    }
  }

  // ----- Runs without a lock -----

  predicate WritesOnlyWithToken(w: World) {
    forall i :: 0 <= i < |w.runs| && w.runs[i].phase == Checked ==>
      w.runs[i].locals.acquired && w.runs[i].locals.token != ""
  }

  lemma {:induction false} OnlyTokensAreChecked(w: World, steps: seq<Step>, w': World)
    requires WritesOnlyWithToken(w) && Reaches(w, steps, w')
    ensures WritesOnlyWithToken(w')
    decreases |steps|
  {
    if steps != [] {
      OnlyTokensAreChecked(Next(w, steps[0]), steps[1..], w');
    }
  }

  predicate StepOf(step: Step, i: nat) {
    (step.Check? || step.Delete? || step.Crash?) && step.run == i
  }

  /** In every history, late DELs included: no step of a run that went ahead without a lock,
      or was turned away, ever changes what Redis holds. */
  lemma UnlockedRunNeverWrites(now: int, steps: seq<Step>, w: World, i: nat, step: Step)
    requires Reaches(Start(now), steps, w) && i < |w.runs|
    requires w.runs[i].locals.token == "" || !w.runs[i].locals.acquired
    requires StepOf(step, i) && Enabled(w, step)
    ensures Next(w, step).store == w.store && !Next(w, step).runs[i].phase.Checked?
  {
    OnlyTokensAreChecked(Start(now), steps, w);
  }

  // ----- How late is too late -----

  /** Two runs: the first checks its token and stalls for `d` seconds before its DEL. */
  function StalledSteps(d: nat): seq<Step> {
    [Enter("a", Healthy), Check(0, Healthy), Tick(d), Enter("b", Healthy)]
  }

  function StalledWorld(d: nat): World {
    World(d, map[LOCK_KEY := Entry("b", d + LOCK_SECONDS)],
          [Run(Locals(true, "a"), 0, Checked), Run(Locals(true, "b"), d, Running)], {"a", "b"})
  }

  lemma StalledRun(d: nat)
    requires d >= LOCK_SECONDS
    ensures Reaches(Start(0), StalledSteps(d), StalledWorld(d)) && AllInTime(Start(0), StalledSteps(d))
  {
    var steps := StalledSteps(d);
    var w1 := Next(Start(0), steps[0]);
    var w2 := Next(w1, steps[1]);
    var w3 := Next(w2, steps[2]);
    var w4 := Next(w3, steps[3]);
    assert w2.runs == [Run(Locals(true, "a"), 0, Checked)];
    assert w4 == StalledWorld(d);
    assert steps[1..][0] == steps[1] && steps[1..][1..] == steps[2..];
    assert steps[2..][0] == steps[2] && steps[2..][1..] == steps[3..] == [steps[3]];
    assert [steps[3]][1..] == [];
    assert Reaches(w4, [], w4) && AllInTime(w4, []);
    assert Reaches(w3, steps[3..], w4) && AllInTime(w3, steps[3..]);
    assert Reaches(w2, steps[2..], w4) && AllInTime(w2, steps[2..]);
    assert Reaches(w1, steps[1..], w4) && AllInTime(w1, steps[1..]);
  }

  /** A history with all its DELs in time, after which run i may send its own, `d` seconds
      after it entered. */
  predicate MaySend(now: int, steps: seq<Step>, w: World, i: nat, d: nat) {
    && Reaches(Start(now), steps, w) && AllInTime(Start(now), steps)
    && i < |w.runs| && w.runs[i].phase == Checked && w.now == w.runs[i].enteredAt + d
  }

  /** A DEL sent `d` seconds after its run entered is safe in every history whose other DELs
      are in time, if and only if `d` is below the lock's lifetime. */
  lemma DeleteIsSafeIffInTime(d: nat)
    ensures (forall now, steps, w, i: nat :: MaySend(now, steps, w, i, d) ==> SafeDelete(w, i)) <==> d < 1900
  {
    if d < LOCK_SECONDS {
      forall now, steps, w, i: nat | MaySend(now, steps, w, i, d)
        ensures SafeDelete(w, i)
      {
        InTimeReleaseIsSafe(now, steps, w, i);
      }
    } else {
      StalledRun(d);
      assert MaySend(0, StalledSteps(d), StalledWorld(d), 0, d);
      assert !SafeDelete(StalledWorld(d), 0);
    }
  }
}
