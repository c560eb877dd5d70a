/** The renewable owner-token lock behind switch writes (app/core/redis_lock.py):
    its three operations with their two Lua scripts, and the history of one Redis
    under every interleaving of them with expiry. */
module RedisLock {
  import opened Wrappers
  import opened Arithmetic
  import opened RedisStore

  type Keys = Store<string>

  function AcquireStore(s: Keys, now: int, key: string, owner: string, ttl: int): Keys {
    if Live(s, key, now) then s else s[key := Entry(owner, now + Max(ttl, 1))]
  }

  function RenewStore(s: Keys, now: int, key: string, owner: string, ttl: int): Keys {
    if Get(s, key, now) == Some(owner) then s[key := Entry(owner, now + Max(ttl, 1))] else s
  }

  function ReleaseStore(s: Keys, now: int, key: string, owner: string): Keys {
    if Get(s, key, now) == Some(owner) then s - {key} else s
  }

  /** None is a transport failure: the caller retries under the existing expiry. */
  function RenewReply(s: Keys, now: int, key: string, owner: string, fault: Fault): Option<bool> {
    if fault != Healthy then None else Some(Get(s, key, now) == Some(owner))
  }

  // ----- The operations as the callers see them -----

  /** An error here reaches the caller, which fails closed. */
  datatype Acquired = Owner(token: string) | Refused | RedisFailure

  method Acquire(server: Server<string>, key: string, owner: string, ttl: int, fault: Fault) returns (result: Acquired)
    modifies server`store
    ensures server.store == if fault == LostRequest then old(server.store)
                            else AcquireStore(old(server.store), server.now, key, owner, ttl)
    ensures fault != Healthy <==> result == RedisFailure
    ensures fault == Healthy ==> result == if Live(old(server.store), key, server.now) then Refused else Owner(owner)
    ensures fault != LostRequest && !Live(old(server.store), key, server.now) ==>
      server.store == old(server.store)[key := Entry(owner, server.now + if ttl < 1 then 1 else ttl)]
    ensures fault == LostRequest || Live(old(server.store), key, server.now) ==> server.store == old(server.store)
  {
    if fault == LostRequest {
      return RedisFailure;
    }
    var reply := server.SetNxEx(key, owner, Max(ttl, 1));
    if fault == LostReply {
      return RedisFailure;
    }
    result := if reply == Stored then Owner(owner) else Refused;
  }

  method Release(server: Server<string>, key: string, owner: string, fault: Fault)
    modifies server`store
    ensures server.store == if fault == LostRequest then old(server.store)
                            else ReleaseStore(old(server.store), server.now, key, owner)
    ensures server.store == if fault != LostRequest && Get(old(server.store), key, server.now) == Some(owner)
                            then old(server.store) - {key} else old(server.store)
  {
    if fault == LostRequest {
      return;
    }
    var holder := server.GetValue(key);
    if holder == Some(owner) {
      server.Delete(key);
    }
  }

  method Renew(server: Server<string>, key: string, owner: string, ttl: int, fault: Fault)
    returns (renewed: Option<bool>)
    modifies server`store
    ensures server.store == if fault == LostRequest then old(server.store)
                            else RenewStore(old(server.store), server.now, key, owner, ttl)
    ensures renewed == RenewReply(old(server.store), server.now, key, owner, fault)
    ensures server.store == if fault != LostRequest && Get(old(server.store), key, server.now) == Some(owner)
                            then old(server.store)[key := Entry(owner, server.now + if ttl < 1 then 1 else ttl)]
                            else old(server.store)
    ensures renewed == if fault != Healthy then None
                       else Some(Get(old(server.store), key, server.now) == Some(owner))
  {
    if fault == LostRequest {
      return None;
    }
    var holder := server.GetValue(key);
    if holder == Some(owner) {
      server.Expire(key, Max(ttl, 1));
    }
    renewed := if fault == LostReply then None else Some(holder == Some(owner));
  }

  // ----- Histories -----

  /** One effective acquire: its owner holds `key` from `since` until `until`, as far as is settled now. */
  datatype Tenure = Tenure(key: string, owner: string, since: int, until: int)

  datatype World = World(now: int, store: Keys, tenures: seq<Tenure>, owners: set<string>)

  datatype Step =
    | Tick(elapsed: nat)
    | DoAcquire(key: string, owner: string, ttl: int, fault: Fault)
    | DoRenew(key: string, owner: string, ttl: int, fault: Fault)
    | DoRelease(key: string, owner: string, fault: Fault)

  /** Owner tokens are fresh UUIDs. */
  predicate Enabled(w: World, step: Step) {
    step.DoAcquire? ==> step.owner !in w.owners
  }

  function Settle(ts: seq<Tenure>, key: string, owner: string, until: int): (r: seq<Tenure>)
    ensures |r| == |ts|
    ensures forall i :: 0 <= i < |ts| ==>
      r[i] == if ts[i].key == key && ts[i].owner == owner then ts[i].(until := until) else ts[i]
  {
    seq(|ts|, i requires 0 <= i < |ts| =>
      if ts[i].key == key && ts[i].owner == owner then ts[i].(until := until) else ts[i])
  }

  function Next(w: World, step: Step): World {
    match step
    case Tick(d) => w.(now := w.now + d)
    case DoAcquire(key, owner, ttl, fault) =>
      var w' := w.(owners := w.owners + {owner});
      if fault == LostRequest || Live(w.store, key, w.now) then w'
      else w'.(store := AcquireStore(w.store, w.now, key, owner, ttl),
               tenures := w.tenures + [Tenure(key, owner, w.now, w.now + Max(ttl, 1))])
    case DoRenew(key, owner, ttl, fault) =>
      if fault == LostRequest || Get(w.store, key, w.now) != Some(owner) then w
      else w.(store := RenewStore(w.store, w.now, key, owner, ttl),
              tenures := Settle(w.tenures, key, owner, w.now + Max(ttl, 1)))
    case DoRelease(key, owner, fault) =>
      if fault == LostRequest || Get(w.store, key, w.now) != Some(owner) then w
      else w.(store := ReleaseStore(w.store, w.now, key, owner),
              tenures := Settle(w.tenures, key, owner, w.now))
  }

  /** The steps change Redis as the three operations do, also when the reply is lost; the tenures
      only keep the books. */
  lemma StepsAreTheOperations(w: World, step: Step)
    ensures var w' := Next(w, step);
            match step
            case Tick(d) => w'.now == w.now + d && w'.store == w.store
            case DoAcquire(key, owner, ttl, fault) =>
              && w'.now == w.now
              && w'.store == if fault == LostRequest then w.store else AcquireStore(w.store, w.now, key, owner, ttl)
            case DoRenew(key, owner, ttl, fault) =>
              && w'.now == w.now
              && w'.store == if fault == LostRequest then w.store else RenewStore(w.store, w.now, key, owner, ttl)
            case DoRelease(key, owner, fault) =>
              && w'.now == w.now
              && w'.store == if fault == LostRequest then w.store else ReleaseStore(w.store, w.now, key, owner)
  {
  }

  /** The world after the first k steps. */
  function After(w: World, steps: seq<Step>, k: nat): World
    requires k <= |steps|
  {
    if k == 0 then w else Next(After(w, steps, k - 1), steps[k - 1])
  }

  predicate Legal(w: World, steps: seq<Step>) {
    forall k :: 0 <= k < |steps| ==> Enabled(After(w, steps, k), steps[k])
  }

  function Start(now: int): World { World(now, map[], [], {}) }

  function Holder(w: World, key: string): Option<string> { Get(w.store, key, w.now) }

  predicate TenureHeld(w: World, t: Tenure) {
    && t.owner in w.owners
    && t.since <= t.until && t.since <= w.now
    && (w.now < t.until ==> t.key in w.store && w.store[t.key] == Entry(t.owner, t.until))
    && (t.key in w.store && w.store[t.key].value == t.owner ==> w.store[t.key].expiresAt == t.until)
  }

  predicate Owned(w: World, key: string)
    requires key in w.store
  {
    exists i :: 0 <= i < |w.tenures| && w.tenures[i].key == key && w.tenures[i].owner == w.store[key].value
  }

  predicate Inv(w: World) {
    && (forall i :: 0 <= i < |w.tenures| ==> TenureHeld(w, w.tenures[i]))
    && (forall i, j :: 0 <= i < j < |w.tenures| ==> w.tenures[i].owner != w.tenures[j].owner)
    && (forall i, j :: 0 <= i < j < |w.tenures| && w.tenures[i].key == w.tenures[j].key ==>
          w.tenures[i].until <= w.tenures[j].since)
    && (forall key :: key in w.store ==> Owned(w, key))
  }

  /** An acquire that takes effect adds one tenure, behind all others of its key. */
  lemma AcquireKeepsTenures(w: World, step: Step)
    requires Inv(w) && step.DoAcquire? && Enabled(w, step)
    ensures var w' := Next(w, step);
            && w.tenures <= w'.tenures && |w'.tenures| <= |w.tenures| + 1
            && (forall i :: 0 <= i < |w'.tenures| ==> TenureHeld(w', w'.tenures[i]))
            && (|w'.tenures| > |w.tenures| ==> forall i :: 0 <= i < |w.tenures| ==>
                  w.tenures[i].owner != step.owner && (w.tenures[i].key == step.key ==> w.tenures[i].until <= w.now))
  {
    hide Owned;
    forall i | 0 <= i < |w.tenures| ensures TenureHeld(Next(w, step), w.tenures[i]) {
      assert TenureHeld(w, w.tenures[i]);
    }
  }

  lemma AcquireKeepsInv(w: World, step: Step)
    requires Inv(w) && step.DoAcquire? && Enabled(w, step)
    ensures Inv(Next(w, step))
  {
    AcquireKeepsTenures(w, step);
    hide TenureHeld;
    var w' := Next(w, step);
    forall key | key in w'.store ensures Owned(w', key) {
      if key in w.store && w'.store[key] == w.store[key] {
        assert Owned(w, key);
        var i :| 0 <= i < |w.tenures| && w.tenures[i].key == key && w.tenures[i].owner == w.store[key].value;
        assert w'.tenures[i] == w.tenures[i];
      } else {
        assert w'.tenures[|w.tenures|].key == key;
      }
    }
  }

  /** The holder of a key is the owner of the key's latest tenure. */
  lemma HolderTenure(w: World, key: string) returns (h: nat)
    requires Inv(w) && Live(w.store, key, w.now)
    ensures h < |w.tenures| && w.tenures[h].key == key && w.tenures[h].owner == w.store[key].value
    ensures w.tenures[h].until == w.store[key].expiresAt
    ensures forall i :: 0 <= i < |w.tenures| && w.tenures[i].key == key ==> i <= h
    ensures forall i :: 0 <= i < |w.tenures| && i != h ==> w.tenures[i].owner != w.tenures[h].owner
  {
    assert Owned(w, key);
    h :| 0 <= h < |w.tenures| && w.tenures[h].key == key && w.tenures[h].owner == w.store[key].value;
    assert TenureHeld(w, w.tenures[h]);
    assert forall i :: 0 <= i < |w.tenures| ==> w.tenures[i].since <= w.now by {
      forall i | 0 <= i < |w.tenures| ensures w.tenures[i].since <= w.now {
        assert TenureHeld(w, w.tenures[i]);
      }
    }
  }

  /** Moving the end of the holder's tenure, together with the stored expiry, keeps the invariant. */
  lemma ResettleKeepsInv(w: World, key: string, h: nat, until: int, store': Keys)
    requires Inv(w) && Live(w.store, key, w.now) && w.now <= until
    requires h < |w.tenures| && w.tenures[h].key == key && w.tenures[h].owner == w.store[key].value
    requires forall i :: 0 <= i < |w.tenures| && w.tenures[i].key == key ==> i <= h
    requires forall i :: 0 <= i < |w.tenures| && i != h ==> w.tenures[i].owner != w.tenures[h].owner
    requires (store' == w.store - {key} && until == w.now) || store' == w.store[key := Entry(w.store[key].value, until)]
    ensures Inv(w.(store := store', tenures := w.tenures[h := w.tenures[h].(until := until)]))
  {
    var w' := w.(store := store', tenures := w.tenures[h := w.tenures[h].(until := until)]);
    assert TenureHeld(w, w.tenures[h]);
    forall i | 0 <= i < |w'.tenures| ensures TenureHeld(w', w'.tenures[i]) {
      assert TenureHeld(w, w.tenures[i]);
    }
    forall k | k in w'.store ensures Owned(w', k) {
      assert Owned(w, k);
      var i :| 0 <= i < |w.tenures| && w.tenures[i].key == k && w.tenures[i].owner == w.store[k].value;
      assert w'.tenures[i].key == k && w'.tenures[i].owner == w'.store[k].value;
    }
  }

  /** A renew or release by the holder moves only the end of the holder's own tenure. */
  lemma HolderStepKeepsInv(w: World, step: Step)
    requires Inv(w) && (step.DoRenew? || step.DoRelease?)
    ensures Inv(Next(w, step))
  {
    if step.fault != LostRequest && Get(w.store, step.key, w.now) == Some(step.owner) {
      var w' := Next(w, step);
      var until := if step.DoRenew? then w.now + Max(step.ttl, 1) else w.now;
      var h := HolderTenure(w, step.key);
      assert w'.tenures == w.tenures[h := w.tenures[h].(until := until)];
      ResettleKeepsInv(w, step.key, h, until, w'.store);
    }
  }

  lemma StartInv(now: int)
    ensures Inv(Start(now))
  {
  }

  lemma TickKeepsInv(w: World, d: nat)
    requires Inv(w)
    ensures Inv(w.(now := w.now + d))
  {
    var w' := w.(now := w.now + d);
    forall i | 0 <= i < |w.tenures| ensures TenureHeld(w', w.tenures[i]) {
      assert TenureHeld(w, w.tenures[i]);
    }
    forall key | key in w.store ensures Owned(w', key) {
      assert Owned(w, key);
    }
  }

  lemma {:induction false} ReachableInv(now: int, steps: seq<Step>, k: nat)
    requires Legal(Start(now), steps) && k <= |steps|
    ensures Inv(After(Start(now), steps, k))
  {
    hide Inv;
    if k == 0 {
      StartInv(now);
    } else {
      ReachableInv(now, steps, k - 1);
      var w, step := After(Start(now), steps, k - 1), steps[k - 1];
      assert Enabled(w, step);
      match step
      case Tick(d) => TickKeepsInv(w, d);
      case DoAcquire(_, _, _, _) => AcquireKeepsInv(w, step);
      case DoRenew(_, _, _, _) => HolderStepKeepsInv(w, step);
      case DoRelease(_, _, _) => HolderStepKeepsInv(w, step);
    }
  }

  /** Ownership intervals of one key never overlap, and at any moment the holder
      Redis reports is exactly the owner whose interval contains that moment. */
  lemma TenuresAreDisjoint(now: int, steps: seq<Step>, k: nat)
    requires Legal(Start(now), steps) && k <= |steps|
    ensures var w := After(Start(now), steps, k);
            forall i, j :: 0 <= i < j < |w.tenures| && w.tenures[i].key == w.tenures[j].key ==>
              w.tenures[i].until <= w.tenures[j].since
    ensures var w := After(Start(now), steps, k);
            forall i :: 0 <= i < |w.tenures| ==>
              (Holder(w, w.tenures[i].key) == Some(w.tenures[i].owner) <==>
                w.tenures[i].since <= w.now < w.tenures[i].until)
    ensures var w := After(Start(now), steps, k);
            forall key :: Holder(w, key).Some? ==>
              exists i :: 0 <= i < |w.tenures| && w.tenures[i].key == key && Holder(w, key) == Some(w.tenures[i].owner)
  {
    ReachableInv(now, steps, k);
    var w := After(Start(now), steps, k);
    forall i | 0 <= i < |w.tenures|
      ensures Holder(w, w.tenures[i].key) == Some(w.tenures[i].owner) <==>
              w.tenures[i].since <= w.now < w.tenures[i].until
    {
      assert TenureHeld(w, w.tenures[i]);
    }
    forall key | Holder(w, key).Some?
      ensures exists i :: 0 <= i < |w.tenures| && w.tenures[i].key == key && Holder(w, key) == Some(w.tenures[i].owner)
    {
      assert Owned(w, key);
    }
  }

  /** A renew or release by anyone but the holder changes nothing at all. */
  lemma ForeignStepChangesNothing(w: World, step: Step)
    requires step.DoRenew? || step.DoRelease?
    ensures Next(w, step) == w || Holder(w, step.key) == Some(step.owner)
    ensures forall key :: key != step.key ==> Holder(Next(w, step), key) == Holder(w, key)
  {
  }

  /** Step k is a renew or a release by a client that does not hold the key then. */
  predicate IsForeign(w: World, steps: seq<Step>, k: nat)
    requires k < |steps|
  {
    && (steps[k].DoRenew? || steps[k].DoRelease?)
    && Holder(After(w, steps, k), steps[k].key) != Some(steps[k].owner)
  }

  /** Foreign renews and releases can be struck from a history: every later state, and with
      it who holds what and until when, is the one reached without them. */
  lemma {:induction false} ForeignStepsLeaveNoTrace(w: World, steps: seq<Step>, k: nat, n: nat)
    requires k < n <= |steps| && IsForeign(w, steps, k)
    ensures After(w, steps, n) == After(w, steps[..k] + steps[k + 1..], n - 1)
    decreases n
  {
    var struck := steps[..k] + steps[k + 1..];
    if n == k + 1 {
      SameUpTo(w, steps, struck, k);
      ForeignStepChangesNothing(After(w, steps, k), steps[k]);
    } else {
      ForeignStepsLeaveNoTrace(w, steps, k, n - 1);
      assert struck[n - 2] == steps[n - 1];
    }
  }

  lemma {:induction false} SameUpTo(w: World, steps: seq<Step>, others: seq<Step>, k: nat)
    requires k <= |steps| && k <= |others| && steps[..k] == others[..k]
    ensures After(w, steps, k) == After(w, others, k)
  {
    if k > 0 {
      assert steps[..k - 1] == steps[..k][..k - 1] == others[..k - 1];
      assert steps[k - 1] == steps[..k][k - 1] == others[k - 1];
      SameUpTo(w, steps, others, k - 1);
    }
  }

  lemma HolderWasHolder(w: World, step: Step, key: string, owner: string)
    requires Enabled(w, step) && owner in w.owners
    requires Holder(Next(w, step), key) == Some(owner)
    ensures Holder(w, key) == Some(owner)
  {
  }

  lemma {:induction false} OwnersAccumulate(w: World, steps: seq<Step>, a: nat, k: nat)
    requires a <= k <= |steps|
    ensures After(w, steps, a).owners <= After(w, steps, k).owners
    decreases k
  {
    if a < k {
      OwnersAccumulate(w, steps, a, k - 1);
    }
  }

  lemma AcquireRecordsOwner(w: World, step: Step)
    requires step.DoAcquire?
    ensures step.owner in Next(w, step).owners
  {
  }

  /** A holder after step r that acquired at step a held at every step in between. */
  lemma {:induction false} HeldThroughout(w: World, steps: seq<Step>, a: nat, r: nat, key: string, owner: string)
    requires Legal(w, steps) && a < r <= |steps|
    requires steps[a].DoAcquire? && steps[a].owner == owner
    requires Holder(After(w, steps, r), key) == Some(owner)
    ensures forall k :: a < k <= r ==> Holder(After(w, steps, k), key) == Some(owner)
    decreases r
  {
    hide Next, Enabled;
    if a + 1 < r {
      AcquireRecordsOwner(After(w, steps, a), steps[a]);
      OwnersAccumulate(w, steps, a + 1, r - 1);
      assert Enabled(After(w, steps, r - 1), steps[r - 1]);
      HolderWasHolder(After(w, steps, r - 1), steps[r - 1], key, owner);
      HeldThroughout(w, steps, a, r - 1, key, owner);
    }
  }

  lemma HeldUntilExpiry(w: World, steps: seq<Step>, a: nat, r: nat)
    requires a < r <= |steps| && steps[a].DoAcquire? && steps[a].fault != LostRequest
    requires Holder(After(w, steps, a), steps[a].key) == None
    requires forall k :: a < k < r ==> steps[k].Tick? || steps[k].owner != steps[a].owner
    requires After(w, steps, r).now < After(w, steps, a).now + Max(steps[a].ttl, 1)
    ensures var w' := After(w, steps, r);
            steps[a].key in w'.store &&
            w'.store[steps[a].key] == Entry(steps[a].owner, After(w, steps, a).now + Max(steps[a].ttl, 1))
    decreases r
  {
    if a + 1 < r {
      HeldUntilExpiry(w, steps, a, r - 1);
    }
  }

  /** And what makes it return True: an owner that acquired a free key is renewed by any
      healthy renew before the expiry, whatever the other clients did in between. */
  lemma InTimeRenewSucceeds(w: World, steps: seq<Step>, a: nat, r: nat)
    requires a < r <= |steps| && steps[a].DoAcquire? && steps[a].fault != LostRequest
    requires Holder(After(w, steps, a), steps[a].key) == None
    requires forall k :: a < k < r ==> steps[k].Tick? || steps[k].owner != steps[a].owner
    requires After(w, steps, r).now < After(w, steps, a).now + Max(steps[a].ttl, 1)
    ensures var w' := After(w, steps, r);
            RenewReply(w'.store, w'.now, steps[a].key, steps[a].owner, Healthy) == Some(true)
  {
    hide Next, After;
    HeldUntilExpiry(w, steps, a, r);
  }

  lemma RenewKeepsHolder(w: World, step: Step)
    requires step.DoRenew? && Holder(w, step.key) == Some(step.owner)
    ensures Holder(Next(w, step), step.key) == Some(step.owner)
  {
  }

  lemma AfterNext(w: World, steps: seq<Step>, k: nat)
    requires k < |steps|
    ensures After(w, steps, k + 1) == Next(After(w, steps, k), steps[k])
  {
  }

  /** What `renew` returning True proves: no gap since the acquire, whatever the
      others did and however late the renewals came. */
  lemma RenewTrueMeansNoGap(w: World, steps: seq<Step>, a: nat, r: nat)
    requires Legal(w, steps) && a < r < |steps|
    requires steps[a].DoAcquire? && steps[r].DoRenew?
    requires steps[r].owner == steps[a].owner && steps[r].key == steps[a].key
    requires var w' := After(w, steps, r);
             RenewReply(w'.store, w'.now, steps[r].key, steps[r].owner, steps[r].fault) == Some(true)
    ensures forall k :: a < k <= r + 1 ==> Holder(After(w, steps, k), steps[a].key) == Some(steps[a].owner)
  {
    hide Next, Enabled, Legal, After;
    AfterNext(w, steps, r);
    HeldThroughout(w, steps, a, r, steps[a].key, steps[a].owner);
    RenewKeepsHolder(After(w, steps, r), steps[r]);
  }
}
