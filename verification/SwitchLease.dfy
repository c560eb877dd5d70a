/** The Redis lease of the live-switch tasks: one atomic check-and-lock script,
    one token-checked "mark done and unlock" script, and the task shape around
    them (app/worker/tasks.py). */
module SwitchLease {
  import opened Wrappers
  import opened RedisStore

  /** The Redis keys of one switch: its lock, and its marker for one cycle. */
  datatype Key = LockKey(scope: string, switchId: string) | DoneKey(scope: string, switchId: string, cycleId: string)

  // ----- The two scripts, as functions of the store -----

  datatype Claim = AlreadyDone | Claimed | Busy | ScriptError

  function AcquireReply(s: Store<Key>, now: int, lockKey: Key, doneKey: Key, ttl: int): Claim {
    if Live(s, doneKey, now) then AlreadyDone
    else if ttl <= 0 then ScriptError
    else if Live(s, lockKey, now) then Busy
    else Claimed
  }

  function AcquireStore(s: Store<Key>, now: int, lockKey: Key, doneKey: Key, token: string, ttl: int): Store<Key> {
    if AcquireReply(s, now, lockKey, doneKey, ttl) == Claimed then s[lockKey := Entry(token, now + ttl)] else s
  }

  /** The mark script takes effect only for the token that still holds the lock. */
  predicate MarkApplies(s: Store<Key>, now: int, lockKey: Key, token: string, ttl: int) {
    Get(s, lockKey, now) == Some(token) && ttl > 0
  }

  function MarkStore(s: Store<Key>, now: int, lockKey: Key, doneKey: Key, token: string, ttl: int): Store<Key> {
    if MarkApplies(s, now, lockKey, token, ttl) then s[doneKey := Entry("1", now + ttl)] - {lockKey} else s
  }

  method EvalAcquire(server: Server<Key>, lockKey: Key, doneKey: Key, token: string, ttl: int)
    returns (claim: Claim)
    modifies server`store
    ensures claim == AcquireReply(old(server.store), server.now, lockKey, doneKey, ttl)
    ensures server.store == AcquireStore(old(server.store), server.now, lockKey, doneKey, token, ttl)
  {
    var done := server.Exists(doneKey);
    if done {
      return AlreadyDone;
    }
    var reply := server.SetNxEx(lockKey, token, ttl);
    match reply
    case Stored => claim := Claimed;
    case NotStored => claim := Busy;
    case InvalidExpire => claim := ScriptError;
  }

  method EvalMark(server: Server<Key>, lockKey: Key, doneKey: Key, token: string, ttl: int)
    returns (ok: bool)
    modifies server`store
    ensures ok == (Get(old(server.store), lockKey, server.now) == Some(token) ==> ttl > 0)
    ensures server.store == MarkStore(old(server.store), server.now, lockKey, doneKey, token, ttl)
  {
    var holder := server.GetValue(lockKey);
    if holder != Some(token) {
      return true;
    }
    var reply := server.SetEx(doneKey, "1", ttl);
    if reply == InvalidExpire {
      return false; // the script aborts here: the lock is left to its expiry
    }
    server.Delete(lockKey);
    ok := true;
  }

  // ----- The lease object and the task around it -----

  datatype Timing = Timing(lockSeconds: int, dedupSeconds: int, defaultDedup: int)

  /** `dedup_seconds or default`: zero falls back to the AP-reboot window. */
  function DedupSeconds(t: Timing): int {
    if t.dedupSeconds != 0 then t.dedupSeconds else t.defaultDedup
  }

  /** A mark by the holder keeps its marker for the lease's own window, or for the default one
      when that is zero; it drops the lock, and a negative window changes nothing. */
  lemma MarkLasts(s: Store<Key>, now: int, scope: string, switchId: string, cycleId: string, token: string,
                  timing: Timing, t: int)
    requires Get(s, LockKey(scope, switchId), now) == Some(token)
    ensures var lock, done := LockKey(scope, switchId), DoneKey(scope, switchId, cycleId);
            var s' := MarkStore(s, now, lock, done, token, DedupSeconds(timing));
            && (timing.dedupSeconds > 0 ==>
                  lock !in s' && (Live(s', done, t) <==> t < now + timing.dedupSeconds))
            && (timing.dedupSeconds == 0 && timing.defaultDedup > 0 ==>
                  lock !in s' && (Live(s', done, t) <==> t < now + timing.defaultDedup))
            && (timing.dedupSeconds < 0 || (timing.dedupSeconds == 0 && timing.defaultDedup <= 0) ==> s' == s)
  {
  }

  datatype Refusal = AlreadyAttempted | AlreadyRunning | LockUnavailable

  class Lease {
    const lockKey: Key
    const doneKey: Key
    const token: string
    const timing: Timing
    var closed: bool

    constructor (lockKey: Key, doneKey: Key, token: string, timing: Timing)
      ensures this.lockKey == lockKey && this.doneKey == doneKey
      ensures this.token == token && this.timing == timing && !closed
    {
      this.lockKey := lockKey;
      this.doneKey := doneKey;
      this.token := token;
      this.timing := timing;
      closed := false;
    }

    /** `raised` is the RedisError the caller swallows. */
    method MarkAttempted(server: Server<Key>, fault: Fault) returns (raised: bool)
      modifies server`store
      ensures fault != Healthy ==> raised
      ensures fault == LostRequest ==> server.store == old(server.store)
      ensures fault != LostRequest ==>
        server.store == MarkStore(old(server.store), server.now, lockKey, doneKey, token, DedupSeconds(timing))
      ensures
        fault != LostRequest && Get(old(server.store), lockKey, server.now) == Some(token) && doneKey != lockKey ==>
        var window := if timing.dedupSeconds == 0 then timing.defaultDedup else timing.dedupSeconds;
        if window <= 0 then raised && server.store == old(server.store)
        else lockKey !in server.store && forall t :: Live(server.store, doneKey, t) <==> t < server.now + window
      ensures fault == Healthy && Get(old(server.store), lockKey, server.now) != Some(token) ==> !raised
    {
      if fault == LostRequest {
        return true;
      }
      var ok := EvalMark(server, lockKey, doneKey, token, DedupSeconds(timing));
      raised := fault == LostReply || !ok;
    }

    method Close()
      modifies this
      ensures closed
    {
      closed := true;
    }
  }

  method AcquireSwitchLease(server: Server<Key>, scope: string, switchId: string, cycleId: string,
                            token: string, timing: Timing, fault: Fault)
    returns (lease: Lease?, refusal: Option<Refusal>)
    modifies server`store
    ensures lease != null ==> fresh(lease) && !lease.closed && lease.token == token && lease.timing == timing
    ensures lease != null ==>
              lease.lockKey == LockKey(scope, switchId) && lease.doneKey == DoneKey(scope, switchId, cycleId)
    ensures var reply := AcquireReply(old(server.store), server.now, LockKey(scope, switchId),
                                      DoneKey(scope, switchId, cycleId), timing.lockSeconds);
            refusal == (if fault != Healthy || reply == ScriptError then Some(LockUnavailable)
                        else if reply == AlreadyDone then Some(AlreadyAttempted)
                        else if reply == Busy then Some(AlreadyRunning)
                        else None)
    ensures lease == null <==> refusal.Some?
    ensures server.store == if fault == LostRequest then old(server.store)
                            else AcquireStore(old(server.store), server.now, LockKey(scope, switchId),
                                              DoneKey(scope, switchId, cycleId), token, timing.lockSeconds)
  {
    var lockKey := LockKey(scope, switchId);
    var doneKey := DoneKey(scope, switchId, cycleId);
    if fault == LostRequest {
      return null, Some(LockUnavailable);
    }
    var claim := EvalAcquire(server, lockKey, doneKey, token, timing.lockSeconds);
    if fault == LostReply || claim == ScriptError {
      return null, Some(LockUnavailable);
    }
    if claim == Claimed {
      lease := new Lease(lockKey, doneKey, token, timing);
      return lease, None;
    }
    lease := null;
    refusal := Some(if claim == AlreadyDone then AlreadyAttempted else AlreadyRunning);
  }

  /** How the task body ended; only the last two can have touched hardware. */
  datatype Body = SwitchNotFound | DisabledSinceDispatch | NoLongerEligible | Completed | Raised

  datatype TaskResult = Refused(refusal: Refusal) | Ran(body: Body)

  /** The try/finally shape shared by the AP-reboot and DHCP-clear tasks. What the
      rest of the fleet does to Redis while the body runs is `later`/`laterNow`. */
  method RunSwitchTask(server: Server<Key>, scope: string, switchId: string, cycleId: string, token: string,
                       timing: Timing, acquireFault: Fault, body: Body, markFault: Fault,
                       later: Store<Key>, laterNow: int)
    returns (result: TaskResult)
    modifies server
    ensures result.Ran? <==>
      acquireFault == Healthy &&
      AcquireReply(old(server.store), old(server.now), LockKey(scope, switchId),
                   DoneKey(scope, switchId, cycleId), timing.lockSeconds) == Claimed
    // Whatever the body did - even raise - the mark is attempted on the store it left behind.
    ensures result.Ran? ==> result.body == body && server.now == laterNow
    ensures result.Ran? && markFault == LostRequest ==> server.store == later
    ensures result.Ran? && markFault != LostRequest ==>
      server.store == MarkStore(later, laterNow, LockKey(scope, switchId), DoneKey(scope, switchId, cycleId),
                                token, DedupSeconds(timing))
    ensures result.Refused? ==> server.now == old(server.now)
    ensures result.Refused? && acquireFault != LostReply ==> server.store == old(server.store)
  {
    var lease, refusal := AcquireSwitchLease(server, scope, switchId, cycleId, token, timing, acquireFault);
    if lease == null {
      return Refused(refusal.value);
    }
    server.now := laterNow;
    server.store := later;
    var raised := lease.MarkAttempted(server, markFault);
    lease.Close();
    result := Ran(body);
  }

  // ----- Keys do not collide -----

  function RedisName(key: Key): string {
    match key
    case LockKey(scope, switchId) => "lock:" + scope + ":switch:" + switchId
    case DoneKey(scope, switchId, cycleId) => "done:" + scope + ":" + switchId + ":" + cycleId
  }

  predicate ColonFree(s: string) {
    forall i :: 0 <= i < |s| ==> s[i] != ':'
  }

  /** A colon-free field is delimited by the first colon after it. */
  lemma FieldSplit(a: string, x: string, b: string, y: string)
    requires ColonFree(a) && ColonFree(b)
    requires a + ":" + x == b + ":" + y
    ensures a == b && x == y
  {
    var s := a + ":" + x;
    var u := b + ":" + y;
    assert s[|a|] == ':' && u[|b|] == ':';
    assert forall i :: 0 <= i < |a| ==> s[i] == a[i];
    assert forall i :: 0 <= i < |b| ==> u[i] == b[i];
    assert a == s[..|a|] && b == u[..|b|];
    assert x == s[|a| + 1..] && y == u[|b| + 1..];
  }

  function NameTail(key: Key): string {
    match key
    case LockKey(_, switchId) => "switch:" + switchId
    case DoneKey(_, switchId, cycleId) => switchId + ":" + cycleId
  }

  lemma NameParts(key: Key)
    ensures |RedisName(key)| > 5 && RedisName(key)[5..] == key.scope + ":" + NameTail(key)
    ensures RedisName(key)[0] == if key.LockKey? then 'l' else 'd'
  {
    match key
    case LockKey(scope, switchId) =>
      assert RedisName(key) == "lock:" + (scope + ":" + NameTail(key));
    case DoneKey(scope, switchId, cycleId) =>
      assert RedisName(key) == "done:" + (scope + ":" + NameTail(key));
  }

  /** Scopes are constants and switch ids are UUIDs, so neither holds a colon; a
      cycle id may ("manual:<uuid>"). Different keys then have different names. */
  lemma NamesAreInjective(k: Key, l: Key)
    requires ColonFree(k.scope) && ColonFree(k.switchId) && ColonFree(l.scope) && ColonFree(l.switchId)
    ensures RedisName(k) == RedisName(l) <==> k == l
  {
    if RedisName(k) == RedisName(l) {
      assert RedisName(k)[0] == RedisName(l)[0];
      NameParts(k);
      NameParts(l);
      FieldSplit(k.scope, NameTail(k), l.scope, NameTail(l));
      if k.LockKey? {
        assert k.switchId == NameTail(k)[7..] && l.switchId == NameTail(l)[7..];
      } else {
        FieldSplit(k.switchId, k.cycleId, l.switchId, l.cycleId);
      }
    }
  }
}
