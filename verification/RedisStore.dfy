/** Redis as far as the lock protocols use it: keys, string values, one
    expiry per key, and commands (or whole Lua scripts) that are atomic.

    A key is gone from the instant its expiry is reached, whether or not Redis
    has physically removed it yet, so every read goes through `Live`. */
module RedisStore {
  import opened Wrappers

  datatype Entry = Entry(value: string, expiresAt: int)

  type Store<K> = map<K, Entry>

  /** What a client sees of one round trip. A lost reply still took effect. */
  datatype Fault = Healthy | LostRequest | LostReply

  datatype SetReply = Stored | NotStored | InvalidExpire

  predicate Live<K>(s: Store<K>, key: K, now: int) {
    key in s && now < s[key].expiresAt
  }

  function Get<K>(s: Store<K>, key: K, now: int): Option<string> {
    if Live(s, key, now) then Some(s[key].value) else None
  }

  class Server<K(==)> {
    var now: int
    var store: Store<K>

    constructor (now: int)
      ensures this.now == now && store == map[]
    {
      this.now := now;
      store := map[];
    }

    method Exists(key: K) returns (found: bool)
      ensures found == Live(store, key, now)
    {
      found := key in store && now < store[key].expiresAt;
    }

    method GetValue(key: K) returns (value: Option<string>)
      ensures value == Get(store, key, now)
    {
      value := if key in store && now < store[key].expiresAt then Some(store[key].value) else None;
    }

    /** SET key value EX ttl: Redis rejects a non-positive expiry. */
    method SetEx(key: K, value: string, ttl: int) returns (reply: SetReply)
      modifies this`store
      ensures reply == if ttl <= 0 then InvalidExpire else Stored
      ensures store == if ttl <= 0 then old(store) else old(store)[key := Entry(value, now + ttl)]
    {
      if ttl <= 0 {
        return InvalidExpire;
      }
      store := store[key := Entry(value, now + ttl)];
      reply := Stored;
    }

    /** SET key value NX EX ttl. */
    method SetNxEx(key: K, value: string, ttl: int) returns (reply: SetReply)
      modifies this`store
      ensures reply == if ttl <= 0 then InvalidExpire else if Live(old(store), key, now) then NotStored else Stored
      ensures store == if reply == Stored then old(store)[key := Entry(value, now + ttl)] else old(store)
    {
      if ttl <= 0 {
        return InvalidExpire;
      }
      var found := Exists(key);
      if found {
        return NotStored;
      }
      store := store[key := Entry(value, now + ttl)];
      reply := Stored;
    }

    method Delete(key: K)
      modifies this`store
      ensures store == old(store) - {key}
    {
      store := store - {key};
    }

    /** EXPIRE key ttl, on a key the caller has just read as present. */
    method Expire(key: K, ttl: int)
      requires key in store
      modifies this`store
      ensures store == old(store)[key := Entry(old(store)[key].value, now + ttl)]
    {
      store := store[key := store[key].(expiresAt := now + ttl)];
    }
  }
}
