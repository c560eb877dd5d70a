/** The process-local TTL/LRU cache (app/core/bounded_cache.py). The OrderedDict is
    a sequence of entries with distinct keys, least recently touched first. */
module BoundedCache {
  import opened Wrappers
  import opened Arithmetic

  /** The cache is parametric: nothing is assumed of keys but equality, nothing of values. */
  type TKey(==, !new)

  type TValue(!new)

  datatype Item = Item(key: TKey, expiresAt: real, value: TValue)

  type Items = seq<Item>

  ghost predicate DistinctKeys(items: Items) {
    forall i, j :: 0 <= i < j < |items| ==> items[i].key != items[j].key
  }

  /** Position of a key, or |items|. */
  function Find(items: Items, key: TKey): (i: nat)
    ensures i <= |items|
    ensures i < |items| ==> items[i].key == key
    ensures forall j :: 0 <= j < i ==> items[j].key != key
  {
    if items == [] || items[0].key == key then 0 else 1 + Find(items[1..], key)
  }

  function RemoveAt(items: Items, i: nat): Items
    requires i < |items|
  {
    items[..i] + items[i + 1..]
  }

  function Without(items: Items, key: TKey): Items {
    var i := Find(items, key);
    if i < |items| then RemoveAt(items, i) else items
  }

  function Fresh(items: Items, now: real): Items {
    if items == [] then []
    else (if items[0].expiresAt <= now then [] else [items[0]]) + Fresh(items[1..], now)
  }

  function LastN(items: Items, n: nat): Items {
    if |items| <= n then items else items[|items| - n..]
  }

  function AfterLookup(items: Items, key: TKey, now: real): Items {
    var i := Find(items, key);
    if i == |items| then items
    else if items[i].expiresAt <= now then RemoveAt(items, i)
    else RemoveAt(items, i) + [items[i]]
  }

  function LookupResult(items: Items, key: TKey, now: real): Option<TValue> {
    var i := Find(items, key);
    if i < |items| && items[i].expiresAt > now then Some(items[i].value) else None
  }

  function AfterSet(items: Items, key: TKey, value: TValue, now: real, ttl: real, maxsize: nat): Items {
    LastN(Without(Fresh(items, now), key) + [Item(key, now + ttl, value)], maxsize)
  }

  lemma RemoveKeepsDistinct(items: Items, i: nat)
    requires DistinctKeys(items) && i < |items|
    ensures DistinctKeys(RemoveAt(items, i))
    ensures forall j :: 0 <= j < |RemoveAt(items, i)| ==> RemoveAt(items, i)[j].key != items[i].key
  {
  }

  lemma {:induction false} FreshIsSubsequence(items: Items, now: real)
    ensures forall x :: x in Fresh(items, now) <==> x in items && x.expiresAt > now
    ensures DistinctKeys(items) ==> DistinctKeys(Fresh(items, now))
    ensures |Fresh(items, now)| <= |items|
  {
    if items != [] {
      FreshIsSubsequence(items[1..], now);
      assert forall x :: x in items <==> x == items[0] || x in items[1..];
      if DistinctKeys(items) {
        var rest := Fresh(items[1..], now);
        forall j | 0 <= j < |rest| ensures rest[j].key != items[0].key {
          assert rest[j] in rest && rest[j] in items[1..];
        }
      }
    }
  }

  lemma FreshUnfolds(items: Items, i: nat, now: real)
    requires i < |items|
    ensures Fresh(items[i..], now) ==
            (if items[i].expiresAt <= now then [] else [items[i]]) + Fresh(items[i + 1..], now)
  {
    assert items[i..][1..] == items[i + 1..];
  }

  lemma WithoutMembers(items: Items, key: TKey, x: Item)
    requires DistinctKeys(items)
    ensures x in Without(items, key) <==> x in items && x.key != key
  {
    var i, rest := Find(items, key), Without(items, key);
    if x in items && x.key != key {
      var j :| 0 <= j < |items| && items[j] == x;
      assert rest[if i < j then j - 1 else j] == x;
    }
    if x in rest {
      var j :| 0 <= j < |rest| && rest[j] == x;
      assert x == items[if j < i then j else j + 1];
    }
  }

  lemma WithoutKeepsDistinct(items: Items, key: TKey)
    requires DistinctKeys(items)
    ensures DistinctKeys(Without(items, key)) && |Without(items, key)| <= |items|
    ensures forall x :: x in Without(items, key) <==> x in items && x.key != key
  {
    if Find(items, key) < |items| {
      RemoveKeepsDistinct(items, Find(items, key));
    }
    forall x ensures x in Without(items, key) <==> x in items && x.key != key {
      WithoutMembers(items, key, x);
    }
  }

  lemma AppendIsDistinct(items: Items, y: Item)
    requires DistinctKeys(items) && forall x :: x in items ==> x.key != y.key
    ensures DistinctKeys(items + [y])
  {
    forall i, j | 0 <= i < j < |items + [y]| ensures (items + [y])[i].key != (items + [y])[j].key {
      assert (items + [y])[i] == items[i] && items[i] in items;
    }
  }

  lemma LastNKeepsDistinct(items: Items, n: nat)
    requires DistinctKeys(items)
    ensures DistinctKeys(LastN(items, n)) && |LastN(items, n)| <= n
  {
  }

  lemma SetKeepsShape(items: Items, key: TKey, value: TValue, now: real, ttl: real, maxsize: nat)
    requires DistinctKeys(items)
    ensures DistinctKeys(AfterSet(items, key, value, now, ttl, maxsize))
    ensures |AfterSet(items, key, value, now, ttl, maxsize)| <= maxsize
  {
    hide Fresh, Find, Without, LastN, DistinctKeys;
    FreshIsSubsequence(items, now);
    var kept, added := Without(Fresh(items, now), key), Item(key, now + ttl, value);
    WithoutKeepsDistinct(Fresh(items, now), key);
    AppendIsDistinct(kept, added);
    LastNKeepsDistinct(kept + [added], maxsize);
  }

  method SelectFresh(items: Items, now: real) returns (kept: Items)
    ensures kept == Fresh(items, now)
  {
    kept := [];
    var i := 0;
    assert items[0..] == items;
    while i < |items|
      invariant 0 <= i <= |items|
      invariant kept + Fresh(items[i..], now) == Fresh(items, now)
    {
      FreshUnfolds(items, i, now);
      if items[i].expiresAt > now {
        assert kept + [items[i]] + Fresh(items[i + 1..], now) == kept + ([items[i]] + Fresh(items[i + 1..], now));
        kept := kept + [items[i]];
      }
      i := i + 1;
    }
  }

  class Cache {
    const maxsize: nat
    const ttl: real
    var items: Items

    ghost predicate Valid()
      reads this
    {
      maxsize >= 1 && ttl > 0.0 && DistinctKeys(items)
    }

    constructor (maxsize: nat, ttl: real)
      requires maxsize >= 1 && ttl > 0.0 // the source raises ValueError otherwise
      ensures Valid() && items == [] && this.maxsize == maxsize && this.ttl == ttl
    {
      this.maxsize := maxsize;
      this.ttl := ttl;
      items := [];
    }

    method Lookup(key: TKey, now: real) returns (value: Option<TValue>)
      requires Valid()
      modifies this
      ensures Valid()
      ensures value == LookupResult(old(items), key, now)
      ensures items == AfterLookup(old(items), key, now)
      ensures value.None? ==> (forall x :: x in old(items) && x.key == key ==> x.expiresAt <= now)
      ensures value.None? ==> (forall x :: x in items <==> x in old(items) && x.key != key)
      ensures value.Some? ==> items != [] && var x := items[|items| - 1];
        x.key == key && x.value == value.value && x.expiresAt > now && x in old(items)
    {
      var i := Find(items, key);
      if i == |items| {
        return None;
      }
      RemoveKeepsDistinct(items, i);
      var entry := items[i];
      items := RemoveAt(items, i);
      if entry.expiresAt <= now {
        return None;
      }
      items := items + [entry];
      value := Some(entry.value);
    }

    method RemoveExpired(now: real)
      requires Valid()
      modifies this
      ensures Valid() && items == Fresh(old(items), now)
    {
      FreshIsSubsequence(items, now);
      items := SelectFresh(items, now);
    }

    method Set(key: TKey, value: TValue, now: real)
      requires Valid()
      modifies this
      ensures Valid()
      ensures items == AfterSet(old(items), key, value, now, ttl, maxsize)
    {
      hide Fresh, DistinctKeys;
      SetKeepsShape(items, key, value, now, ttl, maxsize);
      RemoveExpired(now);
      var i := Find(items, key);
      var full := (if i < |items| then RemoveAt(items, i) else items) + [Item(key, now + ttl, value)];
      items := full;
      while |items| > maxsize
        invariant |items| <= |full| && items == full[|full| - |items|..]
        invariant |items| >= maxsize || items == full
      {
        items := items[1..]; // popitem(last=False)
      }
    }

    method Clear()
      requires Valid()
      modifies this
      ensures Valid() && items == []
    {
      items := [];
    }

    method Length(now: real) returns (n: nat)
      requires Valid()
      modifies this
      ensures Valid() && items == Fresh(old(items), now) && n == |items|
    {
      RemoveExpired(now);
      n := |items|;
    }
  }

  // ----- Histories -----

  datatype Op = Set(key: TKey, value: TValue, at: real) | Lookup(key: TKey, at: real) | Len(at: real) | Clear(at: real)

  datatype Config = Config(maxsize: nat, ttl: real)

  function Apply(items: Items, op: Op, cfg: Config): Items {
    match op
    case Set(k, v, at) => AfterSet(items, k, v, at, cfg.ttl, cfg.maxsize)
    case Lookup(k, at) => AfterLookup(items, k, at)
    case Len(at) => Fresh(items, at)
    case Clear(_) => []
  }

  /** The cache before operation k of a history that starts empty. */
  function Before(ops: seq<Op>, k: nat, cfg: Config): Items
    requires k <= |ops|
  {
    if k == 0 then [] else Apply(Before(ops, k - 1, cfg), ops[k - 1], cfg)
  }

  predicate Monotone(ops: seq<Op>) {
    forall i, j :: 0 <= i <= j < |ops| ==> ops[i].at <= ops[j].at
  }

  /** Operation k touches `key`: it sets it, or looks it up and hits. */
  ghost predicate Touches(ops: seq<Op>, k: nat, key: TKey, cfg: Config)
    requires k < |ops|
  {
    match ops[k]
    case Set(k', _, _) => k' == key
    case Lookup(k', at) => k' == key && LookupResult(Before(ops, k, cfg), key, at).Some?
    case _ => false
  }

  /** The keys other than `key` touched by operations from..to. */
  ghost function OthersTouched(ops: seq<Op>, from: nat, to: nat, key: TKey, cfg: Config): set<TKey>
    requires from <= to <= |ops|
  {
    set k | from <= k < to && (ops[k].Set? || ops[k].Lookup?) && ops[k].key != key &&
      Touches(ops, k, ops[k].key, cfg) :: ops[k].key
  }

  lemma LookupKeepsDistinct(items: Items, key: TKey, now: real)
    requires DistinctKeys(items)
    ensures DistinctKeys(AfterLookup(items, key, now)) && |AfterLookup(items, key, now)| <= |items|
    ensures forall x :: x in AfterLookup(items, key, now) ==> x in items
  {
    var i := Find(items, key);
    if i < |items| {
      RemoveKeepsDistinct(items, i);
      var rest := RemoveAt(items, i);
      assert forall x :: x in rest ==> x in items;
      AppendIsDistinct(rest, items[i]);
    }
  }

  lemma ApplyKeepsShape(items: Items, op: Op, cfg: Config)
    requires DistinctKeys(items) && |items| <= cfg.maxsize
    ensures DistinctKeys(Apply(items, op, cfg)) && |Apply(items, op, cfg)| <= cfg.maxsize
  {
    match op
    case Set(k, v, at) => SetKeepsShape(items, k, v, at, cfg.ttl, cfg.maxsize);
    case Lookup(k, at) => LookupKeepsDistinct(items, k, at);
    case Len(at) => FreshIsSubsequence(items, at);
    case Clear(_) =>
  }

  lemma EmptyIsDistinct()
    ensures DistinctKeys([])
  {
  }

  /** The cache never holds more than maxsize entries, one per key. */
  lemma {:induction false} NeverOverfull(ops: seq<Op>, k: nat, cfg: Config)
    requires k <= |ops|
    ensures DistinctKeys(Before(ops, k, cfg)) && |Before(ops, k, cfg)| <= cfg.maxsize
  {
    hide Apply, DistinctKeys;
    if k == 0 {
      EmptyIsDistinct();
    } else {
      NeverOverfull(ops, k - 1, cfg);
      ApplyKeepsShape(Before(ops, k - 1, cfg), ops[k - 1], cfg);
    }
  }

  /** Operation j is the last set of its key before k, and nothing was cleared since. */
  ghost predicate LastSet(ops: seq<Op>, j: nat, k: nat, key: TKey)
    requires k <= |ops|
  {
    && j < k && ops[j].Set? && ops[j].key == key
    && forall m :: j < m < k ==> !ops[m].Clear? && !(ops[m].Set? && ops[m].key == key)
  }

  lemma AppliedItemOrigin(items: Items, op: Op, cfg: Config, x: Item)
    requires DistinctKeys(items) && x in Apply(items, op, cfg)
    ensures !op.Clear?
    ensures if op.Set? && op.key == x.key then x == Item(op.key, op.at + cfg.ttl, op.value) else x in items
  {
    hide Fresh, Find, Without, DistinctKeys, AfterLookup;
    match op
    case Set(k, v, at) =>
      FreshIsSubsequence(items, at);
      WithoutKeepsDistinct(Fresh(items, at), k);
    case Lookup(k, at) => LookupKeepsDistinct(items, k, at);
    case Len(at) => FreshIsSubsequence(items, at);
    case Clear(_) =>
  }

  /** Whatever is held for a key is what the timed map holds: the value of its last
      set, expiring ttl after that set. */
  lemma {:induction false} HeldIsLastSet(ops: seq<Op>, k: nat, cfg: Config, x: Item) returns (j: nat)
    requires k <= |ops| && x in Before(ops, k, cfg)
    ensures LastSet(ops, j, k, x.key)
    ensures x == Item(ops[j].key, ops[j].at + cfg.ttl, ops[j].value)
    decreases k
  {
    hide Apply;
    var items := Before(ops, k - 1, cfg);
    NeverOverfull(ops, k - 1, cfg);
    AppliedItemOrigin(items, ops[k - 1], cfg, x);
    if ops[k - 1].Set? && ops[k - 1].key == x.key {
      j := k - 1;
    } else {
      j := HeldIsLastSet(ops, k - 1, cfg, x);
    }
  }

  /** A hit is never stale: it returns the value of the key's last set, made less than ttl ago. */
  lemma HitIsLastSetUnexpired(ops: seq<Op>, k: nat, key: TKey, at: real, cfg: Config) returns (j: nat)
    requires k <= |ops| && LookupResult(Before(ops, k, cfg), key, at).Some?
    ensures LastSet(ops, j, k, key)
    ensures LookupResult(Before(ops, k, cfg), key, at) == Some(ops[j].value) && at < ops[j].at + cfg.ttl
  {
    var items := Before(ops, k, cfg);
    j := HeldIsLastSet(ops, k, cfg, items[Find(items, key)]);
  }

  // ----- Retention -----

  /** Entry x is held, and everything touched more recently is a key of `others`. */
  ghost predicate HeldBelow(items: Items, x: Item, others: set<TKey>) {
    exists i :: 0 <= i < |items| && items[i] == x && OnlyAfter(items, i, others)
  }

  ghost predicate OnlyAfter(items: Items, i: int, others: set<TKey>) {
    forall j :: i < j < |items| && j >= 0 ==> items[j].key in others
  }

  lemma {:induction false} FewAfter(items: Items, i: nat, others: set<TKey>)
    requires i < |items| && DistinctKeys(items) && OnlyAfter(items, i, others)
    ensures |items| - i - 1 <= |others|
    decreases |items| - i
  {
    if i + 1 < |items| {
      var k := items[i + 1].key;
      assert forall j :: i + 1 < j < |items| ==> items[j].key in others - {k};
      FewAfter(items, i + 1, others - {k});
    }
  }

  lemma {:induction false} FreshKeepsHeld(items: Items, now: real, i: nat, others: set<TKey>)
    requires i < |items| && items[i].expiresAt > now && OnlyAfter(items, i, others)
    ensures HeldBelow(Fresh(items, now), items[i], others)
    decreases |items|
  {
    hide HeldBelow;
    var rest := Fresh(items[1..], now);
    FreshIsSubsequence(items[1..], now);
    if i == 0 {
      forall j | 0 <= j < |rest| ensures rest[j].key in others {
        assert rest[j] in rest && rest[j] in items[1..];
      }
      HeadIsHeld(items[0], rest, others);
    } else {
      assert OnlyAfter(items[1..], i - 1, others) by {
        assert forall j :: i - 1 < j < |items[1..]| ==> items[1..][j] == items[j + 1];
      }
      FreshKeepsHeld(items[1..], now, i - 1, others);
      PrependKeepsHeld(items[0], rest, items[i], others);
      assert [] + rest == rest;
    }
  }

  lemma HeadIsHeld(x: Item, rest: Items, others: set<TKey>)
    requires forall j :: 0 <= j < |rest| ==> rest[j].key in others
    ensures HeldBelow([x] + rest, x, others)
  {
    assert ([x] + rest)[0] == x && OnlyAfter([x] + rest, 0, others);
  }

  lemma PrependKeepsHeld(y: Item, items: Items, x: Item, others: set<TKey>)
    requires HeldBelow(items, x, others)
    ensures HeldBelow([y] + items, x, others)
  {
    var i :| 0 <= i < |items| && items[i] == x && OnlyAfter(items, i, others);
    assert ([y] + items)[i + 1] == x && OnlyAfter([y] + items, i + 1, others);
  }

  lemma RemoveKeepsHeld(items: Items, r: nat, i: nat, others: set<TKey>)
    requires i < |items| && r < |items| && r != i && OnlyAfter(items, i, others)
    ensures HeldBelow(RemoveAt(items, r), items[i], others)
  {
    var i' := if r < i then i - 1 else i;
    var items' := RemoveAt(items, r);
    assert items'[i'] == items[i];
    assert forall j :: i' < j < |items'| ==> items'[j] == items[if j < r then j else j + 1];
    assert OnlyAfter(items', i', others);
  }

  lemma AppendKeepsHeld(items: Items, x: Item, y: Item, others: set<TKey>)
    requires HeldBelow(items, x, others)
    ensures HeldBelow(items + [y], x, others + {y.key})
  {
    var i :| 0 <= i < |items| && items[i] == x && OnlyAfter(items, i, others);
    assert (items + [y])[i] == x && OnlyAfter(items + [y], i, others + {y.key});
  }

  lemma SetKeepsHeld(items: Items, k: TKey, v: TValue, at: real, x: Item, others: set<TKey>, cfg: Config)
    requires DistinctKeys(items) && HeldBelow(items, x, others)
    requires k != x.key && at < x.expiresAt && |others + {k}| < cfg.maxsize
    ensures HeldBelow(AfterSet(items, k, v, at, cfg.ttl, cfg.maxsize), x, others + {k})
  {
    hide Fresh, Find, RemoveAt, Without, LastN, OnlyAfter;
    var i :| 0 <= i < |items| && items[i] == x && OnlyAfter(items, i, others);
    FreshKeepsHeld(items, at, i, others);
    FreshIsSubsequence(items, at);
    var alive := Fresh(items, at);
    WithoutKeepsHeld(alive, k, x, others);
    WithoutKeepsDistinct(alive, k);
    var added := Item(k, at + cfg.ttl, v);
    AppendIsDistinct(Without(alive, k), added);
    AppendKeepsHeld(Without(alive, k), x, added, others);
    LastNKeepsHeld(Without(alive, k) + [added], x, others + {k}, cfg.maxsize);
  }

  lemma WithoutKeepsHeld(items: Items, k: TKey, x: Item, others: set<TKey>)
    requires HeldBelow(items, x, others) && k != x.key
    ensures HeldBelow(Without(items, k), x, others)
  {
    var i :| 0 <= i < |items| && items[i] == x && OnlyAfter(items, i, others);
    if Find(items, k) < |items| {
      RemoveKeepsHeld(items, Find(items, k), i, others);
    }
  }

  lemma LookupKeepsHeld(items: Items, k: TKey, at: real, x: Item, others: set<TKey>)
    requires DistinctKeys(items) && HeldBelow(items, x, others) && at < x.expiresAt
    ensures HeldBelow(AfterLookup(items, k, at), x,
                      if k != x.key && LookupResult(items, k, at).Some? then others + {k} else others)
  {
    var i :| 0 <= i < |items| && items[i] == x && OnlyAfter(items, i, others);
    var f := Find(items, k);
    if k == x.key {
      assert f == i;
      var moved := RemoveAt(items, f) + [x];
      assert moved[|items| - 1] == x && OnlyAfter(moved, |items| - 1, others);
    } else if f < |items| {
      RemoveKeepsHeld(items, f, i, others);
      AppendKeepsHeld(RemoveAt(items, f), x, items[f], others);
    }
  }

  /** One operation that neither clears the cache nor sets x's key leaves x held, below
      at most the one key it touches - while that makes fewer than maxsize keys. */
  lemma StepKeepsHeld(items: Items, op: Op, x: Item, others: set<TKey>, cfg: Config)
    requires DistinctKeys(items) && HeldBelow(items, x, others)
    requires !op.Clear? && !(op.Set? && op.key == x.key) && op.at < x.expiresAt
    requires var touched := op.Set? || (op.Lookup? && op.key != x.key && LookupResult(items, op.key, op.at).Some?);
             |if touched then others + {op.key} else others| < cfg.maxsize
    ensures var touched := op.Set? || (op.Lookup? && op.key != x.key && LookupResult(items, op.key, op.at).Some?);
            HeldBelow(Apply(items, op, cfg), x, if touched then others + {op.key} else others)
  {
    match op
    case Set(k, v, at) => SetKeepsHeld(items, k, v, at, x, others, cfg);
    case Lookup(k, at) => LookupKeepsHeld(items, k, at, x, others);
    case Len(at) =>
      var i :| 0 <= i < |items| && items[i] == x && OnlyAfter(items, i, others);
      FreshKeepsHeld(items, at, i, others);
  }

  lemma LastNKeepsHeld(items: Items, x: Item, others: set<TKey>, n: nat)
    requires DistinctKeys(items) && HeldBelow(items, x, others) && |others| < n
    ensures HeldBelow(LastN(items, n), x, others)
  {
    var i :| 0 <= i < |items| && items[i] == x && OnlyAfter(items, i, others);
    FewAfter(items, i, others);
    DropKeepsHeld(items, if |items| <= n then 0 else |items| - n, i, others);
  }

  lemma DropKeepsHeld(items: Items, cut: nat, i: nat, others: set<TKey>)
    requires cut <= i < |items| && OnlyAfter(items, i, others)
    ensures HeldBelow(items[cut..], items[i], others)
  {
    var last := items[cut..];
    forall j | i - cut < j < |last|
      ensures last[j].key in others
    {
      assert last[j] == items[j + cut];
    }
    assert last[i - cut] == items[i] && OnlyAfter(last, i - cut, others);
  }

  lemma {:induction false} HeldThroughout(ops: seq<Op>, j: nat, k: nat, x: Item, cfg: Config)
    requires j < k <= |ops| && HeldBelow(Before(ops, j + 1, cfg), x, {})
    requires forall m :: j < m < k ==>
               !ops[m].Clear? && !(ops[m].Set? && ops[m].key == x.key) && ops[m].at < x.expiresAt
    requires |OthersTouched(ops, j + 1, k, x.key, cfg)| < cfg.maxsize
    ensures HeldBelow(Before(ops, k, cfg), x, OthersTouched(ops, j + 1, k, x.key, cfg))
    decreases k
  {
    hide Apply, HeldBelow, OthersTouched, LookupResult;
    if k == j + 1 {
      NothingTouched(ops, k, x.key, cfg);
    } else {
      var prior := OthersTouched(ops, j + 1, k - 1, x.key, cfg);
      TouchedExtends(ops, j + 1, k, x.key, cfg);
      SubsetIsSmaller(prior, OthersTouched(ops, j + 1, k, x.key, cfg));
      HeldThroughout(ops, j, k - 1, x, cfg);
      NeverOverfull(ops, k - 1, cfg);
      StepKeepsHeld(Before(ops, k - 1, cfg), ops[k - 1], x, prior, cfg);
    }
  }

  lemma NothingTouched(ops: seq<Op>, k: nat, key: TKey, cfg: Config)
    requires k <= |ops|
    ensures OthersTouched(ops, k, k, key, cfg) == {}
  {
  }

  lemma TouchedExtends(ops: seq<Op>, from: nat, k: nat, key: TKey, cfg: Config)
    requires from < k <= |ops|
    requires !(ops[k - 1].Set? && ops[k - 1].key == key)
    ensures var op, prior := ops[k - 1], OthersTouched(ops, from, k - 1, key, cfg);
            var touched := op.Set? ||
              (op.Lookup? && op.key != key && LookupResult(Before(ops, k - 1, cfg), op.key, op.at).Some?);
            OthersTouched(ops, from, k, key, cfg) == if touched then prior + {op.key} else prior
  {
    hide Apply, LookupResult, Before;
    var op := ops[k - 1];
    var touched := op.Set? ||
      (op.Lookup? && op.key != key && LookupResult(Before(ops, k - 1, cfg), op.key, op.at).Some?);
    assert touched <==> (op.Set? || op.Lookup?) && op.key != key && Touches(ops, k - 1, op.key, cfg);
  }

  lemma TouchedIsNewest(ops: seq<Op>, j: nat, key: TKey, cfg: Config) returns (x: Item)
    requires j < |ops| && Touches(ops, j, key, cfg) && cfg.maxsize >= 1
    ensures x.key == key && x in Before(ops, j + 1, cfg) && HeldBelow(Before(ops, j + 1, cfg), x, {})
  {
    var items := Before(ops, j + 1, cfg);
    x := items[|items| - 1];
    assert OnlyAfter(items, |items| - 1, {});
  }

  /** LRU retention: a key that was set at s and touched at j, whose entry has not
      expired, and since whose touch fewer than maxsize other keys were touched, is
      still held, and a lookup returns the value of its last set. */
  lemma Retained(ops: seq<Op>, s: nat, j: nat, k: nat, key: TKey, now: real, cfg: Config)
    requires cfg.maxsize >= 1 && Monotone(ops) && s <= j < k <= |ops|
    requires LastSet(ops, s, k, key) && Touches(ops, j, key, cfg)
    requires ops[k - 1].at <= now < ops[s].at + cfg.ttl
    requires |OthersTouched(ops, j + 1, k, key, cfg)| < cfg.maxsize
    ensures LookupResult(Before(ops, k, cfg), key, now) == Some(ops[s].value)
  {
    hide Apply, Touches;
    var x := TouchedIsNewest(ops, j, key, cfg);
    var s' := HeldIsLastSet(ops, j + 1, cfg, x);
    assert s' == s;
    HeldThroughout(ops, j, k, x, cfg);
    NeverOverfull(ops, k, cfg);
    var items := Before(ops, k, cfg);
    var i :| 0 <= i < |items| && items[i] == x && OnlyAfter(items, i, OthersTouched(ops, j + 1, k, key, cfg));
    assert Find(items, key) == i;
  }

  // ----- Eviction -----

  lemma {:induction false} FreshKeepsOrder(items: Items, now: real, i: nat, j: nat) returns (p: nat, q: nat)
    requires i < j < |Fresh(items, now)|
    ensures p < q < |items| && items[p] == Fresh(items, now)[i] && items[q] == Fresh(items, now)[j]
    decreases |items|
  {
    var rest := Fresh(items[1..], now);
    if items[0].expiresAt <= now {
      p, q := FreshKeepsOrder(items[1..], now, i, j);
      p, q := p + 1, q + 1;
    } else if i == 0 {
      FreshIsSubsequence(items[1..], now);
      assert rest[j - 1] in rest && rest[j - 1] in items[1..];
      var m :| 0 <= m < |items[1..]| && items[1..][m] == rest[j - 1];
      p, q := 0, m + 1;
    } else {
      p, q := FreshKeepsOrder(items[1..], now, i - 1, j - 1);
      p, q := p + 1, q + 1;
    }
  }

  /** Removing a key keeps every other entry, at a position that preserves the order. */
  lemma WithoutPositions(items: Items, key: TKey, a: nat) returns (a': nat)
    requires a < |items| && items[a].key != key
    ensures a' < |Without(items, key)| && Without(items, key)[a'] == items[a]
    ensures forall b' :: a' < b' < |Without(items, key)| ==>
              exists b :: a < b < |items| && Without(items, key)[b'] == items[b]
  {
    var f, kept := Find(items, key), Without(items, key);
    a' := if f < a then a - 1 else a;
    forall b' | a' < b' < |kept| ensures exists b :: a < b < |items| && kept[b'] == items[b] {
      var b := if f <= b' && f < |items| then b' + 1 else b';
      assert kept[b'] == items[b];
    }
  }

  /** An unexpired entry is dropped by a set of another key only when the cache is full
      of entries that are all unexpired and all touched more recently than it. */
  lemma EvictedIsLeastRecent(items: Items, key: TKey, value: TValue, now: real, cfg: Config, i: nat, y: Item)
    requires DistinctKeys(items) && i < |items| && items[i].key != key && items[i].expiresAt > now && cfg.ttl > 0.0
    requires items[i] !in AfterSet(items, key, value, now, cfg.ttl, cfg.maxsize)
    requires y in AfterSet(items, key, value, now, cfg.ttl, cfg.maxsize)
    ensures |AfterSet(items, key, value, now, cfg.ttl, cfg.maxsize)| == cfg.maxsize
    ensures y.expiresAt > now
    ensures y.key != key ==> exists q :: i < q < |items| && items[q] == y
  {
    hide Fresh, Find, RemoveAt, Without, LastN;
    FreshIsSubsequence(items, now);
    var alive := Fresh(items, now);
    var kept := Without(alive, key);
    WithoutKeepsDistinct(alive, key);
    assert items[i] in items && items[i] in alive;
    var a :| 0 <= a < |alive| && alive[a] == items[i];
    var a' := WithoutPositions(alive, key, a);
    var m := CutAfter(kept, Item(key, now + cfg.ttl, value), cfg.maxsize, a', y);
    if m < |kept| {
      var b :| a < b < |alive| && kept[m] == alive[b];
      var p, q := FreshKeepsOrder(items, now, a, b);
      assert items[p].key == items[i].key;
    }
  }

  /** LastN drops a prefix: what survives the drop of position a lies behind it. */
  lemma CutAfter(kept: Items, added: Item, n: nat, a: nat, y: Item) returns (m: nat)
    requires a < |kept| && kept[a] !in LastN(kept + [added], n) && y in LastN(kept + [added], n)
    ensures |LastN(kept + [added], n)| == n
    ensures a < m <= |kept| && (kept + [added])[m] == y
  {
    var all := kept + [added];
    var last := LastN(all, n);
    var cut := |all| - |last|;
    assert forall j :: 0 <= j < |last| ==> last[j] == all[j + cut];
    assert forall j :: cut <= j < |all| ==> all[j] == last[j - cut];
    assert all[a] == kept[a];
    var j :| 0 <= j < |last| && last[j] == y;
    m := j + cut;
  }
}
