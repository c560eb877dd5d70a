/** The configured targets of the Honest Sign checks, their IP overrides, and their
    links to inventory cash registers (app/services/honest_sign.py). Entries are taken
    as already tokenised. */
module HonestSignTargets {
  import opened Wrappers

  /** One entry of the configuration; `host` is None when it is not an IPv4 address. `key`
      is the folded host name, "" when there is none. */
  datatype Entry = Entry(host: Option<string>, title: string, key: string)

  datatype Target = Target(host: string, original: string, title: string, key: string)

  type Overrides = map<string, string>

  // ----- configured_targets -----

  function Effective(overrides: Overrides, original: string): string {
    if original in overrides then overrides[original] else original
  }

  predicate Names(targets: seq<Target>, original: string) {
    exists t :: t in targets && t.original == original
  }

  function Configured(entries: seq<Entry>, overrides: Overrides): seq<Target> {
    if entries == [] then []
    else
      var init, last := Configured(entries[..|entries| - 1], overrides), entries[|entries| - 1];
      if last.host.None? || Names(init, last.host.value) then init
      else init + [Target(Effective(overrides, last.host.value), last.host.value, last.title, last.key)]
  }

  method ConfiguredTargets(entries: seq<Entry>, overrides: Overrides) returns (targets: seq<Target>)
    ensures targets == Configured(entries, overrides)
  {
    targets := [];
    var seen: set<string> := {};
    var i := 0;
    while i < |entries|
      invariant 0 <= i <= |entries|
      invariant targets == Configured(entries[..i], overrides)
      invariant forall o :: o in seen <==> Names(targets, o)
    {
      var entry := entries[i];
      assert entries[..i + 1][..i] == entries[..i];
      i := i + 1;
      if entry.host.None? || entry.host.value in seen {
        continue;
      }
      var original := entry.host.value;
      seen := seen + {original};
      var target := Target(Effective(overrides, original), original, entry.title, entry.key);
      assert forall o :: Names(targets + [target], o) <==> Names(targets, o) || o == original by {
        assert target in targets + [target];
      }
      targets := targets + [target];
    }
    assert entries[..i] == entries;
  }

  /** One target per distinct valid host, each at its effective address. */
  lemma {:induction false} ConfiguredMeaning(entries: seq<Entry>, overrides: Overrides)
    ensures var ts := Configured(entries, overrides);
            && (forall i, j :: 0 <= i < j < |ts| ==> ts[i].original != ts[j].original)
            && (forall t :: t in ts ==> t.host == Effective(overrides, t.original))
            && (forall o :: Names(ts, o) <==> exists e :: e in entries && e.host == Some(o))
  {
    if entries != [] {
      var init, last := entries[..|entries| - 1], entries[|entries| - 1];
      ConfiguredMeaning(init, overrides);
      var before, ts := Configured(init, overrides), Configured(entries, overrides);
      assert entries == init + [last];
      assert forall e :: e in entries <==> e in init || e == last;
      forall o
        ensures Names(ts, o) <==> exists e :: e in entries && e.host == Some(o)
      {
        if Names(before, o) {
          var t :| t in before && t.original == o;
          assert t in ts;
        } else if last.host == Some(o) {
          assert ts[|ts| - 1] in ts;
        }
      }
    }
  }

  /** Entry `k` is the first to configure its address. */
  predicate Introduces(entries: seq<Entry>, k: nat) {
    k < |entries| && entries[k].host.Some? && forall j :: 0 <= j < k ==> entries[j].host != entries[k].host
  }

  /** The target is checked at the override of its address, if there is one. */
  predicate IsTargetOf(t: Target, e: Entry, overrides: Overrides) {
    && e.host == Some(t.original) && t.title == e.title && t.key == e.key
    && t.host == if t.original in overrides then overrides[t.original] else t.original
  }

  /** The targets are those of the entries that introduce an address, in order, at positions `at`. */
  lemma {:induction false} ConfiguredEntries(entries: seq<Entry>, overrides: Overrides) returns (at: seq<nat>)
    ensures |at| == |Configured(entries, overrides)| && (forall i, j :: 0 <= i < j < |at| ==> at[i] < at[j])
    ensures forall k: nat :: k in at <==> Introduces(entries, k)
    ensures forall i :: 0 <= i < |at| ==>
              at[i] < |entries| && IsTargetOf(Configured(entries, overrides)[i], entries[at[i]], overrides)
  {
    if entries == [] {
      at := [];
    } else {
      var n := |entries| - 1;
      at := ConfiguredEntries(entries[..n], overrides);
      IntroducesLast(entries, overrides);
      hide Introduces, IsTargetOf, Names;
      if Introduces(entries, n) {
        TargetOfEntry(entries[n], overrides);
        at := at + [n];
      }
    }
  }

  lemma TargetOfEntry(e: Entry, overrides: Overrides)
    requires e.host.Some?
    ensures IsTargetOf(Target(Effective(overrides, e.host.value), e.host.value, e.title, e.key), e, overrides)
  {
  }

  lemma IntroducesLast(entries: seq<Entry>, overrides: Overrides)
    requires entries != []
    ensures var n := |entries| - 1;
            && (forall k: nat :: k < n ==> Introduces(entries[..n], k) == Introduces(entries, k))
            && (forall k: nat :: k > n ==> !Introduces(entries, k))
            && (forall k: nat :: k >= n ==> !Introduces(entries[..n], k))
            && (Introduces(entries, n) <==>
                  entries[n].host.Some? && !Names(Configured(entries[..n], overrides), entries[n].host.value))
  {
    var n := |entries| - 1;
    var init, last := entries[..n], entries[n];
    ConfiguredMeaning(init, overrides);
    assert forall j :: 0 <= j < n ==> init[j] == entries[j];
    if last.host.Some? && Names(Configured(init, overrides), last.host.value) {
      var e :| e in init && e.host == last.host;
      var j :| 0 <= j < n && init[j] == e;
      assert entries[j].host == last.host;
    }
    if j :| 0 <= j < n && entries[j].host == last.host {
      assert init[j] in init;
    }
  }

  /** The same targets, each at its effective address. */
  predicate Moved(ts: seq<Target>, ts': seq<Target>, overrides': Overrides) {
    && |ts'| == |ts|
    && forall i :: 0 <= i < |ts| ==> ts'[i] == ts[i].(host := Effective(overrides', ts[i].original))
  }

  lemma MovedNames(ts: seq<Target>, ts': seq<Target>, overrides': Overrides)
    requires Moved(ts, ts', overrides')
    ensures forall o :: Names(ts, o) <==> Names(ts', o)
  {
    hide Effective;
    assert forall i :: 0 <= i < |ts| ==> ts'[i].original == ts[i].original;
    forall o | Names(ts, o)
      ensures Names(ts', o)
    {
      var i :| 0 <= i < |ts| && ts[i].original == o;
      assert ts'[i] in ts';
    }
    forall o | Names(ts', o)
      ensures Names(ts, o)
    {
      var i :| 0 <= i < |ts'| && ts'[i].original == o;
      assert ts[i] in ts;
    }
  }

  /** Overrides change addresses only: which targets there are, and their order, titles and keys, stay. */
  lemma {:induction false} OverridesOnlyMoveHosts(entries: seq<Entry>, overrides: Overrides, overrides': Overrides)
    ensures Moved(Configured(entries, overrides), Configured(entries, overrides'), overrides')
    ensures forall o :: Names(Configured(entries, overrides), o) <==> Names(Configured(entries, overrides'), o)
  {
    hide Names, Effective;
    if entries != [] {
      OverridesOnlyMoveHosts(entries[..|entries| - 1], overrides, overrides');
    }
    MovedNames(Configured(entries, overrides), Configured(entries, overrides'), overrides');
  }

  // ----- set_target_ip_override -----

  /** An operator's request; None is an address that does not parse. */
  datatype Request = Request(original: Option<string>, newIp: Option<string>)

  datatype Answer = Redirected(target: Target) | UnknownTarget | Rejected

  /** No two targets are checked at one address, and none at another's configured address. */
  predicate Separated(targets: seq<Target>) {
    forall i, j :: 0 <= i < |targets| && 0 <= j < |targets| && i != j ==>
      targets[i].host != targets[j].host && targets[i].host != targets[j].original
  }

  predicate InUse(targets: seq<Target>, original: string, newIp: string) {
    exists t :: t in targets && t.original != original && (t.original == newIp || t.host == newIp)
  }

  predicate Accepts(entries: seq<Entry>, overrides: Overrides, r: Request) {
    && r.original.Some? && r.newIp.Some?
    && Names(Configured(entries, overrides), r.original.value)
    && !InUse(Configured(entries, overrides), r.original.value, r.newIp.value)
  }

  function Applied(entries: seq<Entry>, overrides: Overrides, r: Request): Overrides {
    if Accepts(entries, overrides, r) then overrides[r.original.value := r.newIp.value] else overrides
  }

  lemma RedirectedTarget(entries: seq<Entry>, overrides: Overrides, original: string, newIp: string)
    requires Names(Configured(entries, overrides), original)
    ensures var targets := Configured(entries, overrides[original := newIp]);
            (exists t :: t in targets && t.original == original) &&
            (forall t :: t in targets && t.original == original ==> t.host == newIp)
  {
    OverridesOnlyMoveHosts(entries, overrides, overrides[original := newIp]);
    ConfiguredMeaning(entries, overrides[original := newIp]);
    assert Names(Configured(entries, overrides[original := newIp]), original);
  }

  /** The table of overrides, keyed by original host. */
  class OverrideTable {
    var overrides: Overrides

    constructor ()
      ensures overrides == map[]
    {
      overrides := map[];
    }

    method SetTargetIpOverride(entries: seq<Entry>, r: Request) returns (answer: Answer)
      modifies this
      ensures overrides == Applied(entries, old(overrides), r)
      ensures answer.Redirected? <==> Accepts(entries, old(overrides), r)
      ensures answer.Redirected? ==>
                && answer.target in Configured(entries, overrides)
                && answer.target.original == r.original.value && answer.target.host == r.newIp.value
      ensures answer.UnknownTarget? <==>
                r.original.None? || (r.newIp.Some? && !Names(Configured(entries, old(overrides)), r.original.value))
    {
      hide Configured;
      if r.original.None? {
        return UnknownTarget;
      }
      if r.newIp.None? {
        return Rejected;
      }
      var original, newIp := r.original.value, r.newIp.value;
      var baseTargets := ConfiguredTargets(entries, map[]);
      OverridesOnlyMoveHosts(entries, map[], overrides);
      if !exists t :: t in baseTargets && t.original == original {
        return UnknownTarget;
      }
      var targets := ConfiguredTargets(entries, overrides);
      if exists t :: t in targets && t.original != original && (t.original == newIp || t.host == newIp) {
        return Rejected;
      }
      RedirectedTarget(entries, overrides, original, newIp);
      overrides := overrides[original := newIp];
      targets := ConfiguredTargets(entries, overrides);
      var target :| target in targets && target.original == original;
      answer := Redirected(target);
    }
  }

  /** The check is neither too weak nor too strict: of two valid addresses, the one being a
      configured target, the request is accepted just when the targets stay separated. */
  lemma AcceptedIffStillSeparated(entries: seq<Entry>, overrides: Overrides, original: string, newIp: string)
    requires Separated(Configured(entries, overrides))
    requires Names(Configured(entries, overrides), original)
    ensures Accepts(entries, overrides, Request(Some(original), Some(newIp))) <==>
            Separated(Configured(entries, overrides[original := newIp]))
  {
    hide Separated, InUse, Configured;
    var ts, ts' := Configured(entries, overrides), Configured(entries, overrides[original := newIp]);
    OverridesOnlyMoveHosts(entries, overrides, overrides[original := newIp]);
    ConfiguredMeaning(entries, overrides);
    var t :| t in ts && t.original == original;
    var i :| 0 <= i < |ts| && ts[i] == t;
    forall j | 0 <= j < |ts|
      ensures ts'[j] == if j == i then ts[j].(host := newIp) else ts[j]
    {
      assert ts[j] in ts;
      assert j != i ==> ts[j].original != original;
    }
    assert ts' == ts[i := ts[i].(host := newIp)];
    MovedIsSeparatedIff(ts, i, newIp);
  }

  lemma MovedIsSeparatedIff(ts: seq<Target>, i: nat, newIp: string)
    requires Separated(ts) && i < |ts|
    requires forall j, k :: 0 <= j < k < |ts| ==> ts[j].original != ts[k].original
    ensures Separated(ts[i := ts[i].(host := newIp)]) <==> !InUse(ts, ts[i].original, newIp)
  {
    var ts' := ts[i := ts[i].(host := newIp)];
    if InUse(ts, ts[i].original, newIp) {
      var u :| u in ts && u.original != ts[i].original && (u.original == newIp || u.host == newIp);
      var j :| 0 <= j < |ts| && ts[j] == u;
      assert ts'[j] == u && ts'[i].host == newIp;
    } else {
      forall j, k | 0 <= j < |ts'| && 0 <= k < |ts'| && j != k
        ensures ts'[j].host != ts'[k].host && ts'[j].host != ts'[k].original
      {
        assert ts[j] in ts && ts[k] in ts;
      }
    }
  }

  function AppliedAll(entries: seq<Entry>, overrides: Overrides, requests: seq<Request>): Overrides {
    if requests == [] then overrides
    else Applied(entries, AppliedAll(entries, overrides, requests[..|requests| - 1]), requests[|requests| - 1])
  }

  /** For a fixed configuration, any requests whatever keep the targets separated. */
  lemma {:induction false} OverridesKeepTargetsSeparated(entries: seq<Entry>, requests: seq<Request>)
    ensures Separated(Configured(entries, AppliedAll(entries, map[], requests)))
  {
    if requests == [] {
      ConfiguredMeaning(entries, map[]);
    } else {
      var init, last := requests[..|requests| - 1], requests[|requests| - 1];
      OverridesKeepTargetsSeparated(entries, init);
      var overrides := AppliedAll(entries, map[], init);
      if Accepts(entries, overrides, last) {
        AcceptedIffStillSeparated(entries, overrides, last.original.value, last.newIp.value);
      }
    }
  }

  /** A changed configuration can break it: an entry added later at an address that an
      override already uses, or whose own forgotten override points into use. */
  lemma AddedEntryIsSeparatedIff(entries: seq<Entry>, overrides: Overrides, host: string, title: string, key: string)
    requires Separated(Configured(entries, overrides))
    requires !Names(Configured(entries, overrides), host)
    ensures Separated(Configured(entries + [Entry(Some(host), title, key)], overrides)) <==>
            forall t :: t in Configured(entries, overrides) ==>
              t.host != host && t.host != Effective(overrides, host) && t.original != Effective(overrides, host)
  {
    var e := Entry(Some(host), title, key);
    assert (entries + [e])[..|entries|] == entries;
    var ts, ts' := Configured(entries, overrides), Configured(entries + [e], overrides);
    assert ts' == ts + [Target(Effective(overrides, host), host, title, key)];
    if Separated(ts') {
      forall t | t in ts
        ensures t.host != host && t.host != Effective(overrides, host) && t.original != Effective(overrides, host)
      {
        var i :| 0 <= i < |ts| && ts[i] == t;
        assert ts'[i] == t && ts'[|ts|].original == host;
      }
    } else {
      var i, j :| 0 <= i < |ts'| && 0 <= j < |ts'| && i != j &&
                  (ts'[i].host == ts'[j].host || ts'[i].host == ts'[j].original);
      assert i < |ts| ==> ts'[i] == ts[i] && ts[i] in ts;
      assert j < |ts| ==> ts'[j] == ts[j] && ts[j] in ts;
    }
  }

  lemma SingleTarget(e: Entry, overrides: Overrides)
    requires e.host.Some?
    ensures Configured([e], overrides) == [Target(Effective(overrides, e.host.value), e.host.value, e.title, e.key)]
  {
    assert [e][..0] == [];
  }

  lemma OnlyTargetMoves(e: Entry, x: string, y: string)
    requires e.host == Some(x)
    ensures AppliedAll([e], map[], [Request(Some(x), Some(y))]) == map[x := y]
  {
    hide Configured;
    var r := Request(Some(x), Some(y));
    SingleTarget(e, map[]);
    assert Target(x, x, e.title, e.key) in Configured([e], map[]);
    assert Accepts([e], map[], r);
    assert [r][..0] == [];
  }

  /** Redirect the only target to `y`, then configure `y` itself: both are checked at `y`. */
  lemma ALaterEntryCanCollide(x: string, y: string, title: string, key: string)
    requires x != y
    ensures var e, later := Entry(Some(x), title, key), Entry(Some(y), title, key);
            var moved := AppliedAll([e], map[], [Request(Some(x), Some(y))]);
            Separated(Configured([e], moved)) && !Separated(Configured([e] + [later], moved))
  {
    var e, r := Entry(Some(x), title, key), Request(Some(x), Some(y));
    OverridesKeepTargetsSeparated([e], [r]);
    OnlyTargetMoves(e, x, y);
    hide Configured, AppliedAll, Separated;
    var moved := map[x := y];
    SingleTarget(e, moved);
    assert Target(y, x, title, key) in Configured([e], moved);
    assert !Names(Configured([e], moved), y);
    AddedEntryIsSeparatedIff([e], moved, y, title, key);
  }

  // ----- link_cash_registers -----

  /** An inventory cash register under its folded host name. */
  datatype Register = Register(id: nat, key: string)

  datatype Links = Links(links: seq<(nat, Target)>, unmatched: seq<Target>, ambiguous: seq<string>)

  function Carrying(targets: seq<Target>, key: string): seq<Target> {
    if targets == [] then []
    else
      var init, last := Carrying(targets[..|targets| - 1], key), targets[|targets| - 1];
      if last.key == key then init + [last] else init
  }

  function Holding(registers: seq<Register>, key: string): seq<nat> {
    if registers == [] then []
    else
      var init, last := Holding(registers[..|registers| - 1], key), registers[|registers| - 1];
      if last.key == key then init + [last.id] else init
  }

  /** Some target and some register carry the key. */
  predicate Shared(targets: seq<Target>, registers: seq<Register>, key: string) {
    key != "" && Carrying(targets, key) != [] && Holding(registers, key) != []
  }

  /** Exactly one target and exactly one register carry the key. */
  predicate OneToOne(targets: seq<Target>, registers: seq<Register>, key: string) {
    key != "" && |Carrying(targets, key)| == 1 && |Holding(registers, key)| == 1
  }

  method GroupTargets(targets: seq<Target>) returns (byKey: map<string, seq<Target>>, order: seq<string>)
    ensures forall key :: key in byKey <==> key != "" && Carrying(targets, key) != []
    ensures forall key :: key in byKey ==> byKey[key] == Carrying(targets, key)
    ensures forall key :: key in order <==> key in byKey
    ensures forall i, j :: 0 <= i < j < |order| ==> order[i] != order[j]
  {
    byKey, order := map[], [];
    var i := 0;
    while i < |targets|
      invariant 0 <= i <= |targets|
      invariant forall key :: key in byKey <==> key != "" && Carrying(targets[..i], key) != []
      invariant forall key :: key in byKey ==> byKey[key] == Carrying(targets[..i], key)
      invariant forall key :: key in order <==> key in byKey
      invariant forall a, b :: 0 <= a < b < |order| ==> order[a] != order[b]
    {
      var t := targets[i];
      assert targets[..i + 1][..i] == targets[..i];
      if t.key != "" {
        if t.key in byKey {
          byKey := byKey[t.key := byKey[t.key] + [t]];
        } else {
          byKey, order := byKey[t.key := [t]], order + [t.key];
        }
      }
      i := i + 1;
    }
    assert targets[..i] == targets;
  }

  method GroupRegisters(registers: seq<Register>) returns (byKey: map<string, seq<nat>>)
    ensures forall key :: key in byKey <==> key != "" && Holding(registers, key) != []
    ensures forall key :: key in byKey ==> byKey[key] == Holding(registers, key)
  {
    byKey := map[];
    var i := 0;
    while i < |registers|
      invariant 0 <= i <= |registers|
      invariant forall key :: key in byKey <==> key != "" && Holding(registers[..i], key) != []
      invariant forall key :: key in byKey ==> byKey[key] == Holding(registers[..i], key)
    {
      var r := registers[i];
      assert registers[..i + 1][..i] == registers[..i];
      if r.key != "" {
        byKey := byKey[r.key := (if r.key in byKey then byKey[r.key] else []) + [r.id]];
      }
      i := i + 1;
    }
    assert registers[..i] == registers;
  }

  function Unclaimed(targets: seq<Target>, claimed: set<string>): (left: seq<Target>)
    ensures forall t :: t in left <==> t in targets && t.key !in claimed
  {
    if targets == [] then []
    else if targets[0].key in claimed then Unclaimed(targets[1..], claimed)
    else [targets[0]] + Unclaimed(targets[1..], claimed)
  }

  predicate LinksByKey(links: seq<(nat, Target)>, targets: seq<Target>, registers: seq<Register>, keys: seq<string>) {
    && (forall l :: l in links ==> l.1.key in keys && OneToOne(targets, registers, l.1.key) &&
                                   Carrying(targets, l.1.key) == [l.1] && Holding(registers, l.1.key) == [l.0])
    && (forall key :: key in keys && OneToOne(targets, registers, key) ==>
          (Holding(registers, key)[0], Carrying(targets, key)[0]) in links)
    && (forall i, j :: 0 <= i < j < |links| ==> links[i].1.key != links[j].1.key)
  }

  lemma NoLinks(targets: seq<Target>, registers: seq<Register>)
    ensures LinksByKey([], targets, registers, [])
  {
  }

  lemma ByKey(targets: seq<Target>, registers: seq<Register>, key: string)
    ensures Shared(targets, registers, key) <==>
            key != "" && Carrying(targets, key) != [] && Holding(registers, key) != []
    ensures OneToOne(targets, registers, key) <==>
            key != "" && |Carrying(targets, key)| == 1 && |Holding(registers, key)| == 1
  {
  }

  lemma LinksStep(links: seq<(nat, Target)>, targets: seq<Target>, registers: seq<Register>, keys: seq<string>,
                  key: string)
    requires LinksByKey(links, targets, registers, keys) && key !in keys
    ensures OneToOne(targets, registers, key) ==>
              LinksByKey(links + [(Holding(registers, key)[0], Carrying(targets, key)[0])], targets, registers,
                         keys + [key])
    ensures !OneToOne(targets, registers, key) ==> LinksByKey(links, targets, registers, keys + [key])
    ensures Shared(targets, registers, key) <==>
            key != "" && Carrying(targets, key) != [] && Holding(registers, key) != []
    ensures OneToOne(targets, registers, key) <==>
            key != "" && |Carrying(targets, key)| == 1 && |Holding(registers, key)| == 1
  {
    hide Carrying, Holding;
    CarriedKeys(targets, key);
    assert forall k :: k in keys + [key] <==> k in keys || k == key;
    if OneToOne(targets, registers, key) {
      var l := (Holding(registers, key)[0], Carrying(targets, key)[0]);
      assert l.1 in Carrying(targets, key);
      assert Carrying(targets, key) == [l.1] && Holding(registers, key) == [l.0];
      assert forall m :: m in links + [l] <==> m in links || m == l;
      assert forall i :: 0 <= i < |links| ==> links[i] in links;
    }
  }

  lemma LinksComplete(links: seq<(nat, Target)>, targets: seq<Target>, registers: seq<Register>, keys: seq<string>)
    requires LinksByKey(links, targets, registers, keys)
    requires forall key :: OneToOne(targets, registers, key) ==> key in keys
    ensures forall l :: l in links <==>
              OneToOne(targets, registers, l.1.key) && Carrying(targets, l.1.key) == [l.1] &&
                Holding(registers, l.1.key) == [l.0]
    ensures forall i, j :: 0 <= i < j < |links| ==> links[i].1.key != links[j].1.key
  {
    hide Carrying, Holding, OneToOne;
    forall l: (nat, Target) | OneToOne(targets, registers, l.1.key) && Carrying(targets, l.1.key) == [l.1] &&
      Holding(registers, l.1.key) == [l.0]
      ensures l in links
    {
      assert l == (Holding(registers, l.1.key)[0], Carrying(targets, l.1.key)[0]);
    }
  }

  /** A link for exactly the names carried once on both sides; what is shared otherwise is
      ambiguous, what is not shared is unmatched. */
  ghost predicate AreLinks(r: Links, targets: seq<Target>, registers: seq<Register>) {
    && (forall l :: l in r.links <==>
          OneToOne(targets, registers, l.1.key) && Carrying(targets, l.1.key) == [l.1] &&
            Holding(registers, l.1.key) == [l.0])
    && (forall i, j :: 0 <= i < j < |r.links| ==> r.links[i].1.key != r.links[j].1.key)
    && (forall key :: key in r.ambiguous <==> Shared(targets, registers, key) && !OneToOne(targets, registers, key))
    && (forall t :: t in r.unmatched <==> t in targets && !Shared(targets, registers, t.key))
  }

  method LinkCashRegisters(targets: seq<Target>, registers: seq<Register>) returns (r: Links)
    ensures AreLinks(r, targets, registers)
  {
    hide Carrying, Holding, LinksByKey, Shared, OneToOne;
    var targetsByKey, order := GroupTargets(targets);
    var registersByKey := GroupRegisters(registers);
    var links, ambiguous: seq<string>, claimed := [], [], {};
    assert LinksByKey(links, targets, registers, order[..0]) by { NoLinks(targets, registers); }
    var i := 0;
    while i < |order|
      invariant 0 <= i <= |order|
      invariant forall key :: key in claimed <==> key in order[..i] && Shared(targets, registers, key)
      invariant forall key :: key in ambiguous <==>
                  key in order[..i] && Shared(targets, registers, key) && !OneToOne(targets, registers, key)
      invariant LinksByKey(links, targets, registers, order[..i])
    {
      var key := order[i];
      assert order[..i + 1] == order[..i] + [key];
      assert key !in order[..i];
      assert key in targetsByKey;
      LinksStep(links, targets, registers, order[..i], key);
      i := i + 1;
      if key !in registersByKey {
        continue;
      }
      claimed := claimed + {key};
      var ts, rs := targetsByKey[key], registersByKey[key];
      if |ts| == 1 && |rs| == 1 {
        links := links + [(rs[0], ts[0])];
      } else {
        ambiguous := ambiguous + [key];
      }
    }
    assert order[..i] == order;
    forall key
      ensures OneToOne(targets, registers, key) ==> Shared(targets, registers, key)
      ensures Shared(targets, registers, key) ==> key in order
    {
      ByKey(targets, registers, key);
    }
    LinksComplete(links, targets, registers, order);
    r := Links(links, Unclaimed(targets, claimed), ambiguous);
  }

  lemma {:induction false} CarriedKeys(targets: seq<Target>, key: string)
    ensures forall t :: t in Carrying(targets, key) <==> t in targets && t.key == key
  {
    if targets != [] {
      CarriedKeys(targets[..|targets| - 1], key);
      assert targets == targets[..|targets| - 1] + [targets[|targets| - 1]];
    }
  }

  lemma {:induction false} HeldKeys(registers: seq<Register>, key: string)
    ensures forall id :: id in Holding(registers, key) <==> exists r :: r in registers && r.key == key && r.id == id
  {
    if registers != [] {
      var init, last := registers[..|registers| - 1], registers[|registers| - 1];
      HeldKeys(init, key);
      assert registers == init + [last];
      assert forall r :: r in registers <==> r in init || r == last;
    }
  }

  /** Position i alone carries the key. */
  predicate OnlyTarget(targets: seq<Target>, i: nat, key: string) {
    i < |targets| && targets[i].key == key && forall j :: 0 <= j < |targets| && j != i ==> targets[j].key != key
  }

  predicate OnlyRegister(registers: seq<Register>, i: nat, key: string) {
    i < |registers| && registers[i].key == key && forall j :: 0 <= j < |registers| && j != i ==> registers[j].key != key
  }

  lemma {:induction false} CarriedOnce(targets: seq<Target>, key: string, t: Target)
    ensures Carrying(targets, key) == [t] <==> exists i: nat :: OnlyTarget(targets, i, key) && targets[i] == t
    ensures Carrying(targets, key) == [] <==> forall i :: 0 <= i < |targets| ==> targets[i].key != key
  {
    if targets != [] {
      var n := |targets| - 1;
      var init := targets[..n];
      CarriedOnce(init, key, t);
      assert forall i :: 0 <= i < n ==> init[i] == targets[i];
      if targets[n].key == key {
        assert Carrying(targets, key) == Carrying(init, key) + [targets[n]];
        if Carrying(init, key) == [] {
          assert OnlyTarget(targets, n, key) && Carrying(targets, key)[0] == targets[n] && [t][0] == t;
          assert forall i: nat :: OnlyTarget(targets, i, key) ==> i == n;
        } else {
          var j :| 0 <= j < n && init[j].key == key;
          assert forall i: nat :: !OnlyTarget(targets, i, key);
        }
      } else {
        assert forall i: nat :: i < n ==> OnlyTarget(init, i, key) == OnlyTarget(targets, i, key);
      }
    }
  }

  lemma {:induction false} HeldOnce(registers: seq<Register>, key: string, id: nat)
    ensures Holding(registers, key) == [id] <==>
            exists i: nat :: OnlyRegister(registers, i, key) && registers[i].id == id
    ensures Holding(registers, key) == [] <==> forall i :: 0 <= i < |registers| ==> registers[i].key != key
  {
    if registers != [] {
      var n := |registers| - 1;
      var init := registers[..n];
      HeldOnce(init, key, id);
      assert forall i :: 0 <= i < n ==> init[i] == registers[i];
      if registers[n].key == key {
        assert Holding(registers, key) == Holding(init, key) + [registers[n].id];
        if Holding(init, key) == [] {
          assert OnlyRegister(registers, n, key) && Holding(registers, key)[0] == registers[n].id && [id][0] == id;
          assert forall i: nat :: OnlyRegister(registers, i, key) ==> i == n;
        } else {
          var j :| 0 <= j < n && init[j].key == key;
          assert forall i: nat :: !OnlyRegister(registers, i, key);
        }
      } else {
        assert forall i: nat :: i < n ==> OnlyRegister(init, i, key) == OnlyRegister(registers, i, key);
      }
    }
  }

  /** What is linked, ambiguous and unmatched, from the two lists alone: a link wherever exactly one
      target and exactly one register have the same non-empty name; ambiguous is every other name
      that both lists have; unmatched are the targets without a name the registers have. */
  lemma LinksMeaning(r: Links, targets: seq<Target>, registers: seq<Register>, id: nat, t: Target, key: string)
    requires AreLinks(r, targets, registers)
    ensures (id, t) in r.links <==>
            && t.key != "" && (exists i: nat :: OnlyTarget(targets, i, t.key) && targets[i] == t)
            && (exists i: nat :: OnlyRegister(registers, i, t.key) && registers[i].id == id)
    ensures key in r.ambiguous <==>
            && key != "" && (exists i :: 0 <= i < |targets| && targets[i].key == key)
            && (exists i :: 0 <= i < |registers| && registers[i].key == key)
            && !((exists i: nat :: OnlyTarget(targets, i, key)) && (exists i: nat :: OnlyRegister(registers, i, key)))
    ensures t in r.unmatched <==>
            t in targets && (t.key == "" || forall i :: 0 <= i < |registers| ==> registers[i].key != t.key)
  {
    hide Carrying, Holding, OnlyTarget, OnlyRegister;
    CarriedOnce(targets, t.key, t);
    HeldOnce(registers, t.key, id);
    LengthsAreOne(targets, registers, key);
    LengthsAreOne(targets, registers, t.key);
    if t in targets {
      var i :| 0 <= i < |targets| && targets[i] == t;
    }
    if (id, t) in r.links {
      assert (id, t).1 == t && (id, t).0 == id;
    }
    if Carrying(targets, t.key) == [t] && Holding(registers, t.key) == [id] && t.key != "" {
      var l := (id, t);
      assert OneToOne(targets, registers, l.1.key);
    }
  }

  lemma LengthsAreOne(targets: seq<Target>, registers: seq<Register>, key: string)
    ensures |Carrying(targets, key)| == 1 <==> exists i: nat :: OnlyTarget(targets, i, key)
    ensures |Holding(registers, key)| == 1 <==> exists i: nat :: OnlyRegister(registers, i, key)
    ensures Carrying(targets, key) == [] <==> forall i :: 0 <= i < |targets| ==> targets[i].key != key
    ensures Holding(registers, key) == [] <==> forall i :: 0 <= i < |registers| ==> registers[i].key != key
  {
    hide Carrying, Holding;
    var ts, ids := Carrying(targets, key), Holding(registers, key);
    forall t: Target
      ensures ts == [t] <==> exists i: nat :: OnlyTarget(targets, i, key) && targets[i] == t
      ensures ts == [] <==> forall i :: 0 <= i < |targets| ==> targets[i].key != key
    {
      CarriedOnce(targets, key, t);
    }
    forall id: nat
      ensures ids == [id] <==> exists i: nat :: OnlyRegister(registers, i, key) && registers[i].id == id
      ensures ids == [] <==> forall i :: 0 <= i < |registers| ==> registers[i].key != key
    {
      HeldOnce(registers, key, id);
    }
    if |ts| == 1 {
      assert ts == [ts[0]];
    }
    if i: nat :| OnlyTarget(targets, i, key) {
      assert ts == [targets[i]];
    }
    if |ids| == 1 {
      assert ids == [ids[0]];
    }
    if i: nat :| OnlyRegister(registers, i, key) {
      assert ids == [registers[i].id];
    }
    HeldOnce(registers, key, 0);
    CarriedOnce(targets, key, Target("", "", "", ""));
  }

  predicate Linked(r: Links, t: Target) {
    exists l :: l in r.links && l.1 == t
  }

  /** The links pair distinct targets with distinct registers of the same name. */
  lemma LinksAreAMatching(r: Links, targets: seq<Target>, registers: seq<Register>, i: nat, j: nat)
    requires AreLinks(r, targets, registers)
    requires forall a, b :: 0 <= a < b < |registers| ==> registers[a].id != registers[b].id
    requires i < j < |r.links|
    ensures r.links[i].0 != r.links[j].0 && r.links[i].1 != r.links[j].1
    ensures r.links[i].1 in targets && Register(r.links[i].0, r.links[i].1.key) in registers
  {
    hide OneToOne, Shared, Carrying, Holding;
    var a, b := r.links[i], r.links[j];
    assert a in r.links && b in r.links;
    CarriedKeys(targets, a.1.key);
    HeldKeys(registers, a.1.key);
    HeldKeys(registers, b.1.key);
    assert a.1 in [a.1] && a.0 in [a.0] && b.0 in [b.0];
    var ra :| ra in registers && ra.key == a.1.key && ra.id == a.0;
    var rb :| rb in registers && rb.key == b.1.key && rb.id == b.0;
    assert a.1.key != b.1.key;
  }

  /** Every target is linked, unmatched or under an ambiguous name, and only one of these. */
  lemma EveryTargetHasOneFate(r: Links, targets: seq<Target>, registers: seq<Register>, t: Target)
    requires AreLinks(r, targets, registers)
    requires t in targets
    ensures Linked(r, t) || t in r.unmatched || t.key in r.ambiguous
    ensures !(Linked(r, t) && t in r.unmatched) && !(Linked(r, t) && t.key in r.ambiguous) &&
            !(t in r.unmatched && t.key in r.ambiguous)
  {
    hide Carrying, Holding;
    CarriedKeys(targets, t.key);
    if OneToOne(targets, registers, t.key) {
      var ts, ids := Carrying(targets, t.key), Holding(registers, t.key);
      assert t in ts;
      assert ts == [t] && ids == [ids[0]];
      assert (ids[0], t) in r.links;
    }
  }
}
