/** The sync and async TCP probes (app/domains/inventory/reachability.py): two loop
    nests over the same (port, attempt) grid, in transposed order. */
module Reachability {
  import opened Wrappers
  import opened Arithmetic

  datatype Reason = DnsUnresolved | PortClosed | NoRoute | NoResponse | ProbeError

  /** One connect; an unexpected exception is Failed(ProbeError). */
  datatype Attempt = Accepted | Failed(reason: Reason)

  datatype Verdict = Online | Offline(reason: Reason) | IndexErrorRaised

  /** What each connect would give: by port number and attempt index. */
  type Network = (int, nat) -> Attempt

  /** Both probes stop at an accepted connection and at a missing route. */
  predicate Decisive(x: Attempt) { x == Accepted || x == Failed(NoRoute) }

  function VerdictOf(x: Attempt): Verdict {
    match x
    case Accepted => Online
    case Failed(reason) => Offline(reason)
  }

  // ----- The sync probe: port by port, each with its attempts -----

  function FirstDecisive(port: int, from: nat, attempts: nat, net: Network): Option<Attempt>
    decreases attempts - from
  {
    if from >= attempts then None
    else if Decisive(net(port, from)) then Some(net(port, from))
    else FirstDecisive(port, from + 1, attempts, net)
  }

  function SyncScan(ports: seq<int>, attempts: nat, net: Network): Option<Attempt> {
    if ports == [] then None
    else
      var first := FirstDecisive(ports[0], 0, attempts, net);
      if first.Some? then first else SyncScan(ports[1..], attempts, net)
  }

  function SyncVerdict(resolved: bool, ports: seq<int>, attempts: nat, net: Network): Verdict
    requires attempts >= 1
  {
    if !resolved then Offline(DnsUnresolved)
    else
      var stop := SyncScan(ports, attempts, net);
      if stop.Some? then VerdictOf(stop.value)
      else if ports == [] then Offline(NoResponse)
      else VerdictOf(net(ports[|ports| - 1], attempts - 1))
  }

  method ProbeHostPorts(resolved: bool, ports: seq<int>, maxAttempts: int, net: Network) returns (verdict: Verdict)
    ensures verdict == SyncVerdict(resolved, ports, Max(1, maxAttempts), net)
  {
    if !resolved {
      return Offline(DnsUnresolved);
    }
    var attempts := Max(1, maxAttempts);
    var lastReason := NoResponse;
    var p := 0;
    assert ports[0..] == ports;
    while p < |ports|
      invariant 0 <= p <= |ports|
      invariant SyncScan(ports, attempts, net) == SyncScan(ports[p..], attempts, net)
      invariant p == 0 ==> lastReason == NoResponse
      invariant p > 0 ==> net(ports[p - 1], attempts - 1) == Failed(lastReason)
    {
      assert ports[p..][0] == ports[p] && ports[p..][1..] == ports[p + 1..];
      var a := 0;
      while a < attempts
        invariant 0 <= a <= attempts
        invariant FirstDecisive(ports[p], 0, attempts, net) == FirstDecisive(ports[p], a, attempts, net)
        invariant a > 0 ==> net(ports[p], a - 1) == Failed(lastReason)
      {
        match net(ports[p], a) {
          case Accepted => return Online;
          case Failed(failure) =>
            lastReason := failure;
            if failure == NoRoute {
              return Offline(NoRoute);
            }
        }
        a := a + 1;
      }
      p := p + 1;
    }
    assert ports[p..] == [];
    verdict := Offline(lastReason);
  }

  // ----- The async probe: attempt by attempt, all ports at once -----

  /** A completion order: the positions 0..n, each exactly once. */
  ghost predicate IsOrder(order: seq<nat>, n: nat) {
    && |order| == n
    && (forall i :: 0 <= i < n ==> order[i] < n)
    && (forall i, j :: 0 <= i < j < n ==> order[i] != order[j])
  }

  /** One completion order for every attempt. */
  ghost predicate IsSchedule(orders: seq<seq<nat>>, attempts: nat, n: nat) {
    |orders| == attempts && forall a :: 0 <= a < attempts ==> IsOrder(orders[a], n)
  }

  /** The first connect to complete, from the k-th of `order` on, that ends the attempt. */
  function FirstCompleted(ports: seq<int>, attempt: nat, net: Network, order: seq<nat>, k: nat): Option<Attempt>
    requires k <= |order| && forall i :: 0 <= i < |order| ==> order[i] < |ports|
    decreases |order| - k
  {
    if k == |order| then None
    else if Decisive(net(ports[order[k]], attempt)) then Some(net(ports[order[k]], attempt))
    else FirstCompleted(ports, attempt, net, order, k + 1)
  }

  predicate SawNoRoute(reasons: map<int, Reason>) {
    exists port :: port in reasons && reasons[port] == NoRoute
  }

  lemma NoRouteSeen(reasons: map<int, Reason>, port: int)
    requires port in reasons && reasons[port] == NoRoute
    ensures SawNoRoute(reasons)
  {
  }

  /** The reasons name every port, each with the failure of its own connect. */
  ghost predicate Explains(reasons: map<int, Reason>, ports: seq<int>, attempt: nat, net: Network) {
    forall i :: 0 <= i < |ports| ==> ports[i] in reasons && net(ports[i], attempt) == Failed(reasons[ports[i]])
  }

  lemma AllExplained(reasons: map<int, Reason>, ports: seq<int>, attempt: nat, net: Network, order: seq<nat>)
    requires IsOrder(order, |ports|)
    requires forall j :: 0 <= j < |order| ==>
      ports[order[j]] in reasons && net(ports[order[j]], attempt) == Failed(reasons[ports[order[j]]])
    ensures Explains(reasons, ports, attempt, net)
  {
    OrderCovers(order, |ports|);
    forall i: nat | i < |ports|
      ensures ports[i] in reasons && net(ports[i], attempt) == Failed(reasons[ports[i]])
    {
      assert i in order;
      var j :| 0 <= j < |order| && order[j] == i;
    }
  }

  /** None as soon as any connect is accepted; otherwise why each finished port failed.
      The connects still pending after k completions are order[k..]. */
  method ProbePortsConcurrently(ports: seq<int>, attempt: nat, net: Network, order: seq<nat>)
    returns (reasons: Option<map<int, Reason>>)
    requires IsOrder(order, |ports|)
    ensures reasons.None? <==> FirstCompleted(ports, attempt, net, order, 0) == Some(Accepted)
    ensures reasons.Some? ==>
      (SawNoRoute(reasons.value) <==> FirstCompleted(ports, attempt, net, order, 0) == Some(Failed(NoRoute)))
    ensures FirstCompleted(ports, attempt, net, order, 0) == None ==>
      reasons.Some? && Explains(reasons.value, ports, attempt, net)
  {
    assert forall i :: 0 <= i < |order| ==> order[i] < |ports|;
    var found: map<int, Reason> := map[];
    var k := 0;
    while k < |order|
      invariant 0 <= k <= |order|
      invariant FirstCompleted(ports, attempt, net, order, 0) == FirstCompleted(ports, attempt, net, order, k)
      invariant forall port :: port in found ==> found[port] != NoRoute
      invariant forall j :: 0 <= j < k ==>
        ports[order[j]] in found && net(ports[order[j]], attempt) == Failed(found[ports[order[j]]])
    {
      var port := ports[order[k]];
      var outcome := net(port, attempt);
      if outcome == Accepted {
        return None;
      }
      found := found[port := outcome.reason];
      if outcome.reason == NoRoute {
        NoRouteSeen(found, port);
        return Some(found);
      }
      k := k + 1;
    }
    AllExplained(found, ports, attempt, net, order);
    reasons := Some(found);
  }

  function AsyncScan(ports: seq<int>, from: nat, attempts: nat, net: Network, orders: seq<seq<nat>>): Option<Attempt>
    requires IsSchedule(orders, attempts, |ports|)
    decreases attempts - from
  {
    if from >= attempts then None
    else
      var first := FirstCompleted(ports, from, net, orders[from], 0);
      if first.Some? then first else AsyncScan(ports, from + 1, attempts, net, orders)
  }

  /** `reasons[ports[-1]]` on an empty tuple is the one case with no verdict at all. */
  function AsyncVerdict(resolved: bool, ports: seq<int>, attempts: nat, net: Network, orders: seq<seq<nat>>): Verdict
    requires attempts >= 1 && IsSchedule(orders, attempts, |ports|)
  {
    if !resolved then Offline(DnsUnresolved)
    else
      var stop := AsyncScan(ports, 0, attempts, net, orders);
      if stop.Some? then VerdictOf(stop.value)
      else if ports == [] then IndexErrorRaised
      else VerdictOf(net(ports[|ports| - 1], attempts - 1))
  }

  method ProbeHostPortsAsync(resolved: bool, ports: seq<int>, maxAttempts: int, net: Network, orders: seq<seq<nat>>)
    returns (verdict: Verdict)
    requires IsSchedule(orders, Max(1, maxAttempts), |ports|)
    ensures verdict == AsyncVerdict(resolved, ports, Max(1, maxAttempts), net, orders)
  {
    if !resolved {
      return Offline(DnsUnresolved);
    }
    var attempts := Max(1, maxAttempts);
    var lastReason := NoResponse;
    var a := 0;
    while a < attempts
      invariant 0 <= a <= attempts
      invariant AsyncScan(ports, 0, attempts, net, orders) == AsyncScan(ports, a, attempts, net, orders)
      invariant a > 0 ==> ports != [] && net(ports[|ports| - 1], a - 1) == Failed(lastReason)
    {
      var reasons := ProbePortsConcurrently(ports, a, net, orders[a]);
      if reasons.None? {
        return Online;
      }
      if SawNoRoute(reasons.value) {
        return Offline(NoRoute);
      }
      DecisiveKinds(ports, a, net, orders[a], 0);
      if ports == [] {
        NothingToScan(a, attempts, net, orders);
        return IndexErrorRaised;
      }
      lastReason := reasons.value[ports[|ports| - 1]];
      a := a + 1;
    }
    verdict := Offline(lastReason);
  }

  lemma {:induction false} NothingToScan(from: nat, attempts: nat, net: Network, orders: seq<seq<nat>>)
    requires IsSchedule(orders, attempts, 0)
    ensures AsyncScan([], from, attempts, net, orders) == None
    decreases attempts - from
  {
    if from < attempts {
      NothingToScan(from + 1, attempts, net, orders);
    }
  }

  lemma {:induction false} DecisiveKinds(ports: seq<int>, attempt: nat, net: Network, order: seq<nat>, k: nat)
    requires k <= |order| && forall i :: 0 <= i < |order| ==> order[i] < |ports|
    ensures var first := FirstCompleted(ports, attempt, net, order, k);
            if first.Some? then
              Decisive(first.value) && exists i :: k <= i < |order| && net(ports[order[i]], attempt) == first.value
            else forall i :: k <= i < |order| ==> !Decisive(net(ports[order[i]], attempt))
    decreases |order| - k
  {
    if k < |order| && !Decisive(net(ports[order[k]], attempt)) {
      DecisiveKinds(ports, attempt, net, order, k + 1);
    }
  }

  function Positions(n: nat): (s: set<nat>)
    ensures forall i: nat :: i in s <==> i < n
    ensures |s| == n
  {
    if n == 0 then {} else Positions(n - 1) + {n - 1}
  }

  /** An order of n positions misses none of them. */
  lemma OrderCovers(order: seq<nat>, n: nat)
    requires IsOrder(order, n)
    ensures forall i: nat :: i < n ==> i in order
  {
    var seen := Elements(order);
    if missing: nat :| missing < n && missing !in order {
      SubsetIsSmaller(seen, Positions(n) - {missing});
    }
  }

  function Elements(s: seq<nat>): (e: set<nat>)
    ensures forall x: nat :: x in e <==> x in s
    ensures |e| <= |s|
    ensures (forall i, j :: 0 <= i < j < |s| ==> s[i] != s[j]) ==> |e| == |s|
  {
    if s == [] then {} else Elements(s[..|s| - 1]) + {s[|s| - 1]}
  }

  // ----- The verdicts, in terms of the connects alone -----

  /** What `Decisive` ought to mean, so that the verdicts below rest on the connects alone. */
  predicate EndsProbe(x: Attempt) { x == Accepted || x == Failed(NoRoute) }

  /** Of the connects in the order of the sync probe - port by port, attempt by attempt - the one
      on port i, attempt a is the first that is accepted or finds no route. */
  ghost predicate SyncFirst(ports: seq<int>, attempts: nat, net: Network, i: nat, a: nat) {
    && i < |ports| && a < attempts && EndsProbe(net(ports[i], a))
    && (forall b: nat :: b < a ==> !EndsProbe(net(ports[i], b)))
    && (forall j, b: nat :: 0 <= j < i && b < attempts ==> !EndsProbe(net(ports[j], b)))
  }

  /** The same in the order of the async probe - attempt by attempt, as the connects complete. */
  ghost predicate AsyncFirst(ports: seq<int>, attempts: nat, net: Network, orders: seq<seq<nat>>, a: nat, k: nat)
    requires IsSchedule(orders, attempts, |ports|)
  {
    && a < attempts && k < |ports| && EndsProbe(net(ports[orders[a][k]], a))
    && (forall j :: 0 <= j < k ==> !EndsProbe(net(ports[orders[a][j]], a)))
    && (forall i, b: nat :: 0 <= i < |ports| && b < a ==> !EndsProbe(net(ports[i], b)))
  }

  lemma {:induction false} FirstDecisiveAt(port: int, from: nat, attempts: nat, net: Network, a: nat)
    requires from <= a < attempts && EndsProbe(net(port, a))
    requires forall b: nat :: from <= b < a ==> !EndsProbe(net(port, b))
    ensures FirstDecisive(port, from, attempts, net) == Some(net(port, a))
    decreases attempts - from
  {
    if from < a {
      FirstDecisiveAt(port, from + 1, attempts, net, a);
    }
  }

  lemma {:induction false} SyncScanAt(ports: seq<int>, attempts: nat, net: Network, i: nat, a: nat)
    requires SyncFirst(ports, attempts, net, i, a)
    ensures SyncScan(ports, attempts, net) == Some(net(ports[i], a))
    decreases |ports|
  {
    if i == 0 {
      FirstDecisiveAt(ports[0], 0, attempts, net, a);
    } else {
      FirstDecisiveMeaning(ports[0], 0, attempts, net);
      assert forall j :: 0 <= j < |ports| - 1 ==> ports[1..][j] == ports[j + 1];
      SyncScanAt(ports[1..], attempts, net, i - 1, a);
    }
  }

  /** What the sync probe answers. An unresolved host is DnsUnresolved. Otherwise the first
      connect that is accepted or finds no route decides; without one, the reason is that of the
      last port's last attempt, and NoResponse when there is no port at all. */
  lemma SyncVerdictMeaning(ports: seq<int>, attempts: nat, net: Network, r: Reason)
    requires attempts >= 1
    ensures SyncVerdict(false, ports, attempts, net) == Offline(DnsUnresolved)
    ensures forall i: nat, a: nat :: SyncFirst(ports, attempts, net, i, a) ==>
              SyncVerdict(true, ports, attempts, net) ==
                if net(ports[i], a) == Accepted then Online else Offline(NoRoute)
    ensures ports != [] && (forall i, a: nat :: 0 <= i < |ports| && a < attempts ==> !EndsProbe(net(ports[i], a))) ==>
              (SyncVerdict(true, ports, attempts, net) == Offline(r) <==>
               net(ports[|ports| - 1], attempts - 1) == Failed(r))
    ensures SyncVerdict(true, [], attempts, net) == Offline(NoResponse)
    ensures SyncVerdict(true, ports, attempts, net) == Online <==>
            exists i: nat, a: nat :: SyncFirst(ports, attempts, net, i, a) && net(ports[i], a) == Accepted
  {
    SyncScanMeaning(ports, attempts, net);
    forall i: nat, a: nat | SyncFirst(ports, attempts, net, i, a)
      ensures SyncScan(ports, attempts, net) == Some(net(ports[i], a))
    {
      SyncScanAt(ports, attempts, net, i, a);
    }
    if SyncScan(ports, attempts, net).Some? {
      var i, a := SyncFirstExists(ports, attempts, net);
    } else if ports != [] {
      assert !Decisive(net(ports[|ports| - 1], attempts - 1));
    }
  }

  lemma {:induction false} SyncFirstExists(ports: seq<int>, attempts: nat, net: Network) returns (i: nat, a: nat)
    requires SyncScan(ports, attempts, net).Some?
    ensures SyncFirst(ports, attempts, net, i, a)
    decreases |ports|
  {
    FirstDecisiveMeaning(ports[0], 0, attempts, net);
    if FirstDecisive(ports[0], 0, attempts, net).Some? {
      var first := FirstDecisive(ports[0], 0, attempts, net).value;
      var b: nat :| b < attempts && net(ports[0], b) == first;
      i := 0;
      a := LeastDecisive(ports[0], net, b);
    } else {
      i, a := SyncFirstExists(ports[1..], attempts, net);
      assert forall j :: 0 <= j < |ports| - 1 ==> ports[1..][j] == ports[j + 1];
      i := i + 1;
    }
  }

  lemma {:induction false} LeastDecisive(port: int, net: Network, b: nat) returns (a: nat)
    requires EndsProbe(net(port, b))
    ensures a <= b && EndsProbe(net(port, a)) && forall c: nat :: c < a ==> !EndsProbe(net(port, c))
    decreases b
  {
    if c: nat :| c < b && EndsProbe(net(port, c)) {
      a := LeastDecisive(port, net, c);
    } else {
      a := b;
    }
  }

  lemma {:induction false} FirstCompletedAt(ports: seq<int>, attempt: nat, net: Network, order: seq<nat>, from: nat,
                                            k: nat)
    requires from <= k < |order| && forall i :: 0 <= i < |order| ==> order[i] < |ports|
    requires EndsProbe(net(ports[order[k]], attempt))
    requires forall j :: from <= j < k ==> !EndsProbe(net(ports[order[j]], attempt))
    ensures FirstCompleted(ports, attempt, net, order, from) == Some(net(ports[order[k]], attempt))
    decreases |order| - from
  {
    if from < k {
      FirstCompletedAt(ports, attempt, net, order, from + 1, k);
    }
  }

  lemma AsyncScanAt(ports: seq<int>, attempts: nat, net: Network, orders: seq<seq<nat>>, a: nat, k: nat)
    requires IsSchedule(orders, attempts, |ports|) && AsyncFirst(ports, attempts, net, orders, a, k)
    ensures AsyncScan(ports, 0, attempts, net, orders) == Some(net(ports[orders[a][k]], a))
  {
    AsyncScanMeaning(ports, 0, attempts, net, orders);
    assert IsOrder(orders[a], |ports|);
    FirstCompletedAt(ports, a, net, orders[a], 0, k);
    var first := FirstAttempt(ports, 0, attempts, net);
    assert Decisive(net(ports[orders[a][k]], a));
    assert first == a;
  }

  /** What the async probe answers, under any completion orders: the first connect to complete
      that is accepted or finds no route decides; without one, the last port's last attempt does.
      An empty port list has no verdict. */
  lemma AsyncVerdictMeaning(ports: seq<int>, attempts: nat, net: Network, orders: seq<seq<nat>>, r: Reason)
    requires attempts >= 1 && IsSchedule(orders, attempts, |ports|)
    ensures AsyncVerdict(false, ports, attempts, net, orders) == Offline(DnsUnresolved)
    ensures forall a: nat, k: nat :: AsyncFirst(ports, attempts, net, orders, a, k) ==>
              AsyncVerdict(true, ports, attempts, net, orders) ==
                if net(ports[orders[a][k]], a) == Accepted then Online else Offline(NoRoute)
    ensures ports != [] && (forall i, a: nat :: 0 <= i < |ports| && a < attempts ==> !EndsProbe(net(ports[i], a))) ==>
              (AsyncVerdict(true, ports, attempts, net, orders) == Offline(r) <==>
               net(ports[|ports| - 1], attempts - 1) == Failed(r))
    ensures ports == [] ==> AsyncVerdict(true, ports, attempts, net, orders) == IndexErrorRaised
    ensures AsyncVerdict(true, ports, attempts, net, orders) == Online <==>
            exists a: nat, k: nat ::
              AsyncFirst(ports, attempts, net, orders, a, k) && net(ports[orders[a][k]], a) == Accepted
  {
    AsyncScanMeaning(ports, 0, attempts, net, orders);
    forall a: nat, k: nat | AsyncFirst(ports, attempts, net, orders, a, k)
      ensures AsyncScan(ports, 0, attempts, net, orders) == Some(net(ports[orders[a][k]], a))
    {
      AsyncScanAt(ports, attempts, net, orders, a, k);
    }
    var a := FirstAttempt(ports, 0, attempts, net);
    if a < attempts {
      assert IsOrder(orders[a], |ports|);
      DecisiveKinds(ports, a, net, orders[a], 0);
      var k := LeastCompleted(ports, a, net, orders[a]);
      assert AsyncFirst(ports, attempts, net, orders, a, k);
    } else if ports != [] {
      assert !Decisive(net(ports[|ports| - 1], attempts - 1));
    }
  }

  lemma LeastCompleted(ports: seq<int>, attempt: nat, net: Network, order: seq<nat>) returns (k: nat)
    requires IsOrder(order, |ports|) && exists k :: 0 <= k < |order| && EndsProbe(net(ports[order[k]], attempt))
    ensures k < |order| && EndsProbe(net(ports[order[k]], attempt))
    ensures forall j :: 0 <= j < k ==> !EndsProbe(net(ports[order[j]], attempt))
  {
    k := 0;
    while !EndsProbe(net(ports[order[k]], attempt))
      invariant k < |order|
      invariant forall j :: 0 <= j < k ==> !EndsProbe(net(ports[order[j]], attempt))
      decreases |order| - k
    {
      k := k + 1;
    }
  }

  // ----- When the two probes agree -----

  /** The first attempt, from `from` on, at which some port is decisive. */
  function FirstAttempt(ports: seq<int>, from: nat, attempts: nat, net: Network): (a: nat)
    requires from <= attempts
    ensures from <= a <= attempts
    ensures a < attempts ==> exists i :: 0 <= i < |ports| && Decisive(net(ports[i], a))
    ensures forall b: nat, i :: from <= b < a && 0 <= i < |ports| ==> !Decisive(net(ports[i], b))
    decreases attempts - from
  {
    if from == attempts || exists i :: 0 <= i < |ports| && Decisive(net(ports[i], from)) then from
    else FirstAttempt(ports, from + 1, attempts, net)
  }

  /** Every decisive connect of the first attempt that has one says what the sync
      probe, walking port by port, runs into first. */
  predicate Uncontested(ports: seq<int>, attempts: nat, net: Network) {
    var a := FirstAttempt(ports, 0, attempts, net);
    a < attempts ==>
      forall i :: 0 <= i < |ports| && Decisive(net(ports[i], a)) ==>
          SyncScan(ports, attempts, net) == Some(net(ports[i], a))
  }

  lemma {:induction false} FirstDecisiveMeaning(port: int, from: nat, attempts: nat, net: Network)
    requires from <= attempts
    ensures var first := FirstDecisive(port, from, attempts, net);
            if first.Some? then
              Decisive(first.value) && exists a: nat :: from <= a < attempts && net(port, a) == first.value
            else forall a: nat :: from <= a < attempts ==> !Decisive(net(port, a))
    decreases attempts - from
  {
    if from < attempts && !Decisive(net(port, from)) {
      FirstDecisiveMeaning(port, from + 1, attempts, net);
    }
  }

  /** The sync probe stops on a decisive connect iff there is one anywhere. */
  lemma {:induction false} SyncScanMeaning(ports: seq<int>, attempts: nat, net: Network)
    ensures var stop := SyncScan(ports, attempts, net);
            if stop.Some? then
              && Decisive(stop.value)
              && exists i, a: nat :: 0 <= i < |ports| && a < attempts && net(ports[i], a) == stop.value
            else forall i, a: nat :: 0 <= i < |ports| && a < attempts ==> !Decisive(net(ports[i], a))
  {
    if ports != [] {
      FirstDecisiveMeaning(ports[0], 0, attempts, net);
      var first := FirstDecisive(ports[0], 0, attempts, net);
      if first.Some? {
        var a: nat :| 0 <= a < attempts && net(ports[0], a) == first.value;
      } else {
        SyncScanMeaning(ports[1..], attempts, net);
        var stop := SyncScan(ports, attempts, net);
        if stop.Some? {
          var i, a: nat :| 0 <= i < |ports[1..]| && a < attempts && net(ports[1..][i], a) == stop.value;
          assert ports[i + 1] == ports[1..][i];
        } else {
          forall i, a: nat | 0 <= i < |ports| && a < attempts ensures !Decisive(net(ports[i], a)) {
            if i > 0 {
              assert ports[i] == ports[1..][i - 1];
            }
          }
        }
      }
    }
  }

  /** The async probe stops at the first attempt with a decisive connect, on one of them. */
  lemma {:induction false} AsyncScanMeaning(ports: seq<int>, from: nat, attempts: nat, net: Network,
                                            orders: seq<seq<nat>>)
    requires IsSchedule(orders, attempts, |ports|) && from <= attempts
    ensures var a, stop := FirstAttempt(ports, from, attempts, net), AsyncScan(ports, from, attempts, net, orders);
            if a == attempts then stop == None
            else stop == FirstCompleted(ports, a, net, orders[a], 0) && stop.Some?
                 && Decisive(stop.value) && exists i :: 0 <= i < |ports| && net(ports[i], a) == stop.value
    decreases attempts - from
  {
    if from < attempts {
      var order := orders[from];
      assert IsOrder(order, |ports|);
      DecisiveKinds(ports, from, net, order, 0);
      OrderCovers(order, |ports|);
      var first := FirstCompleted(ports, from, net, order, 0);
      if first.Some? {
        var i :| 0 <= i < |order| && net(ports[order[i]], from) == first.value;
        assert FirstAttempt(ports, from, attempts, net) == from;
      } else {
        forall i | 0 <= i < |ports| ensures !Decisive(net(ports[i], from)) {
          assert (i as nat) in order;
        }
        AsyncScanMeaning(ports, from + 1, attempts, net, orders);
      }
    }
  }

  /** Position i completes first, the others in their own order. */
  function Leading(i: nat, n: nat): (order: seq<nat>)
    requires i < n
    ensures IsOrder(order, n) && order[0] == i
  {
    [i] + seq(n - 1, k requires 0 <= k < n - 1 => if k < i then k else k + 1)
  }

  /** The verdicts agree for every completion order exactly when the first decisive
      attempt is uncontested (for a non-empty port list that resolves). */
  lemma VerdictsAgreeIff(ports: seq<int>, attempts: nat, net: Network)
    requires ports != [] && attempts >= 1
    ensures (forall orders :: IsSchedule(orders, attempts, |ports|) ==>
               AsyncVerdict(true, ports, attempts, net, orders) == SyncVerdict(true, ports, attempts, net))
            <==> Uncontested(ports, attempts, net)
  {
    SyncScanMeaning(ports, attempts, net);
    var a := FirstAttempt(ports, 0, attempts, net);
    forall orders | IsSchedule(orders, attempts, |ports|) && Uncontested(ports, attempts, net)
      ensures AsyncVerdict(true, ports, attempts, net, orders) == SyncVerdict(true, ports, attempts, net)
    {
      AsyncScanMeaning(ports, 0, attempts, net, orders);
    }
    if !Uncontested(ports, attempts, net) {
      var i: nat :| i < |ports| && Decisive(net(ports[i], a)) &&
        SyncScan(ports, attempts, net) != Some(net(ports[i], a));
      var orders := seq(attempts, (k: nat) => Leading(i, |ports|));
      assert IsSchedule(orders, attempts, |ports|);
      AsyncScanMeaning(ports, 0, attempts, net, orders);
      assert FirstCompleted(ports, a, net, orders[a], 0) == Some(net(ports[i], a));
      assert AsyncVerdict(true, ports, attempts, net, orders) != SyncVerdict(true, ports, attempts, net);
    }
  }

  /** The documented promise: with "no route" for every connect or for none of them,
      both probes give the same flag and the same reason, whatever completes first. */
  lemma AsyncMatchesSync(resolved: bool, ports: seq<int>, attempts: nat, net: Network, orders: seq<seq<nat>>)
    requires ports != [] && attempts >= 1 && IsSchedule(orders, attempts, |ports|)
    requires (forall i, a: nat :: 0 <= i < |ports| && a < attempts ==> net(ports[i], a) == Failed(NoRoute)) ||
             (forall i, a: nat :: 0 <= i < |ports| && a < attempts ==> net(ports[i], a) != Failed(NoRoute))
    ensures AsyncVerdict(resolved, ports, attempts, net, orders) == SyncVerdict(resolved, ports, attempts, net)
  {
    SyncScanMeaning(ports, attempts, net);
    VerdictsAgreeIff(ports, attempts, net);
  }

  /** One dead route next to an open port is contested, and an empty port list has no
      async verdict: both are inputs on which the probes differ. */
  lemma ProbesCanDiffer()
    ensures exists net, orders :: IsSchedule(orders, 1, 2) && AsyncVerdict(true, [80, 443], 1, net, orders) == Online &&
                                  SyncVerdict(true, [80, 443], 1, net) == Offline(NoRoute)
    ensures exists once :: IsSchedule(once, 1, 0) &&
              forall net ::
                AsyncVerdict(true, [], 1, net, once) == IndexErrorRaised &&
                SyncVerdict(true, [], 1, net) == Offline(NoResponse)
  {
    var net: Network := (port, a) => if port == 80 then Failed(NoRoute) else Accepted;
    var orders: seq<seq<nat>> := [[1, 0]];
    assert IsSchedule(orders, 1, 2);
    var ports := [80, 443];
    assert FirstCompleted(ports, 0, net, orders[0], 0) == Some(Accepted);
    assert AsyncVerdict(true, ports, 1, net, orders) == Online;
    assert FirstDecisive(80, 0, 1, net) == Some(Failed(NoRoute));
    assert SyncVerdict(true, ports, 1, net) == Offline(NoRoute);
    var once: seq<seq<nat>> := [[]];
    assert IsOrder(once[0], 0) && IsSchedule(once, 1, 0);
    forall n: Network
      ensures AsyncVerdict(true, [], 1, n, once) == IndexErrorRaised &&
              SyncVerdict(true, [], 1, n) == Offline(NoResponse)
    {
      NothingToScan(0, 1, n, once);
    }
  }
}
