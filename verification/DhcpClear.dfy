/** Planning and executing a DHCP cleanup on one switch (app/services/cisco_dhcp.py).
    What the show commands printed is taken as already parsed. */
module DhcpClear {
  import opened Wrappers
  import opened Arithmetic

  /** An IPv4 token scraped from the switch; `value` is None when it is not a valid address. */
  datatype Address = Address(text: string, value: Option<nat>)

  datatype Range = Range(low: Address, high: Address)

  datatype BindingType = Automatic | Manual | OnDemand | Relayed

  /** `tag` is the interface the switch printed, in lower case. */
  datatype Binding = Binding(ip: Address, kind: BindingType, tag: Option<string>)

  /** One fresh read of the switch. `prefix` is None when the SVI carries no usable mask. */
  datatype Reading = Reading(pools: seq<seq<Range>>, bindings: seq<Binding>, conflicts: seq<string>,
                             helpers: seq<string>,
                             svi: Option<Address>, prefix: Option<nat>)

  datatype Role = LocalServer | Relay | External

  datatype Diagnostics = Diagnostics(role: Role, conflicts: seq<string>, apBindings: seq<Binding>)

  datatype Action = Conflict | Lease | Unknown(name: string)

  datatype Command = ClearConflicts | ClearBinding(ip: string)

  datatype Skip = UnknownActions | NoActions | NotTheServer(role: Role) | NoConflicts | NoLeases | OverCap(count: nat)

  datatype Plan = Plan(commands: seq<Command>, skipped: seq<Skip>, conflictsToClear: nat, bindingsToClear: nat)

  /** Raised: the session died on the command. Rejected: the CLI printed an error marker. */
  datatype Reply = Accepted | Rejected | Raised

  datatype Outcome = Outcome(dryRun: bool, role: Role, plan: Plan, conflictsCleared: nat, bindingsCleared: nat,
                             errors: seq<Command>, bindingsBefore: nat, conflictsBefore: nat,
                             bindingsAfter: Option<nat>, conflictsAfter: Option<nat>)

  // ----- Who serves DHCP for the AP VLAN -----

  predicate InRange(ip: nat, r: Range) {
    r.low.value.Some? && r.high.value.Some? && r.low.value.value <= ip <= r.high.value.value
  }

  /** The switch holds a pool range covering its own VLAN interface. */
  predicate ServesItself(reading: Reading) {
    && reading.svi.Some? && reading.svi.value.value.Some?
    && exists i, j :: 0 <= i < |reading.pools| && 0 <= j < |reading.pools[i]| &&
                      InRange(reading.svi.value.value.value, reading.pools[i][j])
  }

  function ClassifyRole(reading: Reading): (role: Role)
    ensures role == LocalServer <==> ServesItself(reading)
    ensures role == Relay ==> reading.helpers != []
    ensures reading.svi.None? ==> role == External
  {
    if reading.svi.None? || reading.svi.value.value.None? then External
    else if ServesItself(reading) then LocalServer
    else if reading.helpers != [] then Relay else External
  }

  /** The role, from the pool ranges and the interface's address: a range serves the addresses
      from its low to its high end, both included. */
  lemma RoleMeaning(reading: Reading)
    ensures reading.svi.None? || reading.svi.value.value.None? ==> ClassifyRole(reading) == External
    ensures reading.svi.Some? && reading.svi.value.value.Some? ==>
      var ip := reading.svi.value.value.value;
      && (ClassifyRole(reading) == LocalServer <==>
            exists pool :: pool in reading.pools && exists r :: r in pool && r.low.value.Some? && r.high.value.Some? &&
                                                                r.low.value.value <= ip <= r.high.value.value)
      && (ClassifyRole(reading) == Relay <==> ClassifyRole(reading) != LocalServer && reading.helpers != [])
  {
    if reading.svi.Some? && reading.svi.value.value.Some? {
      var ip := reading.svi.value.value.value;
      forall pool, r | pool in reading.pools && r in pool && InRange(ip, r)
        ensures ServesItself(reading)
      {
        var i :| 0 <= i < |reading.pools| && reading.pools[i] == pool;
        var j :| 0 <= j < |reading.pools[i]| && reading.pools[i][j] == r;
      }
      if ServesItself(reading) {
        var i, j :| 0 <= i < |reading.pools| && 0 <= j < |reading.pools[i]| && InRange(ip, reading.pools[i][j]);
        assert reading.pools[i] in reading.pools && reading.pools[i][j] in reading.pools[i];
      }
    }
  }

  // ----- The bindings of the AP VLAN -----

  /** The two addresses agree on the first `prefix` of their 32 bits. */
  predicate SameSubnet(a: nat, b: nat, prefix: nat)
    requires prefix <= 32
  {
    a / Pow2(32 - prefix) == b / Pow2(32 - prefix)
  }

  predicate InSubnet(b: Binding, reading: Reading) {
    && reading.svi.Some? && reading.svi.value.value.Some? && reading.prefix.Some? && reading.prefix.value <= 32
    && b.ip.value.Some? && SameSubnet(b.ip.value.value, reading.svi.value.value.value, reading.prefix.value)
  }

  predicate OnApVlan(b: Binding, reading: Reading, vlanTag: string) {
    b.tag == Some(vlanTag) || InSubnet(b, reading)
  }

  /** A subnet is the interval of 2^(32 - prefix) addresses, starting at a multiple of that, around
      any address in it. */
  lemma SubnetIsAnInterval(a: nat, b: nat, prefix: nat)
    requires prefix <= 32
    ensures var size := Pow2(32 - prefix); SameSubnet(a, b, prefix) <==> b - b % size <= a < b - b % size + size
    ensures prefix == 24 ==> (SameSubnet(a, b, prefix) <==> b - b % 256 <= a < b - b % 256 + 256)
    ensures prefix == 32 ==> (SameSubnet(a, b, prefix) <==> a == b)
    ensures prefix < 32 ==> Pow2(32 - prefix) == 2 * Pow2(32 - (prefix + 1))
  {
    var size := Pow2(32 - prefix);
    Blocks(a, b, size);
    if prefix == 24 {
      assert Pow2(8) == 2 * Pow2(7) == 4 * Pow2(6) == 8 * Pow2(5) == 16 * Pow2(4) == 32 * Pow2(3) == 256;
    }
  }

  lemma Blocks(a: nat, b: nat, size: nat)
    requires size >= 1
    ensures a / size == b / size <==> b - b % size <= a < b - b % size + size
  {
    var p, q := a / size, b / size;
    assert a == p * size + a % size && b == q * size + b % size;
    if p < q {
      MulLe(size, p + 1, q);
    } else if q < p {
      MulLe(size, q + 1, p);
    }
  }

  /** An address is in the interface's subnet when interface, mask and address are all known and it
      lies in the interval around the interface. */
  lemma InSubnetMeaning(b: Binding, reading: Reading)
    ensures InSubnet(b, reading) <==>
            && reading.svi.Some? && reading.svi.value.value.Some? && b.ip.value.Some?
            && reading.prefix.Some? && reading.prefix.value < 33
            && var size, at := Pow2(32 - reading.prefix.value), reading.svi.value.value.value;
               at - at % size <= b.ip.value.value < at - at % size + size
  {
    if reading.svi.Some? && reading.svi.value.value.Some? && b.ip.value.Some? && reading.prefix.Some? &&
       reading.prefix.value <= 32 {
      SubnetIsAnInterval(b.ip.value.value, reading.svi.value.value.value, reading.prefix.value);
    }
  }

  function ApBindings(bindings: seq<Binding>, reading: Reading, vlanTag: string): seq<Binding> {
    if bindings == [] then []
    else
      var init, last := ApBindings(bindings[..|bindings| - 1], reading, vlanTag), bindings[|bindings| - 1];
      if OnApVlan(last, reading, vlanTag) then init + [last] else init
  }

  /** The selected bindings, at positions `at` of the table: in order, exactly those that carry the
      VLAN's tag or lie in the interface's subnet. */
  lemma {:induction false} ApBindingsMeaning(bindings: seq<Binding>, reading: Reading, vlanTag: string)
    returns (at: seq<nat>)
    ensures var selected := ApBindings(bindings, reading, vlanTag);
            && |at| == |selected| && (forall i, j :: 0 <= i < j < |at| ==> at[i] < at[j])
            && (forall i :: 0 <= i < |at| ==> at[i] < |bindings| && selected[i] == bindings[at[i]])
    ensures forall k: nat :: k < |bindings| ==>
              (k in at <==> bindings[k].tag == Some(vlanTag) || InSubnet(bindings[k], reading))
    decreases |bindings|
  {
    hide InSubnet;
    if bindings == [] {
      at := [];
    } else {
      var n := |bindings| - 1;
      at := ApBindingsMeaning(bindings[..n], reading, vlanTag);
      if OnApVlan(bindings[n], reading, vlanTag) {
        at := at + [n];
      }
    }
  }

  method SelectApBindings(bindings: seq<Binding>, reading: Reading, vlanTag: string) returns (selected: seq<Binding>)
    ensures selected == ApBindings(bindings, reading, vlanTag)
    ensures forall b :: b in selected <==> b in bindings && OnApVlan(b, reading, vlanTag)
  {
    hide OnApVlan;
    selected := [];
    var i := 0;
    while i < |bindings|
      invariant 0 <= i <= |bindings|
      invariant selected == ApBindings(bindings[..i], reading, vlanTag)
      invariant forall b :: b in selected <==> b in bindings[..i] && OnApVlan(b, reading, vlanTag)
    {
      assert bindings[..i + 1] == bindings[..i] + [bindings[i]];
      assert bindings[..i + 1][..i] == bindings[..i];
      if OnApVlan(bindings[i], reading, vlanTag) {
        selected := selected + [bindings[i]];
      }
      i := i + 1;
    }
    assert bindings[..i] == bindings;
  }

  method Diagnose(reading: Reading, vlanTag: string) returns (diag: Diagnostics)
    ensures diag ==
            Diagnostics(ClassifyRole(reading), reading.conflicts, ApBindings(reading.bindings, reading, vlanTag))
    ensures forall b :: b in diag.apBindings <==> b in reading.bindings && OnApVlan(b, reading, vlanTag)
  {
    var selected := SelectApBindings(reading.bindings, reading, vlanTag);
    diag := Diagnostics(ClassifyRole(reading), reading.conflicts, selected);
  }

  // ----- The plan -----

  function Automatics(bindings: seq<Binding>): (found: seq<Binding>)
    ensures forall b :: b in found <==> b in bindings && b.kind == Automatic
  {
    if bindings == [] then []
    else
      var n := |bindings| - 1;
      Automatics(bindings[..n]) + (if bindings[n].kind == Automatic then [bindings[n]] else [])
  }

  /** The automatic leases of the AP VLAN, in the order of the switch's table. */
  function Leases(bindings: seq<Binding>, reading: Reading, vlanTag: string): seq<Binding> {
    if bindings == [] then []
    else
      var init, b := Leases(bindings[..|bindings| - 1], reading, vlanTag), bindings[|bindings| - 1];
      if b.kind == Automatic && (b.tag == Some(vlanTag) || InSubnet(b, reading)) then init + [b] else init
  }

  lemma {:induction false} LeasesAreTheAutomatics(bindings: seq<Binding>, reading: Reading, vlanTag: string)
    ensures Automatics(ApBindings(bindings, reading, vlanTag)) == Leases(bindings, reading, vlanTag)
    decreases |bindings|
  {
    hide InSubnet;
    if bindings != [] {
      var n := |bindings| - 1;
      LeasesAreTheAutomatics(bindings[..n], reading, vlanTag);
      var init := ApBindings(bindings[..n], reading, vlanTag);
      assert (init + [bindings[n]])[..|init|] == init;
    }
  }

  /** At positions `at` of the table: in order, exactly the bindings that are automatic and carry
      the VLAN's tag or lie in the interface's subnet. */
  lemma {:induction false} LeasesMeaning(bindings: seq<Binding>, reading: Reading, vlanTag: string)
    returns (at: seq<nat>)
    ensures var leases := Leases(bindings, reading, vlanTag);
            && |at| == |leases| && (forall i, j :: 0 <= i < j < |at| ==> at[i] < at[j])
            && (forall i :: 0 <= i < |at| ==> at[i] < |bindings| && leases[i] == bindings[at[i]])
    ensures forall k: nat :: k < |bindings| ==>
              (k in at <==>
                bindings[k].kind == Automatic && (bindings[k].tag == Some(vlanTag) || InSubnet(bindings[k], reading)))
    decreases |bindings|
  {
    hide InSubnet;
    if bindings == [] {
      at := [];
    } else {
      var n := |bindings| - 1;
      at := LeasesMeaning(bindings[..n], reading, vlanTag);
      if bindings[n].kind == Automatic && (bindings[n].tag == Some(vlanTag) || InSubnet(bindings[n], reading)) {
        at := at + [n];
      }
    }
  }

  function BindingClears(bindings: seq<Binding>): (commands: seq<Command>)
    ensures |commands| == |bindings|
    ensures forall i :: 0 <= i < |commands| ==> commands[i] == ClearBinding(bindings[i].ip.text)
  {
    seq(|bindings|, i requires 0 <= i < |bindings| => ClearBinding(bindings[i].ip.text))
  }

  predicate PlansConflicts(diag: Diagnostics, actions: set<Action>) {
    Conflict in actions && diag.role == LocalServer && diag.conflicts != []
  }

  predicate PlansLeases(diag: Diagnostics, actions: set<Action>, maxBindings: int) {
    Lease in actions && diag.role == LocalServer && 0 < |Automatics(diag.apBindings)| <= maxBindings
  }

  function PlannedLeases(diag: Diagnostics, actions: set<Action>, maxBindings: int): seq<Binding> {
    if PlansLeases(diag, actions, maxBindings) then Automatics(diag.apBindings) else []
  }

  function Planned(diag: Diagnostics, actions: set<Action>, maxBindings: int): seq<Command> {
    var clears := BindingClears(PlannedLeases(diag, actions, maxBindings));
    if PlansConflicts(diag, actions) then [ClearConflicts] + clears else clears
  }

  method PlanClear(diag: Diagnostics, actions: set<Action>, maxBindings: int) returns (plan: Plan)
    ensures plan.commands == Planned(diag, actions, maxBindings)
    ensures plan.conflictsToClear == if PlansConflicts(diag, actions) then |diag.conflicts| else 0
    ensures plan.bindingsToClear == |PlannedLeases(diag, actions, maxBindings)|
    ensures UnknownActions in plan.skipped <==> exists a :: a in actions && a.Unknown?
    ensures NoActions in plan.skipped <==> actions !! {Conflict, Lease}
    ensures NotTheServer(diag.role) in plan.skipped <==> !(actions !! {Conflict, Lease}) && diag.role != LocalServer
    ensures NoConflicts in plan.skipped <==> Conflict in actions && diag.role == LocalServer && diag.conflicts == []
    ensures NoLeases in plan.skipped <==>
            Lease in actions && diag.role == LocalServer && Automatics(diag.apBindings) == []
    ensures forall n: nat :: OverCap(n) in plan.skipped <==>
              && Lease in actions && diag.role == LocalServer
              && n == |Automatics(diag.apBindings)| && n > 0 && n > maxBindings
  {
    hide Automatics, BindingClears;
    plan := Plan([], [], 0, 0);
    if exists a :: a in actions && a.Unknown? {
      plan := plan.(skipped := [UnknownActions]);
    }
    if Conflict !in actions && Lease !in actions {
      plan := plan.(skipped := plan.skipped + [NoActions]);
      return;
    }
    if diag.role != LocalServer {
      plan := plan.(skipped := plan.skipped + [NotTheServer(diag.role)]);
      return;
    }
    if Conflict in actions {
      if diag.conflicts != [] {
        plan := plan.(commands := [ClearConflicts], conflictsToClear := |diag.conflicts|);
      } else {
        plan := plan.(skipped := plan.skipped + [NoConflicts]);
      }
    }
    if Lease in actions {
      var candidates := Automatics(diag.apBindings);
      if candidates == [] {
        plan := plan.(skipped := plan.skipped + [NoLeases]);
      } else if |candidates| > maxBindings {
        ghost var before := plan.skipped;
        plan := plan.(skipped := plan.skipped + [OverCap(|candidates|)]);
        assert plan.skipped[|before|] == OverCap(|candidates|);
      } else {
        plan := plan.(commands := plan.commands + BindingClears(candidates), bindingsToClear := |candidates|);
      }
    }
  }

  // ----- Execution -----

  function ReplyTo(replies: seq<Reply>, i: nat): Reply {
    if i < |replies| then replies[i] else Accepted
  }

  /** The commands of a run that did not succeed, in order. */
  function Failures(sent: seq<Command>, replies: seq<Reply>): seq<Command> {
    if sent == [] then []
    else
      var n := |sent| - 1;
      Failures(sent[..n], replies) + (if ReplyTo(replies, n) == Accepted then [] else [sent[n]])
  }

  /** A failure is a command that met anything but acceptance. */
  lemma {:induction false} FailuresMeaning(sent: seq<Command>, replies: seq<Reply>)
    ensures forall c :: c in Failures(sent, replies) <==>
              exists i :: 0 <= i < |sent| && sent[i] == c && ReplyTo(replies, i) != Accepted
    decreases |sent|
  {
    if sent != [] {
      var n := |sent| - 1;
      FailuresMeaning(sent[..n], replies);
      assert forall i :: 0 <= i < n ==> sent[..n][i] == sent[i];
      forall c
        ensures c in Failures(sent, replies) <==>
                exists i :: 0 <= i < |sent| && sent[i] == c && ReplyTo(replies, i) != Accepted
      {
        if c in Failures(sent[..n], replies) {
          var i :| 0 <= i < n && sent[..n][i] == c && ReplyTo(replies, i) != Accepted;
          assert sent[i] == c;
        }
      }
    }
  }

  lemma FailuresSnoc(sent: seq<Command>, cmd: Command, replies: seq<Reply>)
    ensures Failures(sent + [cmd], replies) ==
            Failures(sent, replies) + if ReplyTo(replies, |sent|) == Accepted then [] else [cmd]
  {
    assert (sent + [cmd])[..|sent|] == sent;
  }

  lemma NothingYet(replies: seq<Reply>)
    ensures Failures([], replies) == [] && Cleared([], replies) == 0 && !Has([], replies, ClearConflicts)
  {
  }

  /** The accepted binding clears of a run. */
  function Cleared(sent: seq<Command>, replies: seq<Reply>): nat {
    |set i | 0 <= i < |sent| && sent[i].ClearBinding? && ReplyTo(replies, i) == Accepted|
  }

  lemma ClearedSnoc(sent: seq<Command>, cmd: Command, replies: seq<Reply>)
    ensures Cleared(sent + [cmd], replies) ==
            Cleared(sent, replies) + (if cmd.ClearBinding? && ReplyTo(replies, |sent|) == Accepted then 1 else 0)
  {
    var longer := sent + [cmd];
    var before := set i | 0 <= i < |sent| && sent[i].ClearBinding? && ReplyTo(replies, i) == Accepted;
    var after := set i | 0 <= i < |longer| && longer[i].ClearBinding? && ReplyTo(replies, i) == Accepted;
    assert after == before + (if cmd.ClearBinding? && ReplyTo(replies, |sent|) == Accepted then {|sent|} else {});
  }

  /** A conflict clear comes first, if at all. */
  predicate ConflictsFirst(commands: seq<Command>) {
    forall j :: 0 < j < |commands| ==> commands[j] != ClearConflicts
  }

  predicate Has(sent: seq<Command>, replies: seq<Reply>, cmd: Command) {
    exists i :: 0 <= i < |sent| && sent[i] == cmd && ReplyTo(replies, i) == Accepted
  }

  /** What was sent is an initial stretch of the plan, cut short only by a dead session. */
  predicate RunsThrough(sent: seq<Command>, plan: seq<Command>, replies: seq<Reply>) {
    && sent <= plan
    && (forall i :: 0 <= i < |sent| - 1 ==> ReplyTo(replies, i) != Raised)
    && (|sent| < |plan| ==> sent != [] && ReplyTo(replies, |sent| - 1) == Raised)
  }

  /** The command loop. `replies[i]` is what the i-th command sent meets. */
  method Execute(plan: Plan, replies: seq<Reply>)
    returns (sent: seq<Command>, conflictsCleared: nat, bindingsCleared: nat, errors: seq<Command>)
    ensures RunsThrough(sent, plan.commands, replies)
    ensures errors == Failures(sent, replies)
    ensures (forall i :: 0 <= i < |plan.commands| ==> ReplyTo(replies, i) != Raised) ==> sent == plan.commands
    ensures conflictsCleared == if Has(sent, replies, ClearConflicts) then plan.conflictsToClear else 0
    ensures bindingsCleared == Cleared(sent, replies)
    ensures ConflictsFirst(plan.commands) ==>
              bindingsCleared + (if Has(sent, replies, ClearConflicts) then 1 else 0) + |errors| == |sent|
  {
    NothingYet(replies);
    hide Failures, Cleared, Has;
    sent, errors, conflictsCleared, bindingsCleared := [], [], 0, 0;
    var i := 0;
    while i < |plan.commands|
      invariant 0 <= i <= |plan.commands|
      invariant sent == plan.commands[..i]
      invariant forall k :: 0 <= k < i ==> ReplyTo(replies, k) != Raised
      invariant errors == Failures(sent, replies)
      invariant conflictsCleared == if Has(sent, replies, ClearConflicts) then plan.conflictsToClear else 0
      invariant bindingsCleared == Cleared(sent, replies)
      invariant ConflictsFirst(plan.commands) ==>
                  bindingsCleared + (if Has(sent, replies, ClearConflicts) then 1 else 0) + |errors| == |sent|
    {
      var cmd, reply := plan.commands[i], ReplyTo(replies, i);
      ghost var before := sent;
      sent := sent + [cmd];
      assert sent[..|sent| - 1] == before && sent == plan.commands[..i + 1];
      HasSnoc(before, cmd, replies);
      ClearedSnoc(before, cmd, replies);
      FailuresSnoc(before, cmd, replies);
      i := i + 1;
      match reply {
        case Raised =>
          errors := errors + [cmd];
          break;
        case Rejected =>
          errors := errors + [cmd];
        case Accepted =>
          if cmd == ClearConflicts {
            assert ConflictsFirst(plan.commands) ==> i == 1 && !Has(before, replies, ClearConflicts);
            conflictsCleared := plan.conflictsToClear;
          } else {
            bindingsCleared := bindingsCleared + 1;
          }
      }
    }
  }

  lemma HasSnoc(sent: seq<Command>, cmd: Command, replies: seq<Reply>)
    ensures Has(sent + [cmd], replies, ClearConflicts) <==>
            Has(sent, replies, ClearConflicts) || (cmd == ClearConflicts && ReplyTo(replies, |sent|) == Accepted)
  {
    var longer := sent + [cmd];
    if i :| 0 <= i < |sent| && sent[i] == ClearConflicts && ReplyTo(replies, i) == Accepted {
      assert longer[i] == ClearConflicts;
    }
    assert longer[|sent|] == cmd;
  }

  /** An automatic lease of this reading on the AP VLAN, which `cmd` clears. */
  predicate ClearsALease(cmd: Command, b: Binding, reading: Reading, vlanTag: string) {
    b in reading.bindings && b.kind == Automatic && OnApVlan(b, reading, vlanTag) && cmd == ClearBinding(b.ip.text)
  }

  function LeaseClears(commands: seq<Command>): nat {
    if commands == [] then 0
    else LeaseClears(commands[1..]) + (if commands[0].ClearBinding? then 1 else 0)
  }

  lemma {:induction false} FewerThanAll(commands: seq<Command>)
    ensures LeaseClears(commands) <= |commands|
  {
    if commands != [] {
      FewerThanAll(commands[1..]);
    }
  }

  lemma {:induction false} PrefixHasNoMore(sent: seq<Command>, plan: seq<Command>)
    requires sent <= plan
    ensures LeaseClears(sent) <= LeaseClears(plan)
  {
    if sent != [] {
      PrefixHasNoMore(sent[1..], plan[1..]);
    }
  }

  /** Everything the cleanup may do to a switch. */
  ghost predicate Safe(sent: seq<Command>, reading: Reading, vlanTag: string, actions: set<Action>, maxBindings: int,
                       dryRun: bool) {
    && (sent != [] ==> !dryRun && ServesItself(reading))
    && (forall c :: c in sent && c == ClearConflicts ==> Conflict in actions && reading.conflicts != [])
    && (forall c :: c in sent && c != ClearConflicts ==>
          Lease in actions && exists b :: ClearsALease(c, b, reading, vlanTag))
    && LeaseClears(sent) <= if maxBindings > 0 then maxBindings else 0
  }

  lemma PlannedIsSafe(diag: Diagnostics, reading: Reading, vlanTag: string, actions: set<Action>, maxBindings: int)
    requires diag.role == LocalServer <==> ServesItself(reading)
    requires diag.conflicts == reading.conflicts
    requires forall b :: b in diag.apBindings <==> b in reading.bindings && OnApVlan(b, reading, vlanTag)
    ensures Safe(Planned(diag, actions, maxBindings), reading, vlanTag, actions, maxBindings, false)
    ensures ConflictsFirst(Planned(diag, actions, maxBindings))
    ensures ClearConflicts in Planned(diag, actions, maxBindings) ==> PlansConflicts(diag, actions)
  {
    hide OnApVlan, ServesItself, LeaseClears;
    var planned := Planned(diag, actions, maxBindings);
    var leases := PlannedLeases(diag, actions, maxBindings);
    var clears := BindingClears(leases);
    FewerThanAll(clears);
    ConflictsAreNoLease(clears);
    forall c | c in clears
      ensures c != ClearConflicts && exists b :: ClearsALease(c, b, reading, vlanTag)
    {
      var i :| 0 <= i < |clears| && clears[i] == c;
      LeasesAreOnApVlan(leases, diag, reading, vlanTag, i);
      assert ClearsALease(c, leases[i], reading, vlanTag);
    }
    assert forall c :: c in planned ==> c == ClearConflicts || c in clears;
  }

  lemma ConflictsAreNoLease(clears: seq<Command>)
    ensures LeaseClears([ClearConflicts] + clears) == LeaseClears(clears)
  {
    assert ([ClearConflicts] + clears)[1..] == clears;
  }

  lemma LeasesAreOnApVlan(leases: seq<Binding>, diag: Diagnostics, reading: Reading, vlanTag: string, i: nat)
    requires leases == [] || leases == Automatics(diag.apBindings)
    requires forall b :: b in diag.apBindings <==> b in reading.bindings && OnApVlan(b, reading, vlanTag)
    requires i < |leases|
    ensures leases[i] in reading.bindings && OnApVlan(leases[i], reading, vlanTag) && leases[i].kind == Automatic
  {
    hide OnApVlan;
    assert leases[i] in leases;
  }

  lemma PrefixIsSafe(sent: seq<Command>, plan: seq<Command>, reading: Reading, vlanTag: string, actions: set<Action>,
                     maxBindings: int)
    requires sent <= plan && Safe(plan, reading, vlanTag, actions, maxBindings, false)
    ensures Safe(sent, reading, vlanTag, actions, maxBindings, false)
  {
    hide ClearsALease, ServesItself;
    PrefixHasNoMore(sent, plan);
    assert forall c :: c in sent ==> c in plan;
  }

  lemma NothingSentIsSafe(reading: Reading, vlanTag: string, actions: set<Action>, maxBindings: int, dryRun: bool,
                          replies: seq<Reply>)
    ensures Safe([], reading, vlanTag, actions, maxBindings, dryRun)
    ensures Failures([], replies) == [] && Cleared([], replies) == 0
  {
  }

  /** The plan, read off the switch: the conflict clear if it is asked for, the switch serves the
      VLAN and there are conflicts; the clears of all automatic leases of the VLAN, in the order of
      the table, if they are asked for, the switch serves the VLAN and they are within the cap. */
  lemma PlannedFromReading(reading: Reading, vlanTag: string, actions: set<Action>, maxBindings: int)
    ensures var diag := Diagnostics(ClassifyRole(reading), reading.conflicts,
                                    ApBindings(reading.bindings, reading, vlanTag));
            var leases := Leases(reading.bindings, reading, vlanTag);
            && Automatics(diag.apBindings) == leases
            && Planned(diag, actions, maxBindings) ==
               (if Conflict in actions && ServesItself(reading) && reading.conflicts != [] then [ClearConflicts]
                else [])
               + (if Lease in actions && ServesItself(reading) && 0 < |leases| <= maxBindings
                  then seq(|leases|, i requires 0 <= i < |leases| => ClearBinding(leases[i].ip.text)) else [])
  {
    LeasesAreTheAutomatics(reading.bindings, reading, vlanTag);
    hide ServesItself, Leases, ApBindings;
    var diag := Diagnostics(ClassifyRole(reading), reading.conflicts, ApBindings(reading.bindings, reading, vlanTag));
    var leases := Leases(reading.bindings, reading, vlanTag);
    assert BindingClears(leases) == seq(|leases|, i requires 0 <= i < |leases| => ClearBinding(leases[i].ip.text));
    assert PlannedLeases(diag, actions, maxBindings) == [] ==> BindingClears([]) == [];
  }

  /** The whole cleanup. `scan` is None when the switch could not be read; `after` is the
      best-effort read that follows the commands. */
  method RunDhcpClear(scan: Option<Reading>, after: Option<Reading>, vlanTag: string, actions: set<Action>,
                      maxBindings: int, dryRun: bool, replies: seq<Reply>)
    returns (outcome: Option<Outcome>, sent: seq<Command>)
    ensures outcome.None? <==> scan.None?
    ensures scan.None? ==> sent == []
    ensures scan.Some? ==> Safe(sent, scan.value, vlanTag, actions, maxBindings, dryRun)
    // What is planned, dry run or not.
    ensures scan.Some? ==>
      var r, leases := scan.value, Leases(scan.value.bindings, scan.value, vlanTag);
      && outcome.value.plan.commands ==
         (if Conflict in actions && ServesItself(r) && r.conflicts != [] then [ClearConflicts] else [])
         + (if Lease in actions && ServesItself(r) && 0 < |leases| <= maxBindings
            then seq(|leases|, i requires 0 <= i < |leases| => ClearBinding(leases[i].ip.text)) else [])
      && outcome.value.plan.conflictsToClear ==
         (if Conflict in actions && ServesItself(r) then |r.conflicts| else 0)
      && outcome.value.plan.bindingsToClear ==
         (if Lease in actions && ServesItself(r) && |leases| <= maxBindings then |leases| else 0)
      && (forall n: nat :: OverCap(n) in outcome.value.plan.skipped <==>
            Lease in actions && ServesItself(r) && n == |leases| && n > 0 && n > maxBindings)
      && (NoActions in outcome.value.plan.skipped <==> Conflict !in actions && Lease !in actions)
    // What is sent.
    ensures scan.Some? && dryRun ==> sent == []
    ensures scan.Some? && !dryRun ==>
      var planned := outcome.value.plan.commands;
      && RunsThrough(sent, planned, replies)
      && ((forall i :: 0 <= i < |planned| ==> ReplyTo(replies, i) != Raised) ==> sent == planned)
    // What is reported.
    ensures scan.Some? ==>
      var r := scan.value;
      && outcome.value.dryRun == dryRun && outcome.value.role == ClassifyRole(r)
      && outcome.value.bindingsBefore == |ApBindings(r.bindings, r, vlanTag)|
      && outcome.value.conflictsBefore == |r.conflicts|
      && outcome.value.errors == Failures(sent, replies)
      && outcome.value.bindingsCleared == Cleared(sent, replies)
      && outcome.value.conflictsCleared == (if Has(sent, replies, ClearConflicts) then |r.conflicts| else 0)
      && outcome.value.bindingsCleared + (if outcome.value.conflictsCleared > 0 then 1 else 0)
           + |outcome.value.errors| == |sent|
    ensures scan.Some? ==>
      if sent == [] || after.None? then outcome.value.bindingsAfter == None && outcome.value.conflictsAfter == None
      else
        && outcome.value.bindingsAfter == Some(|ApBindings(after.value.bindings, after.value, vlanTag)|)
        && outcome.value.conflictsAfter == Some(|after.value.conflicts|)
  {
    hide OnApVlan, ServesItself, ClearsALease, Safe, Failures, Cleared, LeaseClears, Planned, Leases, ApBindings;
    sent := [];
    if scan.None? {
      return None, [];
    }
    var diag := Diagnose(scan.value, vlanTag);
    var plan := PlanClear(diag, actions, maxBindings);
    PlannedIsSafe(diag, scan.value, vlanTag, actions, maxBindings);
    PlannedFromReading(scan.value, vlanTag, actions, maxBindings);
    if dryRun || plan.commands == [] {
      NothingSentIsSafe(scan.value, vlanTag, actions, maxBindings, dryRun, replies);
      return Some(Outcome(dryRun, diag.role, plan, 0, 0, [], |diag.apBindings|, |diag.conflicts|, None, None)), [];
    }
    var conflictsCleared, bindingsCleared, errors;
    sent, conflictsCleared, bindingsCleared, errors := Execute(plan, replies);
    PrefixIsSafe(sent, plan.commands, scan.value, vlanTag, actions, maxBindings);
    assert Has(sent, replies, ClearConflicts) ==> ClearConflicts in plan.commands;
    var bindingsAfter, conflictsAfter := None, None;
    if after.Some? {
      var again := Diagnose(after.value, vlanTag);
      bindingsAfter, conflictsAfter := Some(|again.apBindings|), Some(|again.conflicts|);
    }
    outcome := Some(Outcome(dryRun, diag.role, plan, conflictsCleared, bindingsCleared, errors, |diag.apBindings|,
      |diag.conflicts|, bindingsAfter, conflictsAfter));
  }
}
