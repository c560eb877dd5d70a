/** The stored status of each cash register and its alert latch
    (record_check_results in app/services/honest_sign.py). */
module HonestSignAlerts {
  import opened Wrappers
  import opened Arithmetic

  /** One register's result in a scheduled check. */
  datatype Check = Check(original: string, host: string, reachable: bool, ready: bool, at: int)

  datatype Record = Record(host: string, reachable: bool, ready: bool, at: int, since: int, failures: int,
                           reported: bool)

  datatype Kind = Down | NotReady | Recovered

  datatype Event = Event(original: string, kind: Kind)

  type Records = map<string, Record>

  predicate Distinct(rows: seq<Check>) {
    forall i, j :: 0 <= i < j < |rows| ==> rows[i].original != rows[j].original
  }

  // ----- One check of one register -----

  function Prior(records: Records, original: string): Option<Record> {
    if original in records then Some(records[original]) else None
  }

  /** The record continues the state it was in: known, and still at the same address. */
  predicate Continues(prior: Option<Record>, c: Check) {
    prior.Some? && prior.value.host == c.host
  }

  function After(prior: Option<Record>, c: Check, threshold: int): Record {
    var streak := if c.ready then 0 else 1 + (if Continues(prior, c) then prior.value.failures else 0);
    Record(c.host, c.reachable, c.ready, c.at,
           if Continues(prior, c) && prior.value.ready == c.ready then prior.value.since else c.at,
           streak,
           !c.ready && ((Continues(prior, c) && prior.value.reported) || streak >= Max(1, threshold)))
  }

  function Emitted(prior: Option<Record>, c: Check, threshold: int): seq<Event> {
    var was := Continues(prior, c) && prior.value.reported;
    if was && c.ready then [Event(c.original, Recovered)]
    else if !was && After(prior, c, threshold).reported then [Event(c.original, if c.reachable then NotReady else Down)]
    else []
  }

  // ----- A whole batch -----

  function BatchRecords(records: Records, rows: seq<Check>, threshold: int): Records {
    if rows == [] then records
    else
      var last := rows[|rows| - 1];
      var before := BatchRecords(records, rows[..|rows| - 1], threshold);
      before[last.original := After(Prior(records, last.original), last, threshold)]
  }

  function BatchEvents(records: Records, rows: seq<Check>, threshold: int): seq<Event> {
    if rows == [] then []
    else
      var last := rows[|rows| - 1];
      BatchEvents(records, rows[..|rows| - 1], threshold) + Emitted(Prior(records, last.original), last, threshold)
  }

  function Originals(rows: seq<Check>): set<string> {
    set c | c in rows :: c.original
  }

  /** The table after a batch: registers absent from it are dropped. */
  function AfterBatch(records: Records, rows: seq<Check>, threshold: int): Records {
    map o | o in BatchRecords(records, rows, threshold) && o in Originals(rows) ::
        BatchRecords(records, rows, threshold)[o]
  }

  lemma {:induction false} BatchLeavesOthers(records: Records, rows: seq<Check>, threshold: int, original: string)
    requires original !in Originals(rows)
    ensures Prior(BatchRecords(records, rows, threshold), original) == Prior(records, original)
  {
    if rows != [] {
      assert rows[|rows| - 1] in rows;
      assert forall c :: c in rows[..|rows| - 1] ==> c in rows;
      BatchLeavesOthers(records, rows[..|rows| - 1], threshold, original);
    }
  }

  lemma FreshInBatch(rows: seq<Check>, i: nat)
    requires i < |rows| && Distinct(rows)
    ensures rows[i].original !in Originals(rows[..i])
    ensures Distinct(rows[..i])
  {
  }

  /** The table of stored statuses and the event log it writes to. */
  class StatusStore {
    var records: Records
    var events: seq<Event>

    constructor ()
      ensures records == map[] && events == []
    {
      records := map[];
      events := [];
    }

    method RecordCheckResults(rows: seq<Check>, alertAfter: int)
      requires Distinct(rows)
      modifies this
      ensures records == AfterBatch(old(records), rows, alertAfter)
      ensures events == old(events) + BatchEvents(old(records), rows, alertAfter)
    {
      hide After, Emitted, Distinct;
      ghost var was, logged := records, events;
      var existing := records.Keys;
      var i := 0;
      while i < |rows|
        invariant 0 <= i <= |rows|
        invariant records == BatchRecords(was, rows[..i], alertAfter)
        invariant events == logged + BatchEvents(was, rows[..i], alertAfter)
      {
        FreshInBatch(rows, i);
        BatchLeavesOthers(was, rows[..i], alertAfter, rows[i].original);
        assert rows[..i + 1][..i] == rows[..i];
        Observe(rows[i], alertAfter);
        i := i + 1;
      }
      assert rows[..i] == rows;
      DropUnchecked(existing, set c | c in rows :: c.original);
      BatchKeys(was, rows, alertAfter);
      assert records == AfterBatch(was, rows, alertAfter);
    }

    /** One row of the batch, field by field. */
    method Observe(row: Check, alertAfter: int)
      modifies this
      ensures records == old(records)[row.original := After(Prior(old(records), row.original), row, alertAfter)]
      ensures events == old(events) + Emitted(Prior(old(records), row.original), row, alertAfter)
    {
      var threshold := Max(1, alertAfter);
      var record: Record;
      if row.original !in records {
        record := Record(row.host, row.reachable, row.ready, row.at, row.at, 0, false);
      } else {
        record := records[row.original];
        if record.host != row.host {
          record := record.(host := row.host, since := row.at, failures := 0, reported := false);
        } else if record.ready != row.ready {
          record := record.(since := row.at);
        }
      }
      record := record.(reachable := row.reachable, ready := row.ready, at := row.at);
      if row.ready {
        record := record.(failures := 0);
        if record.reported {
          record := record.(reported := false);
          events := events + [Event(row.original, Recovered)];
        }
      } else {
        record := record.(failures := record.failures + 1);
        if !record.reported && record.failures >= threshold {
          record := record.(reported := true);
          events := events + [Event(row.original, if row.reachable then NotReady else Down)];
        }
      }
      records := records[row.original := record];
    }

    /** The closing loop over the records that existed before the batch. */
    method DropUnchecked(existing: set<string>, checked: set<string>)
      modifies this`records
      ensures records == old(records) - (existing - checked)
    {
      var left := existing;
      while left != {}
        invariant left <= existing
        invariant records == old(records) - ((existing - left) - checked)
        decreases left
      {
        var o :| o in left;
        left := left - {o};
        if o !in checked {
          records := records - {o};
        }
      }
    }
  }

  lemma {:induction false} BatchKeys(records: Records, rows: seq<Check>, threshold: int)
    ensures BatchRecords(records, rows, threshold).Keys == records.Keys + Originals(rows)
  {
    if rows != [] {
      BatchKeys(records, rows[..|rows| - 1], threshold);
      assert rows == rows[..|rows| - 1] + [rows[|rows| - 1]];
      assert Originals(rows) == Originals(rows[..|rows| - 1]) + {rows[|rows| - 1].original};
    }
  }

  // ----- The history of one register -----

  /** What successive batches said of one register; None is a batch without it. */
  type History = seq<Option<Check>>

  function Run(h: History, threshold: int): Option<Record> {
    if h == [] || h[|h| - 1].None? then None
    else Some(After(Run(h[..|h| - 1], threshold), h[|h| - 1].value, threshold))
  }

  /** What the last batch of the history logged. */
  function LastEmitted(h: History, threshold: int): seq<Event> {
    if h == [] || h[|h| - 1].None? then [] else Emitted(Run(h[..|h| - 1], threshold), h[|h| - 1].value, threshold)
  }

  predicate FailsAt(h: History, i: nat, host: string)
    requires i < |h|
  {
    h[i].Some? && !h[i].value.ready && h[i].value.host == host
  }

  /** The history ends in exactly `k` not-ready checks of the address checked last. */
  predicate Streak(h: History, k: nat)
    requires h != [] && h[|h| - 1].Some?
  {
    var host := h[|h| - 1].value.host;
    k <= |h| && (forall i :: |h| - k <= i < |h| ==> FailsAt(h, i, host)) && (k < |h| ==> !FailsAt(h, |h| - k - 1, host))
  }

  predicate SameStateAt(h: History, i: nat, host: string, ready: bool)
    requires i < |h|
  {
    h[i].Some? && h[i].value.ready == ready && h[i].value.host == host
  }

  /** From index `s` on, and no earlier, the history stays in the state it ends in. */
  predicate StateStarts(h: History, s: nat)
    requires h != [] && h[|h| - 1].Some?
  {
    var last := h[|h| - 1].value;
    && s < |h| && (forall i :: s <= i < |h| ==> SameStateAt(h, i, last.host, last.ready))
    && (s > 0 ==> !SameStateAt(h, s - 1, last.host, last.ready))
  }

  /** The closed form of a register's record: the streak is the trailing run of failures at
      this address, the latch is up just when that run has reached the threshold, and
      `since` is when the trailing run in the present state began. */
  lemma {:induction false} RecordMeaning(h: History, threshold: int) returns (k: nat, s: nat)
    requires h != [] && h[|h| - 1].Some?
    ensures Streak(h, k) && StateStarts(h, s)
    ensures var r, last := Run(h, threshold).value, h[|h| - 1].value;
            && r.host == last.host && r.ready == last.ready && r.reachable == last.reachable && r.at == last.at
            && r.failures == k
            && (r.reported <==> k >= Max(1, threshold))
            && h[s].Some? && r.since == h[s].value.at
    decreases |h|
  {
    var n := |h| - 1;
    var init, last := h[..n], h[n].value;
    if n > 0 && h[n - 1].Some? && h[n - 1].value.host == last.host {
      var k', s' := RecordMeaning(init, threshold);
      assert Run(init, threshold).Some?;
      k := if last.ready then 0 else k' + 1;
      s := if h[n - 1].value.ready == last.ready then s' else n;
      StreakGrows(h, k', s');
    } else {
      assert !Continues(Run(init, threshold), last) by {
        if n > 0 && h[n - 1].Some? {
          var _, _ := RecordMeaning(init, threshold);
        }
      }
      k := if last.ready then 0 else 1;
      s := n;
    }
  }

  lemma StreakGrows(h: History, k: nat, s: nat)
    requires |h| > 1 && h[|h| - 1].Some? && h[|h| - 2].Some? && h[|h| - 2].value.host == h[|h| - 1].value.host
    requires Streak(h[..|h| - 1], k) && StateStarts(h[..|h| - 1], s)
    ensures Streak(h, if h[|h| - 1].value.ready then 0 else k + 1)
    ensures StateStarts(h, if h[|h| - 2].value.ready == h[|h| - 1].value.ready then s else |h| - 1)
  {
    var n := |h| - 1;
    var init, host := h[..n], h[n].value.host;
    assert forall i :: 0 <= i < n ==> init[i] == h[i];
    assert forall i :: 0 <= i < n ==> FailsAt(init, i, host) == FailsAt(h, i, host);
    assert forall i, ready :: 0 <= i < n ==> SameStateAt(init, i, host, ready) == SameStateAt(h, i, host, ready);
  }

  lemma StreakIsUnique(h: History, j: nat, k: nat)
    requires h != [] && h[|h| - 1].Some?
    requires Streak(h, j) && Streak(h, k)
    ensures j == k
  {
  }

  /** A problem is logged by the check that completes the streak and by no other; a recovery
      by the first ready check after a reported streak at the same address. */
  lemma EmittedExactly(h: History, threshold: int, k: nat)
    requires h != [] && h[|h| - 1].Some? && Streak(h, k)
    ensures var last := h[|h| - 1].value;
            LastEmitted(h, threshold) ==
            if k == Max(1, threshold) then [Event(last.original, if last.reachable then NotReady else Down)]
            else if last.ready && Broken(h[..|h| - 1], last.host, threshold) then [Event(last.original, Recovered)]
            else []
  {
    var n := |h| - 1;
    var init, last := h[..n], h[n].value;
    var k1, _ := RecordMeaning(h, threshold);
    StreakIsUnique(h, k, k1);
    if n > 0 && h[n - 1].Some? {
      var k0, s0 := RecordMeaning(init, threshold);
      if h[n - 1].value.host == last.host {
        StreakGrows(h, k0, s0);
        StreakIsUnique(h, k, if last.ready then 0 else k0 + 1);
      }
      assert Broken(init, last.host, threshold) <==> h[n - 1].value.host == last.host && k0 >= Max(1, threshold) by {
        if Broken(init, last.host, threshold) {
          var j: nat :| Streak(init, j) && j >= Max(1, threshold);
          StreakIsUnique(init, j, k0);
        }
      }
    }
  }

  /** The history ends at this address in a streak that has been reported. */
  ghost predicate Broken(h: History, host: string, threshold: int) {
    && h != [] && h[|h| - 1].Some? && h[|h| - 1].value.host == host
    && exists k: nat :: Streak(h, k) && k >= Max(1, threshold)
  }

  // ----- Alternation -----

  /** What was logged since the register was last dropped or moved to another address. */
  function Logged(h: History, threshold: int): seq<Event> {
    if h == [] || h[|h| - 1].None? then []
    else
      var init, last := h[..|h| - 1], h[|h| - 1].value;
      (if Continues(Run(init, threshold), last) then Logged(init, threshold) else [])
        + Emitted(Run(init, threshold), last, threshold)
  }

  /** One check logs just when it flips the latch, and what it logs says which way. */
  lemma EmittedFlips(prior: Option<Record>, c: Check, threshold: int)
    ensures var was, emitted := Continues(prior, c) && prior.value.reported, Emitted(prior, c, threshold);
            if was == After(prior, c, threshold).reported then emitted == []
            else |emitted| == 1 && (emitted[0].kind == Recovered <==> was)
  {
  }

  /** Problems and recoveries alternate, a problem first, and the latch is up after an odd number. */
  lemma {:induction false} EventsAlternate(h: History, threshold: int)
    ensures forall i :: 0 <= i < |Logged(h, threshold)| ==> (Logged(h, threshold)[i].kind == Recovered <==> i % 2 == 1)
    ensures |Logged(h, threshold)| % 2 == 1 <==> Run(h, threshold).Some? && Run(h, threshold).value.reported
    decreases |h|
  {
    hide After, Emitted;
    if h != [] && h[|h| - 1].Some? {
      var init, last := h[..|h| - 1], h[|h| - 1].value;
      EventsAlternate(init, threshold);
      EmittedFlips(Run(init, threshold), last, threshold);
    }
  }

  // ----- Registers do not influence each other -----

  function Found(rows: seq<Check>, original: string): Option<Check> {
    if rows == [] then None
    else if rows[|rows| - 1].original == original then Some(rows[|rows| - 1])
    else Found(rows[..|rows| - 1], original)
  }

  function HistoryOf(batches: seq<seq<Check>>, original: string): History {
    if batches == [] then []
    else HistoryOf(batches[..|batches| - 1], original) + [Found(batches[|batches| - 1], original)]
  }

  /** The table after a sequence of batches, from an empty one. */
  function Table(batches: seq<seq<Check>>, threshold: int): Records {
    if batches == [] then map[]
    else AfterBatch(Table(batches[..|batches| - 1], threshold), batches[|batches| - 1], threshold)
  }

  function EventLog(batches: seq<seq<Check>>, threshold: int): seq<Event> {
    if batches == [] then []
    else
      var init, last := batches[..|batches| - 1], batches[|batches| - 1];
      EventLog(init, threshold) + BatchEvents(Table(init, threshold), last, threshold)
  }

  function About(events: seq<Event>, original: string): seq<Event> {
    if events == [] then []
    else
      var init, last := About(events[..|events| - 1], original), events[|events| - 1];
      if last.original == original then init + [last] else init
  }

  function RunEvents(h: History, threshold: int): seq<Event> {
    if h == [] then [] else RunEvents(h[..|h| - 1], threshold) + LastEmitted(h, threshold)
  }

  lemma {:induction false} AboutSplits(a: seq<Event>, b: seq<Event>, original: string)
    ensures About(a + b, original) == About(a, original) + About(b, original)
    decreases |b|
  {
    if b == [] {
      assert a + b == a;
    } else {
      assert (a + b)[..|a + b| - 1] == a + b[..|b| - 1];
      AboutSplits(a, b[..|b| - 1], original);
    }
  }

  lemma {:induction false} FoundMeaning(rows: seq<Check>, original: string)
    ensures Found(rows, original).Some? <==> original in Originals(rows)
    ensures Found(rows, original).Some? ==> Found(rows, original).value.original == original
  {
    if rows != [] {
      assert rows == rows[..|rows| - 1] + [rows[|rows| - 1]];
      FoundMeaning(rows[..|rows| - 1], original);
      assert Originals(rows) == Originals(rows[..|rows| - 1]) + {rows[|rows| - 1].original};
    }
  }

  lemma {:induction false} BatchOn(records: Records, rows: seq<Check>, threshold: int, original: string)
    requires Distinct(rows)
    ensures var found, prior := Found(rows, original), Prior(records, original);
            && Prior(AfterBatch(records, rows, threshold), original) ==
               (if found.Some? then Some(After(prior, found.value, threshold)) else None)
            && About(BatchEvents(records, rows, threshold), original) ==
               (if found.Some? then Emitted(prior, found.value, threshold) else [])
  {
    hide After, Emitted;
    BatchKeys(records, rows, threshold);
    FoundMeaning(rows, original);
    BatchRecordsOn(records, rows, threshold, original);
    BatchEventsOn(records, rows, threshold, original);
  }

  lemma {:induction false} BatchRecordsOn(records: Records, rows: seq<Check>, threshold: int, original: string)
    requires Distinct(rows)
    ensures var found, prior := Found(rows, original), Prior(records, original);
            Prior(BatchRecords(records, rows, threshold), original) ==
            (if found.Some? then Some(After(prior, found.value, threshold)) else prior)
  {
    hide After;
    if rows != [] {
      BatchRecordsOn(records, rows[..|rows| - 1], threshold, original);
    }
  }

  lemma AboutEmitted(prior: Option<Record>, c: Check, threshold: int, original: string)
    ensures About(Emitted(prior, c, threshold), original) ==
            if c.original == original then Emitted(prior, c, threshold) else []
  {
    var emitted := Emitted(prior, c, threshold);
    if emitted != [] {
      assert emitted[..0] == [];
    }
  }

  lemma {:induction false} BatchEventsOn(records: Records, rows: seq<Check>, threshold: int, original: string)
    requires Distinct(rows)
    ensures var found, prior := Found(rows, original), Prior(records, original);
            About(BatchEvents(records, rows, threshold), original) ==
            (if found.Some? then Emitted(prior, found.value, threshold) else [])
  {
    hide After, Emitted;
    if rows != [] {
      var init, last := rows[..|rows| - 1], rows[|rows| - 1];
      BatchEventsOn(records, init, threshold, original);
      AboutSplits(BatchEvents(records, init, threshold), Emitted(Prior(records, last.original), last, threshold),
        original);
      AboutEmitted(Prior(records, last.original), last, threshold, original);
      FreshInBatch(rows, |rows| - 1);
      FoundMeaning(init, original);
    }
  }

  /** Whatever the other registers do, a register's record and its events are those of its own history. */
  lemma {:induction false} RegistersAreIndependent(batches: seq<seq<Check>>, threshold: int, original: string)
    requires forall i :: 0 <= i < |batches| ==> Distinct(batches[i])
    ensures Prior(Table(batches, threshold), original) == Run(HistoryOf(batches, original), threshold)
    ensures About(EventLog(batches, threshold), original) == RunEvents(HistoryOf(batches, original), threshold)
  {
    hide After, Emitted, Distinct, AfterBatch, BatchEvents;
    if batches != [] {
      var init, last := batches[..|batches| - 1], batches[|batches| - 1];
      RegistersAreIndependent(init, threshold, original);
      BatchOn(Table(init, threshold), last, threshold, original);
      AboutSplits(EventLog(init, threshold), BatchEvents(Table(init, threshold), last, threshold), original);
      var h := HistoryOf(batches, original);
      assert h[..|h| - 1] == HistoryOf(init, original);
    }
  }
}
