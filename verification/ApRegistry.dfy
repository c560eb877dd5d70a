/** The registry of every access point a switch ever reported
    (app/domains/inventory/ap_registry.py), and the target list built from it. */
module ApRegistry {
  import opened Wrappers
  import opened Arithmetic

  /** One registry row; the table holds one per MAC of the switch. */
  datatype Row = Row(port: string, cdpName: string, lastSeen: int, isActive: bool, excluded: bool,
                     failures: int, skips: int, needsAttention: Option<int>)

  type Rows = map<string, Row>

  /** One AP of a live scan; an empty string is a field the scan did not resolve. */
  datatype LiveAp = LiveAp(mac: string, port: string, cdpName: string)

  datatype MergedAp = MergedAp(mac: string, port: string, responding: bool, excluded: bool)

  const STALE_AFTER_SECONDS := 7 * 86400

  // ----- record_seen_aps -----

  /** Seen responding: whatever streak the row had is over; its exclusion stays. */
  function Seen(rows: Rows, ap: LiveAp, now: int): Row {
    var prior := if ap.mac in rows then rows[ap.mac] else Row(ap.port, "", now, true, false, 0, 0, None);
    Row(ap.port, if ap.cdpName != "" then ap.cdpName else prior.cdpName, now, true, prior.excluded, 0, 0, None)
  }

  predicate Usable(ap: LiveAp) { ap.mac != "" && ap.port != "" }

  function RecordSeen(rows: Rows, aps: seq<LiveAp>, now: int): Rows {
    if aps == [] then rows
    else
      var init, last := RecordSeen(rows, aps[..|aps| - 1], now), aps[|aps| - 1];
      if Usable(last) then init[last.mac := Seen(init, last, now)] else init
  }

  /** A MAC that is new to the table and reported twice is inserted twice, which the
      table's unique constraint rejects. */
  predicate Violates(rows: Rows, aps: seq<LiveAp>) {
    exists i, j ::
      0 <= i < j < |aps| && Usable(aps[i]) && Usable(aps[j]) && aps[i].mac == aps[j].mac && aps[i].mac !in rows
  }

  lemma {:induction false} RecordSeenMeaning(rows: Rows, aps: seq<LiveAp>, now: int)
    ensures var rows' := RecordSeen(rows, aps, now);
            && (forall mac :: mac in rows' <==>
              mac in rows || exists i :: 0 <= i < |aps| && Usable(aps[i]) && aps[i].mac == mac)
            && (forall mac :: mac in rows && (forall i :: 0 <= i < |aps| && Usable(aps[i]) ==> aps[i].mac != mac) ==>
                  rows'[mac] == rows[mac])
            && (forall i :: 0 <= i < |aps| && Usable(aps[i]) ==>
                  var r := rows'[aps[i].mac];
                  r.failures == 0 && r.skips == 0 && r.needsAttention == None && r.isActive && r.lastSeen == now &&
                  r.excluded == (aps[i].mac in rows && rows[aps[i].mac].excluded))
    decreases |aps|
  {
    if aps != [] {
      var init, last := aps[..|aps| - 1], aps[|aps| - 1];
      RecordSeenMeaning(rows, init, now);
      var rows' := RecordSeen(rows, aps, now);
      assert forall i :: 0 <= i < |init| ==> init[i] == aps[i];
      forall mac
        ensures mac in rows' <==> mac in rows || exists i :: 0 <= i < |aps| && Usable(aps[i]) && aps[i].mac == mac
      {
        if i :| 0 <= i < |init| && Usable(init[i]) && init[i].mac == mac {
          assert aps[i] == init[i];
        } else if Usable(last) && last.mac == mac {
          assert aps[|aps| - 1].mac == mac;
        }
      }
      forall mac | mac in rows && (forall i :: 0 <= i < |aps| && Usable(aps[i]) ==> aps[i].mac != mac)
        ensures rows'[mac] == rows[mac]
      {
        assert forall i :: 0 <= i < |init| ==> init[i] == aps[i];
      }
      forall i | 0 <= i < |aps| && Usable(aps[i])
        ensures aps[i].mac in rows'
        ensures var r := rows'[aps[i].mac];
                r.failures == 0 && r.skips == 0 && r.needsAttention == None && r.isActive && r.lastSeen == now &&
                r.excluded == (aps[i].mac in rows && rows[aps[i].mac].excluded)
      {
        if i < |init| {
          assert aps[i] == init[i];
        }
      }
    }
  }

  /** The scan reports this MAC, on a port; `named` asks for a CDP name too. */
  predicate Reports(ap: LiveAp, mac: string, named: bool) {
    ap.mac == mac && mac != "" && ap.port != "" && (named ==> ap.cdpName != "")
  }

  /** Entry `i` is the last one of the scan that reports the MAC. */
  predicate LastReport(aps: seq<LiveAp>, i: nat, mac: string, named: bool) {
    i < |aps| && Reports(aps[i], mac, named) && forall j :: i < j < |aps| ==> !Reports(aps[j], mac, named)
  }

  lemma LastReportOfPrefix(aps: seq<LiveAp>, i: nat, mac: string, named: bool)
    requires LastReport(aps, i, mac, named) && i < |aps| - 1
    ensures LastReport(aps[..|aps| - 1], i, mac, named) && !Reports(aps[|aps| - 1], mac, named)
  {
  }

  lemma {:induction false} RecordedPort(rows: Rows, aps: seq<LiveAp>, now: int, mac: string, i: nat)
    requires LastReport(aps, i, mac, false)
    ensures var rows' := RecordSeen(rows, aps, now); mac in rows' && rows'[mac].port == aps[i].port
    decreases |aps|
  {
    if i < |aps| - 1 {
      LastReportOfPrefix(aps, i, mac, false);
      RecordedPort(rows, aps[..|aps| - 1], now, mac, i);
    }
  }

  lemma {:induction false} RecordedName(rows: Rows, aps: seq<LiveAp>, now: int, mac: string, i: nat)
    requires LastReport(aps, i, mac, true)
    ensures var rows' := RecordSeen(rows, aps, now); mac in rows' && rows'[mac].cdpName == aps[i].cdpName
    decreases |aps|
  {
    if i < |aps| - 1 {
      LastReportOfPrefix(aps, i, mac, true);
      RecordedName(rows, aps[..|aps| - 1], now, mac, i);
    }
  }

  lemma {:induction false} KeptName(rows: Rows, aps: seq<LiveAp>, now: int, mac: string)
    requires forall i :: 0 <= i < |aps| ==> !Reports(aps[i], mac, true)
    ensures var rows' := RecordSeen(rows, aps, now);
            && (mac in rows ==> mac in rows')
            && (mac in rows' ==> rows'[mac].cdpName == if mac in rows then rows[mac].cdpName else "")
    decreases |aps|
  {
    if aps != [] {
      KeptName(rows, aps[..|aps| - 1], now, mac);
      assert !Reports(aps[|aps| - 1], mac, true);
    }
  }

  lemma {:induction false} Unreported(rows: Rows, aps: seq<LiveAp>, now: int, mac: string)
    requires forall i :: 0 <= i < |aps| ==> !Reports(aps[i], mac, false)
    ensures var rows' := RecordSeen(rows, aps, now);
            (mac in rows' <==> mac in rows) && (mac in rows ==> rows'[mac] == rows[mac])
    decreases |aps|
  {
    if aps != [] {
      Unreported(rows, aps[..|aps| - 1], now, mac);
      assert !Reports(aps[|aps| - 1], mac, false);
    }
  }

  /** Where the registry takes an AP to be: on the port of the last entry that reports it, under
      the last CDP name reported; entries without a name leave the name as it was, and a scan
      that does not report the AP leaves its row alone. */
  lemma RecordedPlace(rows: Rows, aps: seq<LiveAp>, now: int, mac: string)
    ensures var rows' := RecordSeen(rows, aps, now);
            && (forall i: nat :: LastReport(aps, i, mac, false) ==> mac in rows' && rows'[mac].port == aps[i].port)
            && (forall i: nat :: LastReport(aps, i, mac, true) ==> mac in rows' && rows'[mac].cdpName == aps[i].cdpName)
            && (mac in rows' && (forall i :: 0 <= i < |aps| ==> !Reports(aps[i], mac, true)) ==>
                  rows'[mac].cdpName == if mac in rows then rows[mac].cdpName else "")
            && ((forall i :: 0 <= i < |aps| ==> !Reports(aps[i], mac, false)) ==>
                  (mac in rows' <==> mac in rows) && (mac in rows ==> rows'[mac] == rows[mac]))
  {
    hide RecordSeen, Reports;
    forall i: nat | LastReport(aps, i, mac, false)
      ensures var rows' := RecordSeen(rows, aps, now); mac in rows' && rows'[mac].port == aps[i].port
    {
      RecordedPort(rows, aps, now, mac, i);
    }
    forall i: nat | LastReport(aps, i, mac, true)
      ensures var rows' := RecordSeen(rows, aps, now); mac in rows' && rows'[mac].cdpName == aps[i].cdpName
    {
      RecordedName(rows, aps, now, mac, i);
    }
    if forall i :: 0 <= i < |aps| ==> !Reports(aps[i], mac, true) {
      KeptName(rows, aps, now, mac);
    }
    if forall i :: 0 <= i < |aps| ==> !Reports(aps[i], mac, false) {
      Unreported(rows, aps, now, mac);
    }
  }

  // ----- register_reboot_outcome and set_ap_excluded -----

  function Cleared(row: Row): Row {
    row.(failures := 0, skips := 0, needsAttention := None)
  }

  /** recovered: Some(true) verified, Some(false) failed, None skipped for no PoE draw. */
  function Registered(row: Row, recovered: Option<bool>, threshold: int, now: int): Row {
    if recovered == Some(true) then Cleared(row)
    else
      var counted := if recovered == Some(false) then row.(failures := row.failures + 1)
                     else row.(skips := row.skips + 1);
      var streak := if recovered == Some(false) then counted.failures else counted.skips;
      if streak >= threshold && row.needsAttention == None then counted.(needsAttention := Some(now), excluded := true)
      else counted
  }

  predicate Escalates(row: Row, recovered: Option<bool>, threshold: int) {
    && recovered != Some(true) && row.needsAttention == None
    && (if recovered == Some(false) then row.failures else row.skips) + 1 >= threshold
  }

  function RegisterOutcome(rows: Rows, mac: string, recovered: Option<bool>, threshold: int, now: int): Rows {
    if mac in rows then rows[mac := Registered(rows[mac], recovered, threshold, now)] else rows
  }

  function WithExcluded(row: Row, excluded: bool): Row {
    if excluded then row.(excluded := true) else Cleared(row.(excluded := false))
  }

  function SetExcluded(rows: Rows, mac: string, excluded: bool): Rows {
    if mac in rows then rows[mac := WithExcluded(rows[mac], excluded)] else rows
  }

  // ----- What the streaks of one row mean -----

  /** One registered outcome. */
  datatype Told = Told(recovered: Option<bool>, at: int)

  function RowRun(row: Row, told: seq<Told>, threshold: int): Row {
    if told == [] then row
    else
      var last := told[|told| - 1];
      Registered(RowRun(row, told[..|told| - 1], threshold), last.recovered, threshold, last.at)
  }

  /** From outcome `g` on nothing recovered, and the one before it did. */
  predicate SinceRecovered(told: seq<Told>, g: nat) {
    && g <= |told| && (g > 0 ==> told[g - 1].recovered == Some(true))
    && (forall i :: g <= i < |told| ==> told[i].recovered != Some(true))
  }

  /** The outcomes of one kind among from..to. */
  function Of(told: seq<Told>, from: nat, to: nat, kind: Option<bool>): set<int>
    requires to <= |told|
  {
    set i | from <= i < to && told[i].recovered == kind
  }

  /** With outcome `e`, and not before it, one of the two counts since `g` reaches `most`. */
  predicate Raises(told: seq<Told>, g: nat, e: nat, most: int) {
    && g <= e < |told|
    && |Of(told, g, e, Some(false))| < most && |Of(told, g, e, None)| < most
    && (|Of(told, g, e + 1, Some(false))| >= most || |Of(told, g, e + 1, None)| >= most)
  }

  lemma OfGrows(told: seq<Told>, from: nat, kind: Option<bool>)
    requires told != [] && from < |told|
    ensures var n := |told| - 1;
            |Of(told, from, n + 1, kind)| == |Of(told, from, n, kind)| + (if told[n].recovered == kind then 1 else 0)
  {
    var n := |told| - 1;
    assert Of(told, from, n + 1, kind) == Of(told, from, n, kind) + (if told[n].recovered == kind then {n} else {});
  }

  lemma OfPrefix(told: seq<Told>, n: nat, from: nat, to: nat, kind: Option<bool>)
    requires to <= n <= |told|
    ensures Of(told[..n], from, to, kind) == Of(told, from, to, kind)
  {
  }

  lemma RaisesInPrefix(told: seq<Told>, g: nat, e: nat, most: int)
    requires told != [] && e < |told| - 1
    ensures Raises(told[..|told| - 1], g, e, most) == Raises(told, g, e, most)
  {
    hide Of;
    forall to: nat, kind | to <= e + 1
      ensures Of(told[..|told| - 1], g, to, kind) == Of(told, g, to, kind)
    {
      OfPrefix(told, |told| - 1, g, to, kind);
    }
  }

  lemma {:induction false} CountsMeaning(row: Row, told: seq<Told>, threshold: int) returns (g: nat)
    requires row.failures == 0 && row.skips == 0
    ensures SinceRecovered(told, g)
    ensures var r := RowRun(row, told, threshold);
            r.failures == |Of(told, g, |told|, Some(false))| && r.skips == |Of(told, g, |told|, None)|
    decreases |told|
  {
    if told == [] {
      g := 0;
      NoneOf(told, 0, Some(false));
      NoneOf(told, 0, None);
    } else {
      var n := |told| - 1;
      g := CountsMeaning(row, told[..n], threshold);
      if told[n].recovered == Some(true) {
        g := n + 1;
        NoneOf(told, n + 1, Some(false));
        NoneOf(told, n + 1, None);
      } else {
        OfPrefix(told, n, g, n, Some(false));
        OfPrefix(told, n, g, n, None);
        OfGrows(told, g, Some(false));
        OfGrows(told, g, None);
        hide Of;
        TwoKinds(told[n].recovered);
        assert RowRun(row, told, threshold) ==
               Registered(RowRun(row, told[..n], threshold), told[n].recovered, threshold, told[n].at);
      }
    }
  }

  lemma TwoKinds(recovered: Option<bool>)
    requires recovered != Some(true)
    ensures recovered == None || recovered == Some(false)
  {
    match recovered
    case None =>
    case Some(back) => assert !back;
  }

  lemma NoneOf(told: seq<Told>, at: nat, kind: Option<bool>)
    requires at <= |told|
    ensures |Of(told, at, at, kind)| == 0
  {
    assert Of(told, at, at, kind) == {};
  }

  lemma SinceRecoveredIsUnique(told: seq<Told>, g: nat, h: nat)
    requires SinceRecovered(told, g) && SinceRecovered(told, h)
    ensures g == h
  {
  }

  /** The outcome that raised attention. */
  lemma {:induction false} AttentionMeaning(row: Row, told: seq<Told>, threshold: int, g: nat) returns (e: nat)
    requires row.failures == 0 && row.skips == 0 && row.needsAttention == None && SinceRecovered(told, g)
    ensures var r, most := RowRun(row, told, threshold), Max(threshold, 1);
            && (r.needsAttention.None? <==> r.failures < most && r.skips < most)
            && (r.needsAttention.Some? ==>
                  Raises(told, g, e, most) && r.needsAttention == Some(told[e].at) && r.excluded)
    decreases |told|
  {
    hide Of, Raises;
    e := 0;
    if told != [] {
      var n, most := |told| - 1, Max(threshold, 1);
      if told[n].recovered != Some(true) {
        e := AttentionMeaning(row, told[..n], threshold, g);
        if RowRun(row, told[..n], threshold).needsAttention.Some? {
          RaisesInside(told[..n], g, e, most);
          RaisesInPrefix(told, g, e, most);
        } else {
          e := n;
          CountsBefore(row, told, threshold, g);
          RaisesNow(told, g, most);
        }
      }
    }
  }

  lemma CountsBefore(row: Row, told: seq<Told>, threshold: int, g: nat)
    requires row.failures == 0 && row.skips == 0 && SinceRecovered(told, g)
    requires told != [] && told[|told| - 1].recovered != Some(true)
    ensures var n := |told| - 1;
            var before, after := RowRun(row, told[..n], threshold), RowRun(row, told, threshold);
            && before.failures == |Of(told, g, n, Some(false))| && before.skips == |Of(told, g, n, None)|
            && after.failures == |Of(told, g, n + 1, Some(false))| && after.skips == |Of(told, g, n + 1, None)|
  {
    var n := |told| - 1;
    var g1 := CountsMeaning(row, told[..n], threshold);
    var g2 := CountsMeaning(row, told, threshold);
    SinceRecoveredIsUnique(told[..n], g, g1);
    SinceRecoveredIsUnique(told, g, g2);
    OfPrefix(told, n, g, n, Some(false));
    OfPrefix(told, n, g, n, None);
  }

  /** The registry row after any outcomes: the two streaks count the failures and the skips
      since the last verified recovery, attention dates from the outcome with which one of them
      reached the threshold, and that outcome excluded the AP. */
  lemma StreaksMeaning(row: Row, told: seq<Told>, threshold: int) returns (g: nat, e: nat)
    requires row.failures == 0 && row.skips == 0 && row.needsAttention == None
    ensures SinceRecovered(told, g)
    ensures var r, most := RowRun(row, told, threshold), Max(threshold, 1);
            && r.failures == |Of(told, g, |told|, Some(false))| && r.skips == |Of(told, g, |told|, None)|
            && (r.needsAttention.None? <==> r.failures < most && r.skips < most)
            && (r.needsAttention.Some? ==>
                  Raises(told, g, e, most) && r.needsAttention == Some(told[e].at) && r.excluded)
  {
    g := CountsMeaning(row, told, threshold);
    e := AttentionMeaning(row, told, threshold, g);
  }

  lemma {:induction false} OutcomesKeepPlace(row: Row, told: seq<Told>, threshold: int)
    ensures var r := RowRun(row, told, threshold);
            r.port == row.port && r.cdpName == row.cdpName && r.lastSeen == row.lastSeen && r.isActive == row.isActive
    decreases |told|
  {
    if told != [] {
      OutcomesKeepPlace(row, told[..|told| - 1], threshold);
    }
  }

  lemma RaisesInside(told: seq<Told>, g: nat, e: nat, most: int)
    requires Raises(told, g, e, most)
    ensures e < |told|
  {
  }

  lemma RaisesNow(told: seq<Told>, g: nat, most: int)
    requires told != [] && g < |told|
    ensures var n := |told| - 1;
            Raises(told, g, n, most) <==>
            && |Of(told, g, n, Some(false))| < most && |Of(told, g, n, None)| < most
            && (|Of(told, g, n + 1, Some(false))| >= most || |Of(told, g, n + 1, None)| >= most)
  {
  }

  /** An AP is excluded by the operator or by an outcome that raised attention, and by nothing
      else; no outcome, not even a recovery, includes it again. */
  lemma {:induction false} ExcludedIff(row: Row, told: seq<Told>, threshold: int)
    ensures RowRun(row, told, threshold).excluded <==>
            row.excluded || exists e: nat :: e < |told| && Escalated(row, told, threshold, e)
    decreases |told|
  {
    if told != [] {
      var n := |told| - 1;
      ExcludedIff(row, told[..n], threshold);
      assert told[..n + 1] == told;
      forall e: nat | e < n
        ensures Escalated(row, told[..n], threshold, e) == Escalated(row, told, threshold, e)
      {
        assert told[..n][..e] == told[..e] && told[..n][..e + 1] == told[..e + 1];
      }
      assert RowRun(row, told, threshold) ==
             Registered(RowRun(row, told[..n], threshold), told[n].recovered, threshold, told[n].at);
      hide RowRun;
      assert Escalated(row, told, threshold, n) <==>
             RowRun(row, told[..n], threshold).needsAttention.None? &&
               RowRun(row, told, threshold).needsAttention.Some?;
    }
  }

  /** Outcome `e` raised attention. */
  predicate Escalated(row: Row, told: seq<Told>, threshold: int, e: nat)
    requires e < |told|
  {
    RowRun(row, told[..e], threshold).needsAttention.None? && RowRun(row, told[..e + 1], threshold).needsAttention.Some?
  }

  /** What an operator's decision does to one row, and to the others nothing. */
  lemma ExclusionMeaning(rows: Rows, mac: string, excluded: bool)
    ensures var rows' := SetExcluded(rows, mac, excluded);
            && rows'.Keys == rows.Keys && (forall m :: m in rows && m != mac ==> rows'[m] == rows[m])
            && (mac in rows ==>
                  var r, r' := rows[mac], rows'[mac];
                  && r'.excluded == excluded && r'.isActive == r.isActive
                  && r'.port == r.port && r'.cdpName == r.cdpName && r'.lastSeen == r.lastSeen
                  && (if excluded then
                        r'.failures == r.failures && r'.skips == r.skips && r'.needsAttention == r.needsAttention
                      else r'.failures == 0 && r'.skips == 0 && r'.needsAttention == None))
  {
  }

  // ----- Merging a scan with the registry -----

  /** `known` lists the active rows, in whatever order the database returns them. */
  ghost predicate IsListing(known: seq<string>, rows: Rows) {
    && (forall i, j :: 0 <= i < j < |known| ==> known[i] != known[j])
    && (forall mac :: mac in known <==> mac in rows && rows[mac].isActive)
  }

  /** The MAC remembered for a port and CDP name; the last matching row wins. */
  function RememberedMac(known: seq<string>, rows: Rows, port: string, cdpName: string): string
    requires forall i :: 0 <= i < |known| ==> known[i] in rows
  {
    if known == [] then ""
    else
      var last := known[|known| - 1];
      if rows[last].cdpName != "" && rows[last].port == port && rows[last].cdpName == cdpName then last
      else RememberedMac(known[..|known| - 1], rows, port, cdpName)
  }

  function RecoverMac(ap: LiveAp, known: seq<string>, rows: Rows): LiveAp
    requires forall i :: 0 <= i < |known| ==> known[i] in rows
  {
    if ap.mac != "" || ap.port == "" || ap.cdpName == "" then ap
    else
      var recovered := RememberedMac(known, rows, ap.port, ap.cdpName);
      if recovered != "" then ap.(mac := recovered) else ap
  }

  function RecoverMacs(aps: seq<LiveAp>, known: seq<string>, rows: Rows): seq<LiveAp>
    requires forall i :: 0 <= i < |known| ==> known[i] in rows
  {
    if aps == [] then [] else RecoverMacs(aps[..|aps| - 1], known, rows) + [RecoverMac(aps[|aps| - 1], known, rows)]
  }

  /** The row of `known[i]` answers to this port and CDP name. */
  predicate AnswersTo(known: seq<string>, rows: Rows, i: nat, port: string, cdpName: string) {
    && i < |known| && known[i] in rows
    && cdpName != "" && rows[known[i]].cdpName == cdpName && rows[known[i]].port == port
  }

  predicate LastAnswer(known: seq<string>, rows: Rows, i: nat, port: string, cdpName: string) {
    AnswersTo(known, rows, i, port, cdpName) &&
    forall j: nat :: i < j < |known| ==> !AnswersTo(known, rows, j, port, cdpName)
  }

  lemma {:induction false} RememberedIsLast(known: seq<string>, rows: Rows, port: string, cdpName: string)
    requires forall i :: 0 <= i < |known| ==> known[i] in rows
    ensures var mac := RememberedMac(known, rows, port, cdpName);
            || (mac == "" && forall i: nat :: !AnswersTo(known, rows, i, port, cdpName))
            || exists i: nat :: LastAnswer(known, rows, i, port, cdpName) && mac == known[i]
    decreases |known|
  {
    if known != [] {
      var n := |known| - 1;
      var init := known[..n];
      RememberedIsLast(init, rows, port, cdpName);
      assert forall i: nat :: i < n ==>
          AnswersTo(init, rows, i, port, cdpName) == AnswersTo(known, rows, i, port, cdpName);
      if AnswersTo(known, rows, n, port, cdpName) {
        assert LastAnswer(known, rows, n, port, cdpName);
      } else {
        assert forall i: nat :: LastAnswer(init, rows, i, port, cdpName) ==> LastAnswer(known, rows, i, port, cdpName);
      }
    }
  }

  /** A scan entry keeps its port and name; without a MAC it gets the one of the last listed
      row that has both its port and its CDP name, and none if there is no such row. */
  lemma RecoveredMeaning(ap: LiveAp, known: seq<string>, rows: Rows)
    requires forall i :: 0 <= i < |known| ==> known[i] in rows
    ensures var r := RecoverMac(ap, known, rows);
            && r.port == ap.port && r.cdpName == ap.cdpName
            && (ap.mac != "" || ap.port == "" ==> r.mac == ap.mac)
            && ((forall i: nat :: !AnswersTo(known, rows, i, ap.port, ap.cdpName)) ==> r.mac == ap.mac)
            && (ap.mac == "" && ap.port != "" ==>
                  forall i: nat :: LastAnswer(known, rows, i, ap.port, ap.cdpName) ==> r.mac == known[i])
  {
    RememberedIsLast(known, rows, ap.port, ap.cdpName);
  }

  lemma {:induction false} RecoveredOneByOne(aps: seq<LiveAp>, known: seq<string>, rows: Rows)
    requires forall i :: 0 <= i < |known| ==> known[i] in rows
    ensures |RecoverMacs(aps, known, rows)| == |aps|
    ensures forall k :: 0 <= k < |aps| ==> RecoverMacs(aps, known, rows)[k] == RecoverMac(aps[k], known, rows)
    decreases |aps|
  {
    hide RecoverMac;
    if aps != [] {
      RecoveredOneByOne(aps[..|aps| - 1], known, rows);
    }
  }

  /** The usable entries, at the positions `at` of the scan: all that have a MAC and a port, in order. */
  lemma {:induction false} UsableApsMeaning(aps: seq<LiveAp>) returns (at: seq<nat>)
    ensures |at| == |UsableAps(aps)| && (forall i, j :: 0 <= i < j < |at| ==> at[i] < at[j])
    ensures forall i :: 0 <= i < |at| ==> at[i] < |aps| && UsableAps(aps)[i] == aps[at[i]]
    ensures forall k: nat :: k < |aps| ==> (k in at <==> aps[k].mac != "" && aps[k].port != "")
    decreases |aps|
  {
    if aps == [] {
      at := [];
    } else {
      var n := |aps| - 1;
      at := UsableApsMeaning(aps[..n]);
      if Usable(aps[n]) {
        at := at + [n];
      }
    }
  }

  function UsableAps(aps: seq<LiveAp>): (usable: seq<LiveAp>)
    ensures forall i :: 0 <= i < |usable| ==> Usable(usable[i])
  {
    if aps == [] then []
    else UsableAps(aps[..|aps| - 1]) + (if Usable(aps[|aps| - 1]) then [aps[|aps| - 1]] else [])
  }

  predicate IsLive(live: seq<LiveAp>, mac: string) {
    exists i :: 0 <= i < |live| && live[i].mac == mac
  }

  function MergeLive(live: seq<LiveAp>, known: seq<string>, rows: Rows): seq<MergedAp>
    requires forall i :: 0 <= i < |known| ==> known[i] in rows
  {
    if live == [] then []
    else
      var ap := live[|live| - 1];
      MergeLive(live[..|live| - 1], known, rows)
      + [MergedAp(ap.mac, ap.port, true, ap.mac in known && rows[ap.mac].excluded)]
  }

  function MergeSilent(live: seq<LiveAp>, known: seq<string>, rows: Rows, now: int): seq<MergedAp>
    requires forall i :: 0 <= i < |known| ==> known[i] in rows
  {
    if known == [] then []
    else
      var mac := known[|known| - 1];
      MergeSilent(live, known[..|known| - 1], rows, now)
      + (if IsLive(live, mac) || rows[mac].lastSeen < now - STALE_AFTER_SECONDS then []
         else [MergedAp(mac, rows[mac].port, false, rows[mac].excluded)])
  }

  function Merge(live: seq<LiveAp>, known: seq<string>, rows: Rows, now: int): seq<MergedAp>
    requires forall i :: 0 <= i < |known| ==> known[i] in rows
  {
    MergeLive(live, known, rows) + MergeSilent(live, known, rows, now)
  }

  // ----- The registry as the code updates it -----

  class Registry {
    var rows: Rows

    constructor ()
      ensures rows == map[]
    {
      rows := map[];
    }

    /** One commit for the whole scan: a violated constraint stores nothing and raises. */
    method RecordSeenAps(aps: seq<LiveAp>, now: int) returns (raised: bool)
      modifies this
      ensures raised <==> Violates(old(rows), aps)
      ensures rows == if raised then old(rows) else RecordSeen(old(rows), aps, now)
    {
      hide Violates, Seen, RecordSeen;
      var existing := rows;
      var added: set<string> := {};
      NothingRecorded(rows, now);
      raised := false;
      var i := 0;
      var pending := rows;
      assert aps[..0] == [];
      while i < |aps|
        invariant 0 <= i <= |aps| && existing == old(rows) == rows
        invariant pending == RecordSeen(existing, aps[..i], now)
        invariant forall mac :: mac in added <==>
                  mac !in existing && exists k :: 0 <= k < i && Usable(aps[k]) && aps[k].mac == mac
        invariant raised <==> Violates(existing, aps[..i])
      {
        var ap := aps[i];
        RecordSeenExtends(existing, aps, i, now);
        ViolatesExtends(existing, aps, i);
        if Usable(ap) {
          if ap.mac !in existing {
            raised := raised || ap.mac in added;
            added := added + {ap.mac};
          }
          pending := pending[ap.mac := Seen(pending, ap, now)];
        }
        i := i + 1;
      }
      assert aps[..i] == aps;
      if !raised {
        rows := pending;
      }
    }

    method RecoverMissingMacs(aps: seq<LiveAp>, known: seq<string>) returns (recovered: seq<LiveAp>)
      requires forall i :: 0 <= i < |known| ==> known[i] in rows
      ensures recovered == RecoverMacs(aps, known, rows)
    {
      recovered := [];
      var i := 0;
      while i < |aps|
        invariant 0 <= i <= |aps| && recovered == RecoverMacs(aps[..i], known, rows)
      {
        assert aps[..i + 1][..i] == aps[..i] && aps[..i + 1][i] == aps[i];
        recovered := recovered + [RecoverMac(aps[i], known, rows)];
        i := i + 1;
      }
      assert aps[..i] == aps;
    }

    method MergeLiveAndKnown(live: seq<LiveAp>, known: seq<string>, now: int) returns (merged: seq<MergedAp>)
      requires forall i :: 0 <= i < |known| ==> known[i] in rows
      ensures merged == Merge(live, known, rows, now)
    {
      merged := [];
      var i := 0;
      while i < |live|
        invariant 0 <= i <= |live| && merged == MergeLive(live[..i], known, rows)
      {
        assert live[..i + 1][..i] == live[..i] && live[..i + 1][i] == live[i];
        var excluded := live[i].mac in known && rows[live[i].mac].excluded;
        merged := merged + [MergedAp(live[i].mac, live[i].port, true, excluded)];
        i := i + 1;
      }
      assert live[..i] == live;
      var cutoff := now - STALE_AFTER_SECONDS;
      i := 0;
      while i < |known|
        invariant 0 <= i <= |known|
        invariant merged == MergeLive(live, known, rows) + MergeSilent(live, known[..i], rows, now)
      {
        assert known[..i + 1][..i] == known[..i] && known[..i + 1][i] == known[i];
        var mac := known[i];
        if !IsLive(live, mac) && rows[mac].lastSeen >= cutoff {
          merged := merged + [MergedAp(mac, rows[mac].port, false, rows[mac].excluded)];
        }
        i := i + 1;
      }
      assert known[..i] == known;
    }

    /** False when the AP is not in the registry of this switch. */
    method SetApExcluded(mac: string, excluded: bool) returns (found: bool)
      modifies this
      ensures found == (mac in old(rows)) && rows == SetExcluded(old(rows), mac, excluded)
    {
      if mac !in rows {
        return false;
      }
      var row := rows[mac].(excluded := excluded);
      if !excluded {
        row := row.(failures := 0, skips := 0, needsAttention := None);
      }
      rows := rows[mac := row];
      found := true;
    }

    method RegisterRebootOutcome(mac: string, recovered: Option<bool>, threshold: int, now: int)
      returns (escalated: bool)
      modifies this
      ensures rows == RegisterOutcome(old(rows), mac, recovered, threshold, now)
      ensures escalated <==> mac in old(rows) && Escalates(old(rows)[mac], recovered, threshold)
      ensures escalated <==> mac in rows && old(rows)[mac].needsAttention.None? && rows[mac].needsAttention == Some(now)
    {
      escalated := false;
      if mac !in rows {
        return;
      }
      var row := rows[mac];
      if recovered == Some(true) {
        row := row.(failures := 0, skips := 0, needsAttention := None);
      } else {
        var streak;
        if recovered == Some(false) {
          row := row.(failures := row.failures + 1);
          streak := row.failures;
        } else {
          row := row.(skips := row.skips + 1);
          streak := row.skips;
        }
        if streak >= threshold && row.needsAttention == None {
          row := row.(needsAttention := Some(now), excluded := true);
          escalated := true;
        }
      }
      rows := rows[mac := row];
    }
  }

  lemma NothingRecorded(rows: Rows, now: int)
    ensures RecordSeen(rows, [], now) == rows && !Violates(rows, [])
  {
  }

  lemma RecordSeenExtends(rows: Rows, aps: seq<LiveAp>, i: nat, now: int)
    requires i < |aps|
    ensures var pending := RecordSeen(rows, aps[..i], now);
            RecordSeen(rows, aps[..i + 1], now) ==
            if Usable(aps[i]) then pending[aps[i].mac := Seen(pending, aps[i], now)] else pending
  {
    hide Seen;
    assert aps[..i + 1][..i] == aps[..i];
  }

  lemma ViolatesExtends(rows: Rows, aps: seq<LiveAp>, i: nat)
    requires i < |aps|
    ensures Violates(rows, aps[..i + 1]) <==>
            Violates(rows, aps[..i]) ||
            (Usable(aps[i]) && aps[i].mac !in rows &&
             exists k :: 0 <= k < i && Usable(aps[k]) && aps[k].mac == aps[i].mac)
  {
    var longer, shorter := aps[..i + 1], aps[..i];
    assert forall k :: 0 <= k < i ==> longer[k] == shorter[k] == aps[k];
    if k :| 0 <= k < i && Usable(aps[k]) && aps[k].mac == aps[i].mac {
      assert longer[k].mac == longer[i].mac;
    }
    if Violates(rows, shorter) {
      var a, b :| 0 <= a < b < |shorter| && Usable(shorter[a]) && Usable(shorter[b]) &&
                  shorter[a].mac == shorter[b].mac && shorter[a].mac !in rows;
      assert longer[a].mac == longer[b].mac;
    }
  }
}
