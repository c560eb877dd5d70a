/** How many cartridges of each kind the fleet will need within a horizon
    (app/services/cartridge_demand.py). Days and rates are real numbers. */
module CartridgeDemand {
  import opened Wrappers

  const MAX_LIFETIME_DAYS := 365.0

  /** Days one cartridge lasts at `rate` percent a day. */
  function Lifetime(rate: real): (days: real)
    requires rate > 0.0
    ensures 0.0 < days <= MAX_LIFETIME_DAYS
  {
    if 100.0 / rate < MAX_LIFETIME_DAYS then 100.0 / rate else MAX_LIFETIME_DAYS
  }

  function ReplacementsWithin(daysLeft: real, rate: Option<real>, horizon: real): int {
    if daysLeft > horizon then 0
    else if rate.None? || rate.value <= 0.0 then 1
    else 1 + ((horizon - daysLeft) / Lifetime(rate.value)).Floor
  }

  /** Replacement number `k` of one printer colour falls inside the horizon: the first when the
      present cartridge runs out, each further one after as many days as 100 % last at the rate, a
      year at most. A colour without a usable rate is due once. */
  predicate DueWithin(k: nat, daysLeft: real, rate: Option<real>, horizon: real) {
    if rate.None? || rate.value <= 0.0 then k == 0 && daysLeft <= horizon
    else if rate.value * 365.0 > 100.0 then daysLeft + k as real * (100.0 / rate.value) <= horizon
    else daysLeft + k as real * 365.0 <= horizon
  }

  lemma QuotientBounds(k: int, gap: real, unit: real)
    requires unit > 0.0
    ensures k as real * unit <= gap <==> k <= (gap / unit).Floor
  {
    var q := gap / unit;
    assert q * unit == gap;
    if k as real <= q {
      assert k as real * unit <= q * unit;
    } else {
      assert k as real * unit > q * unit;
    }
    assert k as real <= q <==> k <= q.Floor;
  }

  lemma LifetimeIsShorter(rate: real)
    requires rate > 0.0
    ensures 100.0 / rate < 365.0 <==> rate * 365.0 > 100.0
  {
    var q := 100.0 / rate;
    assert q * rate == 100.0;
    if q < 365.0 {
      assert q * rate < 365.0 * rate;
    } else {
      assert q * rate >= 365.0 * rate;
    }
  }

  /** The count is exact: replacement k is due within the horizon just when k is below it. */
  lemma CountsDueReplacements(k: nat, daysLeft: real, rate: Option<real>, horizon: real)
    ensures 0 <= ReplacementsWithin(daysLeft, rate, horizon)
    ensures k < ReplacementsWithin(daysLeft, rate, horizon) <==> DueWithin(k, daysLeft, rate, horizon)
  {
    if rate.Some? && rate.value > 0.0 {
      var unit := Lifetime(rate.value);
      LifetimeIsShorter(rate.value);
      QuotientBounds(k, horizon - daysLeft, unit);
      QuotientBounds(0, horizon - daysLeft, unit);
      assert k as real * unit >= 0.0;
    }
  }

  lemma LongerHorizonNeedsNoFewer(daysLeft: real, rate: Option<real>, horizon: real, longer: real)
    requires horizon <= longer
    ensures ReplacementsWithin(daysLeft, rate, horizon) <= ReplacementsWithin(daysLeft, rate, longer)
  {
    var n := ReplacementsWithin(daysLeft, rate, horizon);
    CountsDueReplacements(0, daysLeft, rate, horizon);
    CountsDueReplacements(0, daysLeft, rate, longer);
    if n > 0 {
      CountsDueReplacements(n - 1, daysLeft, rate, horizon);
      CountsDueReplacements(n - 1, daysLeft, rate, longer);
    }
  }

  // ----- Accumulating the fleet's demand -----

  /** A stored forecast; `key` is the folded cartridge name, None when no cartridge is named. */
  datatype Prediction = Prediction(key: Option<string>, printer: Option<string>, daysLeft: Option<real>,
                                   rate: Option<real>)

  /** An active stock row under its folded name. */
  datatype Shelf = Shelf(key: string, onHand: int, minimum: int)

  datatype Item = Item(needed: int, printers: set<string>, nextDue: Option<real>, onHand: Option<int>, minimum: int)

  /** The least order that covers the need and leaves the shelf at its minimum or above. */
  function ToOrder(item: Item): (order: int)
    requires item.needed >= 0
    ensures item.onHand.None? ==> order == item.needed
    ensures item.onHand.Some? ==>
              && order >= 0 && item.onHand.value + order - item.needed >= item.minimum
              && (order > 0 ==> item.onHand.value + (order - 1) - item.needed < item.minimum)
  {
    if item.onHand.None? then item.needed
    else if item.needed + item.minimum - item.onHand.value > 0 then item.needed + item.minimum - item.onHand.value
    else 0
  }

  predicate Counts(p: Prediction, key: string) {
    p.key == Some(key) && p.daysLeft.Some?
  }

  function Share(p: Prediction, key: string, horizon: real): int {
    if Counts(p, key) then ReplacementsWithin(p.daysLeft.value, p.rate, horizon) else 0
  }

  function Needed(predictions: seq<Prediction>, key: string, horizon: real): int {
    if predictions == [] then 0
    else Needed(predictions[..|predictions| - 1], key, horizon) + Share(predictions[|predictions| - 1], key, horizon)
  }

  predicate Wanted(predictions: seq<Prediction>, key: string) {
    exists p :: p in predictions && Counts(p, key)
  }

  predicate EarliestDue(predictions: seq<Prediction>, key: string, due: real) {
    && (exists p :: p in predictions && Counts(p, key) && p.daysLeft.value == due)
    && (forall p :: p in predictions && Counts(p, key) ==> due <= p.daysLeft.value)
  }

  function Printers(predictions: seq<Prediction>, key: string): set<string> {
    set p | p in predictions && Counts(p, key) && p.printer.Some? && p.printer.value != "" :: p.printer.value
  }

  /** The last active row of a folded name is the one the shelf is read from. */
  function Stocked(shelves: seq<Shelf>, key: string): Option<Shelf> {
    if shelves == [] then None
    else if shelves[|shelves| - 1].key == key then Some(shelves[|shelves| - 1])
    else Stocked(shelves[..|shelves| - 1], key)
  }

  lemma {:induction false} StockedIsLast(shelves: seq<Shelf>, key: string)
    ensures match Stocked(shelves, key)
            case None => forall i :: 0 <= i < |shelves| ==> shelves[i].key != key
            case Some(s) => exists i :: 0 <= i < |shelves| && shelves[i] == s && s.key == key &&
                                        forall j :: i < j < |shelves| ==> shelves[j].key != key
    decreases |shelves|
  {
    if shelves != [] {
      var n := |shelves| - 1;
      if shelves[n].key != key {
        StockedIsLast(shelves[..n], key);
        if Stocked(shelves, key).Some? {
          var i :| 0 <= i < n && shelves[..n][i] == Stocked(shelves, key).value &&
                   forall j :: i < j < n ==> shelves[..n][j].key != key;
          assert shelves[i] == Stocked(shelves, key).value;
          assert forall j :: i < j < n ==> shelves[j] == shelves[..n][j];
        } else {
          assert forall j :: 0 <= j < n ==> shelves[j] == shelves[..n][j];
        }
      } else {
        assert shelves[n] == Stocked(shelves, key).value;
      }
    }
  }

  /** What the forecast must say of one cartridge, read off all its predictions at once. */
  predicate Describes(item: Item, shelves: seq<Shelf>, predictions: seq<Prediction>, key: string, horizon: real) {
    && item.needed == Needed(predictions, key, horizon)
    && item.printers == Printers(predictions, key)
    && item.nextDue.Some? && EarliestDue(predictions, key, item.nextDue.value)
    && item.onHand == (match Stocked(shelves, key) case None => None case Some(s) => Some(s.onHand))
    && item.minimum == (match Stocked(shelves, key) case None => 0 case Some(s) => s.minimum)
  }

  ghost predicate IsForecast(demand: map<string, Item>, shelves: seq<Shelf>, predictions: seq<Prediction>,
                             horizon: real) {
    && (forall key :: key in demand <==> Wanted(predictions, key))
    && (forall key :: key in demand ==> Describes(demand[key], shelves, predictions, key, horizon))
  }

  /** One prediction added to the item of its cartridge. */
  function Added(item: Item, p: Prediction, horizon: real): Item
    requires p.daysLeft.Some?
  {
    Item(item.needed + ReplacementsWithin(p.daysLeft.value, p.rate, horizon),
         if p.printer.Some? && p.printer.value != "" then item.printers + {p.printer.value} else item.printers,
         if item.nextDue.None? || p.daysLeft.value < item.nextDue.value then p.daysLeft else item.nextDue,
         item.onHand, item.minimum)
  }

  function Fresh(shelves: seq<Shelf>, key: string): Item {
    match Stocked(shelves, key)
    case None => Item(0, {}, None, None, 0)
    case Some(s) => Item(0, {}, None, Some(s.onHand), s.minimum)
  }

  lemma {:induction false} UnwantedIsNotNeeded(predictions: seq<Prediction>, key: string, horizon: real)
    requires !Wanted(predictions, key)
    ensures Needed(predictions, key, horizon) == 0 && Printers(predictions, key) == {}
  {
    if predictions != [] {
      var init, last := predictions[..|predictions| - 1], predictions[|predictions| - 1];
      assert last in predictions;
      assert forall p :: p in init ==> p in predictions;
      UnwantedIsNotNeeded(init, key, horizon);
    }
  }

  lemma InSnoc(init: seq<Prediction>, p: Prediction)
    ensures forall q :: q in init + [p] <==> q in init || q == p
  {
  }

  lemma SnocAdds(item: Item, shelves: seq<Shelf>, init: seq<Prediction>, p: Prediction, key: string, horizon: real)
    requires Counts(p, key)
    requires if Wanted(init, key) then Describes(item, shelves, init, key, horizon) else item == Fresh(shelves, key)
    ensures Describes(Added(item, p, horizon), shelves, init + [p], key, horizon)
  {
    InSnoc(init, p);
    assert (init + [p])[..|init|] == init;
    if !Wanted(init, key) {
      UnwantedIsNotNeeded(init, key, horizon);
    }
    assert Printers(init + [p], key) ==
           Printers(init, key) + (if p.printer.Some? && p.printer.value != "" then {p.printer.value} else {});
    assert p in init + [p];
  }

  lemma SnocKeeps(item: Item, shelves: seq<Shelf>, init: seq<Prediction>, p: Prediction, key: string, horizon: real)
    requires !Counts(p, key)
    ensures Wanted(init + [p], key) == Wanted(init, key)
    ensures Describes(item, shelves, init, key, horizon) ==> Describes(item, shelves, init + [p], key, horizon)
  {
    InSnoc(init, p);
    assert (init + [p])[..|init|] == init;
    assert Printers(init + [p], key) == Printers(init, key);
  }

  lemma ForecastStep(demand: map<string, Item>, shelves: seq<Shelf>, init: seq<Prediction>, p: Prediction,
                     horizon: real)
    requires IsForecast(demand, shelves, init, horizon)
    ensures (p.key.None? || p.daysLeft.None?) ==> IsForecast(demand, shelves, init + [p], horizon)
    ensures p.key.Some? && p.daysLeft.Some? ==>
              var key := p.key.value;
              var item := if key in demand then demand[key] else Fresh(shelves, key);
              IsForecast(demand[key := Added(item, p, horizon)], shelves, init + [p], horizon)
  {
    hide Describes, Added, Fresh;
    InSnoc(init, p);
    forall key | !Counts(p, key)
      ensures Wanted(init + [p], key) == Wanted(init, key)
      ensures key in demand ==> Describes(demand[key], shelves, init + [p], key, horizon)
    {
      SnocKeeps(if key in demand then demand[key] else Fresh(shelves, key), shelves, init, p, key, horizon);
    }
    if p.key.Some? && p.daysLeft.Some? {
      var key := p.key.value;
      SnocAdds(if key in demand then demand[key] else Fresh(shelves, key), shelves, init, p, key, horizon);
      assert p in init + [p];
      assert Wanted(init + [p], key);
    }
  }

  /** The accumulation loop: per cartridge, the sum of the counts, the earliest due day
      and the printers behind it. */
  method Forecast(shelves: seq<Shelf>, predictions: seq<Prediction>, horizon: real) returns (demand: map<string, Item>)
    ensures IsForecast(demand, shelves, predictions, horizon)
  {
    hide IsForecast, Describes, Added, Fresh;
    demand := map[];
    assert IsForecast(demand, shelves, predictions[..0], horizon) by { EmptyForecast(shelves, horizon); }
    var i := 0;
    while i < |predictions|
      invariant 0 <= i <= |predictions|
      invariant IsForecast(demand, shelves, predictions[..i], horizon)
    {
      var p := predictions[i];
      ForecastStep(demand, shelves, predictions[..i], p, horizon);
      assert predictions[..i + 1] == predictions[..i] + [p];
      i := i + 1;
      if p.key.None? || p.daysLeft.None? {
        continue;
      }
      var item := if p.key.value in demand then demand[p.key.value] else Fresh(shelves, p.key.value);
      demand := demand[p.key.value := Added(item, p, horizon)];
    }
    assert predictions[..i] == predictions;
  }

  lemma EmptyForecast(shelves: seq<Shelf>, horizon: real)
    ensures IsForecast(map[], shelves, [], horizon)
  {
  }

  // ----- The order of the predictions does not matter -----

  lemma {:induction false} NeededWithout(predictions: seq<Prediction>, i: nat, key: string, horizon: real)
    requires i < |predictions|
    ensures Needed(predictions, key, horizon) ==
            Needed(predictions[..i] + predictions[i + 1..], key, horizon) + Share(predictions[i], key, horizon)
    decreases |predictions|
  {
    var n := |predictions| - 1;
    if i == n {
      assert predictions[..i] + predictions[i + 1..] == predictions[..n];
    } else {
      var without := predictions[..i] + predictions[i + 1..];
      NeededWithout(predictions[..n], i, key, horizon);
      assert predictions[..n][..i] + predictions[..n][i + 1..] == without[..|without| - 1];
    }
  }

  lemma TakeOut(qs: seq<Prediction>, i: nat)
    requires i < |qs|
    ensures multiset(qs[..i] + qs[i + 1..]) == multiset(qs) - multiset{qs[i]}
  {
    assert qs == qs[..i] + [qs[i]] + qs[i + 1..];
  }

  lemma SameMultisetWithoutLast(ps: seq<Prediction>, qs: seq<Prediction>) returns (i: nat)
    requires ps != [] && multiset(ps) == multiset(qs)
    ensures i < |qs| && qs[i] == ps[|ps| - 1]
    ensures multiset(ps[..|ps| - 1]) == multiset(qs[..i] + qs[i + 1..])
  {
    var n := |ps| - 1;
    assert ps[n] in multiset(ps);
    assert ps[n] in qs;
    i :| 0 <= i < |qs| && qs[i] == ps[n];
    TakeOut(qs, i);
    TakeOut(ps, n);
    assert ps[..n] + ps[n + 1..] == ps[..n];
  }

  lemma {:induction false} NeededIgnoresOrder(ps: seq<Prediction>, qs: seq<Prediction>, key: string, horizon: real)
    requires multiset(ps) == multiset(qs)
    ensures Needed(ps, key, horizon) == Needed(qs, key, horizon)
    decreases |ps|
  {
    if ps == [] {
      assert |qs| == |multiset(qs)| == 0;
    } else {
      var i := SameMultisetWithoutLast(ps, qs);
      NeededIgnoresOrder(ps[..|ps| - 1], qs[..i] + qs[i + 1..], key, horizon);
      NeededWithout(qs, i, key, horizon);
    }
  }

  /** Any two accumulations over the same predictions, in any order, agree on every cartridge. */
  lemma OrderDoesNotMatter(demand: map<string, Item>, demand': map<string, Item>, shelves: seq<Shelf>,
                           ps: seq<Prediction>, qs: seq<Prediction>, horizon: real)
    requires multiset(ps) == multiset(qs)
    requires IsForecast(demand, shelves, ps, horizon) && IsForecast(demand', shelves, qs, horizon)
    ensures demand == demand'
  {
    hide Describes, Wanted;
    forall key
      ensures Wanted(ps, key) == Wanted(qs, key)
      ensures key in demand && key in demand' ==> demand[key] == demand'[key]
    {
      WantedIgnoresOrder(ps, qs, key);
      if key in demand && key in demand' {
        OneDescription(demand[key], demand'[key], shelves, ps, qs, key, horizon);
      }
    }
    assert demand.Keys == demand'.Keys;
  }

  lemma SameMembers(ps: seq<Prediction>, qs: seq<Prediction>)
    requires multiset(ps) == multiset(qs)
    ensures forall p :: p in ps <==> p in qs
  {
    assert forall p :: p in ps <==> p in multiset(ps);
    assert forall p :: p in qs <==> p in multiset(qs);
  }

  lemma WantedIgnoresOrder(ps: seq<Prediction>, qs: seq<Prediction>, key: string)
    requires multiset(ps) == multiset(qs)
    ensures Wanted(ps, key) == Wanted(qs, key)
  {
    SameMembers(ps, qs);
  }

  lemma OneDescription(item: Item, item': Item, shelves: seq<Shelf>, ps: seq<Prediction>, qs: seq<Prediction>,
                       key: string, horizon: real)
    requires multiset(ps) == multiset(qs)
    requires Describes(item, shelves, ps, key, horizon) && Describes(item', shelves, qs, key, horizon)
    ensures item == item'
  {
    hide Counts, Stocked;
    SameMembers(ps, qs);
    NeededIgnoresOrder(ps, qs, key, horizon);
    assert Printers(ps, key) == Printers(qs, key);
    assert EarliestDue(ps, key, item'.nextDue.value);
  }
}
