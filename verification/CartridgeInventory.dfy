/** Reconciling the cartridge catalogue with a counted inventory
    (app/services/cartridge_inventory.py). */
module CartridgeInventory {
  import opened Wrappers
  import opened CartridgeStock

  datatype Item = Item(name: string, color: Option<string>, quantity: nat, models: string)

  datatype Document = Document(positionCount: nat, quantityTotal: nat, items: seq<Item>)

  datatype Result = Result(applied: bool, created: int, updated: int, deactivated: int, movements: int,
                           activePositions: int, activeQuantity: int)

  // ----- The document validator -----

  datatype Defect = RepeatedName | WrongPositionCount | WrongQuantityTotal

  function Total(items: seq<Item>): nat {
    if items == [] then 0 else Total(items[..|items| - 1]) + items[|items| - 1].quantity
  }

  function Names(items: seq<Item>): set<string> {
    set item | item in items :: item.name
  }

  function Validate(d: Document): Option<Defect> {
    if |d.items| != |Names(d.items)| then Some(RepeatedName)
    else if d.positionCount != |d.items| then Some(WrongPositionCount)
    else if d.quantityTotal != Total(d.items) then Some(WrongQuantityTotal)
    else None
  }

  predicate UniqueNames(items: seq<Item>) {
    forall i, j :: 0 <= i < j < |items| ==> items[i].name != items[j].name
  }

  predicate Valid(d: Document) {
    UniqueNames(d.items) && d.positionCount == |d.items| && d.quantityTotal == Total(d.items)
  }

  lemma NamesSnoc(items: seq<Item>, item: Item)
    ensures Names(items + [item]) == Names(items) + {item.name}
  {
    assert forall x :: x in items + [item] <==> x in items || x == item;
  }

  lemma UniqueSnoc(items: seq<Item>, item: Item)
    ensures UniqueNames(items + [item]) <==> UniqueNames(items) && item.name !in Names(items)
  {
    var longer := items + [item];
    if UniqueNames(longer) {
      forall i | 0 <= i < |items|
        ensures items[i].name != item.name
      {
        assert longer[i] == items[i] && longer[|items|] == item;
      }
      forall i, j | 0 <= i < j < |items|
        ensures items[i].name != items[j].name
      {
        assert longer[i] == items[i] && longer[j] == items[j];
      }
    } else if UniqueNames(items) {
      var i, j :| 0 <= i < j < |longer| && longer[i].name == longer[j].name;
      assert longer[i] in items;
    }
  }

  lemma {:induction false} NoMoreNamesThanItems(items: seq<Item>)
    ensures |Names(items)| <= |items|
    ensures |Names(items)| == |items| <==> UniqueNames(items)
  {
    hide Names, UniqueNames;
    if items == [] {
      EmptyNames();
    } else {
      var init, last := items[..|items| - 1], items[|items| - 1];
      NoMoreNamesThanItems(init);
      assert items == init + [last];
      NamesSnoc(init, last);
      UniqueSnoc(init, last);
    }
  }

  lemma EmptyNames()
    ensures Names([]) == {} && UniqueNames([])
  {
  }

  /** Comparing the list of names with its set does detect every repetition; the first of the
      three checks that fails names the defect. */
  lemma ValidatorAcceptsExactly(d: Document)
    ensures Validate(d).None? <==> Valid(d)
    ensures Validate(d) == Some(RepeatedName) <==> !UniqueNames(d.items)
    ensures Validate(d) == Some(WrongPositionCount) <==> UniqueNames(d.items) && d.positionCount != |d.items|
    ensures Validate(d) == Some(WrongQuantityTotal) <==>
            UniqueNames(d.items) && d.positionCount == |d.items| && d.quantityTotal != Total(d.items)
  {
    NoMoreNamesThanItems(d.items);
  }

  // ----- The reconciled catalogue -----

  function Counted(row: Row, item: Item): Row {
    row.(color := item.color, models := Text(item.models), quantity := item.quantity, active := true)
  }

  function Upserted(s: Stock, item: Item): Stock {
    match Find(s.rows, item.name)
    case None =>
      Stock(s.rows + [Counted(NewRow(item.name), item)], Moved(s.movements, |s.rows|, item.quantity, Inventory))
    case Some(i) =>
      Stock(s.rows[i := Counted(s.rows[i], item)], Moved(s.movements, i, item.quantity - s.rows[i].quantity, Inventory))
  }

  function UpsertedAll(s: Stock, items: seq<Item>): (s': Stock)
    ensures |s.rows| <= |s'.rows|
  {
    if items == [] then s else Upserted(UpsertedAll(s, items[..|items| - 1]), items[|items| - 1])
  }

  predicate Gone(row: Row, names: set<string>) {
    row.active && row.name !in names
  }

  function Dropped(s: Stock, names: set<string>, i: nat): Stock
    requires i < |s.rows|
  {
    if Gone(s.rows[i], names) then
      Stock(s.rows[i := s.rows[i].(quantity := 0, active := false)],
        Moved(s.movements, i, -s.rows[i].quantity, Inventory))
    else s
  }

  function DroppedUpTo(s: Stock, names: set<string>, n: nat): (s': Stock)
    requires n <= |s.rows|
    ensures |s'.rows| == |s.rows|
  {
    if n == 0 then s else Dropped(DroppedUpTo(s, names, n - 1), names, n - 1)
  }

  function Reconciled(s: Stock, d: Document, deactivateMissing: bool): Stock {
    var upserted := UpsertedAll(s, d.items);
    if deactivateMissing then DroppedUpTo(upserted, Names(d.items), |s.rows|) else upserted
  }

  function ActiveCount(rows: seq<Row>): nat {
    if rows == [] then 0 else ActiveCount(rows[..|rows| - 1]) + (if rows[|rows| - 1].active then 1 else 0)
  }

  function ActiveQuantity(rows: seq<Row>): int {
    if rows == [] then 0
    else ActiveQuantity(rows[..|rows| - 1]) + (if rows[|rows| - 1].active then rows[|rows| - 1].quantity else 0)
  }

  /** What the operation reports, read off the catalogue before and after. */
  function Report(s: Stock, d: Document, deactivateMissing: bool, applied: bool): Result {
    var upserted, s' := UpsertedAll(s, d.items), Reconciled(s, d, deactivateMissing);
    var created := |s'.rows| - |s.rows|;
    Result(applied, created, |d.items| - created, ActiveCount(upserted.rows) - ActiveCount(s'.rows),
           |s'.movements| - |s.movements|, ActiveCount(s'.rows), ActiveQuantity(s'.rows))
  }

  // ----- What the two passes do -----

  /** Counting the item again would change nothing in the row. */
  predicate Matches(row: Row, item: Item) {
    row.name == item.name && Counted(row, item) == row
  }

  predicate Settled(rows: seq<Row>, item: Item) {
    Find(rows, item.name).Some? && Matches(rows[Find(rows, item.name).value], item)
  }

  /** What holds of the catalogue `t` once `items` have been upserted into `s`. */
  predicate Upserts(s: Stock, t: Stock, items: seq<Item>) {
    && |s.rows| <= |t.rows| && NamesDistinct(t.rows)
    && (forall i :: 0 <= i < |s.rows| ==>
          t.rows[i].name == s.rows[i].name && (s.rows[i].name !in Names(items) ==> t.rows[i] == s.rows[i]))
    && (forall i :: |s.rows| <= i < |t.rows| ==> t.rows[i].name in Names(items))
    && (forall k :: 0 <= k < |items| ==> Settled(t.rows, items[k]))
  }

  lemma UpsertedOne(s: Stock, item: Item)
    requires NamesDistinct(s.rows)
    ensures var t, at := Upserted(s, item), Find(s.rows, item.name);
            && NamesDistinct(t.rows) && |s.rows| <= |t.rows| <= |s.rows| + 1
            && (|t.rows| == |s.rows| + 1 <==> at.None?)
            && (forall i :: 0 <= i < |s.rows| ==>
                t.rows[i].name == s.rows[i].name && (s.rows[i].name != item.name ==> t.rows[i] == s.rows[i]))
            && (forall i :: |s.rows| <= i < |t.rows| ==> t.rows[i].name == item.name)
            && Settled(t.rows, item)
  {
    hide Find;
    var t := Upserted(s, item);
    match Find(s.rows, item.name) {
      case None => FindsTheRow(t.rows, |s.rows|);
      case Some(i) => FindsTheRow(t.rows, i);
    }
  }

  lemma SettledStays(s: Stock, item: Item, other: Item)
    requires NamesDistinct(s.rows) && Settled(s.rows, other) && other.name != item.name
    ensures Settled(Upserted(s, item).rows, other)
  {
    hide Find;
    UpsertedOne(s, item);
    FindsTheRow(Upserted(s, item).rows, Find(s.rows, other.name).value);
  }

  lemma UpsertsGrow(s: Stock, t: Stock, init: seq<Item>, item: Item)
    requires Upserts(s, t, init) && UniqueNames(init + [item])
    ensures Upserts(s, Upserted(t, item), init + [item])
  {
    hide Find, Settled, Upserted;
    var items, t' := init + [item], Upserted(t, item);
    UpsertedOne(t, item);
    NamesSnoc(init, item);
    forall k | 0 <= k < |items|
      ensures Settled(t'.rows, items[k])
    {
      if k < |init| {
        assert items[k] == init[k] && items[k].name != items[|init|].name;
        SettledStays(t, item, init[k]);
      }
    }
  }

  lemma {:induction false} UpsertedAllMeaning(s: Stock, items: seq<Item>)
    requires NamesDistinct(s.rows) && UniqueNames(items)
    ensures Upserts(s, UpsertedAll(s, items), items)
  {
    if items != [] {
      hide Upserts, Upserted;
      var init, last := items[..|items| - 1], items[|items| - 1];
      UpsertedAllMeaning(s, init);
      assert items == init + [last];
      UpsertsGrow(s, UpsertedAll(s, init), init, last);
    }
  }

  lemma {:induction false} DroppedMeaning(s: Stock, names: set<string>, n: nat)
    requires n <= |s.rows|
    ensures var t := DroppedUpTo(s, names, n);
            forall i :: 0 <= i < |s.rows| ==>
              t.rows[i] == if i < n && Gone(s.rows[i], names) then s.rows[i].(quantity := 0, active := false)
                           else s.rows[i]
  {
    if n > 0 {
      DroppedMeaning(s, names, n - 1);
    }
  }

  // ----- Exactness -----

  lemma {:induction false} ActiveUpdate(rows: seq<Row>, i: nat, row: Row)
    requires i < |rows|
    ensures ActiveCount(rows[i := row]) ==
            ActiveCount(rows) - (if rows[i].active then 1 else 0) + (if row.active then 1 else 0)
    ensures ActiveQuantity(rows[i := row]) ==
            ActiveQuantity(rows) - (if rows[i].active then rows[i].quantity else 0)
              + (if row.active then row.quantity else 0)
    decreases |rows|
  {
    var n := |rows| - 1;
    if i == n {
      assert rows[i := row][..n] == rows[..n];
    } else {
      ActiveUpdate(rows[..n], i, row);
      assert rows[i := row][..n] == rows[..n][i := row];
    }
  }

  lemma {:induction false} NoneActive(rows: seq<Row>)
    requires forall i :: 0 <= i < |rows| ==> !rows[i].active
    ensures ActiveCount(rows) == 0 && ActiveQuantity(rows) == 0
  {
    if rows != [] {
      NoneActive(rows[..|rows| - 1]);
    }
  }

  predicate Carries(rows: seq<Row>, i: nat, item: Item) {
    i < |rows| && rows[i].active && rows[i].name == item.name && rows[i].quantity == item.quantity
  }

  ghost predicate Carried(rows: seq<Row>, item: Item) {
    exists i: nat :: Carries(rows, i, item)
  }

  ghost predicate Covered(rows: seq<Row>, items: seq<Item>) {
    && (forall k :: 0 <= k < |items| ==> Carried(rows, items[k]))
    && (forall i :: 0 <= i < |rows| && rows[i].active ==> rows[i].name in Names(items))
  }

  /** Archiving the row of the last item leaves the rest covered. */
  lemma CoveredWithoutLast(rows: seq<Row>, init: seq<Item>, last: Item, i: nat)
    requires NamesDistinct(rows) && UniqueNames(init + [last]) && Covered(rows, init + [last])
    requires Carries(rows, i, last)
    ensures var rows' := rows[i := rows[i].(active := false)];
            NamesDistinct(rows') && UniqueNames(init) && Covered(rows', init)
  {
    var items, rows' := init + [last], rows[i := rows[i].(active := false)];
    NamesSnoc(init, last);
    UniqueSnoc(init, last);
    forall k | 0 <= k < |init|
      ensures Carried(rows', init[k])
    {
      assert items[k] == init[k] && init[k] in init && Carried(rows, items[k]);
      var j: nat :| Carries(rows, j, init[k]);
      assert Carries(rows', j, init[k]);
    }
    forall j | 0 <= j < |rows'| && rows'[j].active
      ensures rows'[j].name in Names(init)
    {
      assert rows[j].name in Names(items) && j != i;
    }
  }

  /** When the active rows are those of the items, so are their number and total quantity. */
  lemma {:induction false} ActiveRowsAreTheItems(rows: seq<Row>, items: seq<Item>)
    requires NamesDistinct(rows) && UniqueNames(items) && Covered(rows, items)
    ensures ActiveCount(rows) == |items| && ActiveQuantity(rows) == Total(items)
    decreases |items|
  {
    hide NamesDistinct, UniqueNames;
    if items == [] {
      NoneActive(rows);
    } else {
      var init, last := items[..|items| - 1], items[|items| - 1];
      assert items == init + [last];
      assert Carried(rows, items[|items| - 1]);
      var i: nat :| Carries(rows, i, last);
      ActiveUpdate(rows, i, rows[i].(active := false));
      CoveredWithoutLast(rows, init, last, i);
      ActiveRowsAreTheItems(rows[i := rows[i].(active := false)], init);
    }
  }

  predicate ActiveNamed(rows: seq<Row>, name: string) {
    exists i :: 0 <= i < |rows| && rows[i].active && rows[i].name == name
  }

  lemma ReconciledIsCovered(s: Stock, d: Document)
    requires NamesDistinct(s.rows) && Valid(d)
    ensures var t := Reconciled(s, d, true);
            && NamesDistinct(t.rows) && Covered(t.rows, d.items)
            && (forall k :: 0 <= k < |d.items| ==> Settled(t.rows, d.items[k]))
  {
    hide Find;
    var mid, t := UpsertedAll(s, d.items), Reconciled(s, d, true);
    UpsertedAllMeaning(s, d.items);
    DroppedMeaning(mid, Names(d.items), |s.rows|);
    forall k | 0 <= k < |d.items|
      ensures Settled(t.rows, d.items[k]) && Carried(t.rows, d.items[k])
    {
      assert d.items[k] in d.items;
      assert Settled(mid.rows, d.items[k]);
      var i := Find(mid.rows, d.items[k].name).value;
      assert t.rows[i] == mid.rows[i];
      FindsTheRow(t.rows, i);
      assert Carries(t.rows, i, d.items[k]);
    }
  }

  /** With deactivation of what is missing, the active catalogue afterwards is exactly the
      document: its names, its count of positions and its total quantity. */
  lemma ReconcileIsExact(s: Stock, d: Document, applied: bool)
    requires NamesDistinct(s.rows) && Valid(d)
    ensures var t, r := Reconciled(s, d, true), Report(s, d, true, applied);
            && (forall name :: ActiveNamed(t.rows, name) <==> name in Names(d.items))
            && (forall k :: 0 <= k < |d.items| ==> Settled(t.rows, d.items[k]))
            && r.activePositions == d.positionCount && r.activeQuantity == d.quantityTotal
            && r.created + r.updated == d.positionCount
  {
    hide Settled, UpsertedAll, DroppedUpTo;
    var t := Reconciled(s, d, true);
    ReconciledIsCovered(s, d);
    ActiveRowsAreTheItems(t.rows, d.items);
    forall name | name in Names(d.items)
      ensures ActiveNamed(t.rows, name)
    {
      var item :| item in d.items && item.name == name;
      var k :| 0 <= k < |d.items| && d.items[k] == item;
      assert Carried(t.rows, d.items[k]);
      var i: nat :| Carries(t.rows, i, d.items[k]);
    }
  }

  // ----- Row by row -----

  /** The row has everything the item says, and is in use. */
  predicate TakenFrom(row: Row, item: Item) {
    && row.name == item.name && row.color == item.color && row.models == Text(item.models)
    && row.quantity == item.quantity && row.active
  }

  /** What no count touches: an old row's name, minimum and printer count; a new row starts at zero. */
  predicate KeepsRest(s: Stock, row: Row, i: nat) {
    if i < |s.rows| then
      row.name == s.rows[i].name && row.minimum == s.rows[i].minimum && row.printerCount == s.rows[i].printerCount
    else row.minimum == 0 && row.printerCount == 0
  }

  /** Row by row, once `items` have been upserted into `s`. */
  ghost predicate Counts(s: Stock, t: Stock, items: seq<Item>) {
    && |s.rows| <= |t.rows| && NamesDistinct(t.rows)
    && (forall i: nat :: i < |t.rows| ==> KeepsRest(s, t.rows[i], i))
    && (forall i: nat :: i < |s.rows| && s.rows[i].name !in Names(items) ==> t.rows[i] == s.rows[i])
    && (forall i: nat :: |s.rows| <= i < |t.rows| ==> t.rows[i].name in Names(items))
    && (forall i: nat, k: nat :: i < |t.rows| && k < |items| && t.rows[i].name == items[k].name ==>
          TakenFrom(t.rows[i], items[k]))
  }

  lemma CountsOne(s: Stock, t: Stock, init: seq<Item>, item: Item)
    requires Counts(s, t, init) && UniqueNames(init + [item])
    ensures Counts(s, Upserted(t, item), init + [item])
  {
    hide Find, Ledger, UniqueNames, Names;
    var items, t' := init + [item], Upserted(t, item);
    UpsertedOne(t, item);
    NamesSnoc(init, item);
    UniqueSnoc(init, item);
    NamedByItems(init);
    var at := Find(t.rows, item.name);
    forall i: nat | i < |t'.rows|
      ensures if Some(i) == at || i == |t.rows| then TakenFrom(t'.rows[i], item) && KeepsRest(s, t'.rows[i], i)
              else i < |t.rows| && t'.rows[i] == t.rows[i] && t'.rows[i].name != item.name
    {
      if i < |t.rows| && t.rows[i].name == item.name {
        FindsTheRow(t.rows, i);
      }
    }
    forall i: nat, k: nat | i < |t'.rows| && k < |items| && t'.rows[i].name == items[k].name
      ensures TakenFrom(t'.rows[i], items[k])
    {
      if k < |init| {
        assert items[k] == init[k] && init[k].name in Names(init);
      }
    }
  }

  lemma NamedByItems(items: seq<Item>)
    ensures forall k :: 0 <= k < |items| ==> items[k].name in Names(items)
  {
  }

  lemma {:induction false} CountsAll(s: Stock, items: seq<Item>)
    requires NamesDistinct(s.rows) && UniqueNames(items)
    ensures Counts(s, UpsertedAll(s, items), items)
  {
    if items != [] {
      hide Counts, Upserted;
      var init, last := items[..|items| - 1], items[|items| - 1];
      CountsAll(s, init);
      assert items == init + [last];
      CountsOne(s, UpsertedAll(s, init), init, last);
    }
  }

  /** The catalogue after a reconciliation: a row that an item names carries exactly the item,
      whatever it said before; a row that no item names is emptied and archived if it was in use
      and that was asked for, and otherwise left alone; every item has its row. */
  lemma ReconciledMeaning(s: Stock, d: Document, deactivateMissing: bool)
    requires NamesDistinct(s.rows) && Valid(d)
    ensures var t := Reconciled(s, d, deactivateMissing);
      && |s.rows| <= |t.rows| && NamesDistinct(t.rows)
      && (forall i: nat :: i < |t.rows| ==> KeepsRest(s, t.rows[i], i))
      && (forall i: nat, k: nat :: i < |t.rows| && k < |d.items| && t.rows[i].name == d.items[k].name ==>
            TakenFrom(t.rows[i], d.items[k]))
      && (forall i: nat :: i < |s.rows| && s.rows[i].name !in Names(d.items) ==>
            if deactivateMissing && s.rows[i].active then
              !t.rows[i].active && t.rows[i].quantity == 0 &&
                t.rows[i].(active := true, quantity := s.rows[i].quantity) == s.rows[i]
            else t.rows[i] == s.rows[i])
      && (forall i: nat :: |s.rows| <= i < |t.rows| ==> t.rows[i].name in Names(d.items))
      && (forall k: nat :: k < |d.items| ==> exists i :: 0 <= i < |t.rows| && t.rows[i].name == d.items[k].name)
  {
    hide Find, Names;
    var mid, t := UpsertedAll(s, d.items), Reconciled(s, d, deactivateMissing);
    CountsAll(s, d.items);
    UpsertedAllMeaning(s, d.items);
    NamedByItems(d.items);
    if deactivateMissing {
      DroppedMeaning(mid, Names(d.items), |s.rows|);
    }
    forall k: nat | k < |d.items|
      ensures exists i :: 0 <= i < |t.rows| && t.rows[i].name == d.items[k].name
    {
      assert Settled(mid.rows, d.items[k]);
      var i := Find(mid.rows, d.items[k].name).value;
      assert t.rows[i].name == d.items[k].name;
    }
  }

  // ----- What is recorded and reported -----

  function QuantityBefore(s: Stock, i: nat): int { if i < |s.rows| then s.rows[i].quantity else 0 }

  /** `t` records, after the movements of `s`, one inventory movement for each row whose quantity
      changed, saying by how much, and none for the others. */
  ghost predicate RecordsChanges(s: Stock, t: Stock) {
    && s.movements <= t.movements && |s.rows| <= |t.rows|
    && (forall k: nat :: |s.movements| <= k < |t.movements| ==>
          var m := t.movements[k];
          && m.reason == Inventory && m.stock < |t.rows| && m.delta != 0
          && m.delta == t.rows[m.stock].quantity - QuantityBefore(s, m.stock))
    && (forall k: nat, l: nat :: |s.movements| <= k < l < |t.movements| ==>
          t.movements[k].stock != t.movements[l].stock)
    && (forall i: nat :: i < |t.rows| && t.rows[i].quantity != QuantityBefore(s, i) ==> Recorded(s, t, i))
  }

  predicate Recorded(s: Stock, t: Stock, i: nat) {
    exists k :: |s.movements| <= k < |t.movements| && t.movements[k].stock == i
  }

  function WithRow(rows: seq<Row>, i: nat, row: Row): seq<Row>
    requires i <= |rows|
  {
    if i < |rows| then rows[i := row] else rows + [row]
  }

  lemma RecordedStays(s: Stock, t: Stock, t': Stock, i: nat)
    requires Recorded(s, t, i) && t.movements <= t'.movements
    ensures Recorded(s, t', i)
  {
    var k :| |s.movements| <= k < |t.movements| && t.movements[k].stock == i;
    assert t'.movements[k].stock == i;
  }

  /** Rewriting, or appending, row i - whose quantity had not changed so far - and recording the change. */
  lemma RecordsOneMore(s: Stock, t: Stock, i: nat, row: Row)
    requires RecordsChanges(s, t) && i <= |t.rows|
    requires i < |t.rows| ==> t.rows[i].quantity == QuantityBefore(s, i)
    ensures RecordsChanges(s, Stock(WithRow(t.rows, i, row),
                                    Moved(t.movements, i, row.quantity - QuantityBefore(s, i), Inventory)))
  {
    hide Recorded;
    var delta := row.quantity - QuantityBefore(s, i);
    var t' := Stock(WithRow(t.rows, i, row), Moved(t.movements, i, delta, Inventory));
    forall j: nat | j < |t'.rows| && t'.rows[j].quantity != QuantityBefore(s, j)
      ensures Recorded(s, t', j)
    {
      if j == i {
        LastIsRecorded(s, t.movements, t', Movement(i, delta, Inventory));
      } else {
        RecordedStays(s, t, t', j);
      }
    }
  }

  lemma LastIsRecorded(s: Stock, before: seq<Movement>, t: Stock, m: Movement)
    requires s.movements <= before && t.movements == before + [m]
    ensures Recorded(s, t, m.stock)
  {
    assert t.movements[|before|].stock == m.stock;
  }

  lemma UntouchedSoFar(s: Stock, t: Stock, items: seq<Item>, name: string)
    requires Counts(s, t, items) && name !in Names(items)
    ensures |s.rows| <= |t.rows| && Find(t.rows, name) == Find(s.rows, name)
    ensures Find(s.rows, name).Some? ==> t.rows[Find(s.rows, name).value] == s.rows[Find(s.rows, name).value]
  {
    hide Find, Names;
    if Find(s.rows, name).Some? {
      FindsTheRow(t.rows, Find(s.rows, name).value);
    }
  }

  lemma UpsertRecords(s: Stock, t: Stock, init: seq<Item>, item: Item)
    requires Counts(s, t, init) && RecordsChanges(s, t) && item.name !in Names(init)
    ensures RecordsChanges(s, Upserted(t, item))
  {
    hide Counts, RecordsChanges, Find, Names, NamesDistinct, KeepsRest, TakenFrom, Moved, Upserted, WithRow, Counted;
    UntouchedSoFar(s, t, init, item.name);
    var i, row := UpsertedAsRow(t, item);
    assert QuantityBefore(s, i) == if i < |t.rows| then t.rows[i].quantity else 0;
    RecordsOneMore(s, t, i, row);
  }

  lemma UpsertedAsRow(t: Stock, item: Item) returns (i: nat, row: Row)
    ensures i <= |t.rows| && row.quantity == item.quantity
    ensures i == |t.rows| ==> Find(t.rows, item.name).None?
    ensures i < |t.rows| ==> Find(t.rows, item.name) == Some(i)
    ensures Upserted(t, item) ==
            Stock(WithRow(t.rows, i, row),
                  Moved(t.movements, i, row.quantity - (if i < |t.rows| then t.rows[i].quantity else 0), Inventory))
  {
    hide Find;
    match Find(t.rows, item.name)
    case None => i, row := |t.rows|, Counted(NewRow(item.name), item);
    case Some(at) => i, row := at, Counted(t.rows[at], item);
  }

  lemma {:induction false} UpsertsRecord(s: Stock, items: seq<Item>)
    requires NamesDistinct(s.rows) && UniqueNames(items)
    ensures RecordsChanges(s, UpsertedAll(s, items))
  {
    if items != [] {
      hide RecordsChanges, Counts, Names, Upserted;
      var init, item := items[..|items| - 1], items[|items| - 1];
      assert items == init + [item];
      UniqueSnoc(init, item);
      UpsertsRecord(s, init);
      CountsAll(s, init);
      UpsertRecords(s, UpsertedAll(s, init), init, item);
    } else {
      assert RecordsChanges(s, s);
    }
  }

  lemma {:induction false} DropsRecord(s: Stock, t: Stock, names: set<string>, n: nat)
    requires RecordsChanges(s, t) && n <= |s.rows| <= |t.rows|
    requires forall i: nat :: i < |s.rows| && Gone(t.rows[i], names) ==> t.rows[i] == s.rows[i]
    ensures RecordsChanges(s, DroppedUpTo(t, names, n))
  {
    if n > 0 {
      hide RecordsChanges, Gone;
      DropsRecord(s, t, names, n - 1);
      DroppedMeaning(t, names, n - 1);
      var u := DroppedUpTo(t, names, n - 1);
      assert u.rows[n - 1] == t.rows[n - 1];
      DropRecords(s, u, names, n - 1);
    }
  }

  lemma DropRecords(s: Stock, t: Stock, names: set<string>, i: nat)
    requires RecordsChanges(s, t) && i < |s.rows| <= |t.rows|
    requires Gone(t.rows[i], names) ==> t.rows[i] == s.rows[i]
    ensures RecordsChanges(s, Dropped(t, names, i))
  {
    hide RecordsChanges, Moved;
    if Gone(t.rows[i], names) {
      RecordsOneMore(s, t, i, t.rows[i].(quantity := 0, active := false));
    }
  }

  /** The rows in use, by position. */
  function InUse(rows: seq<Row>): set<int> { set i | 0 <= i < |rows| && rows[i].active }

  lemma InUseSnoc(rows: seq<Row>, row: Row)
    ensures InUse(rows + [row]) == InUse(rows) + (if row.active then {|rows|} else {}) && |rows| !in InUse(rows)
  {
  }

  lemma {:induction false} ActiveCountIsSize(rows: seq<Row>)
    ensures ActiveCount(rows) == |InUse(rows)|
    decreases |rows|
  {
    if rows != [] {
      var n := |rows| - 1;
      ActiveCountIsSize(rows[..n]);
      InUseSnoc(rows[..n], rows[n]);
      assert rows == rows[..n] + [rows[n]];
      hide InUse;
    }
  }

  /** The items, by position, whose name no row had before. */
  function Newcomers(s: Stock, items: seq<Item>): set<int> {
    set k | 0 <= k < |items| && Find(s.rows, items[k].name).None?
  }

  lemma NewcomersSnoc(s: Stock, items: seq<Item>, item: Item)
    ensures Newcomers(s, items + [item]) ==
            Newcomers(s, items) + (if Find(s.rows, item.name).None? then {|items|} else {})
    ensures |items| !in Newcomers(s, items)
  {
    hide Find;
  }

  lemma {:induction false} NewRowsCounted(s: Stock, items: seq<Item>)
    requires NamesDistinct(s.rows) && UniqueNames(items)
    ensures |UpsertedAll(s, items).rows| - |s.rows| == |Newcomers(s, items)|
  {
    if items != [] {
      var init, item := items[..|items| - 1], items[|items| - 1];
      NewcomersSnoc(s, init, item);
      hide Find, Names, Upserted, Counts, NamesDistinct, Newcomers;
      assert items == init + [item];
      UniqueSnoc(init, item);
      NewRowsCounted(s, init);
      CountsAll(s, init);
      GrowsByOne(s, UpsertedAll(s, init), init, item);
    }
  }

  lemma GrowsByOne(s: Stock, t: Stock, init: seq<Item>, item: Item)
    requires Counts(s, t, init) && item.name !in Names(init)
    ensures |Upserted(t, item).rows| == |t.rows| + if Find(s.rows, item.name).None? then 1 else 0
  {
    hide Find;
    UntouchedSoFar(s, t, init, item.name);
    UpsertedOne(t, item);
  }

  predicate NewName(s: Stock, name: string) { forall i :: 0 <= i < |s.rows| ==> s.rows[i].name != name }

  /** What is reported, for a reconciliation or its preview: as created, the items without a row
      before; as updated, the other items; as deactivated, the rows in use that no item names; and
      as movements, the rows whose quantity changed - each of which has one movement that says so. */
  lemma ReportMeaning(s: Stock, d: Document, deactivateMissing: bool, applied: bool)
    requires NamesDistinct(s.rows) && Valid(d)
    ensures var t, r := Reconciled(s, d, deactivateMissing), Report(s, d, deactivateMissing, applied);
      && r.applied == applied
      && r.created == |set k | 0 <= k < |d.items| && NewName(s, d.items[k].name)|
      && r.updated == |d.items| - r.created
      && r.deactivated ==
         (if deactivateMissing then |set i | 0 <= i < |s.rows| && s.rows[i].active && s.rows[i].name !in Names(d.items)|
          else 0)
      && RecordsChanges(s, t) && r.movements == |t.movements| - |s.movements|
      && r.activePositions == |set i | 0 <= i < |t.rows| && t.rows[i].active|
  {
    hide Find, Names, RecordsChanges, UpsertedAll, DroppedUpTo, Newcomers, ActiveCount;
    NewcomersAreNew(s, d.items);
    var mid, t := UpsertedAll(s, d.items), Reconciled(s, d, deactivateMissing);
    NewRowsCounted(s, d.items);
    UpsertsRecord(s, d.items);
    CountsAll(s, d.items);
    ActiveCountIsSize(mid.rows);
    ActiveCountIsSize(t.rows);
    if deactivateMissing {
      DropsRecord(s, mid, Names(d.items), |s.rows|);
      DroppedRows(s, mid, d.items);
    }
  }

  lemma NewcomersAreNew(s: Stock, items: seq<Item>)
    ensures Newcomers(s, items) == set k | 0 <= k < |items| && NewName(s, items[k].name)
  {
    hide Find;
  }

  lemma DroppedRows(s: Stock, t: Stock, items: seq<Item>)
    requires Counts(s, t, items)
    ensures var gone := set i | 0 <= i < |s.rows| && s.rows[i].active && s.rows[i].name !in Names(items);
            |InUse(t.rows)| - |InUse(DroppedUpTo(t, Names(items), |s.rows|).rows)| == |gone|
  {
    hide Names;
    DroppedMeaning(t, Names(items), |s.rows|);
    var gone := set i | 0 <= i < |s.rows| && s.rows[i].active && s.rows[i].name !in Names(items);
    assert gone <= InUse(t.rows);
    assert InUse(DroppedUpTo(t, Names(items), |s.rows|).rows) == InUse(t.rows) - gone;
  }

  // ----- Idempotence -----

  lemma {:induction false} UpsertingSettledItems(s: Stock, items: seq<Item>)
    requires forall k :: 0 <= k < |items| ==> Settled(s.rows, items[k])
    ensures UpsertedAll(s, items) == s
  {
    hide Find;
    if items != [] {
      UpsertingSettledItems(s, items[..|items| - 1]);
      var item := items[|items| - 1];
      assert Settled(s.rows, item);
      var i := Find(s.rows, item.name).value;
      assert s.rows[i := Counted(s.rows[i], item)] == s.rows;
    }
  }

  lemma {:induction false} NothingToDrop(s: Stock, names: set<string>, n: nat)
    requires n <= |s.rows|
    requires forall i :: 0 <= i < |s.rows| ==> !Gone(s.rows[i], names)
    ensures DroppedUpTo(s, names, n) == s
  {
    if n > 0 {
      NothingToDrop(s, names, n - 1);
    }
  }

  /** Applying the same document again creates, deactivates and moves nothing. */
  lemma SecondApplyDoesNothing(s: Stock, d: Document, deactivateMissing: bool, applied: bool)
    requires NamesDistinct(s.rows) && Valid(d)
    ensures var t := Reconciled(s, d, deactivateMissing);
            && Reconciled(t, d, deactivateMissing) == t
            && var r := Report(t, d, deactivateMissing, applied);
               r.created == 0 && r.updated == d.positionCount && r.deactivated == 0 && r.movements == 0
  {
    hide Settled;
    var t := Reconciled(s, d, deactivateMissing);
    UpsertedAllMeaning(s, d.items);
    if deactivateMissing {
      ReconciledIsCovered(s, d);
      NothingToDrop(t, Names(d.items), |t.rows|);
    }
    UpsertingSettledItems(t, d.items);
  }

  // ----- Conservation -----

  lemma {:induction false} UpsertedAllIsSound(s: Stock, items: seq<Item>)
    requires Sound(s)
    ensures Sound(UpsertedAll(s, items))
  {
    if items != [] {
      hide Find, Balanced;
      var t, item := UpsertedAll(s, items[..|items| - 1]), items[|items| - 1];
      UpsertedAllIsSound(s, items[..|items| - 1]);
      UpsertedOne(t, item);
      match Find(t.rows, item.name) {
        case None => AppendedIsBalanced(t, Counted(NewRow(item.name), item), Inventory);
        case Some(i) => RewrittenIsBalanced(t, i, Counted(t.rows[i], item), Inventory);
      }
    }
  }

  lemma DroppedOneIsSound(s: Stock, names: set<string>, i: nat)
    requires Sound(s) && i < |s.rows|
    ensures Sound(Dropped(s, names, i))
  {
    hide Balanced;
    RewrittenIsBalanced(s, i, s.rows[i].(quantity := 0, active := false), Inventory);
  }

  lemma {:induction false} DroppedIsSound(s: Stock, names: set<string>, n: nat)
    requires Sound(s) && n <= |s.rows|
    ensures Sound(DroppedUpTo(s, names, n))
  {
    if n > 0 {
      hide Sound, Dropped;
      DroppedIsSound(s, names, n - 1);
      DroppedOneIsSound(DroppedUpTo(s, names, n - 1), names, n - 1);
    }
  }

  lemma ReconciledIsSound(s: Stock, d: Document, deactivateMissing: bool)
    requires Sound(s)
    ensures Sound(Reconciled(s, d, deactivateMissing))
  {
    hide Balanced, NamesDistinct;
    UpsertedAllIsSound(s, d.items);
    if deactivateMissing {
      DroppedIsSound(UpsertedAll(s, d.items), Names(d.items), |s.rows|);
    }
  }

  // ----- The operation -----

  /** The dictionary of rows by name. */
  ghost predicate Indexes(byName: map<string, nat>, rows: seq<Row>) {
    && (forall i :: 0 <= i < |rows| ==> rows[i].name in byName && byName[rows[i].name] == i)
    && (forall name :: name in byName ==> byName[name] < |rows| && rows[byName[name]].name == name)
  }

  lemma IndexFinds(byName: map<string, nat>, rows: seq<Row>, name: string)
    requires Indexes(byName, rows)
    ensures NamesDistinct(rows)
    ensures Find(rows, name) == if name in byName then Some(byName[name]) else None
  {
    hide Find;
    if name in byName {
      FindsTheRow(rows, byName[name]);
    }
  }

  method IndexRows(rows: seq<Row>) returns (byName: map<string, nat>)
    requires NamesDistinct(rows)
    ensures Indexes(byName, rows)
  {
    byName := map[];
    var i := 0;
    while i < |rows|
      invariant 0 <= i <= |rows|
      invariant Indexes(byName, rows[..i])
    {
      byName := byName[rows[i].name := i];
      i := i + 1;
    }
    assert rows[..i] == rows;
  }

  lemma UpsertedByIndex(s: Stock, byName: map<string, nat>, item: Item)
    requires Indexes(byName, s.rows)
    ensures item.name !in byName ==>
              && Upserted(s, item) ==
                 Stock(s.rows + [Counted(NewRow(item.name), item)],
                       Moved(s.movements, |s.rows|, item.quantity, Inventory))
              && Indexes(byName[item.name := |s.rows|], Upserted(s, item).rows)
    ensures item.name in byName ==>
              var i := byName[item.name];
              && Upserted(s, item) ==
                 Stock(s.rows[i := Counted(s.rows[i], item)],
                   Moved(s.movements, i, item.quantity - s.rows[i].quantity, Inventory))
              && Indexes(byName, Upserted(s, item).rows)
  {
    hide Find;
    IndexFinds(byName, s.rows, item.name);
  }

  method UpsertItems(table: StockTable, items: seq<Item>) returns (created: nat, updated: nat, movementCount: nat)
    requires NamesDistinct(table.rows)
    modifies table
    ensures table.Contents() == UpsertedAll(old(table.Contents()), items)
    ensures created == |table.rows| - old(|table.rows|) && updated == |items| - created
    ensures movementCount == |table.movements| - old(|table.movements|)
  {
    hide Upserted, Indexes, Counted, NamesDistinct;
    ghost var was := table.Contents();
    var byName: map<string, nat> := IndexRows(table.rows);
    created, updated, movementCount := 0, 0, 0;
    var k := 0;
    while k < |items|
      invariant 0 <= k <= |items|
      invariant table.Contents() == UpsertedAll(was, items[..k])
      invariant Indexes(byName, table.rows)
      invariant created == |table.rows| - |was.rows| && updated == k - created
      invariant movementCount == |table.movements| - |was.movements|
    {
      var item := items[k];
      assert items[..k + 1][..k] == items[..k];
      UpsertedByIndex(table.Contents(), byName, item);
      var stock, previous;
      if item.name !in byName {
        stock, previous := |table.rows|, 0;
        table.rows := table.rows + [Counted(NewRow(item.name), item)];
        byName := byName[item.name := stock];
        created := created + 1;
      } else {
        stock := byName[item.name];
        IndexBounds(byName, table.rows, item.name);
        previous := table.rows[stock].quantity;
        table.rows := table.rows[stock := Counted(table.rows[stock], item)];
        updated := updated + 1;
      }
      var delta := item.quantity - previous;
      if delta != 0 {
        table.movements := table.movements + [Movement(stock, delta, Inventory)];
        movementCount := movementCount + 1;
      }
      k := k + 1;
    }
    assert items[..k] == items;
  }

  lemma IndexBounds(byName: map<string, nat>, rows: seq<Row>, name: string)
    requires Indexes(byName, rows) && name in byName
    ensures byName[name] < |rows|
  {
  }

  method DropMissing(table: StockTable, names: set<string>, existing: nat)
    returns (deactivated: nat, movementCount: nat)
    requires existing <= |table.rows|
    modifies table
    ensures table.Contents() == DroppedUpTo(old(table.Contents()), names, existing)
    ensures deactivated == ActiveCount(old(table.rows)) - ActiveCount(table.rows)
    ensures movementCount == |table.movements| - old(|table.movements|)
  {
    hide ActiveCount;
    ghost var was := table.Contents();
    deactivated, movementCount := 0, 0;
    var i := 0;
    while i < existing
      invariant 0 <= i <= existing <= |table.rows|
      invariant table.Contents() == DroppedUpTo(was, names, i)
      invariant deactivated == ActiveCount(was.rows) - ActiveCount(table.rows)
      invariant movementCount == |table.movements| - |was.movements|
    {
      var row := table.rows[i];
      i := i + 1;
      if !row.active || row.name in names {
        continue;
      }
      ActiveUpdate(table.rows, i - 1, row.(quantity := 0, active := false));
      table.rows := table.rows[i - 1 := row.(quantity := 0, active := false)];
      deactivated := deactivated + 1;
      if row.quantity != 0 {
        table.movements := table.movements + [Movement(i - 1, -row.quantity, Inventory)];
        movementCount := movementCount + 1;
      }
    }
  }

  method CountActive(rows: seq<Row>) returns (positions: nat, quantity: int)
    ensures positions == ActiveCount(rows) && quantity == ActiveQuantity(rows)
  {
    positions, quantity := 0, 0;
    var i := 0;
    while i < |rows|
      invariant 0 <= i <= |rows|
      invariant positions == ActiveCount(rows[..i]) && quantity == ActiveQuantity(rows[..i])
    {
      assert rows[..i + 1][..i] == rows[..i];
      if rows[i].active {
        positions, quantity := positions + 1, quantity + rows[i].quantity;
      }
      i := i + 1;
    }
    assert rows[..i] == rows;
  }

  /** A preview reports what applying would, and rolls everything back. */
  method Reconcile(table: StockTable, d: Document, apply: bool, deactivateMissing: bool) returns (result: Result)
    requires Valid(d) && NamesDistinct(table.rows)
    modifies table
    ensures table.Contents() ==
            if apply then Reconciled(old(table.Contents()), d, deactivateMissing) else old(table.Contents())
    ensures result == Report(old(table.Contents()), d, deactivateMissing, apply)
  {
    hide UpsertedAll, DroppedUpTo, ActiveCount, ActiveQuantity, Valid, NamesDistinct;
    var rows, movements := table.rows, table.movements;
    var created, updated, movementCount := UpsertItems(table, d.items);
    var deactivated := 0;
    if deactivateMissing {
      var moved;
      deactivated, moved := DropMissing(table, Names(d.items), |rows|);
      movementCount := movementCount + moved;
    }
    var positions, quantity := CountActive(table.rows);
    result := Result(apply, created, updated, deactivated, movementCount, positions, quantity);
    if !apply {
      table.rows, table.movements := rows, movements;
    }
  }

  // ----- Whole runs -----

  datatype Operation =
    | Create(item: NewItem)
    | Update(stock: nat, edit: Edit)
    | IssueFrom(stock: nat, quantity: nat)
    | Archive(stock: nat)
    | Sync(printers: seq<Printer>)
    | Apply(document: Document, deactivateMissing: bool)
    | Preview(document: Document, deactivateMissing: bool)

  ghost predicate Step(s: Stock, op: Operation, s': Stock) {
    match op
    case Create(item) => s' == Created(s, item)
    case Update(stock, edit) => s' == Updated(s, stock, edit)
    case IssueFrom(stock, quantity) => s' == Issued(s, stock, quantity)
    case Archive(stock) => s' == Archived(s, stock)
    case Sync(printers) => IsSynced(s, s', FoundIn(AllSlots(printers)), FoundIn(AllSlots(printers)).Keys)
    case Apply(document, deactivateMissing) => Valid(document) && s' == Reconciled(s, document, deactivateMissing)
    case Preview(document, deactivateMissing) => s' == s
  }

  lemma QuantityIsNonNegative(s: Stock, stock: nat)
    requires Balanced(s) && stock < |s.rows|
    ensures s.rows[stock].quantity >= 0
  {
  }

  lemma UpdatedIsSound(s: Stock, stock: nat, edit: Edit)
    requires Sound(s)
    ensures Sound(Updated(s, stock, edit))
  {
    hide Balanced, Ledger, Find;
    if stock < |s.rows| && !Clashes(s, stock, edit) {
      QuantityIsNonNegative(s, stock);
      RewrittenIsBalanced(s, stock, Edited(s.rows[stock], edit), Adjust);
    }
  }

  lemma IssuedIsSound(s: Stock, stock: nat, quantity: nat)
    requires Sound(s)
    ensures Sound(Issued(s, stock, quantity))
  {
    hide Ledger;
    if stock < |s.rows| && s.rows[stock].quantity >= quantity {
      forall i | 0 <= i < |s.rows|
        ensures Ledger(s.movements + [Movement(stock, -(quantity as int), Issue)], i) ==
                Ledger(s.movements, i) - (if i == stock then quantity else 0)
      {
        LedgerSnoc(s.movements, Movement(stock, -(quantity as int), Issue), i);
      }
    }
  }

  lemma CreatedIsSound(s: Stock, item: NewItem)
    requires Sound(s)
    ensures Sound(Created(s, item))
  {
    AppendedIsBalanced(s, Row(item.name, item.color, Text(item.models), 0, item.quantity, item.minimum, true), Adjust);
  }

  lemma StepIsSound(s: Stock, op: Operation, s': Stock)
    requires Sound(s) && Step(s, op, s')
    ensures Sound(s')
  {
    hide Ledger, Find;
    match op {
      case Create(item) => CreatedIsSound(s, item);
      case Update(stock, edit) => UpdatedIsSound(s, stock, edit);
      case IssueFrom(stock, quantity) => IssuedIsSound(s, stock, quantity);
      case Archive(stock) =>
      case Sync(printers) => SyncIsHarmless(s, s', FoundIn(AllSlots(printers)));
      case Apply(document, deactivateMissing) => ReconciledIsSound(s, document, deactivateMissing);
      case Preview(_, _) =>
    }
  }

  lemma {:induction false} UpsertsOnlyAppend(s: Stock, items: seq<Item>)
    ensures s.movements <= UpsertedAll(s, items).movements
  {
    if items != [] {
      UpsertsOnlyAppend(s, items[..|items| - 1]);
    }
  }

  lemma {:induction false} DropsOnlyAppend(s: Stock, names: set<string>, n: nat)
    requires n <= |s.rows|
    ensures s.movements <= DroppedUpTo(s, names, n).movements
  {
    if n > 0 {
      DropsOnlyAppend(s, names, n - 1);
    }
  }

  /** No operation rewrites or removes a recorded movement or a row. */
  lemma HistoryOnlyGrows(s: Stock, op: Operation, s': Stock)
    requires Step(s, op, s')
    ensures s.movements <= s'.movements && |s.rows| <= |s'.rows|
  {
    hide Find;
    if op.Apply? {
      UpsertsOnlyAppend(s, op.document.items);
      DropsOnlyAppend(UpsertedAll(s, op.document.items), Names(op.document.items), |s.rows|);
    }
  }

  ghost predicate IsRun(run: seq<Stock>, ops: seq<Operation>) {
    && |run| == |ops| + 1 && run[0] == EMPTY
    && forall k :: 0 <= k < |ops| ==> Step(run[k], ops[k], run[k + 1])
  }

  /** In every state of every run: quantities are the sums of their movements and never
      negative, and names are distinct. */
  lemma {:induction false} LedgerIsConserved(run: seq<Stock>, ops: seq<Operation>, k: nat)
    requires IsRun(run, ops) && k < |run|
    ensures Sound(run[k])
    decreases k
  {
    if k > 0 {
      LedgerIsConserved(run, ops, k - 1);
      assert Step(run[k - 1], ops[k - 1], run[k]);
      StepIsSound(run[k - 1], ops[k - 1], run[k]);
    }
  }
}
