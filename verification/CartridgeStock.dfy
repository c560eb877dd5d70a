/** The cartridge catalogue with its movement ledger (app/services/cartridge_stock.py).
    Rows are never deleted, only archived, so a row's id is its place in the order of
    creation. */
module CartridgeStock {
  import opened Wrappers

  /** Compatible printers, typed in or collected by the synchronisation. */
  datatype Models = Text(text: string) | Of(models: set<string>)

  datatype Row = Row(name: string, color: Option<string>, models: Models, printerCount: nat,
                     quantity: int, minimum: int, active: bool)

  datatype Reason = Adjust | Issue | Inventory

  datatype Movement = Movement(stock: nat, delta: int, reason: Reason)

  datatype Stock = Stock(rows: seq<Row>, movements: seq<Movement>)

  const EMPTY := Stock([], [])

  function NewRow(name: string): Row { Row(name, None, Text(""), 0, 0, 0, true) }

  // ----- The ledger -----

  /** Sum of the movements of one row. */
  function Ledger(movements: seq<Movement>, stock: nat): int {
    if movements == [] then 0
    else
      var last := movements[|movements| - 1];
      Ledger(movements[..|movements| - 1], stock) + (if last.stock == stock then last.delta else 0)
  }

  predicate NamesDistinct(rows: seq<Row>) {
    forall i, j :: 0 <= i < j < |rows| ==> rows[i].name != rows[j].name
  }

  /** The conservation law: what is on hand is what the movements add up to, and never negative. */
  predicate Balanced(s: Stock) {
    && (forall i :: 0 <= i < |s.rows| ==> s.rows[i].quantity == Ledger(s.movements, i) && s.rows[i].quantity >= 0)
    && (forall k :: 0 <= k < |s.movements| ==> s.movements[k].stock < |s.rows|)
  }

  predicate Sound(s: Stock) {
    Balanced(s) && NamesDistinct(s.rows)
  }

  lemma LedgerSnoc(movements: seq<Movement>, m: Movement, stock: nat)
    ensures Ledger(movements + [m], stock) == Ledger(movements, stock) + (if m.stock == stock then m.delta else 0)
  {
    assert (movements + [m])[..|movements|] == movements;
  }

  lemma {:induction false} NothingMovedAt(movements: seq<Movement>, stock: nat)
    requires forall k :: 0 <= k < |movements| ==> movements[k].stock != stock
    ensures Ledger(movements, stock) == 0
  {
    if movements != [] {
      NothingMovedAt(movements[..|movements| - 1], stock);
    }
  }

  /** Records a change of quantity, unless there is none. */
  function Moved(movements: seq<Movement>, stock: nat, delta: int, reason: Reason): seq<Movement> {
    if delta == 0 then movements else movements + [Movement(stock, delta, reason)]
  }

  /** Rewriting one row keeps the balance when the change of quantity is recorded. */
  lemma RewrittenIsBalanced(s: Stock, i: nat, row: Row, reason: Reason)
    requires Balanced(s) && i < |s.rows| && row.quantity >= 0
    ensures Balanced(Stock(s.rows[i := row], Moved(s.movements, i, row.quantity - s.rows[i].quantity, reason)))
  {
    hide Ledger;
    var m := Movement(i, row.quantity - s.rows[i].quantity, reason);
    forall j | 0 <= j < |s.rows|
      ensures Ledger(s.movements + [m], j) == Ledger(s.movements, j) + (if j == i then m.delta else 0)
    {
      LedgerSnoc(s.movements, m, j);
    }
  }

  lemma AppendedIsBalanced(s: Stock, row: Row, reason: Reason)
    requires Balanced(s) && row.quantity >= 0
    ensures Balanced(Stock(s.rows + [row], Moved(s.movements, |s.rows|, row.quantity, reason)))
  {
    hide Ledger;
    var m := Movement(|s.rows|, row.quantity, reason);
    NothingMovedAt(s.movements, |s.rows|);
    forall j | 0 <= j <= |s.rows|
      ensures Ledger(s.movements + [m], j) == Ledger(s.movements, j) + (if j == |s.rows| then m.delta else 0)
    {
      LedgerSnoc(s.movements, m, j);
    }
  }

  // ----- Looking a name up -----

  function Find(rows: seq<Row>, name: string): (found: Option<nat>)
    ensures found.Some? ==> found.value < |rows| && rows[found.value].name == name
    ensures found.None? ==> forall i :: 0 <= i < |rows| ==> rows[i].name != name
  {
    if rows == [] then None
    else if rows[|rows| - 1].name == name then Some(|rows| - 1)
    else Find(rows[..|rows| - 1], name)
  }

  lemma FindsTheRow(rows: seq<Row>, i: nat)
    requires NamesDistinct(rows) && i < |rows|
    ensures Find(rows, rows[i].name) == Some(i)
  {
    var found := Find(rows, rows[i].name);
    assert found.Some?;
    if found.value < i || i < found.value {
      assert false;
    }
  }

  // ----- The operations on values -----

  datatype NewItem = NewItem(name: string, color: Option<string>, models: string, quantity: nat, minimum: nat)

  /** The fields of a partial update; None is a field that was not sent. The colour may be
      sent as null, which clears it. */
  datatype Edit = Edit(name: Option<string>, color: Option<Option<string>>, models: Option<string>,
                       active: Option<bool>, quantity: Option<nat>, minimum: Option<nat>)

  datatype Reply = Done(stock: nat) | Missing | Duplicate | NotEnough

  function Created(s: Stock, item: NewItem): Stock {
    if Find(s.rows, item.name).Some? then s
    else
      Stock(s.rows + [Row(item.name, item.color, Text(item.models), 0, item.quantity, item.minimum, true)],
            Moved(s.movements, |s.rows|, item.quantity, Adjust))
  }

  predicate Clashes(s: Stock, stock: nat, edit: Edit) {
    edit.name.Some? && exists j :: 0 <= j < |s.rows| && j != stock && s.rows[j].name == edit.name.value
  }

  function Or<T>(sent: Option<T>, kept: T): T {
    if sent.Some? then sent.value else kept
  }

  function Edited(row: Row, edit: Edit): Row {
    Row(Or(edit.name, row.name), Or(edit.color, row.color),
        if edit.models.Some? then Text(edit.models.value) else row.models, row.printerCount,
        if edit.quantity.Some? then edit.quantity.value else row.quantity,
        if edit.minimum.Some? then edit.minimum.value else row.minimum,
        Or(edit.active, row.active))
  }

  function Updated(s: Stock, stock: nat, edit: Edit): Stock {
    if stock >= |s.rows| || Clashes(s, stock, edit) then s
    else
      var row := Edited(s.rows[stock], edit);
      Stock(s.rows[stock := row], Moved(s.movements, stock, row.quantity - s.rows[stock].quantity, Adjust))
  }

  function Issued(s: Stock, stock: nat, quantity: nat): Stock {
    if stock >= |s.rows| || s.rows[stock].quantity < quantity then s
    else
      Stock(s.rows[stock := s.rows[stock].(quantity := s.rows[stock].quantity - quantity)],
            s.movements + [Movement(stock, -(quantity as int), Issue)])
  }

  function Archived(s: Stock, stock: nat): Stock {
    if stock >= |s.rows| then s else s.(rows := s.rows[stock := s.rows[stock].(active := false)])
  }

  /** A taken name, archived or not, changes nothing; a free one appends one active row with the
      item's own fields and, for a non-zero quantity, its opening movement. */
  lemma CreatedMeaning(s: Stock, item: NewItem)
    ensures var t, n := Created(s, item), |s.rows|;
            if exists i :: 0 <= i < n && s.rows[i].name == item.name then t == s
            else
              && |t.rows| == n + 1 && (forall i :: 0 <= i < n ==> t.rows[i] == s.rows[i])
              && t.rows[n].name == item.name && t.rows[n].color == item.color && t.rows[n].models == Text(item.models)
              && t.rows[n].quantity == item.quantity && t.rows[n].minimum == item.minimum
              && t.rows[n].active && t.rows[n].printerCount == 0
              && t.movements ==
                 s.movements + (if item.quantity != 0 then [Movement(n, item.quantity, Adjust)] else [])
  {
  }

  /** A row that is missing, or a new name that another row has, changes nothing. Otherwise every
      field that was sent takes the value sent, every other field and row stays, and a movement
      records the change of quantity, if there is one. */
  lemma UpdatedMeaning(s: Stock, stock: nat, edit: Edit)
    ensures var t := Updated(s, stock, edit);
            if stock >= |s.rows| ||
               (edit.name.Some? && exists j :: 0 <= j < |s.rows| && j != stock && s.rows[j].name == edit.name.value)
            then t == s
            else
              var r, r' := s.rows[stock], t.rows[stock];
              && |t.rows| == |s.rows| && (forall i :: 0 <= i < |s.rows| && i != stock ==> t.rows[i] == s.rows[i])
              && (if edit.name.Some? then r'.name == edit.name.value else r'.name == r.name)
              && (if edit.color.Some? then r'.color == edit.color.value else r'.color == r.color)
              && (if edit.models.Some? then r'.models == Text(edit.models.value) else r'.models == r.models)
              && (if edit.active.Some? then r'.active == edit.active.value else r'.active == r.active)
              && (if edit.quantity.Some? then r'.quantity == edit.quantity.value else r'.quantity == r.quantity)
              && (if edit.minimum.Some? then r'.minimum == edit.minimum.value else r'.minimum == r.minimum)
              && r'.printerCount == r.printerCount
              && t.movements ==
                 s.movements + (if edit.quantity.Some? && edit.quantity.value != r.quantity
                                then [Movement(stock, edit.quantity.value - r.quantity, Adjust)] else [])
  {
    assert stock < |s.rows| ==> |Updated(s, stock, edit).rows| == |s.rows|;
  }

  /** Issuing from a missing row, or more than is on hand, changes nothing; otherwise the quantity
      drops by exactly what was asked for, and a movement says so. */
  lemma IssuedMeaning(s: Stock, stock: nat, quantity: nat)
    ensures var t := Issued(s, stock, quantity);
            if stock >= |s.rows| || s.rows[stock].quantity < quantity then t == s
            else
              && |t.rows| == |s.rows| && (forall i :: 0 <= i < |s.rows| && i != stock ==> t.rows[i] == s.rows[i])
              && t.rows[stock].quantity + quantity == s.rows[stock].quantity
              && t.rows[stock].(quantity := s.rows[stock].quantity) == s.rows[stock]
              && |t.movements| == |s.movements| + 1 && s.movements <= t.movements
              && var m := t.movements[|s.movements|]; m.stock == stock && m.delta + quantity == 0 && m.reason == Issue
  {
  }

  /** Archiving takes the row out of use and nothing else. */
  lemma ArchivedMeaning(s: Stock, stock: nat)
    ensures var t := Archived(s, stock);
            && t.movements == s.movements && |t.rows| == |s.rows|
            && (forall i :: 0 <= i < |s.rows| && i != stock ==> t.rows[i] == s.rows[i])
            && (stock < |s.rows| ==>
                  !t.rows[stock].active && t.rows[stock].(active := s.rows[stock].active) == s.rows[stock])
  {
  }

  lemma ClashesWhen(s: Stock, stock: nat, edit: Edit)
    requires NamesDistinct(s.rows) && stock < |s.rows|
    ensures Clashes(s, stock, edit) <==>
            edit.name.Some? && edit.name.value != s.rows[stock].name && Find(s.rows, edit.name.value).Some?
    ensures edit.name.Some? && edit.name.value != s.rows[stock].name ==> Find(s.rows, edit.name.value) != Some(stock)
  {
  }

  // ----- What the printers report -----

  /** A laser printer and its four normalised toner names. */
  datatype Printer = Printer(model: string, black: Option<string>, cyan: Option<string>, magenta: Option<string>,
                             yellow: Option<string>)

  datatype Slot = Slot(color: string, name: Option<string>, model: string)

  datatype Found = Found(color: string, count: nat, models: set<string>)

  type Discovery = map<string, Found>

  function Slots(p: Printer): seq<Slot> {
    [Slot("black", p.black, p.model), Slot("cyan", p.cyan, p.model), Slot("magenta", p.magenta, p.model),
      Slot("yellow", p.yellow, p.model)]
  }

  function AllSlots(printers: seq<Printer>): seq<Slot> {
    if printers == [] then [] else AllSlots(printers[..|printers| - 1]) + Slots(printers[|printers| - 1])
  }

  function Noted(found: Discovery, slot: Slot): Discovery {
    if slot.name.None? then found
    else
      var name := slot.name.value;
      var before := if name in found then found[name] else Found(slot.color, 0, {});
      found[name := before.(count := before.count + 1, models := before.models + {slot.model})]
  }

  function FoundIn(slots: seq<Slot>): Discovery {
    if slots == [] then map[] else Noted(FoundIn(slots[..|slots| - 1]), slots[|slots| - 1])
  }

  function CountNamed(slots: seq<Slot>, name: string): nat {
    if slots == [] then 0
    else CountNamed(slots[..|slots| - 1], name) + (if slots[|slots| - 1].name == Some(name) then 1 else 0)
  }

  predicate FirstNamed(slots: seq<Slot>, i: nat, name: string) {
    i < |slots| && slots[i].name == Some(name) && forall j :: 0 <= j < i ==> slots[j].name != Some(name)
  }

  function ModelsNamed(slots: seq<Slot>, name: string): set<string> {
    set slot | slot in slots && slot.name == Some(name) :: slot.model
  }

  lemma ModelsSnoc(slots: seq<Slot>, slot: Slot, name: string)
    ensures ModelsNamed(slots + [slot], name) ==
            ModelsNamed(slots, name) + (if slot.name == Some(name) then {slot.model} else {})
  {
    assert forall s :: s in slots + [slot] <==> s in slots || s == slot;
  }

  lemma NoModels(slots: seq<Slot>, name: string)
    requires forall i :: 0 <= i < |slots| ==> slots[i].name != Some(name)
    ensures ModelsNamed(slots, name) == {}
  {
  }

  lemma {:induction false} FoundCounts(slots: seq<Slot>, name: string)
    ensures name in FoundIn(slots) <==> CountNamed(slots, name) > 0
    ensures name !in FoundIn(slots) ==> forall i :: 0 <= i < |slots| ==> slots[i].name != Some(name)
    ensures name in FoundIn(slots) ==>
              FoundIn(slots)[name].count == CountNamed(slots, name) &&
                FoundIn(slots)[name].models == ModelsNamed(slots, name)
    decreases |slots|
  {
    hide ModelsNamed;
    if slots != [] {
      var init, last := slots[..|slots| - 1], slots[|slots| - 1];
      FoundCounts(init, name);
      ModelsSnoc(init, last, name);
      assert slots == init + [last];
      if name !in FoundIn(init) {
        NoModels(init, name);
      }
    }
  }

  lemma {:induction false} FoundColor(slots: seq<Slot>, name: string) returns (i: nat)
    requires name in FoundIn(slots)
    ensures FirstNamed(slots, i, name) && slots[i].color == FoundIn(slots)[name].color
    decreases |slots|
  {
    var init := slots[..|slots| - 1];
    if name in FoundIn(init) {
      i := FoundColor(init, name);
      assert forall j :: 0 <= j <= i ==> init[j] == slots[j];
    } else {
      FoundCounts(init, name);
      i := |init|;
      assert forall j :: 0 <= j < i ==> init[j] == slots[j];
    }
  }

  /** The slots are the four toners of each printer, printer by printer: black, cyan, magenta, yellow. */
  lemma {:induction false} SlotsMeaning(printers: seq<Printer>, k: nat)
    requires k < |printers|
    ensures |AllSlots(printers)| == 4 * |printers|
    ensures var p, slots := printers[k], AllSlots(printers);
            && slots[4 * k] == Slot("black", p.black, p.model) && slots[4 * k + 1] == Slot("cyan", p.cyan, p.model)
            && slots[4 * k + 2] == Slot("magenta", p.magenta, p.model)
            && slots[4 * k + 3] == Slot("yellow", p.yellow, p.model)
    decreases |printers|
  {
    var n := |printers| - 1;
    if k < n {
      SlotsMeaning(printers[..n], k);
    } else if n > 0 {
      SlotsMeaning(printers[..n], n - 1);
    }
  }

  /** A name is found when some slot holds it, with the colour of the first such slot, the
      number of them and the models of their printers. */
  lemma DiscoveryMeaning(slots: seq<Slot>, name: string)
    ensures name in FoundIn(slots) <==> CountNamed(slots, name) > 0
    ensures name in FoundIn(slots) ==>
              && FoundIn(slots)[name].count == CountNamed(slots, name)
              && FoundIn(slots)[name].models == ModelsNamed(slots, name)
              && exists i: nat :: FirstNamed(slots, i, name) && slots[i].color == FoundIn(slots)[name].color
  {
    hide FoundIn, ModelsNamed;
    FoundCounts(slots, name);
    if name in FoundIn(slots) {
      var i := FoundColor(slots, name);
    }
  }

  // ----- Synchronisation -----

  function Refreshed(row: Row, found: Found): Row {
    row.(color := Some(found.color), models := Of(found.models), printerCount := found.count)
  }

  /** The effect of synchronising the names in `done`: metadata of active rows only, new
      rows with nothing on hand, no movement. */
  predicate IsSynced(s: Stock, s': Stock, found: Discovery, done: set<string>)
    requires done <= found.Keys
  {
    && s'.movements == s.movements && |s.rows| <= |s'.rows|
    && (forall i :: 0 <= i < |s.rows| ==>
          s'.rows[i] == if s.rows[i].active && s.rows[i].name in done then Refreshed(s.rows[i], found[s.rows[i].name])
                        else s.rows[i])
    && (forall i :: |s.rows| <= i < |s'.rows| ==>
          s'.rows[i].name in done && s'.rows[i] == Refreshed(NewRow(s'.rows[i].name), found[s'.rows[i].name]))
    && (forall name :: name in done ==> Find(s'.rows, name).Some?)
    && NamesDistinct(s'.rows)
  }

  /** One discovered name. */
  function SyncedOne(s: Stock, name: string, found: Found): Stock {
    match Find(s.rows, name)
    case None => s.(rows := s.rows + [Refreshed(NewRow(name), found)])
    case Some(i) => if s.rows[i].active then s.(rows := s.rows[i := Refreshed(s.rows[i], found)]) else s
  }

  lemma SyncStep(s: Stock, mid: Stock, found: Discovery, done: set<string>, name: string)
    requires done <= found.Keys && name in found && name !in done
    requires NamesDistinct(s.rows) && IsSynced(s, mid, found, done)
    ensures NamesDistinct(mid.rows)
    ensures IsSynced(s, SyncedOne(mid, name, found[name]), found, done + {name})
  {
    hide Find;
    var s' := SyncedOne(mid, name, found[name]);
    var at := Find(mid.rows, name);
    assert at.Some? ==> at.value < |s.rows|;
    assert forall i :: 0 <= i < |mid.rows| ==> s'.rows[i].name == mid.rows[i].name;
    assert NamesDistinct(s'.rows);
    forall n | n in done + {name}
      ensures Find(s'.rows, n).Some?
    {
      var was := Find(mid.rows, n);
      if was.Some? {
        assert s'.rows[was.value].name == n;
      } else {
        assert s'.rows[|mid.rows|].name == n;
      }
      if Find(s'.rows, n).None? {
        assert false;
      }
    }
    forall i | 0 <= i < |s.rows|
      ensures s'.rows[i] == if s.rows[i].active && s.rows[i].name in done + {name}
                            then Refreshed(s.rows[i], found[s.rows[i].name])
                            else s.rows[i]
    {
      assert mid.rows[i].name == s.rows[i].name;
      assert s.rows[i].name == name ==> at == Some(i) by {
        if s.rows[i].name == name {
          FindsTheRow(mid.rows, i);
        }
      }
    }
  }

  ghost predicate AreActive(synced: set<nat>, rows: seq<Row>, names: set<string>) {
    forall i: nat :: i in synced <==> i < |rows| && rows[i].name in names && rows[i].active
  }

  lemma NothingSynced(s: Stock, found: Discovery)
    requires NamesDistinct(s.rows)
    ensures IsSynced(s, s, found, {}) && AreActive({}, s.rows, {})
  {
  }

  lemma SyncedAlso(synced: set<nat>, s: Stock, done: set<string>, name: string, found: Found)
    requires NamesDistinct(s.rows) && AreActive(synced, s.rows, done)
    ensures var s', at := SyncedOne(s, name, found), Find(s.rows, name);
            AreActive(if at.None? then synced + {|s.rows|}
                      else if s.rows[at.value].active then synced + {at.value}
                      else synced,
                      s'.rows, done + {name})
  {
    hide Find;
    forall i: nat | i < |s.rows|
      ensures s.rows[i].name == name <==> Find(s.rows, name) == Some(i)
    {
      FindsTheRow(s.rows, i);
    }
  }

  /** Synchronising never resurrects an archived row and never touches a quantity. */
  lemma SyncIsHarmless(s: Stock, s': Stock, found: Discovery)
    requires Sound(s) && IsSynced(s, s', found, found.Keys)
    ensures Sound(s')
    ensures forall i :: 0 <= i < |s.rows| ==>
              && s'.rows[i].quantity == s.rows[i].quantity && s'.rows[i].active == s.rows[i].active
              && s'.rows[i].minimum == s.rows[i].minimum && s'.rows[i].name == s.rows[i].name
              && (!s.rows[i].active ==> s'.rows[i] == s.rows[i])
    ensures forall name :: name in found ==> exists i :: 0 <= i < |s'.rows| && s'.rows[i].name == name
  {
    hide Ledger;
    forall i | |s.rows| <= i < |s'.rows|
      ensures Ledger(s.movements, i) == 0
    {
      NothingMovedAt(s.movements, i);
    }
  }

  /** Every row after a synchronisation, field by field, from the slots of the printers: an active
      row that some slot names takes the colour of the first such slot, the number of them and the
      models of their printers; every other old row stays; a new row is named by some slot, is
      active and has nothing on hand. Every name that a slot holds has a row. */
  lemma SyncMeaning(s: Stock, s': Stock, printers: seq<Printer>)
    requires IsSynced(s, s', FoundIn(AllSlots(printers)), FoundIn(AllSlots(printers)).Keys)
    ensures s'.movements == s.movements && |s'.rows| >= |s.rows|
    ensures forall i: nat :: i < |s'.rows| ==>
      var r', n := s'.rows[i], CountNamed(AllSlots(printers), s'.rows[i].name);
      if i < |s.rows| && !(s.rows[i].active && n > 0) then r' == s.rows[i]
      else
        && n > 0 && r'.active && r'.printerCount == n && r'.models == Of(ModelsNamed(AllSlots(printers), r'.name))
        && (exists k: nat ::
              FirstNamed(AllSlots(printers), k, r'.name) && r'.color == Some(AllSlots(printers)[k].color))
        && (if i < |s.rows|
            then r'.name == s.rows[i].name && r'.quantity == s.rows[i].quantity && r'.minimum == s.rows[i].minimum
            else r'.quantity == 0 && r'.minimum == 0)
    ensures forall name :: CountNamed(AllSlots(printers), name) > 0 ==>
              exists i :: 0 <= i < |s'.rows| && s'.rows[i].name == name
  {
    hide FoundIn, AllSlots, CountNamed, ModelsNamed, Find;
    var slots := AllSlots(printers);
    forall name
      ensures name in FoundIn(slots) <==> CountNamed(slots, name) > 0
      ensures name in FoundIn(slots) ==>
                && FoundIn(slots)[name].count == CountNamed(slots, name)
                && FoundIn(slots)[name].models == ModelsNamed(slots, name)
                && exists k: nat :: FirstNamed(slots, k, name) && slots[k].color == FoundIn(slots)[name].color
    {
      DiscoveryMeaning(slots, name);
    }
  }

  // ----- The table -----

  class StockTable {
    var rows: seq<Row>
    var movements: seq<Movement>

    ghost function Contents(): Stock
      reads this
    {
      Stock(rows, movements)
    }

    constructor ()
      ensures Contents() == EMPTY
    {
      rows, movements := [], [];
    }

    method Create(item: NewItem) returns (reply: Reply)
      modifies this
      ensures Contents() == Created(old(Contents()), item)
      ensures reply == if Find(old(rows), item.name).Some? then Duplicate else Done(|old(rows)|)
    {
      if Find(rows, item.name).Some? {
        return Duplicate;
      }
      var stock := |rows|;
      rows := rows + [Row(item.name, item.color, Text(item.models), 0, item.quantity, item.minimum, true)];
      if rows[stock].quantity != 0 {
        movements := movements + [Movement(stock, rows[stock].quantity, Adjust)];
      }
      reply := Done(stock);
    }

    method Update(stock: nat, edit: Edit) returns (reply: Reply)
      requires NamesDistinct(rows)
      modifies this
      ensures Contents() == Updated(old(Contents()), stock, edit)
      ensures reply ==
              if stock >= |old(rows)| then Missing
              else if Clashes(old(Contents()), stock, edit) then Duplicate
              else Done(stock)
    {
      hide Find, Clashes, NamesDistinct;
      if stock >= |rows| {
        return Missing;
      }
      ClashesWhen(Contents(), stock, edit);
      var row := rows[stock];
      if edit.name.Some? && edit.name.value != row.name {
        var clash := Find(rows, edit.name.value);
        if clash.Some? && clash.value != stock {
          return Duplicate;
        }
        row := row.(name := edit.name.value);
      }
      if edit.color.Some? {
        row := row.(color := edit.color.value);
      }
      if edit.models.Some? {
        row := row.(models := Text(edit.models.value));
      }
      if edit.active.Some? {
        row := row.(active := edit.active.value);
      }
      if edit.quantity.Some? {
        var previous := row.quantity;
        row := row.(quantity := edit.quantity.value);
        var delta := row.quantity - previous;
        if delta != 0 {
          movements := movements + [Movement(stock, delta, Adjust)];
        }
      }
      if edit.minimum.Some? {
        row := row.(minimum := edit.minimum.value);
      }
      rows := rows[stock := row];
      reply := Done(stock);
    }

    method IssueStock(stock: nat, quantity: nat) returns (reply: Reply)
      modifies this
      ensures Contents() == Issued(old(Contents()), stock, quantity)
      ensures reply ==
              if stock >= |old(rows)| then Missing
              else if old(rows)[stock].quantity < quantity then NotEnough
              else Done(stock)
    {
      if stock >= |rows| {
        return Missing;
      }
      if rows[stock].quantity < quantity {
        return NotEnough;
      }
      rows := rows[stock := rows[stock].(quantity := rows[stock].quantity - quantity)];
      movements := movements + [Movement(stock, -(quantity as int), Issue)];
      reply := Done(stock);
    }

    method Deactivate(stock: nat) returns (reply: Reply)
      modifies this
      ensures Contents() == Archived(old(Contents()), stock)
      ensures reply == if stock >= |old(rows)| then Missing else Done(stock)
    {
      if stock >= |rows| {
        return Missing;
      }
      rows := rows[stock := rows[stock].(active := false)];
      reply := Done(stock);
    }

    method SyncFromPrinters(printers: seq<Printer>) returns (synced: set<nat>)
      requires NamesDistinct(rows)
      modifies this
      ensures var found := FoundIn(AllSlots(printers));
              && IsSynced(old(Contents()), Contents(), found, found.Keys)
              && AreActive(synced, rows, found.Keys)
    {
      hide Find, FoundIn, Refreshed, IsSynced, AreActive, NamesDistinct;
      ghost var was := Contents();
      var found := Discover(printers);
      var left := found.Keys;
      synced := {};
      assert found.Keys - left == {};
      NothingSynced(was, found);
      while left != {}
        invariant left <= found.Keys
        invariant IsSynced(was, Contents(), found, found.Keys - left)
        invariant AreActive(synced, rows, found.Keys - left)
        decreases left
      {
        var name :| name in left;
        SyncStep(was, Contents(), found, found.Keys - left, name);
        SyncedAlso(synced, Contents(), found.Keys - left, name, found[name]);
        assert found.Keys - (left - {name}) == found.Keys - left + {name};
        left := left - {name};
        match Find(rows, name) {
          case None =>
            rows := rows + [Refreshed(NewRow(name), found[name])];
            synced := synced + {|rows| - 1};
          case Some(i) =>
            if rows[i].active {
              rows := rows[i := Refreshed(rows[i], found[name])];
              synced := synced + {i};
            }
        }
      }
      assert found.Keys - left == found.Keys;
    }
  }

  method Discover(printers: seq<Printer>) returns (found: Discovery)
    ensures found == FoundIn(AllSlots(printers))
  {
    hide Noted, FoundIn, AllSlots;
    found := map[];
    NoSlots();
    var i := 0;
    while i < |printers|
      invariant 0 <= i <= |printers|
      invariant found == FoundIn(AllSlots(printers[..i]))
    {
      var slots := Slots(printers[i]);
      ghost var before := AllSlots(printers[..i]);
      assert before + slots[..0] == before;
      var j := 0;
      while j < |slots|
        invariant 0 <= j <= |slots|
        invariant found == FoundIn(before + slots[..j])
      {
        FoundInSnoc(before + slots[..j], slots[j]);
        assert before + slots[..j] + [slots[j]] == before + slots[..j + 1];
        found := Noted(found, slots[j]);
        j := j + 1;
      }
      assert slots[..j] == slots;
      AllSlotsSnoc(printers[..i], printers[i]);
      assert printers[..i] + [printers[i]] == printers[..i + 1];
      i := i + 1;
    }
    assert printers[..i] == printers;
  }

  lemma NoSlots()
    ensures FoundIn(AllSlots([])) == map[]
  {
  }

  lemma FoundInSnoc(slots: seq<Slot>, slot: Slot)
    ensures FoundIn(slots + [slot]) == Noted(FoundIn(slots), slot)
  {
    assert (slots + [slot])[..|slots|] == slots;
  }

  lemma AllSlotsSnoc(printers: seq<Printer>, p: Printer)
    ensures AllSlots(printers + [p]) == AllSlots(printers) + Slots(p)
  {
    assert (printers + [p])[..|printers|] == printers;
  }
}
