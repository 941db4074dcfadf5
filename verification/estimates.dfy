/**
 Line-item computation of the estimate handler: turning the quantities typed
 against the base catalog into priced line items, and totalling them.

 The catalog is walked category by category, in the order in which categories
 first appear, and within a category by the row's position in that category.
 A row is selected when the quantity stored under its widget key
 `qty_{category}_{index}` is positive; its unit price is the catalog price text
 with the thousands commas removed, parsed as an integer.
 */
module Estimates {
  import opened Wrappers
  import opened Text

  /** The catalog columns the handler reads. `basePrice` is `str()` of the
      price cell's value, the text the handler parses; for a price column
      read as text this is the cell as written, which may carry thousands
      commas. */
  datatype CatalogRow = CatalogRow(category: string, code: string, name: string, unit: string, basePrice: string)

  /** One priced line of an estimate; also the shape the store persists. */
  datatype LineItem = LineItem(code: string, name: string, unit: string, quantity: int, unitPrice: int, amount: int)

  /** `int(...)` raised `ValueError` on the (comma-stripped) price text. */
  datatype ProcessError = BadPrice(code: string, price: string)

  /** A catalog row together with its category and its index inside that
      category, i.e. the coordinates of its quantity widget. */
  datatype Slot = Slot(category: string, index: nat, row: CatalogRow)

  // ---------------------------------------------------------------------------
  // grouping the catalog

  /** The distinct categories, in order of first appearance. */
  function Categories(rows: seq<CatalogRow>): (cats: seq<string>)
    ensures forall i, j | 0 <= i < j < |cats| :: cats[i] != cats[j]
    ensures forall c :: c in cats <==> exists k | 0 <= k < |rows| :: rows[k].category == c
    decreases |rows|
  {
    if rows == [] then []
    else
      var init := rows[..|rows| - 1];
      var prior := Categories(init);
      var c := rows[|rows| - 1].category;
      assert forall k | 0 <= k < |init| :: init[k] == rows[k];
      if c in prior then prior else prior + [c]
  }

  /** Some row before position `k` has category `c`. */
  predicate HasRowBefore(rows: seq<CatalogRow>, k: nat, c: string)
    requires k <= |rows|
  {
    exists l | 0 <= l < k :: rows[l].category == c
  }

  /** `cats` lists categories in first-appearance order: every row of a later
      category has a row of each earlier category before it. */
  predicate FirstAppearanceOrdered(rows: seq<CatalogRow>, cats: seq<string>) {
    forall i, j, k | 0 <= i < j < |cats| && 0 <= k < |rows| && rows[k].category == cats[j] ::
      HasRowBefore(rows, k, cats[i])
  }

  /** `unique()` keeps first-appearance order. */
  lemma {:induction false} CategoriesInFirstAppearanceOrder(rows: seq<CatalogRow>)
    ensures FirstAppearanceOrdered(rows, Categories(rows))
    decreases |rows|
  {
    if rows != [] {
      var init := rows[..|rows| - 1];
      CategoriesInFirstAppearanceOrder(init);
      var cats := Categories(rows);
      forall i, j, k | 0 <= i < j < |cats| && 0 <= k < |rows| && rows[k].category == cats[j]
        ensures HasRowBefore(rows, k, cats[i])
      {
        OrderStep(rows, i, j, k);
      }
    }
  }

  /** The step of the induction: the last row either repeats a known
      category or appends a new one at the end. */
  lemma OrderStep(rows: seq<CatalogRow>, i: nat, j: nat, k: nat)
    requires rows != []
    requires FirstAppearanceOrdered(rows[..|rows| - 1], Categories(rows[..|rows| - 1]))
    requires i < j < |Categories(rows)| && k < |rows| && rows[k].category == Categories(rows)[j]
    ensures HasRowBefore(rows, k, Categories(rows)[i])
  {
    var n := |rows| - 1;
    var init := rows[..n];
    var prior := Categories(init);
    var cats := Categories(rows);
    assert forall l | 0 <= l < n :: init[l] == rows[l];
    if j < |prior| {
      assert cats[i] == prior[i] && cats[j] == prior[j];
      var m := k;
      if k == n {
        assert prior[j] in prior;
        m :| 0 <= m < n && init[m].category == prior[j];
      }
      assert init[m].category == prior[j];
      assert HasRowBefore(init, m, prior[i]);
      RowBeforeGrows(init, rows, m, k, prior[i]);
    } else {
      assert cats[j] == rows[n].category && cats[j] !in prior;
      assert cats[i] == prior[i];
      assert forall l | 0 <= l < n :: init[l].category in prior;
      assert k == n;
      assert prior[i] in prior;
      var l :| 0 <= l < n && init[l].category == prior[i];
      assert rows[l].category == cats[i];
    }
  }

  lemma RowBeforeGrows(init: seq<CatalogRow>, rows: seq<CatalogRow>, m: nat, k: nat, c: string)
    requires |init| <= |rows| && init == rows[..|init|]
    requires m <= k <= |rows| && m <= |init| && HasRowBefore(init, m, c)
    ensures HasRowBefore(rows, k, c)
  {
    var l :| 0 <= l < m && init[l].category == c;
    assert rows[l] == init[l];
  }

  /** The rows of one category, in catalog order (`df[df['분류'] == cat]`). */
  function RowsOf(rows: seq<CatalogRow>, cat: string): (sub: seq<CatalogRow>)
    ensures forall k | 0 <= k < |sub| :: sub[k].category == cat
    ensures |sub| <= |rows|
  {
    if rows == [] then []
    else (if rows[0].category == cat then [rows[0]] else []) + RowsOf(rows[1..], cat)
  }

  /** The rows whose category is in `cats`, in catalog order. */
  function RowsIn(rows: seq<CatalogRow>, cats: set<string>): seq<CatalogRow>
  {
    if rows == [] then []
    else (if rows[0].category in cats then [rows[0]] else []) + RowsIn(rows[1..], cats)
  }

  /** The rows of `sub` from position `i` on, numbered from `i`. */
  function Enumerate(cat: string, sub: seq<CatalogRow>, i: nat): (slots: seq<Slot>)
    requires i <= |sub|
    ensures |slots| == |sub| - i
    ensures forall k | 0 <= k < |slots| :: slots[k] == Slot(cat, i + k, sub[i + k])
    decreases |sub| - i
  {
    if i == |sub| then [] else [Slot(cat, i, sub[i])] + Enumerate(cat, sub, i + 1)
  }

  function SlotsOf(rows: seq<CatalogRow>, cats: seq<string>): seq<Slot>
  {
    if cats == [] then []
    else Enumerate(cats[0], RowsOf(rows, cats[0]), 0) + SlotsOf(rows, cats[1..])
  }

  /** Every catalog row with its widget coordinates, in the handler's visiting order. */
  function Slots(rows: seq<CatalogRow>): seq<Slot>
  {
    SlotsOf(rows, Categories(rows))
  }

  function SlotRows(slots: seq<Slot>): seq<CatalogRow>
  {
    if slots == [] then [] else [slots[0].row] + SlotRows(slots[1..])
  }

  // ---------------------------------------------------------------------------
  // quantities and prices

  /** The widget key `f"qty_{cat}_{i}"`. */
  function QtyKey(cat: string, i: nat): string
  {
    "qty_" + cat + "_" + NatToString(i)
  }

  /** `selected_quantities.get(key, 0)`. */
  function QuantityOf(quantities: map<string, int>, key: string): int
  {
    if key in quantities then quantities[key] else 0
  }

  /** `int(str(price).replace(',', '').strip())`. */
  function ParsePrice(price: string): Option<int>
  {
    ParseInt(Strip(RemoveChar(price, ',')))
  }

  predicate Selected(s: Slot, quantities: map<string, int>) {
    QuantityOf(quantities, QtyKey(s.category, s.index)) > 0
  }

  predicate PriceParses(s: Slot) {
    ParsePrice(s.row.basePrice).Some?
  }

  /** The line item a selected slot produces. */
  function ItemOf(s: Slot, quantities: map<string, int>): (item: LineItem)
    requires PriceParses(s)
  {
    var qty := QuantityOf(quantities, QtyKey(s.category, s.index));
    var price := ParsePrice(s.row.basePrice).value;
    LineItem(s.row.code, s.row.name, s.row.unit, qty, price, qty * price)
  }

  /** The selected slots, in order. */
  function SelectedSlots(slots: seq<Slot>, quantities: map<string, int>): (sel: seq<Slot>)
    ensures forall k | 0 <= k < |sel| :: sel[k] in slots && Selected(sel[k], quantities)
    ensures |sel| <= |slots|
  {
    if slots == [] then []
    else (if Selected(slots[0], quantities) then [slots[0]] else []) + SelectedSlots(slots[1..], quantities)
  }

  /** Reference selection over the flat slot list: one item per selected slot,
      in slot order; the first selected slot whose price does not parse makes
      the whole call fail. */
  function Select(slots: seq<Slot>, quantities: map<string, int>): (r: Result<seq<LineItem>, ProcessError>)
    ensures r.Success? ==> |r.value| <= |slots|
  {
    if slots == [] then Success([])
    else
      var s := slots[0];
      if Selected(s, quantities) then
        if PriceParses(s) then
          var rest :- Select(slots[1..], quantities);
          Success([ItemOf(s, quantities)] + rest)
        else Failure(BadPrice(s.row.code, s.row.basePrice))
      else Select(slots[1..], quantities)
  }

  /** The selection fails exactly when some selected slot has a price text
      that does not parse. */
  lemma {:induction false} SelectFailsIff(slots: seq<Slot>, quantities: map<string, int>)
    ensures Select(slots, quantities).Failure? <==>
      exists k | 0 <= k < |slots| :: Selected(slots[k], quantities) && !PriceParses(slots[k])
    decreases |slots|
  {
    if slots != [] {
      var tail := slots[1..];
      SelectFailsIff(tail, quantities);
      if !(Selected(slots[0], quantities) && !PriceParses(slots[0])) {
        if exists k | 0 <= k < |slots| :: Selected(slots[k], quantities) && !PriceParses(slots[k]) {
          var k :| 0 <= k < |slots| && Selected(slots[k], quantities) && !PriceParses(slots[k]);
          assert tail[k - 1] == slots[k];
        }
        if exists k | 0 <= k < |tail| :: Selected(tail[k], quantities) && !PriceParses(tail[k]) {
          var k :| 0 <= k < |tail| && Selected(tail[k], quantities) && !PriceParses(tail[k]);
          assert slots[k + 1] == tail[k];
        }
      }
    }
  }

  /** The items of a list of priced slots, one per slot, in order. */
  function ItemsOfSlots(sel: seq<Slot>, quantities: map<string, int>): (items: seq<LineItem>)
    requires forall k | 0 <= k < |sel| :: PriceParses(sel[k])
    ensures |items| == |sel|
  {
    if sel == [] then [] else [ItemOf(sel[0], quantities)] + ItemsOfSlots(sel[1..], quantities)
  }

  /** Item `k` is the item of slot `k`. */
  lemma {:induction false} ItemsOfSlotsAt(sel: seq<Slot>, quantities: map<string, int>, k: nat)
    requires forall j | 0 <= j < |sel| :: PriceParses(sel[j])
    requires k < |sel|
    ensures ItemsOfSlots(sel, quantities)[k] == ItemOf(sel[k], quantities)
  {
    if k > 0 {
      ItemsOfSlotsAt(sel[1..], quantities, k - 1);
    }
  }

  /** On success, the selected slots all have parseable prices and the items
      are, in order, the items of the selected slots. */
  lemma {:induction false} SelectItems(slots: seq<Slot>, quantities: map<string, int>)
    requires Select(slots, quantities).Success?
    ensures var sel := SelectedSlots(slots, quantities);
      && (forall k | 0 <= k < |sel| :: PriceParses(sel[k]))
      && Select(slots, quantities).value == ItemsOfSlots(sel, quantities)
    decreases |slots|
  {
    if slots != [] {
      var tail := slots[1..];
      SelectItems(tail, quantities);
      var sel, selTail := SelectedSlots(slots, quantities), SelectedSlots(tail, quantities);
      if Selected(slots[0], quantities) {
        assert sel == [slots[0]] + selTail;
        assert sel[1..] == selTail;
      } else {
        assert sel == selTail;
      }
    }
  }

  // ---------------------------------------------------------------------------
  // the handler's operations

  /** The inner loop over one category's rows, from position `i` on. */
  function ProcessRows(cat: string, sub: seq<CatalogRow>, quantities: map<string, int>, i: nat)
    : (r: Result<seq<LineItem>, ProcessError>)
    requires i <= |sub|
    ensures r == Select(Enumerate(cat, sub, i), quantities)
    decreases |sub| - i
  {
    if i == |sub| then Success([])
    else
      var qty := QuantityOf(quantities, QtyKey(cat, i));
      if qty > 0 then
        match ParsePrice(sub[i].basePrice)
        case None => Failure(BadPrice(sub[i].code, sub[i].basePrice))
        case Some(price) =>
          var rest :- ProcessRows(cat, sub, quantities, i + 1);
          Success([LineItem(sub[i].code, sub[i].name, sub[i].unit, qty, price, qty * price)] + rest)
      else ProcessRows(cat, sub, quantities, i + 1)
  }

  /** The outer loop over the categories in `cats`. */
  function ProcessCategories(rows: seq<CatalogRow>, cats: seq<string>, quantities: map<string, int>)
    : (r: Result<seq<LineItem>, ProcessError>)
    ensures r == Select(SlotsOf(rows, cats), quantities)
  {
    if cats == [] then Success([])
    else
      var first := ProcessRows(cats[0], RowsOf(rows, cats[0]), quantities, 0);
      var rest := ProcessCategories(rows, cats[1..], quantities);
      SelectConcat(Enumerate(cats[0], RowsOf(rows, cats[0]), 0), SlotsOf(rows, cats[1..]), quantities);
      AndThen(first, rest)
  }

  /** `process_selected_items(df, selected_quantities)`. */
  function ProcessSelectedItems(rows: seq<CatalogRow>, quantities: map<string, int>)
    : (r: Result<seq<LineItem>, ProcessError>)
    ensures r == Select(Slots(rows), quantities)
  {
    ProcessCategories(rows, Categories(rows), quantities)
  }

  /** `calculate_total(selected_items)`: the sum of quantity times unit price. */
  function CalculateTotal(items: seq<LineItem>): int
  {
    if items == [] then 0 else items[0].quantity * items[0].unitPrice + CalculateTotal(items[1..])
  }

  /** The sum of the stored `amount` fields. */
  function SumAmounts(items: seq<LineItem>): int
  {
    if items == [] then 0 else items[0].amount + SumAmounts(items[1..])
  }

  // ---------------------------------------------------------------------------
  // properties

  /** The first failure of `a`, else of `b`, else both item lists in order. */
  function AndThen(a: Result<seq<LineItem>, ProcessError>, b: Result<seq<LineItem>, ProcessError>)
    : Result<seq<LineItem>, ProcessError>
  {
    if a.Failure? then a else if b.Failure? then b else Success(a.value + b.value)
  }

  /** Selection distributes over concatenation of slot lists. */
  lemma {:induction false} SelectConcat(a: seq<Slot>, b: seq<Slot>, quantities: map<string, int>)
    ensures Select(a + b, quantities) == AndThen(Select(a, quantities), Select(b, quantities))
    decreases |a|
  {
    if a == [] {
      assert a + b == b;
      if Select(b, quantities).Success? {
        assert [] + Select(b, quantities).value == Select(b, quantities).value;
      }
    } else {
      var s := a[0];
      assert (a + b)[0] == s;
      assert (a + b)[1..] == a[1..] + b;
      SelectConcat(a[1..], b, quantities);
      if Selected(s, quantities) && PriceParses(s) {
        var ra, rb := Select(a[1..], quantities), Select(b, quantities);
        if ra.Success? && rb.Success? {
          assert [ItemOf(s, quantities)] + (ra.value + rb.value) == ([ItemOf(s, quantities)] + ra.value) + rb.value;
        }
      }
    }
  }

  /** Every produced item has a positive quantity and amount = quantity x unit price. */
  lemma {:induction false} ProcessedItemsArePriced(rows: seq<CatalogRow>, quantities: map<string, int>)
    requires ProcessSelectedItems(rows, quantities).Success?
    ensures forall item | item in ProcessSelectedItems(rows, quantities).value ::
      item.quantity > 0 && item.amount == item.quantity * item.unitPrice
  {
    var sel := SelectedSlots(Slots(rows), quantities);
    var items := ProcessSelectedItems(rows, quantities).value;
    SelectItems(Slots(rows), quantities);
    forall item | item in items
      ensures item.quantity > 0 && item.amount == item.quantity * item.unitPrice
    {
      var k :| 0 <= k < |items| && items[k] == item;
      ItemsOfSlotsAt(sel, quantities, k);
      assert Selected(sel[k], quantities);
    }
  }

  /** One item per selected row, in order: item `k` copies the code, name
      and unit of the `k`-th selected row, its unit price is the integer
      parse of the comma-stripped price text, its quantity is the one stored
      under the row's widget key, and its amount is their product. */
  lemma ProcessedItemOrigin(rows: seq<CatalogRow>, quantities: map<string, int>, k: nat)
    requires ProcessSelectedItems(rows, quantities).Success?
    requires k < |SelectedSlots(Slots(rows), quantities)|
    ensures |ProcessSelectedItems(rows, quantities).value| == |SelectedSlots(Slots(rows), quantities)|
    ensures var s := SelectedSlots(Slots(rows), quantities)[k];
      var item := ProcessSelectedItems(rows, quantities).value[k];
      && s in Slots(rows)
      && item.code == s.row.code && item.name == s.row.name && item.unit == s.row.unit
      && Some(item.unitPrice) == ParseInt(Strip(RemoveChar(s.row.basePrice, ',')))
      && item.quantity == QuantityOf(quantities, QtyKey(s.category, s.index))
      && item.quantity > 0
      && item.amount == item.quantity * item.unitPrice
  {
    SelectItems(Slots(rows), quantities);
    ItemsOfSlotsAt(SelectedSlots(Slots(rows), quantities), quantities, k);
  }

  /** `process_selected_items` raises exactly when some row with a positive
      quantity has a price text that is not an integer. */
  lemma ProcessFailsIff(rows: seq<CatalogRow>, quantities: map<string, int>)
    ensures ProcessSelectedItems(rows, quantities).Failure? <==>
      exists s | s in Slots(rows) :: Selected(s, quantities) && !PriceParses(s)
  {
    SelectFailsIff(Slots(rows), quantities);
  }

  lemma {:induction false} TotalConcat(a: seq<LineItem>, b: seq<LineItem>)
    ensures CalculateTotal(a + b) == CalculateTotal(a) + CalculateTotal(b)
    decreases |a|
  {
    if a == [] {
      assert a + b == b;
    } else {
      assert (a + b)[1..] == a[1..] + b;
      TotalConcat(a[1..], b);
    }
  }

  /** The total recomputed from quantities and prices equals the sum of the
      stored amounts whenever each amount is quantity x unit price. */
  lemma {:induction false} TotalIsSumOfAmounts(items: seq<LineItem>)
    requires forall k | 0 <= k < |items| :: items[k].amount == items[k].quantity * items[k].unitPrice
    ensures CalculateTotal(items) == SumAmounts(items)
    decreases |items|
  {
    if items != [] {
      TotalIsSumOfAmounts(items[1..]);
    }
  }

  /** `calculate_total(process_selected_items(...))` is the sum of the produced amounts. */
  lemma TotalOfProcessed(rows: seq<CatalogRow>, quantities: map<string, int>)
    requires ProcessSelectedItems(rows, quantities).Success?
    ensures CalculateTotal(ProcessSelectedItems(rows, quantities).value)
         == SumAmounts(ProcessSelectedItems(rows, quantities).value)
  {
    var items := ProcessSelectedItems(rows, quantities).value;
    ProcessedItemsArePriced(rows, quantities);
    assert forall k | 0 <= k < |items| :: items[k] in items;
    TotalIsSumOfAmounts(items);
  }

  /** Nothing is selected when no quantity is positive. */
  lemma {:induction false} NothingSelectedGivesNoItems(rows: seq<CatalogRow>, quantities: map<string, int>)
    requires forall key | key in quantities :: quantities[key] <= 0
    ensures ProcessSelectedItems(rows, quantities) == Success([])
    ensures CalculateTotal(ProcessSelectedItems(rows, quantities).value) == 0
  {
    NothingSelected(Slots(rows), quantities);
  }

  lemma {:induction false} NothingSelected(slots: seq<Slot>, quantities: map<string, int>)
    requires forall key | key in quantities :: quantities[key] <= 0
    ensures Select(slots, quantities) == Success([])
    decreases |slots|
  {
    if slots != [] {
      NothingSelected(slots[1..], quantities);
    }
  }

  // --- widget keys are unambiguous --------------------------------------------

  lemma NatToStringInjective(i: nat, j: nat)
    requires NatToString(i) == NatToString(j)
    ensures i == j
  {
    DigitsValueOfNatToString(i);
    DigitsValueOfNatToString(j);
  }

  /** The text after the last `_` (the whole text when there is none). */
  function AfterLastUnderscore(s: string): string
  {
    if s == [] || s[|s| - 1] == '_' then [] else AfterLastUnderscore(s[..|s| - 1]) + [s[|s| - 1]]
  }

  lemma {:induction false} AfterLastUnderscoreOf(prefix: string, d: string)
    requires '_' !in d
    ensures AfterLastUnderscore(prefix + "_" + d) == d
    decreases |d|
  {
    var s := prefix + "_" + d;
    if d != [] {
      var init := d[..|d| - 1];
      assert s[..|s| - 1] == prefix + "_" + init;
      assert '_' !in init by {
        assert forall c | c in init :: c in d;
      }
      AfterLastUnderscoreOf(prefix, init);
      assert init + [d[|d| - 1]] == d;
    }
  }

  /** Two different widgets never share a quantity key: the key determines
      both the category and the index within it. */
  lemma QtyKeyInjective(c1: string, i1: nat, c2: string, i2: nat)
    requires QtyKey(c1, i1) == QtyKey(c2, i2)
    ensures c1 == c2 && i1 == i2
  {
    var d1, d2 := NatToString(i1), NatToString(i2);
    var s := QtyKey(c1, i1);
    DigitsHaveNoUnderscore(d1);
    DigitsHaveNoUnderscore(d2);
    assert s == ("qty_" + c1) + "_" + d1;
    assert s == ("qty_" + c2) + "_" + d2;
    AfterLastUnderscoreOf("qty_" + c1, d1);
    AfterLastUnderscoreOf("qty_" + c2, d2);
    NatToStringInjective(i1, i2);
    assert "qty_" + c1 == s[..|s| - |d1| - 1] == "qty_" + c2;
    assert c1 == ("qty_" + c1)[4..] == ("qty_" + c2)[4..] == c2;
  }

  lemma DigitsHaveNoUnderscore(s: string)
    requires IsDigits(s)
    ensures '_' !in s
  {
  }

  // --- every catalog row is visited exactly once -------------------------------

  lemma {:induction false} SlotRowsConcat(a: seq<Slot>, b: seq<Slot>)
    ensures SlotRows(a + b) == SlotRows(a) + SlotRows(b)
    decreases |a|
  {
    if a == [] {
      assert a + b == b;
    } else {
      assert (a + b)[1..] == a[1..] + b;
      SlotRowsConcat(a[1..], b);
    }
  }

  lemma {:induction false} EnumerateRows(cat: string, sub: seq<CatalogRow>, i: nat)
    requires i <= |sub|
    ensures SlotRows(Enumerate(cat, sub, i)) == sub[i..]
    decreases |sub| - i
  {
    if i < |sub| {
      EnumerateRows(cat, sub, i + 1);
      assert sub[i..] == [sub[i]] + sub[i + 1..];
    }
  }

  /** Filtering by `{c} + cats` splits into filtering by `c` and by `cats`. */
  lemma {:induction false} RowsInSplit(rows: seq<CatalogRow>, c: string, cats: set<string>)
    requires c !in cats
    ensures multiset(RowsIn(rows, {c} + cats)) == multiset(RowsOf(rows, c)) + multiset(RowsIn(rows, cats))
    decreases |rows|
  {
    if rows != [] {
      RowsInSplit(rows[1..], c, cats);
    }
  }

  lemma {:induction false} SlotsOfRows(rows: seq<CatalogRow>, cats: seq<string>)
    requires forall i, j | 0 <= i < j < |cats| :: cats[i] != cats[j]
    ensures multiset(SlotRows(SlotsOf(rows, cats))) == multiset(RowsIn(rows, set c | c in cats))
    decreases |cats|
  {
    if cats == [] {
      assert (set c | c in cats) == {};
      RowsInEmpty(rows);
    } else {
      var c := cats[0];
      var tail := cats[1..];
      SlotsOfRows(rows, tail);
      SlotRowsConcat(Enumerate(c, RowsOf(rows, c), 0), SlotsOf(rows, tail));
      EnumerateRows(c, RowsOf(rows, c), 0);
      assert RowsOf(rows, c)[0..] == RowsOf(rows, c);
      assert c !in (set d | d in tail) by {
        forall d | d in tail ensures d != c {
          var j :| 0 <= j < |tail| && tail[j] == d;
          assert cats[j + 1] == d;
        }
      }
      assert (set d | d in cats) == {c} + (set d | d in tail) by {
        forall d | d in cats ensures d == c || d in tail {
          var j :| 0 <= j < |cats| && cats[j] == d;
          if j > 0 { assert tail[j - 1] == d; }
        }
      }
      RowsInSplit(rows, c, set d | d in tail);
    }
  }

  lemma {:induction false} RowsInEmpty(rows: seq<CatalogRow>)
    ensures RowsIn(rows, {}) == []
    decreases |rows|
  {
    if rows != [] {
      RowsInEmpty(rows[1..]);
    }
  }

  lemma {:induction false} RowsInAll(rows: seq<CatalogRow>, cats: set<string>)
    requires forall k | 0 <= k < |rows| :: rows[k].category in cats
    ensures RowsIn(rows, cats) == rows
    decreases |rows|
  {
    if rows != [] {
      RowsInAll(rows[1..], cats);
      assert [rows[0]] + rows[1..] == rows;
    }
  }

  /** The visiting order is a permutation of the catalog: every row is
      visited, and exactly once. */
  lemma SlotsArePermutationOfCatalog(rows: seq<CatalogRow>)
    ensures multiset(SlotRows(Slots(rows))) == multiset(rows)
  {
    var cats := Categories(rows);
    SlotsOfRows(rows, cats);
    forall k | 0 <= k < |rows| ensures rows[k].category in (set c | c in cats) {
      assert rows[k].category in cats;
    }
    RowsInAll(rows, set c | c in cats);
  }
}
