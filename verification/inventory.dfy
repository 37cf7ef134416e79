/**
 The inventory store: a table from item name to integer quantity, kept in
 insertion order as a Python dict is, changed in place by `add_item` and
 `remove_item`, read by `get_qty` and scanned by `check_low_items`.

 `Stock` is the value of the table at one moment; the functions on it
 (`Qty`, `Add`, `Remove`, `LowItems`) say what each operation computes.
 `Inventory` is the mutable table itself, and its methods are proved to
 change it exactly as those functions say.
 */
module InventorySystem {
  import opened LogFormat

  /** The default threshold of `check_low_items`. */
  const DefaultThreshold: int := 5

  predicate Distinct(s: seq<string>)
  {
    forall i, j :: 0 <= i < j < |s| ==> s[i] != s[j]
  }

  /**
   The table as a value: `table` maps each item to its quantity and `keys`
   lists the items in the dict's iteration (insertion) order.
   */
  datatype Stock = Stock(table: map<string, int>, keys: seq<string>)

  /**
   The keys are listed once each, and they are exactly the items of the table.
   Quantities may be any integer: `add_item` stores non-positive results.
   */
  predicate WellFormed(s: Stock)
  {
    Distinct(s.keys) &&
    (forall k :: k in s.keys ==> k in s.table) && (forall k :: k in s.table ==> k in s.keys)
  }

  /** `get_qty`: the stored quantity, and 0 for an item not in the table. */
  function Qty(s: Stock, item: string): (r: int)
    ensures item in s.table ==> r == s.table[item]
    ensures item !in s.table ==> r == 0
  {
    if item in s.table then s.table[item] else 0
  }

  lemma DistinctTail(s: seq<string>)
    requires s != []
    ensures Distinct(s) ==> Distinct(s[1..]) && s[0] !in s[1..]
  {
  }

  lemma DistinctCons(x: string, s: seq<string>)
    ensures x !in s && Distinct(s) ==> Distinct([x] + s)
  {
  }

  lemma DistinctSnoc(s: seq<string>, x: string)
    requires Distinct(s) && x !in s
    ensures Distinct(s + [x])
  {
  }

  /** `keys` with `k` taken out, the rest kept in order (a dict deletion). */
  function Without(keys: seq<string>, k: string): (r: seq<string>)
    ensures forall x :: x in r <==> x in keys && x != k
    ensures Distinct(keys) ==> Distinct(r)
    ensures |r| <= |keys|
    ensures k !in keys ==> r == keys
  {
    if keys == [] then []
    else
      DistinctTail(keys);
      var rest := Without(keys[1..], k);
      if keys[0] == k then rest
      else DistinctCons(keys[0], rest); [keys[0]] + rest
  }

  /**
   Deletion keeps the order of the other keys: deleting from a concatenation
   deletes from each part and keeps the parts in order.
   */
  lemma {:induction false} WithoutConcat(a: seq<string>, b: seq<string>, k: string)
    ensures Without(a + b, k) == Without(a, k) + Without(b, k)
  {
    if a == [] {
      assert a + b == b;
    } else {
      assert (a + b)[0] == a[0];
      assert (a + b)[1..] == a[1..] + b;
      WithoutConcat(a[1..], b, k);
    }
  }

  /** Deleting a key that sits between `a` and `b` (and nowhere else) leaves exactly `a + b`. */
  lemma WithoutSplit(a: seq<string>, k: string, b: seq<string>)
    requires k !in a && k !in b
    ensures Without(a + [k] + b, k) == a + b
  {
    assert Without([k], k) == [] by { assert [k][1..] == []; }
    WithoutConcat(a, [k], k);
    assert Without(a + [k], k) == a;
    WithoutConcat(a + [k], b, k);
  }

  /**
   `add_item`: an empty name changes nothing; otherwise the item's quantity
   grows by `qty` (which may be negative) and the item is never deleted, a
   new item going to the end of the order.
   */
  function Add(s: Stock, item: string, qty: int): (r: Stock)
    ensures WellFormed(s) ==> WellFormed(r)
    ensures item == "" ==> r == s
    ensures item != "" ==> item in r.table && Qty(r, item) == Qty(s, item) + qty
    ensures forall k :: k != item ==> (k in r.table <==> k in s.table) && Qty(r, k) == Qty(s, k)
    ensures item in s.table || item == "" ==> r.keys == s.keys
    ensures item !in s.table && item != "" ==> r.keys == s.keys + [item]
  {
    if item == "" then s
    else
      var keys := if item in s.table then s.keys else s.keys + [item];
      Stock(s.table[item := Qty(s, item) + qty], keys)
  }

  /**
   `remove_item`: an absent item leaves the table unchanged (the source
   only logs a warning); otherwise the quantity drops by `qty`, and the
   item is deleted when the result is 0 or less.
   */
  function Remove(s: Stock, item: string, qty: int): (r: Stock)
    ensures WellFormed(s) ==> WellFormed(r)
    ensures item !in s.table ==> r == s
    ensures item in s.table && s.table[item] - qty <= 0 ==>
              item !in r.table && Qty(r, item) == 0 && r.keys == Without(s.keys, item)
    ensures item in s.table && s.table[item] - qty > 0 ==>
              item in r.table && r.table[item] == s.table[item] - qty && r.keys == s.keys
    ensures forall k :: k != item ==> (k in r.table <==> k in s.table) && Qty(r, k) == Qty(s, k)
  {
    if item !in s.table then s
    else
      var left := s.table[item] - qty;
      if left <= 0 then Stock(s.table - {item}, Without(s.keys, item))
      else Stock(s.table[item := left], s.keys)
  }

  /** True when `item` has a quantity in `table` that is at most `threshold`. */
  predicate IsLow(table: map<string, int>, item: string, threshold: int)
  {
    item in table && table[item] <= threshold
  }

  /**
   `check_low_items`: the items of `keys`, in that order, whose quantity is
   at most `threshold`. (In the store every listed key has a quantity.)
   */
  function LowItems(keys: seq<string>, table: map<string, int>, threshold: int): (r: seq<string>)
    ensures forall i :: 0 <= i < |r| ==> r[i] in keys && IsLow(table, r[i], threshold)
    ensures |r| <= |keys|
  {
    if keys == [] then []
    else
      var init, last := keys[..|keys| - 1], keys[|keys| - 1];
      assert forall x :: x in init ==> x in keys;
      LowItems(init, table, threshold) + if IsLow(table, last, threshold) then [last] else []
  }

  /** The scan misses no item: every listed item at or below the threshold is reported. */
  lemma {:induction false} LowItemsComplete(keys: seq<string>, table: map<string, int>, threshold: int, x: string)
    requires x in keys && IsLow(table, x, threshold)
    ensures x in LowItems(keys, table, threshold)
  {
    var init, last := keys[..|keys| - 1], keys[|keys| - 1];
    if x != last {
      assert keys == init + [last];
      LowItemsComplete(init, table, threshold, x);
    }
  }

  /** Over distinct keys the scan reports each item at most once. */
  lemma {:induction false} LowItemsDistinct(keys: seq<string>, table: map<string, int>, threshold: int)
    requires Distinct(keys)
    ensures Distinct(LowItems(keys, table, threshold))
  {
    if keys != [] {
      var init, last := keys[..|keys| - 1], keys[|keys| - 1];
      assert Distinct(init);
      assert last !in init;
      LowItemsDistinct(init, table, threshold);
      var low := LowItems(init, table, threshold);
      if IsLow(table, last, threshold) {
        DistinctSnoc(low, last);
      }
    }
  }

  /** One more item at the end of the order adds at most that item, at the end. */
  lemma LowItemsSnoc(keys: seq<string>, x: string, table: map<string, int>, threshold: int)
    ensures LowItems(keys + [x], table, threshold) ==
            LowItems(keys, table, threshold) + if IsLow(table, x, threshold) then [x] else []
  {
  }

  /**
   The scan keeps iteration order: scanning a concatenation gives the low
   items of the first part followed by those of the second.
   */
  lemma {:induction false} LowItemsConcat(a: seq<string>, b: seq<string>, table: map<string, int>, threshold: int)
    ensures LowItems(a + b, table, threshold) == LowItems(a, table, threshold) + LowItems(b, table, threshold)
  {
    if b == [] {
      assert a + b == a;
    } else {
      var b', last := b[..|b| - 1], b[|b| - 1];
      assert b == b' + [last];
      assert a + b == (a + b') + [last];
      LowItemsSnoc(a + b', last, table, threshold);
      LowItemsSnoc(b', last, table, threshold);
      LowItemsConcat(a, b', table, threshold);
    }
  }

  /**
   `main` on a first run (no inventory file, so an empty table): add 10
   apples, add -2 bananas, remove 3 apples, remove 1 orange. Apples read 7,
   bananas keep their negative quantity, oranges were never there, and only
   bananas are low.
   */
  lemma MainScenario()
    ensures var s0 := Stock(map[], []);
            var s1 := Add(s0, "apple", 10);
            var s2 := Add(s1, "banana", -2);
            var s3 := Remove(s2, "apple", 3);
            var s4 := Remove(s3, "orange", 1);
            WellFormed(s4) && Qty(s4, "apple") == 7 && Qty(s4, "banana") == -2 &&
            "orange" !in s4.table && Qty(s4, "orange") == 0 &&
            s4.keys == ["apple", "banana"] &&
            LowItems(s4.keys, s4.table, DefaultThreshold) == ["banana"]
  {
    // Stepping through the states keeps the solver's search small.
    var s0 := Stock(map[], []);
    var s1 := Add(s0, "apple", 10);
    assert s1.keys == ["apple"] && Qty(s1, "apple") == 10;
    var s2 := Add(s1, "banana", -2);
    assert s2.keys == ["apple", "banana"] && Qty(s2, "banana") == -2;
    var s3 := Remove(s2, "apple", 3);
    assert s3.keys == ["apple", "banana"] && Qty(s3, "apple") == 7;
    var s4 := Remove(s3, "orange", 1);
    assert s4 == s3;
    LowItemsSnoc([], "apple", s4.table, DefaultThreshold);
    assert [] + ["apple"] == ["apple"];
    LowItemsSnoc(["apple"], "banana", s4.table, DefaultThreshold);
  }

  /** The transaction log, a list the caller owns and `add_item` appends to. */
  class Log {
    var entries: seq<string>

    constructor()
      ensures entries == []
    {
      entries := [];
    }
  }

  /** The `stock_data` dict, updated in place. */
  class Inventory {
    var stock: map<string, int>
    var order: seq<string>

    function State(): Stock
      reads this
    {
      Stock(stock, order)
    }

    ghost predicate Valid()
      reads this
    {
      WellFormed(State())
    }

    /** A table holding `initial`, such as the mapping read from the inventory file. */
    constructor(initial: Stock)
      requires WellFormed(initial)
      ensures Valid() && State() == initial
    {
      stock := initial.table;
      order := initial.keys;
    }

    /**
     `add_item`. With `logs == null` (the source's `None`) a fresh list is
     used and discarded, so no log the caller holds changes.
     */
    method AddItem(item: string := "default", qty: int := 0, logs: Log? := null)
      requires Valid()
      modifies this, logs
      ensures Valid()
      ensures State() == Add(old(State()), item, qty)
      ensures logs != null ==>
                logs.entries == old(logs.entries) + if item == "" then [] else [Entry(qty, item)]
    {
      var log := logs;
      if log == null {
        log := new Log();
      }
      if item == "" {
        return;
      }
      ghost var before := State();
      if item !in stock {
        order := order + [item];
      }
      stock := stock[item := (if item in stock then stock[item] else 0) + qty];
      assert State() == Add(before, item, qty);
      log.entries := log.entries + [Entry(qty, item)];
    }

    /** `remove_item`. */
    method RemoveItem(item: string, qty: int)
      requires Valid()
      modifies this
      ensures Valid()
      ensures State() == Remove(old(State()), item, qty)
    {
      if item in stock {
        var left := stock[item] - qty;
        if left <= 0 {
          stock := stock - {item};
          order := Without(order, item);
        } else {
          stock := stock[item := left];
        }
      }
    }

    /** `check_low_items`: one pass over the items in iteration order. */
    method CheckLowItems(threshold: int := DefaultThreshold) returns (result: seq<string>)
      requires Valid()
      ensures result == LowItems(order, stock, threshold)
      ensures forall x :: x in result <==> x in stock && stock[x] <= threshold
      ensures Distinct(result)
    {
      result := [];
      var i := 0;
      while i < |order|
        invariant 0 <= i <= |order|
        invariant result == LowItems(order[..i], stock, threshold)
      {
        var item := order[i];
        var quantity := stock[item];
        if quantity <= threshold {
          result := result + [item];
        }
        assert order[..i + 1][..i] == order[..i];
        i := i + 1;
      }
      assert order[..i] == order;
      LowItemsDistinct(order, stock, threshold);
      forall x | x in stock && stock[x] <= threshold ensures x in result {
        LowItemsComplete(order, stock, threshold, x);
      }
    }
  }
}
