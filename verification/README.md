# Inventory store

This is a Dafny model of the inventory store in `inventory_system.py`. The store is an in-memory
table that maps an item name to an integer quantity. Like a Python dict, it is kept in insertion order.

- `add_item` and `remove_item` change the table in place.
- `get_qty` reads one quantity.
- `check_low_items` lists the items at or below a threshold.
- `add_item` also appends one line to a caller-supplied transaction log.

The model has two modules:

- `InventorySystem` (`inventory.dfy`)
  - `Stock` is the value of the table: a `map<string, int>` plus the keys in iteration order.
  - The pure functions `Qty`, `Add`, `Remove` and `LowItems` say what each operation computes. Their contracts state the operation's rules.
  - `Inventory` is the mutable table, with fields `stock` and `order`. Its methods `AddItem`, `RemoveItem` and `CheckLowItems` are proved to update or read it exactly as those functions say.
  - `Log` is the caller's log list.
- `LogFormat` (`log_format.dfy`)
  - This module builds the text of a log entry, `Added <qty> of <item>`, writing the quantity in decimal the way Python's `str(int)` does.
  - It proves that an entry determines the quantity and the item it records.

The store invariant (`WellFormed`) says only this: the order lists every item of the table exactly once. It does not require quantities to be positive. In the code, `add_item` stores any sum, including non-positive ones. Only `remove_item` deletes an item whose quantity drops to 0 or below. So an item can stay in the table with a quantity ≤ 0: in `main`, `banana` stays at -2 (inventory_system.py:142). `MainScenario` shows this.

## Model

| member | source | states |
|---|---|---|
| `InventorySystem.Qty` | inventory_system.py:51-62 | an item in the table reads as its stored quantity; an absent item reads as 0, never an error |
| `InventorySystem.Add` | inventory_system.py:23-26 | empty name: table unchanged; otherwise the item's quantity becomes old quantity + qty, the item is present afterwards even when the sum is ≤ 0 (no pruning), every other item keeps its presence and quantity, a new item goes to the end of the order and an existing one keeps its place; well-formedness is preserved |
| `InventorySystem.Remove` | inventory_system.py:42-48 | absent item: table unchanged; if old − qty ≤ 0 the item is deleted, reads 0 and leaves the order; otherwise it holds old − qty in the same place; other items unchanged; well-formedness is preserved |
| `InventorySystem.Without` | inventory_system.py:45 | deleting a key leaves exactly the other keys, keeps them distinct, and leaves the order untouched when the key is not listed |
| `InventorySystem.WithoutConcat` | inventory_system.py:45 | deletion keeps the relative order of the remaining keys: deleting from a + b gives the deletion from a followed by the deletion from b |
| `InventorySystem.WithoutSplit` | inventory_system.py:45 | deleting a key listed once, between a and b, leaves exactly a + b |
| `InventorySystem.LowItems` | inventory_system.py:122-126 | the scan is sound: every reported item comes from the scanned keys, has a quantity and that quantity is ≤ threshold |
| `InventorySystem.LowItemsDistinct` | inventory_system.py:123-125 | over distinct keys (as a dict's are) each item is reported at most once |
| `InventorySystem.LowItemsComplete` | inventory_system.py:123-125 | every listed item with quantity ≤ threshold is reported |
| `InventorySystem.LowItemsConcat` | inventory_system.py:123-126 | the scan follows iteration order: scanning a + b reports the low items of a, then those of b |
| `InventorySystem.MainScenario` | inventory_system.py:138-154 | starting from an empty table, the demonstration steps leave apple at 7, banana at -2, orange absent (reads 0), keys [apple, banana], and the low-item list (threshold 5) is [banana] |
| `InventorySystem.Log.constructor` | inventory_system.py:20-21 | a log created for a call without one starts empty |
| `InventorySystem.Inventory.constructor` | inventory_system.py:138 | the table starts out holding the given (loaded) mapping |
| `InventorySystem.Inventory.AddItem` | inventory_system.py:9-30 | the new table is `Add` of the old one; the caller's log gains exactly `Entry(qty, item)` when the name is non-empty and nothing otherwise; with no log given (null, for `None`), no caller-visible log changes; defaults are item "default" and qty 0 |
| `InventorySystem.Inventory.RemoveItem` | inventory_system.py:33-48 | the new table is `Remove` of the old one; a missing item is not an error |
| `InventorySystem.Inventory.CheckLowItems` | inventory_system.py:111-126 | returns exactly the items with quantity ≤ threshold, each once, in iteration order (equal to `LowItems` of the order); reads only; default threshold 5 |
| `LogFormat.IntToString` | inventory_system.py:30 | the decimal text of the quantity is non-empty and has no space; it starts with '-' exactly when the quantity is negative, and the rest is digits without leading zeros |
| `LogFormat.Entry` | inventory_system.py:30 | an entry starts with "Added ", ends with the item name, and is longer than the item by more than the fixed words |
| `LogFormat.EntryFields` | inventory_system.py:30 | an entry reads back: the first word after "Added " is the quantity's text and the item follows " of " |
| `LogFormat.ParseIntToString` | inventory_system.py:30 | the decimal text of the quantity in a log entry reads back as that quantity |
| `LogFormat.EntryInjective` | inventory_system.py:29-30 | two log entries are equal only when they record the same quantity and the same item |

## Left out

- `load_data` and `save_data` (file I/O and JSON encoding) are left out. The loaded mapping is a constructor parameter of `Inventory`.
- `print_data` and every `logging` call are left out because they only produce output. This includes the "not found" warning of `remove_item`.
- `main` is left out because it is a fixed demonstration script. `MainScenario` restates its steps on the value model for a first run, where no inventory file exists.
- Python's 4300-digit limit on converting an int to a string is not modelled. For such a `qty`, the source raises `ValueError` at inventory_system.py:30, after line 26 has already updated the store, and appends no entry. The model always appends the entry.
- The `datetime.now()` timestamp at the start of each log entry is nondeterministic, so it is not modelled. An entry is `Added <qty> of <item>`.
- Item names are strings and quantities are integers, as the docstrings type them. The source also accepts other hashable keys, such as `123` in `add_item(stock, 123, 5)`; the model cannot express those.
- The `TypeError` raised at inventory_system.py:26 cannot occur in the model. The source raises it for an unhashable item, and for a non-empty item with a quantity that cannot be added to the stored value, such as `main`'s `add_item(stock_data, 123, "ten")`.
- Python's other falsy item names cannot occur either. Only the empty string counts as an empty name, because an item name here is always a string.
