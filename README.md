# DataUtil data-frame core, modelled in Dafny

This project models four classes of the older `de.unknownreality.data.frame`
API of DataUtil, a Java in-memory table library, and proves what they
promise:

- `DataFrameHeader`: the schema of a data frame. It keeps an ordered list of
  column names, a name → position map, a name → value class map and a
  name → column class map, and updates all four in place.
  - `add` appends a name.
  - `remove` renumbers the later names in a loop.
  - `getIndex` answers -1 for an unknown name.
  - `equals` compares sizes and name/value-class pairs.
  - `copy` rebuilds the header name by name.
- `BasicColumn`: a growable buffer of column values. It is a backing array
  with a logical `size`, an initial capacity of 128 and a growth factor of
  1.6. It supports append, in-place map, reverse and sort over `[0, size)`,
  unchecked `get`/`set`, `contains`, iteration and `clear`.
- `DataRow`: one row. It is an array of cell values read through a header,
  with typed getters that fail on the wrong kind of value and a
  tab-separated `toString`.
- `CharacterType`: the `Character` value type: `parse`, `toString`, its
  class, and what its two `write` methods produce.

Files:

| file | module | contents |
|---|---|---|
| `java_lang.dfy` | `JavaLang` | Java `char` (a UTF-16 code unit in `[0, 65536)`), `String`, 32/64-bit integers, decimal rendering, `Long.intValue` |
| `outcomes.dfy` | `Outcomes` | Java `null` as `Option`; the exceptions the core throws, as `Error` values inside `Result` / `Outcome` |
| `values.dfy` | `Values` | cell values (`null`, `Integer`, `Long`, `Boolean`, `String`, `Character`), their classes, `String.valueOf` |
| `character_type.dfy` | `CharacterType` | the `Character` value type |
| `header.dfy` | `Header` | the header as a `Schema` value with specification functions and lemmas, and the `DataFrameHeader` class |
| `column.dfy` | `Column` | the buffer as a `Buffer` value with specification functions and lemmas, the `BasicColumn` class and its iterator |
| `row.dfy` | `Row` | the row class and the tab-joined rendering with its split inverse |

How the model is built:

- The header class and the column class keep the Java fields: a `seq` and
  three `map`s for the header; an `array`, `size` and `name` for the column.
  Their methods change these fields in place. Each method is proved against
  a function on an abstract state (`Schema`, `Buffer`), and the lemmas are
  proved about those functions.
- Loops stay loops: `remove`'s renumbering, `equals`, `copy`, `appendAll`,
  `map`, `reverse`, the row's `toString`, and an insertion sort that stands
  for `Arrays.sort` on the prefix.
- Exceptions are values: `IndexOutOfBounds`, `NullPointer`, and the library's
  own `IllegalArgumentException`s ("header index out of bounds",
  "header name not found", "no String value", "no boolean value",
  "no int value") are `Error` constructors, and the operations that throw
  return `Result` or `Outcome`.

Behaviour of the code that the model keeps:

- `add` does not check whether the name is already present. It appends a
  second list entry and points the three maps at the new position.
  `AddDuplicate`, `DuplicateThenRemove` and `RemoveAfterOrphanThrows` show
  the consequences: the position map stops being the inverse of the list,
  and a later `remove` can throw a `NullPointerException` part-way.
- Header names may be `null`: a column made without a name is added under
  `null`. `remove` throws a `NullPointerException` as soon as its search
  meets a `null` entry before the name (`RemoveMeetsNull`).
- The column's `get` and `set` check the index only against the backing
  array, not against `size`.
- A full column over an array of length 0 or 1 cannot grow, so `append`
  throws after it has already incremented `size`. That leaves `size` above
  the capacity.
- The header's `clear()` empties the list, the position map and the value
  class map, but not the column class map.

## Model

| member | source | states |
|---|---|---|
| Header.AddFresh | src/main/java/de/unknownreality/data/frame/DataFrameHeader.java:27-34 | adding a new name to a valid header keeps it valid; the name goes at the old size, resolves to that position, has the given value class and column class, and every earlier name keeps its position |
| Header.AddDuplicate | src/main/java/de/unknownreality/data/frame/DataFrameHeader.java:27-34 | adding a name already present is not rejected: the list gets a second entry, the name now resolves to the new last position, and the header is no longer valid |
| Header.DataFrameHeader.Add | src/main/java/de/unknownreality/data/frame/DataFrameHeader.java:27-34 | the new state appends the name to the list and points all three maps at it |
| Header.DataFrameHeader.Remove | src/main/java/de/unknownreality/data/frame/DataFrameHeader.java:36-51 | the loop and the removals produce exactly the state and outcome of the renumbering fold `RemoveSpec`, including the `NullPointerException` when the search meets a `null` entry and when a later name has no position |
| Header.RemovePresentState | src/main/java/de/unknownreality/data/frame/DataFrameHeader.java:36-51 | on a valid header holding the name at `p`, with no `null` entry up to `p`, `remove` drops list entry `p`, shifts positions after `p` down by one, and removes the name from all three maps |
| Header.RemovePresent | src/main/java/de/unknownreality/data/frame/DataFrameHeader.java:36-51 | removing a present name, with no `null` entry before it, from a valid header succeeds; the header stays valid; later names move down by one and earlier names keep their positions; the name no longer resolves; the size drops by one; every other name keeps its classes |
| Header.RemovedAt | src/main/java/de/unknownreality/data/frame/DataFrameHeader.java:44-50 | the state left by removing the name at `p` is valid and one shorter, with the positions closed up around `p` |
| Header.RenumberShifts | src/main/java/de/unknownreality/data/frame/DataFrameHeader.java:37-46 | on a valid header with no `null` entry up to the removed name, the renumbering loop moves every position after that name down by one and never throws |
| Header.RemoveFirstAt | src/main/java/de/unknownreality/data/frame/DataFrameHeader.java:47 | `List.remove(Object)` drops exactly the first occurrence |
| Header.ShiftedRemovedInverse | src/main/java/de/unknownreality/data/frame/DataFrameHeader.java:44-48 | after dropping entry `p` and shifting later positions down, the position map is still the inverse of the list |
| Header.RemoveAbsent | src/main/java/de/unknownreality/data/frame/DataFrameHeader.java:36-51 | removing an unknown name from a valid header without `null` entries succeeds and changes nothing, except a column class entry that `clear` left behind for that name |
| Header.RenumberAbsent | src/main/java/de/unknownreality/data/frame/DataFrameHeader.java:37-46 | when neither the name nor `null` is in the rest of the list, the renumbering loop changes no position |
| Header.RenumberReachesNull | src/main/java/de/unknownreality/data/frame/DataFrameHeader.java:37-39 | a `null` entry met before the name makes `s.equals(name)` throw, with no position changed |
| Header.RemoveMeetsNull | src/main/java/de/unknownreality/data/frame/DataFrameHeader.java:36-51 | when a `null` entry comes before the first occurrence of the name (or is it, for a `null` name), `remove` throws a `NullPointerException` and leaves the header exactly as it was |
| Header.RemoveAfterNullNameThrows | src/main/java/de/unknownreality/data/frame/DataFrameHeader.java:27-51 | a valid header whose first column was added under `null` makes every `remove` throw, whatever the name, and stays as it was |
| Header.RemoveFirstAbsent | src/main/java/de/unknownreality/data/frame/DataFrameHeader.java:47 | `List.remove(Object)` of an absent element leaves the list as it was |
| Header.DuplicateThenRemove | src/main/java/de/unknownreality/data/frame/DataFrameHeader.java:27-51 | adding a name twice and removing it succeeds but leaves one list entry that no longer resolves, so the header is invalid |
| Header.RemoveAfterOrphanThrows | src/main/java/de/unknownreality/data/frame/DataFrameHeader.java:36-51 | in that state, removing an earlier name throws a `NullPointerException` while unboxing the missing position, and the list is left as it was |
| Header.DataFrameHeader.Clear | src/main/java/de/unknownreality/data/frame/DataFrameHeader.java:104-108 | the list, the position map and the value class map are emptied, and the column class map is kept |
| Header.ClearEmpties | src/main/java/de/unknownreality/data/frame/DataFrameHeader.java:104-108 | after `clear` the header is valid and empty, no name resolves or has a value class, and every column class is unchanged |
| Header.DataFrameHeader.Size | src/main/java/de/unknownreality/data/frame/DataFrameHeader.java:20-22 | on a valid header, the size is the number of resolvable names |
| Header.ResolvableCount | src/main/java/de/unknownreality/data/frame/DataFrameHeader.java:20-22 | a valid header has as many resolvable names as list entries |
| Header.DataFrameHeader.GetIndex | src/main/java/de/unknownreality/data/frame/DataFrameHeader.java:111-115 | on a valid header, the result is -1 exactly when the name is not in the list; otherwise it is a position holding that name |
| Header.DataFrameHeader.Contains | src/main/java/de/unknownreality/data/frame/DataFrameHeader.java:99-102 | on a valid header, `contains` agrees with `getIndex != -1` and with membership in the list |
| Header.DataFrameHeader.Get | src/main/java/de/unknownreality/data/frame/DataFrameHeader.java:92-97 | it succeeds exactly for `0 <= index < size`; an index at or past the size gives "header index out of bounds" with the last index; otherwise it gives the name at that position, which `getIndex` maps back to the index |
| Header.DataFrameHeader.GetType | src/main/java/de/unknownreality/data/frame/DataFrameHeader.java:84-86 | on a valid header, a name not in the list has no value class |
| Header.DataFrameHeader.GetTypeAt | src/main/java/de/unknownreality/data/frame/DataFrameHeader.java:88-90 | it succeeds exactly for positions in the list, and gives the value class of the name there |
| Header.DataFrameHeader.GetColumnType | src/main/java/de/unknownreality/data/frame/DataFrameHeader.java:76-78 | a name without a column class entry gives `null` |
| Header.DataFrameHeader.GetColumnTypeAt | src/main/java/de/unknownreality/data/frame/DataFrameHeader.java:80-82 | it succeeds exactly for positions in the list, and gives the column class of the name there |
| Header.DataFrameHeader.Equals | src/main/java/de/unknownreality/data/frame/DataFrameHeader.java:53-74 | a header equals itself; `equals(null)` throws a `NullPointerException`; for another header the loop answers exactly `SchemaEquals`: the same size, and every name known to the other header with the identical value class |
| Header.EqualsReflexive | src/main/java/de/unknownreality/data/frame/DataFrameHeader.java:53-74 | every valid header's state satisfies the `equals` relation with itself |
| Header.EqualsSymmetric | src/main/java/de/unknownreality/data/frame/DataFrameHeader.java:53-74 | between valid headers the `equals` relation is symmetric, although positions and column classes are not compared |
| Header.DistinctCard | src/main/java/de/unknownreality/data/frame/DataFrameHeader.java:62-72 | a list without repeats has as many distinct names as entries |
| Header.SubsetOfSameSize | src/main/java/de/unknownreality/data/frame/DataFrameHeader.java:62-72 | a subset of the same size is the whole set, which makes equal-size name sets coincide |
| Header.DataFrameHeader.Copy | src/main/java/de/unknownreality/data/frame/DataFrameHeader.java:117-123 | the copy is a fresh header built by adding every name in order with the original's column class and value class |
| Header.CopySameNamesAndTypes | src/main/java/de/unknownreality/data/frame/DataFrameHeader.java:117-123 | the copy has the same names in the same order, each with the same value class and column class, and the `equals` relation holds from original to copy |
| Header.CopyOfValid | src/main/java/de/unknownreality/data/frame/DataFrameHeader.java:117-123 | the copy of a valid header is valid and has exactly the original's positions |
| Header.RebuildNames | src/main/java/de/unknownreality/data/frame/DataFrameHeader.java:119-121 | after `j` steps the copy's list is the first `j` names |
| Header.RebuildMapped | src/main/java/de/unknownreality/data/frame/DataFrameHeader.java:119-121 | after `j` steps every name in the copy's list has a position |
| Header.RebuildKeys | src/main/java/de/unknownreality/data/frame/DataFrameHeader.java:119-121 | after `j` steps the copy's three maps have the same keys |
| Header.RebuildClasses | src/main/java/de/unknownreality/data/frame/DataFrameHeader.java:119-121 | after `j` steps every name in the copy has the original's value class and column class |
| Header.RebuildPositions | src/main/java/de/unknownreality/data/frame/DataFrameHeader.java:119-121 | for a valid original, after `j` steps the copy maps exactly the names at positions below `j`, to the same positions |
| Header.DataFrameHeader.constructor | src/main/java/de/unknownreality/data/frame/DataFrameHeader.java:15-18 | a new header has an empty list and empty maps |
| Column.GrowthMakesRoom | src/main/java/de/unknownreality/data/frame/column/BasicColumn.java:133-135 | `(int)(length * 1.6)`, saturated at `Integer.MAX_VALUE`, is larger than `length` exactly when `2 <= length < Integer.MAX_VALUE`, and never smaller for a Java array length |
| Column.BasicColumn.Append | src/main/java/de/unknownreality/data/frame/column/BasicColumn.java:131-138 | the new array and size are those of `AppendStep`: a full array is first reallocated to the grown capacity, then the value is stored at the old size and the size grows by one; if the store fails, the size has still grown; a replaced array is left untouched and its contents start the new one; a kept array changes at most at slot `size` |
| Column.AppendStores | src/main/java/de/unknownreality/data/frame/column/BasicColumn.java:131-138 | when there is room, or growth can make room, `append` succeeds; the values in use become the old ones followed by `x`; a full buffer grows to `Grow(capacity)` with null slots after the new value; the size stays within the capacity |
| Column.AppendFailsWhenStuck | src/main/java/de/unknownreality/data/frame/column/BasicColumn.java:131-138 | a full buffer of capacity 0, 1 or `Integer.MAX_VALUE` keeps its contents, `append` throws `ArrayIndexOutOfBounds` at the old size, and the size now exceeds the capacity |
| Column.AppendedIsContained | src/main/java/de/unknownreality/data/frame/column/BasicColumn.java:131-138 | after an `append` that did not throw, `contains` finds the value |
| Column.BasicColumn.AppendAll | src/main/java/de/unknownreality/data/frame/column/BasicColumn.java:147-153 | the loop produces the state of `AppendAllSpec`: `append` on each element in order, stopping at the first that throws; the slots in use before the call are not overwritten in the old array, and a replaced old array holds what the new one holds in its first slots |
| Column.AppendAllAppends | src/main/java/de/unknownreality/data/frame/column/BasicColumn.java:147-153 | when every `append` can make room, `appendAll` succeeds and the values in use become the old ones followed by the whole collection |
| Column.BasicColumn.Get | src/main/java/de/unknownreality/data/frame/column/BasicColumn.java:80-83 | it succeeds exactly for indices inside the backing array, even past `size`, and below `size` it gives the value in use there |
| Column.BasicColumn.Set | src/main/java/de/unknownreality/data/frame/column/BasicColumn.java:39-43 | inside the backing array only slot `index` changes; outside it nothing changes and an `IndexOutOfBounds` error is returned; `size` is not consulted |
| Column.BasicColumn.Map | src/main/java/de/unknownreality/data/frame/column/BasicColumn.java:45-51 | the values in use become their images under `f`, and the slots from `size` on are unchanged |
| Column.MapAllAt | src/main/java/de/unknownreality/data/frame/column/BasicColumn.java:45-51 | mapping keeps the length and puts `f(s[k])` at every position `k` |
| Column.MapAllCompose | src/main/java/de/unknownreality/data/frame/column/BasicColumn.java:45-51 | mapping with `f` and then `g` is mapping with their composition |
| Column.BasicColumn.Reverse | src/main/java/de/unknownreality/data/frame/column/BasicColumn.java:55-62 | with `size` within the capacity, the values in use become their reverse and the slots from `size` on are unchanged; past the capacity nothing moves, and it throws at index 0 (empty array) or `size - 1`, unless `size / 2` is 0 |
| Column.ReversedAt | src/main/java/de/unknownreality/data/frame/column/BasicColumn.java:55-62 | position `k` of the reverse holds element `|s| - 1 - k` |
| Column.ReverseTwice | src/main/java/de/unknownreality/data/frame/column/BasicColumn.java:55-62 | reversing twice restores the original |
| Column.ReversedPrefix | src/main/java/de/unknownreality/data/frame/column/BasicColumn.java:57-61 | once the first `n` slots mirror the original's first `n`, they hold its reverse |
| Column.Swap | src/main/java/de/unknownreality/data/frame/column/BasicColumn.java:58-60 | the two slots are exchanged and nothing else changes |
| Column.BasicColumn.SortWith | src/main/java/de/unknownreality/data/frame/column/BasicColumn.java:31-33 | with `size` past the capacity it throws `ArrayIndexOutOfBounds(size)` and moves nothing; a `null` comparator behaves as `sort()`; otherwise, for a comparator that keeps the `Comparator` contract (the sign rule and transitivity), the values in use become sorted by it and are a permutation of the previous ones, and the slots from `size` on are unchanged |
| Column.BasicColumn.Sort | src/main/java/de/unknownreality/data/frame/column/BasicColumn.java:35-37 | with `size` past the capacity it throws `ArrayIndexOutOfBounds(size)` and moves nothing; with two or more values in use and a `null` among them, it fails with a `NullPointerException`; otherwise the values in use become sorted in natural order and are a permutation of the previous ones; the slots from `size` on are unchanged |
| Column.NaturalOrderIsComparator | src/main/java/de/unknownreality/data/frame/column/BasicColumn.java:35-37 | the natural order of the element type, with `null` placed first, again keeps the sign rule and transitivity |
| Column.AlwaysLessIsNotComparator | src/main/java/de/unknownreality/data/frame/column/BasicColumn.java:31-33 | a comparator answering "less" for every pair breaks the sign rule, so the sort precondition does not admit it |
| Column.SortPrefix | src/main/java/de/unknownreality/data/frame/column/BasicColumn.java:31-37 | `Arrays.sort(a, 0, n, cmp)`: the first `n` slots become sorted and a permutation of what they were, and the rest is unchanged |
| Column.InsertAt | src/main/java/de/unknownreality/data/frame/column/BasicColumn.java:31-37 | one insertion step extends the sorted run by one slot, keeps the array a permutation, and leaves the slots after it alone |
| Column.SwapDown | src/main/java/de/unknownreality/data/frame/column/BasicColumn.java:31-37 | two adjacent slots are exchanged, nothing else changes, and the contents stay a permutation |
| Column.SamePrefixMultiset | src/main/java/de/unknownreality/data/frame/column/BasicColumn.java:31-37 | two permutations that agree from `n` on are permutations up to `n` |
| Column.BasicColumn.constructor | src/main/java/de/unknownreality/data/frame/column/BasicColumn.java:64-72 | a new column has 128 null slots, size 0 and the given name (no name for the no-argument constructor) |
| Column.BasicColumn.FromArray | src/main/java/de/unknownreality/data/frame/column/BasicColumn.java:74-78 | the column keeps the given array itself and is full |
| Column.BasicColumn.Clear | src/main/java/de/unknownreality/data/frame/column/BasicColumn.java:155-159 | a fresh array of 128 null slots and size 0, the state of a new column |
| Column.BasicColumn.Size | src/main/java/de/unknownreality/data/frame/column/BasicColumn.java:85-87 | the number of values in use |
| Column.BasicColumn.IsEmpty | src/main/java/de/unknownreality/data/frame/column/BasicColumn.java:89-92 | true exactly when no value is in use |
| Column.BasicColumn.Contains | src/main/java/de/unknownreality/data/frame/column/BasicColumn.java:94-97 | true exactly when some slot of the whole backing array holds `o`, including the unused slots |
| Column.BasicColumn.ContainsAll | src/main/java/de/unknownreality/data/frame/column/BasicColumn.java:141-144 | true exactly when `contains` holds for every element of `c` |
| Column.BasicColumn.Iterator | src/main/java/de/unknownreality/data/frame/column/BasicColumn.java:99-102 | a fresh iterator over this column, at index 0 |
| Column.ColumnIterator.constructor | src/main/java/de/unknownreality/data/frame/column/BasicColumn.java:101-102 | the anonymous iterator starts at index 0 over this column |
| Column.ColumnIterator.HasNext | src/main/java/de/unknownreality/data/frame/column/BasicColumn.java:104-107 | true exactly while the index is below the column's current size |
| Column.ColumnIterator.Next | src/main/java/de/unknownreality/data/frame/column/BasicColumn.java:109-112 | gives the column's `get` at the old index and advances the index by one |
| Column.Elements | src/main/java/de/unknownreality/data/frame/column/BasicColumn.java:99-114 | draining the iterator yields exactly the values in use, in order |
| Row.DataRow.constructor | src/main/java/de/unknownreality/data/frame/DataRow.java:16-19 | the row keeps the given header and value array |
| Row.DataRow.Get | src/main/java/de/unknownreality/data/frame/DataRow.java:29-31 | it succeeds exactly for indices inside the value array, giving the value there; otherwise it fails with that index |
| Row.DataRow.GetNamed | src/main/java/de/unknownreality/data/frame/DataRow.java:21-27 | it fails with "header name not found" exactly when `getIndex` gives -1; for a valid header holding the name it gives the value at that name's position |
| Row.DataRow.Size | src/main/java/de/unknownreality/data/frame/DataRow.java:50-52 | the number of values in the array, whatever the header says |
| Row.DataRow.GetString | src/main/java/de/unknownreality/data/frame/DataRow.java:42-48 | it succeeds exactly for a non-null value inside the array, giving its text, which is "null" only for the string "null"; a null value gives "no String value"; an index outside the array gives that index's error |
| Row.DataRow.GetBoolean | src/main/java/de/unknownreality/data/frame/DataRow.java:54-60 | it gives `b` exactly when the value is the Boolean `b`; any other value gives "no boolean value" with its text; an index outside the array gives that index's error |
| Row.DataRow.GetInteger | src/main/java/de/unknownreality/data/frame/DataRow.java:81-89 | it succeeds exactly for an `Integer` or `Long` value, giving it unchanged or cut to 32 bits; any other value gives "no int value" with the index and its text |
| Row.DataRow.GetStringNamed | src/main/java/de/unknownreality/data/frame/DataRow.java:72-74 | an unknown name is not caught and reads index -1, failing with that index error; it succeeds exactly when the named cell exists and is not `null`, and then it is `getString` at the name's position |
| Row.DataRow.GetBooleanNamed | src/main/java/de/unknownreality/data/frame/DataRow.java:76-79 | an unknown name reads index -1 and fails with that index error; it gives `b` exactly when the named value is the Boolean `b` |
| Row.DataRow.GetIntegerNamed | src/main/java/de/unknownreality/data/frame/DataRow.java:91-99 | an unknown name gives "header name not found"; it succeeds exactly for a named `Integer` or `Long` value; any other value gives "no int value" with the name and its text |
| Row.DataRow.ToString | src/main/java/de/unknownreality/data/frame/DataRow.java:121-130 | the loop builds the cell texts joined with a single tab between neighbours, with no leading or trailing tab |
| Row.RenderedRowSplits | src/main/java/de/unknownreality/data/frame/DataRow.java:121-130 | when no cell text contains a tab, cutting the rendering of a non-empty row at its tabs gives back exactly the cell texts, one field per cell |
| Row.SplitJoin | src/main/java/de/unknownreality/data/frame/DataRow.java:121-130 | cutting the tab-join of one or more tab-free fields at its tabs gives the fields back |
| Row.SplitAfterTab | src/main/java/de/unknownreality/data/frame/DataRow.java:124-127 | appending a tab and a tab-free text adds exactly one field |
| Row.SplitWithoutTab | src/main/java/de/unknownreality/data/frame/DataRow.java:124 | a tab-free text is a single field |
| Row.EmptyRowRendering | src/main/java/de/unknownreality/data/frame/DataRow.java:121-130 | an empty row renders as the empty string, the same as a row holding one empty string |
| Row.Texts | src/main/java/de/unknownreality/data/frame/DataRow.java:124 | one text per cell, each the cell's `String.valueOf` |
| Values.Text | src/main/java/de/unknownreality/data/frame/DataRow.java:121-130 | `String.valueOf(value)` contains a tab only for a string containing one or the tab character, and is "null" exactly for `null` and the string "null" |
| Values.IntValue | src/main/java/de/unknownreality/data/frame/DataRow.java:81-99 | `Number.class.cast(v).intValue()` succeeds exactly for numbers; it keeps an `Integer`, and a `Long` within the 32-bit range |
| JavaLang.IntValueOfLong | src/main/java/de/unknownreality/data/frame/DataRow.java:81-99 | `Long.intValue()` agrees with the long modulo 2^32 and keeps values within the 32-bit range |
| JavaLang.DecimalText | src/main/java/de/unknownreality/data/frame/DataRow.java:124 | `Integer.toString` / `Long.toString` is non-empty, has no tab, and starts with a minus sign exactly for negative numbers |
| JavaLang.DigitsRoundTrip | src/main/java/de/unknownreality/data/frame/DataRow.java:124 | the decimal digits of a number read back as that number |
| CharacterType.GetType | src/main/java/de/unknownreality/dataframe/type/impl/CharacterType.java:10-13 | every character value has exactly this class |
| CharacterType.Parse | src/main/java/de/unknownreality/dataframe/type/impl/CharacterType.java:25-28 | it succeeds exactly on a non-empty string; the empty string gives `StringIndexOutOfBounds` at index 0 |
| CharacterType.ToText | src/main/java/de/unknownreality/dataframe/type/impl/CharacterType.java:35-38 | a one-character string that `parse` reads back as the same character, and that equals `String.valueOf` of the character |
| CharacterType.ParseThenRender | src/main/java/de/unknownreality/dataframe/type/impl/CharacterType.java:25-38 | rendering what `parse` read gives the first character of the text |
| CharacterType.ParseIgnoresRest | src/main/java/de/unknownreality/dataframe/type/impl/CharacterType.java:25-28 | `parse` looks only at the first character |
| CharacterType.WriteText | src/main/java/de/unknownreality/dataframe/type/impl/CharacterType.java:30-33 | the writer receives exactly one character after what it had, and `parse` reads the value back from it |
| CharacterType.WriteBinary | src/main/java/de/unknownreality/dataframe/type/impl/CharacterType.java:41-45 | it reports `Character.BYTES` = 2 and appends exactly two bytes, high byte first, that together encode the character |

## Left out

- Header.DataFrameHeader.Equals: takes a header or `null`. For an object of another class, Java's `equals` answers `false`; the model does not take such objects.
- The `add(DataColumn)` overload of the header is left out. It calls `add(name, colClass, type)` with the column's own name and classes, and `DataColumn` is not part of this model.
- The header's `iterator()` is left out. It is the list's own iterator, and the model exposes the list as `headers`.
- The header's slf4j logger is left out. It is never used.
- Column.BasicColumn.Map, Column.Elements: require `size <= capacity`. Java can reach `size > capacity` after an `append` that failed on a tiny array. There `map` rewrites the slots of the array and then throws `ArrayIndexOutOfBounds` at index `capacity`, and iteration yields those slots and then throws. The model does not describe either.
- Column.BasicColumn.SortWith: the comparator is a total function. A comparator that throws, such as `Comparator.naturalOrder()` meeting a `null` value, is not modelled.
- Column.BasicColumn.Sort, Column.BasicColumn.SortWith: when a `null` takes part in the natural order, Java's sort throws after an unspecified number of moves. The model reports the exception with the array untouched. It does not say how far the Java sort got.
- Column.BasicColumn.SortWith, Column.BasicColumn.Sort: `Arrays.sort` is modelled by an insertion sort. The contract promises sorted and a permutation. It does not promise stability. The precondition `IsComparator` is the whole `Comparator` contract: the sign rule plus transitivity. So a comparator that breaks the contract, for which `Arrays.sort` may throw `IllegalArgumentException`, is not admitted, and that exception is not modelled.
- Grow: the growth factor is the `double` 1.6. The model uses the integer `length * 8 / 5`, saturated at `Integer.MAX_VALUE` as the `(int)` cast does. The `OutOfMemoryError` the VM raises for an array that large is not modelled.
- Column.BasicColumn.Append, Column.BasicColumn.AppendAll: require a backing array of at most `Integer.MAX_VALUE` slots, the most a Java array can have.
- The column's `size` is a natural number. The 32-bit overflow after 2^31 appends is not modelled.
- `Array.newInstance(getType(), INIT_SIZE)` is left out: the model uses a plain generic array of null slots.
- `MapFunction` is a total Dafny function. An exception thrown by the mapping function is not modelled.
- The column's `getName`/`setName` are left out: plain field accessors.
- `toArray()`, `toArray(T1[])` and `getValues()` are left out. They hand out the backing array by alias or copy it by Java Collections conventions.
- The row's `getDouble` and `getFloat` overloads are left out: floating point.
- Values of other `Number` classes (`Double`, `Short`, …) are left out. The value datatype has `Integer`, `Long`, `Boolean`, `String` and `Character`.
- The row's header is typed as the `Header<String>` interface in Java. The model uses `DataFrameHeader`, its only implementation in this code.
- `CharacterType.read(DataInputStream)`, `read(ByteBuffer)` and the stream side of both `write` methods are left out: I/O. The model keeps what is written and the returned byte count.
- Java's `equals` compares value classes by identity (`!=` on `Class` objects). The model compares the `ValueClass` values, which stand for those class objects.
