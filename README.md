# messytables core, in Dafny

This project models the core of messytables, in `messytables/core.py`: the
`Cell` and the `RowSet`.

A **cell** holds one value of a table. It also records:
- the column it belongs to;
- whether that column name was invented;
- the type the value has been read as (the string type unless given).

A cell is *empty* when its value is missing or its text is whitespace only.

A **row set** produces raw rows of cells. Iterating over it pushes each row
through three optional stages, in a fixed order:
1. Skip the first `row_offset` rows.
2. Cast each cell to its column type, best effort, in place.
3. Bind each cell to its column header, padding short rows with blank cells
   and inventing `column_<i>` for positions that lack a usable header.

`dicts()` projects each row to an ordered dictionary from column name to
value. Without headers it raises a `TypeError` instead.

The files are:
- `wrappers.dfy` (`Option`, `Result`).
- `text.dfy`: Python 2's `unicode.strip` and the decimal rendering of integers.
- `ordered_dict.dfy`: `OrderedDict` as a sequence of pairs.
- `cells.dfy`: values, column types and the `Cell` class.
- `rowsets.dfy`: the `RowSet` class, with a value-level specification of every stage.

The specification works on `CellState` values, which are snapshots of a cell's
four fields. `Snap(row)` takes the snapshot of a row of `Cell` objects. The
methods of `RowSet` update and create `Cell` objects in place, as the source
does. Their postconditions relate the new snapshots to the specification
functions (`TypeRow`, `BindHeaders`, `Stage` and `RowDict`), row by row, and
lemmas state what those functions promise. The lemma `PipelineRows` links the
row-by-row description of a pass to the whole-pass function `Pipeline`.

Two points where the model follows the code exactly:
- Casting is gated on the column types being set (`column_types is not None`),
  not on the `typed` flag, which is only ever set.
- `dicts()` rejects an empty header list as well as a missing one, because the
  code tests `not self.column_headers`.

## Model

| member | source | states |
|---|---|---|
| Cells.Cell.constructor | messytables/core.py:11-18 | a new cell has the given value and column and is not marked autogenerated; an unspecified type becomes the string type |
| Cells.Cell.Empty | messytables/core.py:26-36 | `cell.empty` holds exactly when the cell's value is missing or its text is whitespace only |
| Cells.IsEmptyValue | messytables/core.py:26-36 | a value is empty exactly when it is missing or its text (a string itself, any other value's rendering) is whitespace only; an integer is never empty |
| Cells.EmptyExamples | messytables/core.py:26-36 | `None`, `""` and a string of spaces and a tab are empty |
| Cells.NonEmptyExamples | messytables/core.py:26-36 | `"0"`, the integer 0 and `" x "` are not empty: any visible character counts, even a zero |
| Cells.Cast | messytables/core.py:82 | the string type's cast never fails, keeps strings and `None` as they are, and preserves every value's text |
| Text.Strip | messytables/core.py:34 | `strip()` returns a contiguous slice with whitespace only outside it; it is empty exactly when the text is all whitespace, and otherwise starts and ends with non-whitespace |
| Text.ParseNatToText | messytables/core.py:98 | the decimal rendering used by `"column_%d"` reads back as the number it renders |
| Text.NatToTextInjective | messytables/core.py:98 | distinct numbers render to distinct digit strings |
| Text.IntToText | messytables/core.py:33 | an integer's text is non-empty and does not start with whitespace; it starts with a minus sign exactly when the integer is negative, and the rest is all digits and reads back as the integer's magnitude |
| RowSets.RowSet.constructor | messytables/core.py:58-63 | a fresh row set is untyped, with no column types, headers or offset |
| RowSets.RowSet.SetColumnTypes | messytables/core.py:65-72 | setting the types marks the row set typed (even for an empty list or `None`), so that reading `column_types` back gives exactly what was set, and leaves headers and offset alone |
| RowSets.RowSet.ApplyTypes | messytables/core.py:74-86 | returns the same row; with no types set nothing changes, otherwise the row's cells now hold `TypeRow` of their old states |
| RowSets.CastCell | messytables/core.py:81-85 | a successful cast sets the value to the cast result and the type to the column type; a failed cast leaves the cell as it was; the column and its flag are kept either way |
| RowSets.TypeRow | messytables/core.py:80-85 | casting a row keeps its length and never touches a cell's column or flag |
| RowSets.TypeRowCells | messytables/core.py:80-85 | a successful cast replaces value and type; a failed cast, or a cell with no type paired to it, leaves the cell unchanged; the column and its flag are never touched |
| RowSets.TypeRowStringColumn | messytables/core.py:80-85 | a cell in a string-typed column always ends up with the string type and with a value of the same text |
| RowSets.RowSet.ApplyHeaders | messytables/core.py:88-101 | with no headers set, a TypeError and no change; otherwise a row as long as the longer of row and headers, holding the row's own cells first and fresh cells after them, no cell twice, whose states are `BindHeaders` of the old ones |
| RowSets.BindStep | messytables/core.py:93-100 | one step of the loop appends the row's own cell at that position, or a fresh cell past the row's end, bound to its header, and leaves the later cells of the row as they were |
| RowSets.BindHeaders | messytables/core.py:88-101 | the bound row is as long as the longer of row and headers, every cell has a non-empty column name, and the row's own cells keep their values and types |
| RowSets.BindFromShape | messytables/core.py:93-100 | the loop from position 0 gives every cell a non-empty column name and keeps each of the row's own cells' value and type |
| RowSets.BindHeadersPointwise | messytables/core.py:91-101 | a row holding, at each position of the longer of row and headers, the cell bound there is exactly the bound row |
| RowSets.Bind | messytables/core.py:96-99 | binding one cell sets its column to the header, or to `column_<i>` with the autogenerated flag when the header is `None` or empty |
| RowSets.BindHeadersCells | messytables/core.py:91-101 | each bound cell keeps its value and type, a padding cell is a blank string cell, a usable header is taken as is, any other position gets `column_<p>` and the flag, and every cell ends with a non-empty column name |
| RowSets.BindHeadersIdempotent | messytables/core.py:88-101 | binding an already bound row to the same headers changes nothing |
| RowSets.AutoNameInjective | messytables/core.py:98 | invented column names are equal exactly when their positions are |
| RowSets.Stage | messytables/core.py:109-112 | processing a row keeps its length without headers and pads it to the longer of row and headers with them |
| RowSets.StageCells | messytables/core.py:109-112 | with headers every processed cell has a non-empty column name; without headers each keeps its column and flag; without types each of the row's cells keeps its value and type |
| RowSets.RowSet.ProcessRow | messytables/core.py:109-113 | one row comes out cast if types are set and bound if headers are set, in that order; it starts with the row's own cells in their positions, is the very same row without headers, holds no cell twice, and any other cell is fresh |
| RowSets.RowSet.ProcessRowAt | messytables/core.py:108-113 | processing one row of a pass yields a row that holds no cell twice, starts with that raw row's cells (is the raw row itself without headers) and holds no other raw cell, the cells after them being new `Cell(None)` objects; it changes no other raw row and no row already yielded |
| RowSets.RowSet.Step | messytables/core.py:108-113 | one step of a pass appends the processed raw row to the rows yielded so far, keeping them and their states, the states of rows not yet reached, and where their cells came from; the new row holds no cell twice, starts with the raw row's cells, and its cells after them are new |
| RowSets.RowSet.Pass | messytables/core.py:108-113 | the loop from raw row k on yields one row per remaining raw row, the j-th being raw row k+j put through the stages; each holds no cell twice, starts with that raw row's cells (is it, without headers) and holds after them only new cells, none of them raw; rows before k are left untouched |
| RowSets.RowSet.Rows | messytables/core.py:103-113 | a pass yields one row per raw row after the offset, the j-th being raw row offset+j put through the stages; that row holds no cell twice, starts with the raw row's own cells (is the raw row itself without headers) and holds no raw cell after them (`BuiltOn`), the cells after them being new objects that a caller may write, so the raw row's cells are left in the first states of the processed row; skipped rows are left untouched |
| RowSets.StartsWithAppend | messytables/core.py:108-113 | appending a row that holds no cell twice and starts with the next raw row keeps every yielded row so |
| RowSets.PastNotIn | messytables/core.py:91-95 | a row that holds each cell once and starts with a raw row's cells holds none of them past that raw row's end |
| RowSets.PastAppend | messytables/core.py:108-113 | appending a row adds its cells past its raw row's end to the cells made so far, and every yielded row's such cells stay among them |
| RowSets.PaddingNotRaw | messytables/core.py:94-95 | in rows that hold no cell twice, start with their raw rows and hold no raw cell that is not their own, the cells past a raw row's end are not raw cells |
| RowSets.ShiftYielded | messytables/core.py:105-113 | the facts about the rows yielded from the clamped start carry over to the offset itself, as `BuiltOn` |
| RowSets.ShiftStaged | messytables/core.py:105-113 | likewise each yielded row's states are the staged initial states of raw row offset+j, and that raw row's cells hold the row's first states |
| RowSets.SkipN | messytables/core.py:106-107 | skipping n rows leaves the rows after the first n, in order, and nothing when there are at most n |
| RowSets.PipelineRows | messytables/core.py:105-113 | a pass with offset k over n rows yields max(n-k, 0) rows, the j-th being raw row k+j put through the stages |
| RowSets.PipelineUnconfigured | messytables/core.py:105-113 | with no offset, types or headers, a pass yields the raw rows unchanged |
| RowSets.RowSet.Dicts | messytables/core.py:115-119 | a TypeError, with no cell changed, exactly when headers are missing or empty; otherwise one dictionary per row of a pass, being `RowDict` of that row's processed state, with skipped rows left untouched |
| RowSets.ProjectRows | messytables/core.py:118-119 | one dictionary per row, each the `RowDict` of that row |
| RowSets.ProjectRow | messytables/core.py:119 | inserting a row's (column, value) pairs one by one yields `RowDict` of the row |
| RowSets.RowDict | messytables/core.py:119 | a row's dictionary has each key once and no more entries than the row has cells |
| RowSets.RowDictEntries | messytables/core.py:119 | a row's dictionary has each key once, its keys are exactly the cells' columns, and each key holds the value of the last cell with that column |
| RowSets.RowDictOrder | messytables/core.py:119 | a row's dictionary lists its keys in the order their columns first appear in the row |
| RowSets.RowDictHeaders | messytables/core.py:115-119 | with distinct non-empty headers at least as many as the cells, a bound row's dictionary has exactly the headers as keys, in order, each holding the value at its position |
| OrderedDicts.Put | messytables/core.py:119 | inserting a key keeps the key order when the key is present and appends it otherwise, and keeps keys unique |
| OrderedDicts.PutGet | messytables/core.py:119 | after inserting, the key maps to the new value and every other key to its old one |
| OrderedDicts.FromPairs | messytables/core.py:119 | a dictionary built from pairs has unique keys |
| OrderedDicts.FromPairsKeys | messytables/core.py:119 | a dictionary built from pairs has exactly the pairs' keys |
| OrderedDicts.FromPairsGet | messytables/core.py:119 | each key holds the value of the last pair with that key |
| OrderedDicts.FromPairsOrder | messytables/core.py:119 | keys stand in the order of their first occurrence among the pairs |
| OrderedDicts.FromPairsUnique | messytables/core.py:119 | pairs whose keys are already distinct are taken over unchanged |

## Left out

- `TableSet` has only empty stubs (`from_fileobj`, `tables`), so it is not modelled.
- The `__repr__` methods of `Cell` and `RowSet` are not modelled; they only produce text for display.
- `RowSet.raw()` is abstract in the core. The rows it would produce are a parameter of `Rows` and `Dicts`.
- Laziness is not modelled.
  - `__iter__` and `dicts()` are generators. The model produces a whole pass at once.
  - `dicts()` therefore raises its TypeError at the call rather than at the first `next()`.
- `messytables/types.py` is not part of this model. A concrete type is known only through its fallible `cast` function.
- The string type's `cast` is modelled as leaving `None` and strings alone and rendering any other value as text.
- Values other than `None`, strings and integers (floats, dates, booleans) are represented only by their text. The float and date formatting of `unicode()` is not modelled.
- `IsEmptyValue` uses one whitespace set for all strings: that of Python 2.7's `unicode.isspace`, whose tables follow Unicode 5.2 and include U+180E. Python 2 byte strings (`str`) strip only ASCII whitespace, and that difference is not modelled.
- `messytables/util.py` (`skip_n`) and `messytables/ordereddict.py` are not part of this model. `skip_n` is modelled as dropping the first n rows, and `OrderedDict` as a sequence of pairs in insertion order.
- Negative `row_offset` values are not modelled. `rowOffset` is an `Option<nat>`.
- A cell object appearing twice in the rows of a table is not modelled. The methods that write cells require the rows to be pairwise disjoint (`Distinct`, `AllDistinct`).
- Headers and column names are `Option<string>`. A non-string header object is not modelled.
- RowSets.RowSet.Rows: the postcondition describes the rows pointwise rather than as one equation with `Pipeline`. `PipelineRows` proves that this is the same description.
- RowSets.RowSet.Dicts: likewise pointwise, with `PipelineRows` as the link to `Pipeline`. It does not restate the states a pass leaves in the raw cells after the offset; `Rows` states those.
