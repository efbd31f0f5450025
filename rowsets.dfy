/** The row set: a table's raw rows pushed through three optional stages in a
    fixed order (skip `row_offset` rows, cast to the column types, bind the
    column headers), and the projection of the result to ordered dictionaries
    (messytables/core.py, class RowSet). */
module RowSets {
  import opened Wrappers
  import opened Text
  import opened Cells
  import opened OrderedDicts

  /** Python's `TypeError`, raised for a missing header configuration. */
  datatype Error = TypeError(message: string)

  /** `column_headers`: a list whose entries may themselves be `None`. */
  type Headers = seq<Option<string>>

  function Max(a: nat, b: nat): nat {
    if a < b then b else a
  }

  /** The element `izip_longest` pairs at position `p`: past the end of the
      shorter side it pads with `fill`. */
  function At<T>(s: seq<T>, p: nat, fill: T): T {
    if p < |s| then s[p] else fill
  }

  function Tail<T>(s: seq<T>): seq<T> {
    if s == [] then [] else s[1..]
  }

  // ---------------------------------------------------------------------
  // apply_types, specified on cell states

  /** One `try: cell.value = type.cast(cell.value); cell.type = type`: a
      failed cast leaves the cell as it was. */
  function CastCell(c: CellState, t: ColumnType): (r: CellState)
    ensures r.column == c.column && r.autogenerated == c.autogenerated
    ensures Cast(t, c.value).Some? ==> r.value == Cast(t, c.value).value && r.cellType == t
    ensures Cast(t, c.value).None? ==> r == c
  {
    match Cast(t, c.value)
    case Some(v) => c.(value := v, cellType := t)
    case None => c
  }

  /** The row after `apply_types` with the given types: positions paired with
      a type are cast; a position past the last type is paired with `None`,
      whose `cast` raises, and is left alone; a type past the last cell has
      no cell to change. */
  function TypeRow(row: seq<CellState>, types: seq<ColumnType>): (r: seq<CellState>)
    ensures |r| == |row|
    ensures forall p :: 0 <= p < |r| ==> r[p].column == row[p].column && r[p].autogenerated == row[p].autogenerated
    decreases |row|
  {
    if row == [] then []
    else
      var head := if types == [] then row[0] else CastCell(row[0], types[0]);
      [head] + TypeRow(row[1..], Tail(types))
  }

  lemma {:induction false} TypeRowAt(row: seq<CellState>, types: seq<ColumnType>, p: nat)
    ensures |TypeRow(row, types)| == |row|
    ensures p < |row| ==> TypeRow(row, types)[p] == if p < |types| then CastCell(row[p], types[p]) else row[p]
  {
    if row != [] {
      TypeRowAt(row[1..], Tail(types), if p == 0 then 0 else p - 1);
    }
  }

  /** What `apply_types` does to each cell: a successful cast replaces the value
      and the type, a failed or unpaired one changes nothing, and neither
      touches the column name or its autogenerated flag. */
  lemma TypeRowCells(row: seq<CellState>, types: seq<ColumnType>, p: nat)
    requires p < |row|
    ensures |TypeRow(row, types)| == |row|
    ensures var c := TypeRow(row, types)[p];
            && c.column == row[p].column
            && c.autogenerated == row[p].autogenerated
            && (p < |types| && Cast(types[p], row[p].value).Some? ==>
                  c.value == Cast(types[p], row[p].value).value && c.cellType == types[p])
            && (p >= |types| || Cast(types[p], row[p].value).None? ==> c == row[p])
  {
    TypeRowAt(row, types, p);
  }

  /** A string column never fails to cast: afterwards the cell has the string
      type and a value with the same text. */
  lemma TypeRowStringColumn(row: seq<CellState>, types: seq<ColumnType>, p: nat)
    requires p < |row| && p < |types| && types[p] == StringType
    ensures |TypeRow(row, types)| == |row|
    ensures TypeRow(row, types)[p].cellType == StringType
    ensures Render(TypeRow(row, types)[p].value) == Render(row[p].value)
  {
    TypeRowAt(row, types, p);
  }

  // ---------------------------------------------------------------------
  // apply_headers, specified on cell states

  /** `"column_%d" % i`. */
  function AutoName(i: nat): string {
    "column_" + NatToText(i)
  }

  /** A header that binds as given: not `None` and not the empty string. */
  predicate Usable(header: Option<string>) {
    header.Some? && |header.value| > 0
  }

  /** The fresh `Cell(None)` that pads a row shorter than its headers. */
  function BlankCell(): CellState {
    CellState(Null, None, false, StringType)
  }

  /** `cell.column = header`, then the fallback to an invented name. The flag
      is only ever set, never cleared. */
  function BindCell(c: CellState, header: Option<string>, i: nat): CellState {
    if Usable(header) then c.(column := header)
    else c.(column := Some(AutoName(i)), autogenerated := true)
  }

  /** `enumerate(izip_longest(row, headers))` from index `i` on. */
  function BindFrom(row: seq<CellState>, headers: Headers, i: nat): (r: seq<CellState>)
    ensures |r| == Max(|row|, |headers|)
    decreases |row| + |headers|
  {
    if row == [] && headers == [] then []
    else
      var cell := if row == [] then BlankCell() else row[0];
      var header := if headers == [] then None else headers[0];
      [BindCell(cell, header, i)] + BindFrom(Tail(row), Tail(headers), i + 1)
  }

  /** `apply_headers` on cell states: one cell per position of the longer of
      row and headers, each with a non-empty column name, the row's own
      cells keeping their value and type. */
  function BindHeaders(row: seq<CellState>, headers: Headers): (r: seq<CellState>)
    ensures |r| == Max(|row|, |headers|)
    ensures forall p :: 0 <= p < |r| ==> Usable(r[p].column)
    ensures forall p :: 0 <= p < |row| ==> r[p].value == row[p].value && r[p].cellType == row[p].cellType
  {
    BindFromShape(row, headers);
    BindFrom(row, headers, 0)
  }

  lemma BindFromShape(row: seq<CellState>, headers: Headers)
    ensures forall p :: 0 <= p < |BindFrom(row, headers, 0)| ==> Usable(BindFrom(row, headers, 0)[p].column)
    ensures forall p :: 0 <= p < |row| ==>
              BindFrom(row, headers, 0)[p].value == row[p].value && BindFrom(row, headers, 0)[p].cellType == row[p].cellType
  {
    forall p | 0 <= p < Max(|row|, |headers|)
      ensures BindFrom(row, headers, 0)[p] == BindCell(At(row, p, BlankCell()), At(headers, p, None), p)
    {
      BindFromAt(row, headers, 0, p);
    }
  }

  lemma {:induction false} BindFromAt(row: seq<CellState>, headers: Headers, i: nat, p: nat)
    ensures |BindFrom(row, headers, i)| == Max(|row|, |headers|)
    ensures p < Max(|row|, |headers|) ==>
              BindFrom(row, headers, i)[p] == BindCell(At(row, p, BlankCell()), At(headers, p, None), i + p)
    decreases |row| + |headers|
  {
    if row != [] || headers != [] {
      BindFromAt(Tail(row), Tail(headers), i + 1, if p == 0 then 0 else p - 1);
      if p > 0 {
        assert At(Tail(row), p - 1, BlankCell()) == At(row, p, BlankCell());
        assert At(Tail(headers), p - 1, None) == At(headers, p, None);
      }
    }
  }

  /** What `apply_headers` produces: one cell per position of the longer of
      row and headers; the row's cells keep their value and type and the
      padding cells are blank strings; a usable header is bound as given,
      anything else gets `column_<p>` and the autogenerated flag; so no cell
      is left without a non-empty column name. */
  lemma BindHeadersCells(row: seq<CellState>, headers: Headers, p: nat)
    requires p < Max(|row|, |headers|)
    ensures |BindHeaders(row, headers)| == Max(|row|, |headers|)
    ensures var c := BindHeaders(row, headers)[p];
            && (p < |row| ==> c.value == row[p].value && c.cellType == row[p].cellType)
            && (p >= |row| ==> c.value == Null && c.cellType == StringType)
            && (p < |headers| && Usable(headers[p]) ==>
                  c.column == headers[p] && c.autogenerated == (p < |row| && row[p].autogenerated))
            && (!(p < |headers| && Usable(headers[p])) ==> c.column == Some(AutoName(p)) && c.autogenerated)
            && Usable(c.column)
  {
    BindFromAt(row, headers, 0, p);
  }

  /** Binding a row that is already bound to the same headers changes
      nothing: a second pass over the same cell objects names them alike. */
  lemma BindHeadersIdempotent(row: seq<CellState>, headers: Headers)
    ensures BindHeaders(BindHeaders(row, headers), headers) == BindHeaders(row, headers)
  {
    var once := BindHeaders(row, headers);
    BindFromAt(row, headers, 0, 0);
    BindFromAt(once, headers, 0, 0);
    forall p | 0 <= p < |once| ensures BindHeaders(once, headers)[p] == once[p] {
      BindFromAt(row, headers, 0, p);
      BindFromAt(once, headers, 0, p);
    }
  }

  /** A row whose every position holds what `BindHeaders` puts there is the
      bound row. */
  lemma BindHeadersPointwise(row: seq<CellState>, headers: Headers, s: seq<CellState>)
    requires |s| == Max(|row|, |headers|)
    requires forall p :: 0 <= p < |s| ==> s[p] == BindCell(At(row, p, BlankCell()), At(headers, p, None), p)
    ensures s == BindHeaders(row, headers)
  {
    BindFromAt(row, headers, 0, 0);
    forall p | 0 <= p < |s| ensures s[p] == BindHeaders(row, headers)[p] {
      BindFromAt(row, headers, 0, p);
    }
  }

  /** Invented names differ between positions, so repeated passes over rows
      of the same shape invent the same names and never two equal ones. */
  lemma AutoNameInjective(p: nat, q: nat)
    ensures AutoName(p) == AutoName(q) <==> p == q
  {
    if AutoName(p) == AutoName(q) {
      assert NatToText(p) == AutoName(p)[|"column_"|..];
      assert NatToText(q) == AutoName(q)[|"column_"|..];
      NatToTextInjective(p, q);
    }
  }

  // ---------------------------------------------------------------------
  // __iter__, specified on cell states

  /** What one raw row becomes: cast if types are set, then bound if headers
      are set; an unset stage passes the row through. */
  function Stage(types: Option<seq<ColumnType>>, headers: Option<Headers>, row: seq<CellState>): (r: seq<CellState>)
    ensures |r| == if headers.Some? then Max(|row|, |headers.value|) else |row|
  {
    var typed := if types.Some? then TypeRow(row, types.value) else row;
    if headers.Some? then BindHeaders(typed, headers.value) else typed
  }

  /** What the stages promise cell by cell: with headers every cell ends up
      with a non-empty column name; without them the columns and flags stay;
      without types the values and types of the row's cells stay. */
  lemma StageCells(types: Option<seq<ColumnType>>, headers: Option<Headers>, row: seq<CellState>, p: nat)
    requires p < |Stage(types, headers, row)|
    ensures headers.Some? ==> Usable(Stage(types, headers, row)[p].column)
    ensures headers.None? ==> Stage(types, headers, row)[p].column == row[p].column
                              && Stage(types, headers, row)[p].autogenerated == row[p].autogenerated
    ensures types.None? && p < |row| ==> Stage(types, headers, row)[p].value == row[p].value
                                          && Stage(types, headers, row)[p].cellType == row[p].cellType
  {
  }

  function StageAll(types: Option<seq<ColumnType>>, headers: Option<Headers>, rows: seq<seq<CellState>>): seq<seq<CellState>> {
    if rows == [] then [] else [Stage(types, headers, rows[0])] + StageAll(types, headers, rows[1..])
  }

  /** `skip_n(rows, n)`: without the first `n` rows; nothing if there are fewer. */
  function SkipN<T>(rows: seq<T>, n: nat): (r: seq<T>)
    ensures |r| == if n <= |rows| then |rows| - n else 0
    ensures forall j :: 0 <= j < |r| ==> r[j] == rows[n + j]
  {
    if n >= |rows| then [] else rows[n..]
  }

  function OffsetOf(offset: Option<nat>): nat {
    if offset.Some? then offset.value else 0
  }

  /** The rows one pass of iteration yields. */
  function Pipeline(offset: Option<nat>, types: Option<seq<ColumnType>>, headers: Option<Headers>,
                    raw: seq<seq<CellState>>): seq<seq<CellState>>
  {
    StageAll(types, headers, if offset.Some? then SkipN(raw, offset.value) else raw)
  }

  lemma {:induction false} StageAllAt(types: Option<seq<ColumnType>>, headers: Option<Headers>,
                                      rows: seq<seq<CellState>>, j: nat)
    ensures |StageAll(types, headers, rows)| == |rows|
    ensures j < |rows| ==> StageAll(types, headers, rows)[j] == Stage(types, headers, rows[j])
  {
    if rows != [] {
      var rest := StageAll(types, headers, rows[1..]);
      assert StageAll(types, headers, rows) == [Stage(types, headers, rows[0])] + rest;
      StageAllAt(types, headers, rows[1..], if j == 0 then 0 else j - 1);
      if 0 < j < |rows| {
        assert rows[1..][j - 1] == rows[j];
        assert ([Stage(types, headers, rows[0])] + rest)[j] == rest[j - 1];
      }
    }
  }

  /** A pass with offset `k` over `n` raw rows yields `max(n - k, 0)` rows, the
      `j`-th being raw row `k + j` put through the stages. */
  lemma PipelineRows(offset: Option<nat>, types: Option<seq<ColumnType>>, headers: Option<Headers>,
                     raw: seq<seq<CellState>>, j: nat)
    ensures |Pipeline(offset, types, headers, raw)| == if OffsetOf(offset) <= |raw| then |raw| - OffsetOf(offset) else 0
    ensures j < |Pipeline(offset, types, headers, raw)| ==>
              Pipeline(offset, types, headers, raw)[j] == Stage(types, headers, raw[OffsetOf(offset) + j])
  {
    var k := OffsetOf(offset);
    var kept := if offset.Some? then SkipN(raw, offset.value) else raw;
    assert |kept| == if k <= |raw| then |raw| - k else 0;
    assert forall q :: 0 <= q < |kept| ==> kept[q] == raw[k + q];
    StageAllAt(types, headers, kept, j);
  }

  /** With nothing configured, iteration yields the raw rows as they are. */
  lemma {:induction false} PipelineUnconfigured(raw: seq<seq<CellState>>)
    ensures Pipeline(None, None, None, raw) == raw
  {
    if raw != [] {
      PipelineUnconfigured(raw[1..]);
    }
  }

  // ---------------------------------------------------------------------
  // dicts, specified on cell states

  /** `[(c.column, c.value) for c in row]`. */
  function RowPairs(row: seq<CellState>): seq<(Option<string>, Value)> {
    seq(|row|, p requires 0 <= p < |row| => (row[p].column, row[p].value))
  }

  /** `OrderedDict([(c.column, c.value) for c in row])` on cell states. */
  function RowDict(row: seq<CellState>): (d: Dict<Option<string>, Value>)
    ensures UniqueKeys(d)
    ensures |d| <= |row|
  {
    FromPairs(RowPairs(row))
  }

  /** The dictionary of a row: its keys are the cells' columns, in order of
      first appearance, each once; each key maps to the value of the last
      cell carrying it. */
  lemma RowDictEntries(row: seq<CellState>, k: Option<string>)
    ensures UniqueKeys(RowDict(row))
    ensures k in Keys(RowDict(row)) <==> exists p :: 0 <= p < |row| && row[p].column == k
    ensures Get(RowDict(row), k) == LastValue(RowPairs(row), k)
  {
    FromPairsKeys(RowPairs(row), k);
    FromPairsGet(RowPairs(row), k);
    assert forall p :: 0 <= p < |row| ==> Keys(RowPairs(row))[p] == row[p].column;
  }

  /** Keys of the dictionary of a row stand in the order their columns first
      appear in the row. */
  lemma RowDictOrder(row: seq<CellState>, p: nat, q: nat)
    requires p < q < |RowDict(row)|
    ensures RowDict(row)[p].0 in Keys(RowPairs(row)) && RowDict(row)[q].0 in Keys(RowPairs(row))
    ensures FirstIndex(Keys(RowPairs(row)), RowDict(row)[p].0) < FirstIndex(Keys(RowPairs(row)), RowDict(row)[q].0)
  {
    FromPairsOrder(RowPairs(row), p, q);
  }

  /** With distinct, usable headers at least as many as the cells, the
      dictionary of a bound row has exactly the headers as keys, in order,
      each holding the value at its position (`None` past the row's end). */
  lemma RowDictHeaders(row: seq<CellState>, headers: Headers)
    requires |row| <= |headers|
    requires forall p :: 0 <= p < |headers| ==> Usable(headers[p])
    requires forall p, q :: 0 <= p < q < |headers| ==> headers[p] != headers[q]
    ensures Keys(RowDict(BindHeaders(row, headers))) == headers
    ensures forall p :: 0 <= p < |headers| ==> RowDict(BindHeaders(row, headers))[p].1 == At(row, p, BlankCell()).value
  {
    var bound := BindHeaders(row, headers);
    BindFromAt(row, headers, 0, 0);
    var ps := RowPairs(bound);
    forall p | 0 <= p < |headers| ensures ps[p] == (headers[p], At(row, p, BlankCell()).value) {
      BindFromAt(row, headers, 0, p);
    }
    assert UniqueKeys(ps) by {
      forall p, q | 0 <= p < q < |ps| ensures ps[p].0 != ps[q].0 {
        assert ps[p].0 == headers[p] && ps[q].0 == headers[q];
      }
    }
    FromPairsUnique(ps);
    assert Keys(ps) == headers;
  }

  // ---------------------------------------------------------------------
  // The row set itself

  /** A row whose cells were not written has the same state as before. */
  twostate lemma SnapUnchanged(row: seq<Cell>)
    requires forall c :: c in row ==> unchanged(c)
    ensures Snap(row) == old(Snap(row))
  {
    forall p | 0 <= p < |row| ensures Snap(row)[p] == old(Snap(row))[p] {
      assert row[p] in row;
    }
  }

  /** Appending a row that holds each cell once and starts with the next raw
    row keeps every yielded row so: holding each cell once, starting with its
    raw row, and equal to it while rows are not bound. */
  lemma StartsWithAppend(raw: seq<seq<Cell>>, k: nat, i: nat, rows: seq<seq<Cell>>, rows': seq<seq<Cell>>, bound: bool)
    requires k <= i < |raw| && |rows| == i - k && |rows'| == i + 1 - k
    requires forall q :: 0 <= q < |rows| ==> Distinct(rows[q])
    requires forall q :: 0 <= q < |rows| ==> StartsWith(rows[q], raw[k + q])
    requires !bound ==> forall q :: 0 <= q < |rows| ==> rows[q] == raw[k + q]
    requires forall q :: 0 <= q < |rows| ==> rows'[q] == rows[q]
    requires Distinct(rows'[|rows|]) && StartsWith(rows'[|rows|], raw[i])
    requires !bound ==> rows'[|rows|] == raw[i]
    ensures forall q :: 0 <= q < |rows'| ==> Distinct(rows'[q])
    ensures forall q :: 0 <= q < |rows'| ==> StartsWith(rows'[q], raw[k + q])
    ensures !bound ==> forall q :: 0 <= q < |rows'| ==> rows'[q] == raw[k + q]
  {
  }

  /** A yielded row that holds each cell once, starts with its raw row's
    cells and holds no cell of another raw row has no raw cell past the raw
    row's end. */
  lemma PaddingNotRaw(raw: seq<seq<Cell>>, k: nat, rows: seq<seq<Cell>>)
    requires k + |rows| <= |raw|
    requires forall q :: 0 <= q < |rows| ==> Distinct(rows[q])
    requires forall q, c :: 0 <= q < |rows| && c in rows[q] ==> c in raw[k + q] || c !in AllCells(raw)
    requires forall q :: 0 <= q < |rows| ==> StartsWith(rows[q], raw[k + q])
    ensures forall q, p :: 0 <= q < |rows| && |raw[k + q]| <= p < |rows[q]| ==> rows[q][p] !in AllCells(raw)
  {
    forall q, p | 0 <= q < |rows| && |raw[k + q]| <= p < |rows[q]| ensures rows[q][p] !in AllCells(raw) {
      var row, base := rows[q], raw[k + q];
      forall p' | 0 <= p' < |base| ensures base[p'] != row[p] {
        assert row[p'] == base[p'];
      }
      assert row[p] in row;
    }
  }

  /** The facts about the rows yielded from raw row `k` on, restated from `n`
    on, which is the same start whenever anything was yielded. */
  lemma ShiftYielded(raw: seq<seq<Cell>>, k: nat, n: nat, rows: seq<seq<Cell>>, bound: bool)
    requires k + |rows| <= |raw| && (|rows| > 0 ==> k == n)
    requires forall q :: 0 <= q < |rows| ==> Distinct(rows[q])
    requires forall q, p :: 0 <= q < |rows| && |raw[k + q]| <= p < |rows[q]| ==> rows[q][p] !in AllCells(raw)
    requires forall q :: 0 <= q < |rows| ==> StartsWith(rows[q], raw[k + q])
    requires !bound ==> forall q :: 0 <= q < |rows| ==> rows[q] == raw[k + q]
    ensures BuiltOn(rows, raw, n)
    ensures !bound ==> forall j :: 0 <= j < |rows| ==> rows[j] == raw[n + j]
  {
  }

  /** A row that holds each cell once and starts with the cells of `base`
    holds no cell of `base` after them. */
  lemma PastNotIn(row: seq<Cell>, base: seq<Cell>)
    requires Distinct(row) && StartsWith(row, base)
    ensures forall p :: |base| <= p < |row| ==> row[p] !in base
  {
    forall p | |base| <= p < |row| ensures row[p] !in base {
      forall p' | 0 <= p' < |base| ensures base[p'] != row[p] {
        assert row[p'] == base[p'];
      }
    }
  }

  /** The cells of rows yielded so far past their raw rows' ends, and those
    of one more row, lie in the cells made so far and that row's new ones. */
  lemma PastAppend(raw: seq<seq<Cell>>, k: nat, i: nat, rows: seq<seq<Cell>>, rows': seq<seq<Cell>>,
                    made: set<Cell>, made': set<Cell>)
    requires i == k + |rows| && |rows'| == |rows| + 1 && i < |raw|
    requires forall q :: 0 <= q < |rows| ==> rows'[q] == rows[q]
    requires forall q :: 0 <= q < |rows| ==> Past(rows[q], raw[k + q]) <= made
    requires made' == made + Past(rows'[|rows|], raw[i])
    ensures forall q :: 0 <= q < |rows'| ==> Past(rows'[q], raw[k + q]) <= made'
  {
  }

  /** The states of the cells a row starts with are the row's first states. */
  lemma SnapPrefix(row: seq<Cell>, base: seq<Cell>)
    requires StartsWith(row, base)
    ensures Snap(base) == Snap(row)[..|base|]
  {
  }

  /** The states of rows yielded from raw row `k` on, restated from raw row
    `n` on (the two agree whenever a row was yielded): each row's states are
    the staged initial states of its raw row, and that raw row's cells hold
    the row's first states. */
  lemma ShiftStaged(types: Option<seq<ColumnType>>, headers: Option<Headers>, raw: seq<seq<Cell>>,
                    init: seq<seq<CellState>>, k: nat, n: nat, rows: seq<seq<Cell>>)
    requires k + |rows| <= |raw| && |init| == |raw| && (|rows| > 0 ==> k == n)
    requires forall q :: 0 <= q < |rows| ==> Snap(rows[q]) == Stage(types, headers, init[k + q])
    requires forall q :: 0 <= q < |rows| ==> StartsWith(rows[q], raw[k + q])
    ensures forall j :: 0 <= j < |rows| ==> Snap(rows[j]) == Stage(types, headers, init[n + j])
    ensures forall j :: 0 <= j < |rows| && StartsWith(rows[j], raw[n + j]) ==>
              Snap(raw[n + j]) == Snap(rows[j])[..|raw[n + j]|]
  {
    forall j | 0 <= j < |rows| && StartsWith(rows[j], raw[n + j])
      ensures Snap(raw[n + j]) == Snap(rows[j])[..|raw[n + j]|]
    {
      SnapPrefix(rows[j], raw[k + j]);
    }
  }

  /** The loop body of `apply_headers` for the cell at position `i`. */
  method Bind(cell: Cell, header: Option<string>, i: nat)
    modifies cell
    ensures cell.State() == BindCell(old(cell.State()), header, i)
  {
    cell.column := header;
    if cell.column.None? || |cell.column.value| == 0 {
      cell.column := Some(AutoName(i));
      cell.columnAutogenerated := true;
    }
  }

  /** One step of `apply_headers`: binds the cell at position `|out|` (the
    row's own, or a fresh blank one past its end) and appends it to `out`. */
  method BindStep(row: seq<Cell>, headers: Headers, ghost before: seq<CellState>, out: seq<Cell>)
    returns (out': seq<Cell>)
    requires Distinct(row) && |before| == |row| && |out| < Max(|row|, |headers|)
    requires forall p :: 0 <= p < |out| && p < |row| ==> out[p] == row[p]
    requires forall p :: |row| <= p < |out| ==> out[p] !in row
    requires Distinct(out)
    requires forall p :: 0 <= p < |out| ==> out[p].State() == BindCell(At(before, p, BlankCell()), At(headers, p, None), p)
    requires forall p :: |out| <= p < |row| ==> row[p].State() == before[p]
    modifies if |out| < |row| then {row[|out|]} else {}
    ensures |out'| == |out| + 1 && out'[..|out|] == out
    ensures |out| < |row| ==> out'[|out|] == row[|out|]
    ensures |out| >= |row| ==> fresh(out'[|out|])
    ensures Distinct(out')
    ensures forall p :: 0 <= p < |out'| ==> out'[p].State() == BindCell(At(before, p, BlankCell()), At(headers, p, None), p)
    ensures forall p :: |out'| <= p < |row| ==> row[p].State() == before[p]
  {
    var i := |out|;
    var cell: Cell;
    if i < |row| {
      cell := row[i];
    } else {
      cell := new Cell(Null, None, None);
    }
    Bind(cell, if i < |headers| then headers[i] else None, i);
    out' := out + [cell];
  }

  class RowSet {
    var typed: bool
    var columnTypes: Option<seq<ColumnType>>
    var columnHeaders: Option<Headers>
    var rowOffset: Option<nat>

    /** The class attributes' defaults: untyped, no types, headers or offset. */
    constructor ()
      ensures !typed && columnTypes.None? && columnHeaders.None? && rowOffset.None?
    {
      typed := false;
      columnTypes := None;
      columnHeaders := None;
      rowOffset := None;
    }

    /** `column_types = types`: marks the row set typed even for an empty list. */
    method SetColumnTypes(types: Option<seq<ColumnType>>)
      modifies this
      ensures typed && GetColumnTypes() == types
      ensures columnHeaders == old(columnHeaders) && rowOffset == old(rowOffset)
    {
      typed := true;
      columnTypes := types;
    }

    /** `column_types`: whatever was last set. */
    function GetColumnTypes(): (r: Option<seq<ColumnType>>)
      reads this
      ensures r == columnTypes
    {
      columnTypes
    }

    /** `apply_types(row)`: best-effort cast of each cell in place; returns the
      same row. */
    method ApplyTypes(row: seq<Cell>) returns (r: seq<Cell>)
      requires Distinct(row)
      modifies CellsOf(row)
      ensures r == row
      ensures Snap(row) == if columnTypes.None? then old(Snap(row)) else TypeRow(old(Snap(row)), columnTypes.value)
    {
      r := row;
      if columnTypes.None? {
        return;
      }
      var types := columnTypes.value;
      ghost var before := Snap(row);
      var n := Max(|row|, |types|);
      var i := 0;
      while i < n
        invariant 0 <= i <= n
        invariant forall p :: 0 <= p < |row| ==>
                    row[p].State() == if p < i && p < |types| then CastCell(before[p], types[p]) else before[p]
      {
        if i < |row| && i < |types| {
          var cell := row[i];
          var cast := Cast(types[i], cell.value);
          if cast.Some? {
            cell.value := cast.value;
            cell.cellType := types[i];
          }
        }
        // Otherwise a cell or a type is `None`: the AttributeError is swallowed.
        i := i + 1;
      }
      TypeRowAt(before, types, 0);
      forall p | 0 <= p < |row| ensures Snap(row)[p] == TypeRow(before, types)[p] {
        TypeRowAt(before, types, p);
      }
    }

    /** `apply_headers(row)`: a new row holding the row's cells, padded with
      fresh blank cells, each given its column name. Without headers,
      `izip_longest` raises a TypeError before anything changes. */
    method ApplyHeaders(row: seq<Cell>) returns (r: Result<seq<Cell>, Error>)
      requires Distinct(row)
      modifies CellsOf(row)
      ensures r.Err? <==> columnHeaders.None?
      ensures r.Err? ==> Snap(row) == old(Snap(row))
      ensures r.Ok? ==> |r.value| == Max(|row|, |columnHeaders.value|)
      ensures r.Ok? ==> forall p :: 0 <= p < |row| ==> r.value[p] == row[p]
      ensures r.Ok? ==> forall p :: |row| <= p < |r.value| ==> fresh(r.value[p])
      ensures r.Ok? ==> Distinct(r.value)
      ensures r.Ok? ==> Snap(r.value) == BindHeaders(old(Snap(row)), columnHeaders.value)
    {
      if columnHeaders.None? {
        return Err(TypeError("izip_longest argument #2 must support iteration"));
      }
      var headers := columnHeaders.value;
      ghost var before := Snap(row);
      var out: seq<Cell> := [];
      var n := Max(|row|, |headers|);
      var i := 0;
      while i < n
        invariant 0 <= i <= n && |out| == i
        invariant forall p :: 0 <= p < i && p < |row| ==> out[p] == row[p]
        invariant forall p :: |row| <= p < i ==> fresh(out[p])
        invariant Distinct(out)
        invariant forall p :: 0 <= p < i ==> out[p].State() == BindCell(At(before, p, BlankCell()), At(headers, p, None), p)
        invariant forall p :: i <= p < |row| ==> row[p].State() == before[p]
      {
        out := BindStep(row, headers, before, out);
        i := i + 1;
      }
      BindHeadersPointwise(before, headers, Snap(out));
      r := Ok(out);
    }
  
    /** The body of the loop in `__iter__` for one row. */
    method ProcessRow(row: seq<Cell>) returns (out: seq<Cell>)
      requires Distinct(row)
      modifies CellsOf(row)
      ensures Snap(out) == Stage(columnTypes, columnHeaders, old(Snap(row)))
      ensures |row| <= |out| && out[..|row|] == row
      ensures columnHeaders.None? ==> out == row
      ensures Distinct(out)
      ensures forall c :: c in out ==> c in row || fresh(c)
    {
      out := row;
      if columnTypes.Some? {
        out := ApplyTypes(out);
      }
      if columnHeaders.Some? {
        var bound := ApplyHeaders(out);
        out := bound.value;
      }
    }

    /** One step of `__iter__`: processes raw row `i` and appends it to the
      rows yielded so far, keeping every other row as it was. `init` holds
      the states of the raw rows before the pass began. */
    method Step(raw: seq<seq<Cell>>, ghost init: seq<seq<CellState>>, k: nat, i: nat, rows: seq<seq<Cell>>)
      returns (rows': seq<seq<Cell>>)
      requires AllDistinct(raw) && |init| == |raw| && k <= i < |raw| && |rows| == i - k
      requires forall q :: 0 <= q < |rows| ==> Snap(rows[q]) == Stage(columnTypes, columnHeaders, init[k + q])
      requires forall q :: 0 <= q < |raw| && (q < k || i <= q) ==> Snap(raw[q]) == init[q]
      requires forall q, c :: 0 <= q < |rows| && c in rows[q] ==> c in raw[k + q] || c !in AllCells(raw)
      modifies CellsOf(raw[i])
      ensures |rows'| == i + 1 - k
      ensures forall q :: 0 <= q < |rows'| ==> Snap(rows'[q]) == Stage(columnTypes, columnHeaders, init[k + q])
      ensures forall q :: 0 <= q < |raw| && (q < k || i + 1 <= q) ==> Snap(raw[q]) == init[q]
      ensures forall q, c :: 0 <= q < |rows'| && c in rows'[q] ==> c in raw[k + q] || c !in AllCells(raw)
      ensures forall q :: 0 <= q < |rows| ==> rows'[q] == rows[q]
      ensures Distinct(rows'[|rows|]) && StartsWith(rows'[|rows|], raw[i])
      ensures columnHeaders.None? ==> rows'[|rows|] == raw[i]
      ensures fresh(Past(rows'[|rows|], raw[i]))
    {
      forall q, c | 0 <= q < |rows| && c in rows[q] ensures c !in raw[i] {
        assert c in raw[k + q] || c !in AllCells(raw);
      }
      var row := ProcessRowAt(raw, i, rows);
      rows' := rows + [row];
      assert rows'[|rows|] == row && k + |rows| == i;
      assert forall q :: 0 <= q < |rows| ==> rows'[q] == rows[q];
      forall q, c | 0 <= q < |rows'| && c in rows'[q] ensures c in raw[k + q] || c !in AllCells(raw) {
        if q < |rows| {
          assert c in rows[q];
        }
      }
    }

    /** Processing raw row `i` changes no other raw row and no row in `done`. */
    method ProcessRowAt(raw: seq<seq<Cell>>, i: nat, done: seq<seq<Cell>>) returns (row: seq<Cell>)
      requires AllDistinct(raw) && i < |raw|
      requires forall q, c :: 0 <= q < |done| && c in done[q] ==> c !in raw[i]
      modifies CellsOf(raw[i])
      ensures Snap(row) == Stage(columnTypes, columnHeaders, old(Snap(raw[i])))
      ensures Distinct(row) && StartsWith(row, raw[i])
      ensures columnHeaders.None? ==> row == raw[i]
      ensures forall c :: c in row ==> c in raw[i] || c !in AllCells(raw)
      ensures fresh(Past(row, raw[i]))
      ensures forall q :: 0 <= q < |done| ==> Snap(done[q]) == old(Snap(done[q]))
      ensures forall q :: 0 <= q < |raw| && q != i ==> Snap(raw[q]) == old(Snap(raw[q]))
    {
      label before:
      row := ProcessRow(raw[i]);
      PastNotIn(row, raw[i]);
      forall q | 0 <= q < |done| ensures Snap(done[q]) == old@before(Snap(done[q])) {
        forall c | c in done[q] ensures unchanged@before(c) {
          assert c !in raw[i];
        }
        SnapUnchanged@before(done[q]);
      }
      forall q | 0 <= q < |raw| && q != i ensures Snap(raw[q]) == old@before(Snap(raw[q])) {
        forall c | c in raw[q] ensures unchanged@before(c) {
          assert c !in raw[i];
        }
        SnapUnchanged@before(raw[q]);
      }
    }

    /** `__iter__`: one pass over the rows `raw()` produced. Skips `row_offset`
      rows, then casts each remaining row if column types are set and binds
      it if headers are set. Skipped rows are left untouched. */
    method Rows(raw: seq<seq<Cell>>) returns (rows: seq<seq<Cell>>)
      requires AllDistinct(raw)
      modifies AllCells(raw)
      ensures |rows| == |SkipN(raw, OffsetOf(rowOffset))|
      ensures forall j :: 0 <= j < |rows| ==>
                Snap(rows[j]) == Stage(columnTypes, columnHeaders, old(Snap(raw[OffsetOf(rowOffset) + j])))
      ensures BuiltOn(rows, raw, OffsetOf(rowOffset))
      ensures forall j :: 0 <= j < |rows| ==> fresh(Past(rows[j], raw[OffsetOf(rowOffset) + j]))
      ensures forall j :: 0 <= j < |rows| && StartsWith(rows[j], raw[OffsetOf(rowOffset) + j]) ==>
                Snap(raw[OffsetOf(rowOffset) + j]) == Snap(rows[j])[..|raw[OffsetOf(rowOffset) + j]|]
      ensures columnHeaders.None? ==> forall j :: 0 <= j < |rows| ==> rows[j] == raw[OffsetOf(rowOffset) + j]
      ensures forall j :: 0 <= j < |raw| && j < OffsetOf(rowOffset) ==> Snap(raw[j]) == old(Snap(raw[j]))
    {
      ghost var init := seq(|raw|, q requires 0 <= q < |raw| reads AllCells(raw) => Snap(raw[q]));
      assert forall q :: 0 <= q < |raw| ==> init[q] == old(Snap(raw[q]));
      var k := if OffsetOf(rowOffset) < |raw| then OffsetOf(rowOffset) else |raw|;
      rows := Pass(raw, init, k);
      assert |rows| > 0 ==> k == OffsetOf(rowOffset);
      ShiftYielded(raw, k, OffsetOf(rowOffset), rows, columnHeaders.Some?);
      ShiftStaged(columnTypes, columnHeaders, raw, init, k, OffsetOf(rowOffset), rows);
    }

    /** The loop of `__iter__` over the raw rows from `k` on, each processed
      and yielded in turn. `init` holds the states of the raw rows before the
      pass began. */
    method Pass(raw: seq<seq<Cell>>, ghost init: seq<seq<CellState>>, k: nat) returns (rows: seq<seq<Cell>>)
      requires AllDistinct(raw) && |init| == |raw| && k <= |raw|
      requires forall q :: 0 <= q < |raw| ==> Snap(raw[q]) == init[q]
      modifies AllCells(raw)
      ensures |rows| == |raw| - k
      ensures forall q :: 0 <= q < |rows| ==> Snap(rows[q]) == Stage(columnTypes, columnHeaders, init[k + q])
      ensures forall q :: 0 <= q < k ==> Snap(raw[q]) == init[q]
      ensures forall q :: 0 <= q < |rows| ==> Distinct(rows[q])
      ensures forall q, p :: 0 <= q < |rows| && |raw[k + q]| <= p < |rows[q]| ==> rows[q][p] !in AllCells(raw)
      ensures forall q :: 0 <= q < |rows| ==> StartsWith(rows[q], raw[k + q])
      ensures columnHeaders.None? ==> forall q :: 0 <= q < |rows| ==> rows[q] == raw[k + q]
      ensures forall q :: 0 <= q < |rows| ==> fresh(Past(rows[q], raw[k + q]))
    {
      rows := [];
      var i := k;
      ghost var made: set<Cell> := {};
      while i < |raw|
        invariant k <= i <= |raw| && |rows| == i - k
        invariant forall q :: 0 <= q < |rows| ==> Snap(rows[q]) == Stage(columnTypes, columnHeaders, init[k + q])
        invariant forall q :: 0 <= q < |raw| && (q < k || i <= q) ==> Snap(raw[q]) == init[q]
        invariant forall q :: 0 <= q < |rows| ==> Distinct(rows[q])
        invariant forall q, c :: 0 <= q < |rows| && c in rows[q] ==> c in raw[k + q] || c !in AllCells(raw)
        invariant forall q :: 0 <= q < |rows| ==> StartsWith(rows[q], raw[k + q])
        invariant columnHeaders.None? ==> forall q :: 0 <= q < |rows| ==> rows[q] == raw[k + q]
        invariant fresh(made) && forall q :: 0 <= q < |rows| ==> Past(rows[q], raw[k + q]) <= made
      {
        var rows' := Step(raw, init, k, i, rows);
        StartsWithAppend(raw, k, i, rows, rows', columnHeaders.Some?);
        ghost var made' := made + Past(rows'[|rows|], raw[i]);
        PastAppend(raw, k, i, rows, rows', made, made');
        rows, i, made := rows', i + 1, made';
      }
      assert forall q :: 0 <= q < |rows| ==> Past(rows[q], raw[k + q]) <= made;
      PaddingNotRaw(raw, k, rows);
    }

    /** `dicts()`: without headers, or with an empty header list, a TypeError
      before any row is read; otherwise one ordered dictionary per row of a
      pass. */
    method Dicts(raw: seq<seq<Cell>>) returns (r: Result<seq<Dict<Option<string>, Value>>, Error>)
      requires AllDistinct(raw)
      modifies AllCells(raw)
      ensures r.Err? <==> columnHeaders.None? || columnHeaders.value == []
      ensures r.Err? ==> unchanged(AllCells(raw))
      ensures r.Ok? ==> |r.value| == |SkipN(raw, OffsetOf(rowOffset))|
      ensures r.Ok? ==> forall j :: 0 <= j < |r.value| ==>
                r.value[j] == RowDict(Stage(columnTypes, columnHeaders, old(Snap(raw[OffsetOf(rowOffset) + j]))))
      ensures r.Ok? ==> forall j :: 0 <= j < |raw| && j < OffsetOf(rowOffset) ==> Snap(raw[j]) == old(Snap(raw[j]))
    {
      if columnHeaders.None? || |columnHeaders.value| == 0 {
        return Err(TypeError("No column headers are defined!"));
      }
      var rows := Rows(raw);
      label projected:
      var dicts := ProjectRows(rows);
      forall q | 0 <= q < |rows| ensures Snap(rows[q]) == old@projected(Snap(rows[q])) {
        SnapUnchanged@projected(rows[q]);
      }
      forall q | 0 <= q < |raw| ensures Snap(raw[q]) == old@projected(Snap(raw[q])) {
        SnapUnchanged@projected(raw[q]);
      }
      r := Ok(dicts);
    }
  }

  /** The list comprehension of `dicts()`: one dictionary per row. */
  method ProjectRows(rows: seq<seq<Cell>>) returns (dicts: seq<Dict<Option<string>, Value>>)
    ensures |dicts| == |rows|
    ensures forall q :: 0 <= q < |rows| ==> dicts[q] == RowDict(Snap(rows[q]))
  {
    dicts := [];
    var j := 0;
    while j < |rows|
      invariant 0 <= j <= |rows| && |dicts| == j
      invariant forall q :: 0 <= q < j ==> dicts[q] == RowDict(Snap(rows[q]))
    {
      label before:
      var d := ProjectRow(rows[j]);
      forall q | 0 <= q < j ensures Snap(rows[q]) == old@before(Snap(rows[q])) {
        SnapUnchanged@before(rows[q]);
      }
      dicts := dicts + [d];
      j := j + 1;
    }
  }

  /** `OrderedDict([(c.column, c.value) for c in row])`. */
  method ProjectRow(row: seq<Cell>) returns (d: Dict<Option<string>, Value>)
    ensures d == RowDict(Snap(row))
  {
    ghost var pairs := RowPairs(Snap(row));
    d := [];
    var i := 0;
    while i < |row|
      invariant 0 <= i <= |row|
      invariant d == FromPairs(pairs[..i])
    {
      assert pairs[..i + 1][..i] == pairs[..i];
      assert pairs[..i + 1][i] == pairs[i] == (row[i].column, row[i].value);
      d := Put(d, row[i].column, row[i].value);
      i := i + 1;
    }
    assert pairs[..|row|] == pairs;
  }
}
