/** The cell: one observed value of a table, with the column it belongs to
    and the type it has been interpreted as (messytables/core.py, class Cell). */
module Cells {
  import opened Wrappers
  import opened Text

  /** A Python value held by a cell. Strings are kept as text; every other
      non-string value (a float, a date, a boolean, ...) is represented by
      what `unicode(value)` renders for it. */
  datatype Value =
    | Null                       // Python's None, the missing value
    | Str(s: string)             // a string (basestring)
    | Int(i: int)                // an integer
    | Other(rendering: string)   // any other value, by its rendering

  /** `unicode(value)`. */
  function Render(v: Value): string {
    match v
    case Null => "None"
    case Str(s) => s
    case Int(i) => IntToText(i)
    case Other(t) => t
  }

  /** A column type. `StringType` is the default type of every cell; any other
      type is known only through its fallible `cast`, where `None` stands for
      the exception a failed cast raises. */
  datatype ColumnType =
    | StringType
    | CustomType(name: string, cast: Value -> Option<Value>)

  /** `type.cast(value)`. The string type never fails: it keeps missing values
      and strings and renders any other value to text. */
  function Cast(t: ColumnType, v: Value): (r: Option<Value>)
    ensures t.StringType? ==> r.Some? && (v.Str? || v.Null? ==> r.value == v)
    ensures t.StringType? && r.Some? ==> Render(r.value) == Render(v)
  {
    match t
    case StringType => Some(if v.Null? then Null else Str(Render(v)))
    case CustomType(_, cast) => cast(v)
  }

  /** `Cell.empty`: the value is missing, or its text (the string itself, or
      the rendering of a non-string) is whitespace only. */
  predicate IsEmptyValue(v: Value)
    ensures IsEmptyValue(v) <==> v.Null? || AllWhitespace(Render(v))
    ensures v.Int? ==> !IsEmptyValue(v)
  {
    if v.Null? then true
    else
      var text := if v.Str? then v.s else Render(v);
      |Strip(text)| == 0
  }

  /** Missing values and whitespace-only strings are empty. */
  lemma EmptyExamples()
    ensures IsEmptyValue(Null) && IsEmptyValue(Str("")) && IsEmptyValue(Str(" \t "))
  {
  }

  /** A value with some visible character is not empty, even zero. */
  lemma NonEmptyExamples()
    ensures !IsEmptyValue(Str("0")) && !IsEmptyValue(Int(0)) && !IsEmptyValue(Str(" x "))
  {
    assert !IsWhitespace("0"[0]) && !IsWhitespace(" x "[1]);
    assert Render(Int(0)) == "0";
  }

  /** The fields of a cell at one moment: what the pipeline's specification
      is stated over. */
  datatype CellState = CellState(value: Value, column: Option<string>, autogenerated: bool, cellType: ColumnType)

  class Cell {
    var value: Value
    var column: Option<string>
    var columnAutogenerated: bool
    var cellType: ColumnType

    /** `Cell(value, column=None, type=None)`: an unset type becomes the string type. */
    constructor (value: Value, column: Option<string>, cellType: Option<ColumnType>)
      ensures this.value == value && this.column == column
      ensures !columnAutogenerated
      ensures this.cellType == (if cellType.None? then StringType else cellType.value)
    {
      this.value := value;
      this.column := column;
      this.columnAutogenerated := false;
      this.cellType := if cellType.None? then StringType else cellType.value;
    }

    /** `Cell.empty`. */
    predicate Empty()
      reads this
      ensures Empty() <==> value.Null? || AllWhitespace(Render(value))
    {
      IsEmptyValue(value)
    }

    ghost function State(): CellState
      reads this
    {
      CellState(value, column, columnAutogenerated, cellType)
    }
  }

  /** No cell object stands at two positions of a row. */
  predicate Distinct(row: seq<Cell>) {
    forall p, q :: 0 <= p < q < |row| ==> row[p] != row[q]
  }

  /** No cell object stands at two positions of a table. */
  predicate AllDistinct(rows: seq<seq<Cell>>) {
    && (forall j :: 0 <= j < |rows| ==> Distinct(rows[j]))
    && (forall j, j', c :: 0 <= j < j' < |rows| && c in rows[j] ==> c !in rows[j'])
  }

  /** `row` holds the cells of `base` first, in order, and possibly more after them. */
  predicate StartsWith(row: seq<Cell>, base: seq<Cell>) {
    |base| <= |row| && forall p {:trigger row[p]} :: 0 <= p < |base| ==> row[p] == base[p]
  }

  /** The cells of `row` past the end of `base`. */
  ghost function Past(row: seq<Cell>, base: seq<Cell>): (r: set<Cell>)
    ensures forall p :: |base| <= p < |row| ==> row[p] in r
  {
    set p | |base| <= p < |row| :: row[p]
  }

  /** Each row of `rows` is built on raw row `n + j`: it holds each cell
    once, starts with that raw row's cells and holds no raw cell after them. */
  ghost predicate BuiltOn(rows: seq<seq<Cell>>, raw: seq<seq<Cell>>, n: nat) {
    forall j :: 0 <= j < |rows| ==>
      && n + j < |raw|
      && Distinct(rows[j])
      && StartsWith(rows[j], raw[n + j])
      && forall p :: |raw[n + j]| <= p < |rows[j]| ==> rows[j][p] !in AllCells(raw)
  }

  ghost function CellsOf(row: seq<Cell>): set<Cell> {
    set c | c in row
  }

  ghost function AllCells(rows: seq<seq<Cell>>): set<Cell> {
    set row, c | row in rows && c in row :: c
  }

  /** The state of every cell of a row, in order. */
  ghost function Snap(row: seq<Cell>): seq<CellState>
    reads CellsOf(row)
  {
    seq(|row|, p requires 0 <= p < |row| reads CellsOf(row) => row[p].State())
  }
}
