/** The table engine and its row cursor. A worksheet is held in memory as a
    rectangular grid of cells (value plus fill colour), addressed from 1 as
    the engines address it; a cell read outside the grid is None and a row
    read outside it is the empty list. The read-only engine refuses every
    write, the writable one grows the grid as cells are written. */
module Engine {
  import opened Wrappers
  import opened Values

  /** The part of a cell format this model tracks: its solid fill. */
  datatype Fill = NoFill | Solid(color: string)

  datatype Cell = Cell(value: Value, fill: Fill)

  const EmptyCell: Cell := Cell(NoneVal, NoFill)

  /** `n` empty cells. */
  function Blank(n: nat): (r: seq<Cell>)
    ensures |r| == n
    ensures forall i :: 0 <= i < n ==> r[i] == EmptyCell
  {
    seq(n, _ => EmptyCell)
  }

  /** A row extended with empty cells to width `w`. */
  function PadTo(row: seq<Cell>, w: nat): (r: seq<Cell>)
    requires |row| <= w
    ensures |r| == w && r[..|row|] == row
    ensures forall j :: |row| <= j < w ==> r[j] == EmptyCell
  {
    row + Blank(w - |row|)
  }

  /** The values of a row of cells. */
  function RowValues(row: seq<Cell>): (r: seq<Value>)
    ensures |r| == |row|
    ensures forall i :: 0 <= i < |row| ==> r[i] == row[i].value
  {
    seq(|row|, i requires 0 <= i < |row| => row[i].value)
  }

  /** A worksheet: `cells[r - 1][c - 1]` is the cell in row r, column c. */
  datatype Sheet = Sheet(cells: seq<seq<Cell>>, width: nat) {

    /** Every row is as wide as the sheet. */
    ghost predicate Valid() {
      forall i :: 0 <= i < |cells| ==> |cells[i]| == width
    }

    function MaxRow(): nat { |cells| }

    function MaxCol(): nat { width }

    predicate InRange(r: int, c: int) {
      1 <= r <= |cells| && 1 <= c <= width
    }

    /** The cell at (r, c), or an empty one outside the grid. */
    function At(r: int, c: int): (x: Cell)
      requires Valid()
      ensures !InRange(r, c) ==> x == EmptyCell
    {
      if InRange(r, c) then cells[r - 1][c - 1] else EmptyCell
    }

    /** `get_cell_value(r, c)`. */
    function CellValue(r: int, c: int): Value
      requires Valid()
    {
      At(r, c).value
    }

    /** `get_row_values(r)`: the whole row, or `[]` outside the sheet. */
    function Row(r: int): (s: seq<Value>)
      requires Valid()
      ensures 1 <= r <= MaxRow() ==> |s| == MaxCol()
      ensures 1 <= r <= MaxRow() ==> forall c :: 1 <= c <= MaxCol() ==> s[c - 1] == CellValue(r, c)
      ensures !(1 <= r <= MaxRow()) ==> s == []
    {
      if 1 <= r <= |cells| then RowValues(cells[r - 1]) else []
    }

    /** The sheet with at least `rows` rows and `cols` columns; new cells
        are empty. */
    function Grown(rows: nat, cols: nat): (g: Sheet)
      requires Valid()
      ensures g.Valid()
      ensures g.MaxRow() == Max(MaxRow(), rows) && g.MaxCol() == Max(MaxCol(), cols)
      ensures forall i :: 0 <= i < |cells| ==> g.cells[i][..width] == cells[i]
      ensures forall i, j :: 0 <= i < |g.cells| && 0 <= j < g.width && !(i < |cells| && j < width) ==>
                g.cells[i][j] == EmptyCell
    {
      var w := Max(width, cols);
      var padded := seq(|cells|, i requires 0 <= i < |cells| => PadTo(cells[i], w));
      var extra := if rows > |cells| then seq(rows - |cells|, _ => Blank(w)) else [];
      assert forall i :: 0 <= i < |cells| ==> (padded + extra)[i] == padded[i];
      assert forall i :: |cells| <= i < |padded + extra| ==> (padded + extra)[i] == Blank(w);
      Sheet(padded + extra, w)
    }

    /** The sheet after writing `x` into (r, c), growing it to reach there. */
    function Put(r: int, c: int, x: Cell): (g: Sheet)
      requires Valid() && r >= 1 && c >= 1
      ensures g.Valid()
      ensures g.MaxRow() == Max(MaxRow(), r) && g.MaxCol() == Max(MaxCol(), c)
    {
      var h := Grown(r, c);
      Sheet(h.cells[r - 1 := h.cells[r - 1][c - 1 := x]], h.width)
    }

    /** `set_cell_value(r, c, v)` on the writable engine. */
    function WithValue(r: int, c: int, v: Value): Sheet
      requires Valid() && r >= 1 && c >= 1
    {
      Put(r, c, Cell(v, At(r, c).fill))
    }

    /** `set_cell_format(r, c, {"fill_color": color})`: an empty colour
        leaves the fill as it was, but the cell is still created. */
    function WithFill(r: int, c: int, color: string): Sheet
      requires Valid() && r >= 1 && c >= 1
    {
      Put(r, c, Cell(At(r, c).value, if color != "" then Solid(color) else At(r, c).fill))
    }

    /** `insert_rows(r)`: an empty row before row r, which moves row r and
        every later row one down; at or past the end there is nothing to
        move and the sheet is unchanged. */
    function WithBlankRow(r: int): (g: Sheet)
      requires Valid() && r >= 1
      ensures g.Valid()
      ensures g.MaxCol() == MaxCol()
      ensures g.MaxRow() == if r <= MaxRow() then MaxRow() + 1 else MaxRow()
    {
      if r <= |cells| then Sheet(cells[..r - 1] + [Blank(width)] + cells[r - 1..], width)
      else this
    }

    /** `set_row_values(r, vs)`: column by column from column 1. */
    function WithValues(r: int, vs: seq<Value>): (g: Sheet)
      requires Valid() && r >= 1
      ensures g.Valid()
      ensures g.MaxCol() >= MaxCol()
      ensures g.MaxRow() == if vs == [] then MaxRow() else Max(MaxRow(), r)
      decreases |vs|
    {
      if vs == [] then this
      else
        var h := WithValues(r, vs[..|vs| - 1]);
        h.WithValue(r, |vs|, vs[|vs| - 1])
    }

    /** `set_row_formats(r, colors)`: column by column from column 1. */
    function WithFills(r: int, colors: seq<string>): (g: Sheet)
      requires Valid() && r >= 1
      ensures g.Valid()
      ensures g.MaxCol() >= MaxCol()
      ensures g.MaxRow() == if colors == [] then MaxRow() else Max(MaxRow(), r)
      decreases |colors|
    {
      if colors == [] then this
      else
        var h := WithFills(r, colors[..|colors| - 1]);
        h.WithFill(r, |colors|, colors[|colors| - 1])
    }
  }

  // ------------------------------------------------------------------
  // What the writes do, read back through the getters
  // ------------------------------------------------------------------

  /** Writing a cell changes that cell and nothing else a reader can see:
      the cells a write creates read as empty, as they did before. */
  lemma PutReadBack(s: Sheet, r: int, c: int, x: Cell)
    requires s.Valid() && r >= 1 && c >= 1
    ensures s.Put(r, c, x).At(r, c) == x
    ensures forall r2, c2 :: (r2, c2) != (r, c) ==> s.Put(r, c, x).At(r2, c2) == s.At(r2, c2)
  {
    var h := s.Grown(r, c);
    forall r2, c2 | (r2, c2) != (r, c)
      ensures s.Put(r, c, x).At(r2, c2) == s.At(r2, c2)
    {
      if h.InRange(r2, c2) && s.InRange(r2, c2) {
        assert h.cells[r2 - 1][..s.width][c2 - 1] == s.cells[r2 - 1][c2 - 1];
      }
    }
  }

  /** A written value reads back; every other value and every fill stays. */
  lemma ValueReadBack(s: Sheet, r: int, c: int, v: Value)
    requires s.Valid() && r >= 1 && c >= 1
    ensures s.WithValue(r, c, v).CellValue(r, c) == v
    ensures s.WithValue(r, c, v).At(r, c).fill == s.At(r, c).fill
    ensures forall r2, c2 :: (r2, c2) != (r, c) ==> s.WithValue(r, c, v).At(r2, c2) == s.At(r2, c2)
  {
    PutReadBack(s, r, c, Cell(v, s.At(r, c).fill));
  }

  /** Formatting never changes a value. */
  lemma FillKeepsValues(s: Sheet, r: int, c: int, color: string)
    requires s.Valid() && r >= 1 && c >= 1
    ensures forall r2, c2 :: s.WithFill(r, c, color).CellValue(r2, c2) == s.CellValue(r2, c2)
    ensures color != "" ==> s.WithFill(r, c, color).At(r, c).fill == Solid(color)
  {
    var x := Cell(s.At(r, c).value, if color != "" then Solid(color) else s.At(r, c).fill);
    PutReadBack(s, r, c, x);
  }

  /** After `set_row_values(r, vs)` row r starts with `vs`, and every cell
      outside those columns reads as before. */
  lemma {:induction false} ValuesReadBack(s: Sheet, r: int, vs: seq<Value>)
    requires s.Valid() && r >= 1
    ensures forall c :: 1 <= c <= |vs| ==> s.WithValues(r, vs).CellValue(r, c) == vs[c - 1]
    ensures forall r2, c2 :: (r2 != r || !(1 <= c2 <= |vs|)) ==> s.WithValues(r, vs).At(r2, c2) == s.At(r2, c2)
    decreases |vs|
  {
    if vs != [] {
      var front := vs[..|vs| - 1];
      var h := s.WithValues(r, front);
      ValuesReadBack(s, r, front);
      ValueReadBack(h, r, |vs|, vs[|vs| - 1]);
      forall c | 1 <= c < |vs|
        ensures s.WithValues(r, vs).CellValue(r, c) == vs[c - 1]
      {
        assert s.WithValues(r, vs) == h.WithValue(r, |vs|, vs[|vs| - 1]);
        assert (r, c) != (r, |vs|);
        assert s.WithValues(r, vs).At(r, c) == h.At(r, c);
        assert h.CellValue(r, c) == front[c - 1];
        assert front[c - 1] == vs[c - 1];
      }
    }
  }

  /** Formatting a row changes no value anywhere. */
  lemma {:induction false} FillsKeepValues(s: Sheet, r: int, colors: seq<string>)
    requires s.Valid() && r >= 1
    ensures forall r2, c2 :: s.WithFills(r, colors).CellValue(r2, c2) == s.CellValue(r2, c2)
    decreases |colors|
  {
    if colors != [] {
      var front := colors[..|colors| - 1];
      FillsKeepValues(s, r, front);
      FillKeepsValues(s.WithFills(r, front), r, |colors|, colors[|colors| - 1]);
    }
  }

  /** After `set_row_formats(r, colors)` each formatted cell of row r
      has its colour, and every cell of another row is as it was. */
  lemma {:induction false} FillsReadBack(s: Sheet, r: int, colors: seq<string>)
    requires s.Valid() && r >= 1
    requires forall k :: 0 <= k < |colors| ==> colors[k] != ""
    ensures forall c :: 1 <= c <= |colors| ==> s.WithFills(r, colors).At(r, c).fill == Solid(colors[c - 1])
    ensures forall r2, c2 :: r2 != r ==> s.WithFills(r, colors).At(r2, c2) == s.At(r2, c2)
    decreases |colors|
  {
    if colors != [] {
      var front := colors[..|colors| - 1];
      var h := s.WithFills(r, front);
      var x := Cell(h.At(r, |colors|).value, Solid(colors[|colors| - 1]));
      FillsReadBack(s, r, front);
      PutReadBack(h, r, |colors|, x);
      forall c | 1 <= c < |colors|
        ensures s.WithFills(r, colors).At(r, c).fill == Solid(colors[c - 1])
      {
        assert h.At(r, c).fill == Solid(front[c - 1]);
      }
    }
  }

  /** Inserting a row before row r moves rows r.. one down and leaves an
      empty row at r; the rows above are untouched. */
  lemma BlankRowShifts(s: Sheet, r: int, r2: int, c: int)
    requires s.Valid() && 1 <= r <= s.MaxRow()
    ensures r2 < r ==> s.WithBlankRow(r).At(r2, c) == s.At(r2, c)
    ensures r2 == r ==> s.WithBlankRow(r).At(r2, c) == EmptyCell
    ensures r2 > r ==> s.WithBlankRow(r).At(r2, c) == s.At(r2 - 1, c)
  {
    var g := s.WithBlankRow(r);
    if 1 <= r2 <= g.MaxRow() && 1 <= c <= g.MaxCol() {
      if r2 < r {
        assert g.cells[r2 - 1] == s.cells[r2 - 1];
      } else if r2 > r {
        assert g.cells[r2 - 1] == s.cells[r2 - 2];
      }
    }
  }

  /** What a cursor insertion leaves behind: the new row at r holds the
      inserted values (empty past their end), the rows above are as they
      were, and every row from r on is found one further down. */
  lemma InsertedRow(s: Sheet, r: int, vs: seq<Value>, r2: int, c: int)
    requires s.Valid() && 1 <= r
    ensures var g := s.WithBlankRow(r).WithValues(r, vs);
      && (r2 < r ==> g.CellValue(r2, c) == s.CellValue(r2, c))
      && (r2 == r ==> g.CellValue(r2, c) == if 1 <= c <= |vs| then vs[c - 1] else NoneVal)
      && (r2 > r ==> g.CellValue(r2, c) == s.CellValue(r2 - 1, c))
  {
    var b := s.WithBlankRow(r);
    if r <= s.MaxRow() {
      BlankRowShifts(s, r, r2, c);
    }
    ValuesReadBack(b, r, vs);
  }

  // ------------------------------------------------------------------
  // The engine
  // ------------------------------------------------------------------

  /** A `TableEngine` over one worksheet. `engineReadOnly` distinguishes the
      read-only engine (every setter raises NotImplementedError) from the
      writable one; `fileReadOnly` is the workbook's own read-only flag.
      A writable (openpyxl) worksheet never reports fewer than one row or
      one column, even when empty. */
  class Table {
    var sheet: Sheet
    const engineReadOnly: bool
    const fileReadOnly: bool

    ghost predicate Valid()
      reads this
    {
      sheet.Valid()
    }

    /** The dimensions a writable worksheet reports are at least 1. */
    ghost predicate Nonempty()
      reads this
    {
      !engineReadOnly ==> sheet.MaxRow() >= 1 && sheet.MaxCol() >= 1
    }

    constructor (rows: seq<seq<Value>>, width: nat, engineReadOnly: bool, fileReadOnly: bool)
      requires forall i :: 0 <= i < |rows| ==> |rows[i]| == width
      requires !engineReadOnly ==> |rows| >= 1 && width >= 1
      ensures Valid() && Nonempty()
      ensures this.engineReadOnly == engineReadOnly && this.fileReadOnly == fileReadOnly
      ensures MaxRow() == |rows| && MaxCol() == width
      ensures forall r :: 1 <= r <= |rows| ==> GetRowValues(r) == rows[r - 1]
    {
      var cells := seq(|rows|, i requires 0 <= i < |rows| => seq(width, j requires 0 <= j < width => Cell(rows[i][j], NoFill)));
      sheet := Sheet(cells, width);
      this.engineReadOnly := engineReadOnly;
      this.fileReadOnly := fileReadOnly;
    }

    function MaxRow(): nat
      reads this
    {
      sheet.MaxRow()
    }

    function MaxCol(): nat
      reads this
    {
      sheet.MaxCol()
    }

    function GetCellValue(r: int, c: int): Value
      reads this
      requires Valid()
    {
      sheet.CellValue(r, c)
    }

    function GetRowValues(r: int): seq<Value>
      reads this
      requires Valid()
    {
      sheet.Row(r)
    }

    /** `is_readonly()`: the read-only engine always says so. */
    function IsReadonly(): (b: bool)
      reads this
      ensures engineReadOnly ==> b
    {
      engineReadOnly || fileReadOnly
    }

    /** `is_engine_readonly()` */
    function IsEngineReadonly(): bool
      reads this
    {
      engineReadOnly
    }

    /** The status of a write at (r, c) before it is tried. */
    function WriteCheck(r: int, c: int): (st: Status)
      reads this
      ensures st == Done <==> !engineReadOnly && r >= 1 && c >= 1
    {
      if engineReadOnly then Raised(NotImplementedError)
      else if r < 1 || c < 1 then Raised(ValueError)
      else Done
    }

    method SetCellValue(r: int, c: int, v: Value) returns (st: Status)
      requires Valid()
      modifies this
      ensures Valid()
      ensures st == WriteCheck(r, c)
      ensures sheet == if st.Done? then old(sheet).WithValue(r, c, v) else old(sheet)
    {
      st := WriteCheck(r, c);
      if st.Done? {
        sheet := sheet.WithValue(r, c, v);
      }
    }

    method AddRow(r: int) returns (st: Status)
      requires Valid()
      modifies this
      ensures Valid()
      ensures st == WriteCheck(r, 1)
      ensures sheet == if st.Done? then old(sheet).WithBlankRow(r) else old(sheet)
    {
      st := WriteCheck(r, 1);
      if st.Done? {
        sheet := sheet.WithBlankRow(r);
      }
    }

    /** `set_row_values(r, values)`: the read-only engine refuses at once;
        the writable one writes the values one cell at a time. */
    method SetRowValues(r: int, values: seq<Value>) returns (st: Status)
      requires Valid()
      modifies this
      ensures Valid()
      ensures st == if values == [] && !engineReadOnly then Done else WriteCheck(r, 1)
      ensures sheet == if st.Done? && values != [] then old(sheet).WithValues(r, values) else old(sheet)
    {
      if engineReadOnly {
        return Raised(NotImplementedError);
      }
      var k := 0;
      st := Done;
      while k < |values|
        invariant 0 <= k <= |values|
        invariant Valid()
        invariant st == Done
        invariant k > 0 ==> r >= 1
        invariant sheet == if k == 0 then old(sheet) else old(sheet).WithValues(r, values[..k])
      {
        st := SetCellValue(r, k + 1, values[k]);
        if st.Raised? {
          return;
        }
        assert values[..k + 1][..k] == values[..k];
        k := k + 1;
      }
      assert values[..k] == values;
    }

    method SetCellFormat(r: int, c: int, color: string) returns (st: Status)
      requires Valid()
      modifies this
      ensures Valid()
      ensures st == WriteCheck(r, c)
      ensures sheet == if st.Done? then old(sheet).WithFill(r, c, color) else old(sheet)
    {
      st := WriteCheck(r, c);
      if st.Done? {
        sheet := sheet.WithFill(r, c, color);
      }
    }

    /** `set_row_formats(r, formats)` with each format given by its fill
        colour. */
    method SetRowFormats(r: int, colors: seq<string>) returns (st: Status)
      requires Valid()
      modifies this
      ensures Valid()
      ensures st == if colors == [] && !engineReadOnly then Done else WriteCheck(r, 1)
      ensures sheet == if st.Done? && colors != [] then old(sheet).WithFills(r, colors) else old(sheet)
    {
      if engineReadOnly {
        return Raised(NotImplementedError);
      }
      var k := 0;
      st := Done;
      while k < |colors|
        invariant 0 <= k <= |colors|
        invariant Valid()
        invariant st == Done
        invariant k > 0 ==> r >= 1
        invariant sheet == if k == 0 then old(sheet) else old(sheet).WithFills(r, colors[..k])
      {
        st := SetCellFormat(r, k + 1, colors[k]);
        if st.Raised? {
          return;
        }
        assert colors[..k + 1][..k] == colors[..k];
        k := k + 1;
      }
      assert colors[..k] == colors;
    }
  }

  // ------------------------------------------------------------------
  // The row cursor
  // ------------------------------------------------------------------

  /** `TableRowEnumerator`: a cursor over the rows of one engine. `maxRow`
      is the engine's row count when the cursor was made, moved on only by
      the cursor's own insertions. */
  class RowEnumerator {
    const engine: Table
    var current: int
    var maxRow: int

    constructor (engine: Table, startRow: int)
      ensures this.engine == engine
      ensures current == startRow && maxRow == engine.MaxRow()
    {
      this.engine := engine;
      current := startRow;
      maxRow := engine.MaxRow();
    }

    /** The number of rows `next` will still yield. */
    function Remaining(): nat
      reads this
    {
      if current > maxRow then 0 else maxRow - current + 1
    }

    /** `next(enumerator)`: the current index and its row, or None where
        Python raises StopIteration. */
    method Next() returns (r: Option<(int, seq<Value>)>)
      requires engine.Valid()
      modifies this
      ensures maxRow == old(maxRow)
      ensures old(current) > old(maxRow) ==> r == None && current == old(current)
      ensures old(current) <= old(maxRow) ==>
        r == Some((old(current), engine.GetRowValues(old(current)))) && current == old(current) + 1
      ensures Remaining() == if old(Remaining()) == 0 then 0 else old(Remaining()) - 1
    {
      if current > maxRow {
        return None;
      }
      r := Some((current, engine.GetRowValues(current)));
      current := current + 1;
    }

    /** `add_row(values)`: inserts `values` as a new row at the cursor and
        steps over it, so the rows still to come are the same rows as
        before. The engine's refusal propagates and leaves the cursor as
        it was. */
    method AddRow(values: seq<Value>) returns (res: Result<int>)
      requires engine.Valid()
      modifies this, engine
      ensures engine.Valid()
      ensures res.Failure? <==> engine.WriteCheck(old(current), 1).Raised?
      ensures res.Failure? ==> res.error == engine.WriteCheck(old(current), 1).error
      ensures res.Failure? ==> current == old(current) && maxRow == old(maxRow) && engine.sheet == old(engine.sheet)
      ensures res.Success? ==>
        && res.value == old(current)
        && current == old(current) + 1 && maxRow == old(maxRow) + 1
        && engine.sheet == old(engine.sheet).WithBlankRow(old(current)).WithValues(old(current), values)
      ensures Remaining() == old(Remaining())
    {
      var st := engine.AddRow(current);
      if st.Raised? {
        return Failure(st.error);
      }
      st := engine.SetRowValues(current, values);
      res := Success(current);
      current := current + 1;
      maxRow := maxRow + 1;
    }

    /** `get_max_row()` */
    function GetMaxRow(): int
      reads this
    {
      maxRow
    }
  }

  /** The indices an untouched cursor yields, in order: `start .. maxRow`. */
  function Indices(start: int, maxRow: int): (s: seq<int>)
    ensures |s| == if start > maxRow then 0 else maxRow - start + 1
    ensures forall k :: 0 <= k < |s| ==> s[k] == start + k
    decreases maxRow - start
  {
    if start > maxRow then [] else [start] + Indices(start + 1, maxRow)
  }
}
