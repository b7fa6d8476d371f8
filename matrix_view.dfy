/**
 * The pressure-matrix widget of matrix.py: the 4096-entry colour map, the grid of canvas
 * rectangles drawn row by row, the colour lookup with its size check, and the update that
 * recolours every rectangle. The Tk canvas is a log of the calls made on it.
 */
module MatrixView {
  import opened Wrappers
  import opened Bytes

  /** The number of colour-map entries, one per 12-bit value. */
  const COLOUR_MAP_SIZE: nat := 4096

  /**
   * `create_colourmap()`: entry i is `interpolate_colours(i)` for i in 0 .. 4095. The
   * floating-point colour interpolation itself is the parameter `interpolate`.
   */
  method CreateColourmap(interpolate: int -> string) returns (colourArray: seq<string>)
    ensures |colourArray| == COLOUR_MAP_SIZE
    ensures forall i :: 0 <= i < COLOUR_MAP_SIZE ==> colourArray[i] == interpolate(i)
  {
    colourArray := [];
    for i := 0 to 4096
      invariant |colourArray| == i
      invariant forall k :: 0 <= k < i ==> colourArray[k] == interpolate(k)
    {
      colourArray := colourArray + [interpolate(i)];
    }
  }

  /** A call on the Tk canvas. */
  datatype CanvasOp =
    | CreateRectangle(x1: int, y1: int, x2: int, y2: int)
    | CreatePressureCircle
    | FillItem(item: nat, colour: string)

  /** A Tk canvas: the calls made on it; items get the ids 1, 2, 3, ... in creation order. */
  class Canvas {
    var ops: seq<CanvasOp>
    var created: nat
    const reqWidth: nat
    const reqHeight: nat

    constructor (reqWidth: nat, reqHeight: nat)
      ensures ops == [] && created == 0 && this.reqWidth == reqWidth && this.reqHeight == reqHeight
    {
      ops, created := [], 0;
      this.reqWidth, this.reqHeight := reqWidth, reqHeight;
    }

    method AddRectangle(x1: int, y1: int, x2: int, y2: int) returns (item: nat)
      modifies this
      ensures ops == old(ops) + [CreateRectangle(x1, y1, x2, y2)]
      ensures created == old(created) + 1 && item == created
    {
      ops := ops + [CreateRectangle(x1, y1, x2, y2)];
      created := created + 1;
      item := created;
    }

    /** The hidden pressure circle; its floating-point coordinates are not modelled. */
    method AddPressureCircle() returns (item: nat)
      modifies this
      ensures ops == old(ops) + [CreatePressureCircle]
      ensures created == old(created) + 1 && item == created
    {
      ops := ops + [CreatePressureCircle];
      created := created + 1;
      item := created;
    }

    /** `itemconfig(item, fill=colour)` */
    method Fill(item: nat, colour: string)
      modifies this
      ensures ops == old(ops) + [FillItem(item, colour)] && created == old(created)
    {
      ops := ops + [FillItem(item, colour)];
    }
  }

  // ---------------------------------------------------------------------------------------
  // The grid

  /** The cells (row, col) of one row, left to right. */
  function RowCells(row: nat, columns: nat): (r: seq<(nat, nat)>)
    ensures |r| == columns
    ensures forall c :: 0 <= c < columns ==> r[c] == (row, c)
  {
    seq(columns, c requires 0 <= c < columns => (row, c))
  }

  /** The cells of rows 0 .. rows-1 in the order the nested `for` loops visit them. */
  function Cells(rows: nat, columns: nat): (r: seq<(nat, nat)>)
  {
    if rows == 0 then [] else Cells(rows - 1, columns) + RowCells(rows - 1, columns)
  }

  /** There are rows * columns cells and cell number r * columns + c is (r, c): row-major order. */
  lemma {:induction false} CellAt(rows: nat, columns: nat, r: nat, c: nat)
    ensures |Cells(rows, columns)| == rows * columns
    ensures r < rows && c < columns ==>
      r * columns + c < rows * columns && Cells(rows, columns)[r * columns + c] == (r, c)
  {
    if rows > 0 {
      CellAt(rows - 1, columns, r, c);
      assert rows * columns == (rows - 1) * columns + columns;
      if r < rows && c < columns {
        if r == rows - 1 {
          assert Cells(rows, columns)[r * columns + c] == RowCells(rows - 1, columns)[c];
        } else {
          assert r * columns + c < (rows - 1) * columns by {
            assert r * columns <= (rows - 2) * columns;
            assert (rows - 2) * columns + columns == (rows - 1) * columns;
          }
        }
      }
    }
  }

  /** Every cell of the grid lies inside it. */
  lemma {:induction false} CellsInGrid(rows: nat, columns: nat)
    ensures forall k :: 0 <= k < |Cells(rows, columns)| ==>
      Cells(rows, columns)[k].0 < rows && Cells(rows, columns)[k].1 < columns
  {
    if rows > 0 {
      CellsInGrid(rows - 1, columns);
    }
  }

  /** The rectangle of cell (r, c): from (c*w + 1, r*h + 1) to (c*w + 1 + w, r*h + 1 + h). */
  function RectFor(cell: (nat, nat), cellWidth: int, cellHeight: int): CanvasOp {
    var x1 := cell.1 * cellWidth + 1;
    var y1 := cell.0 * cellHeight + 1;
    CreateRectangle(x1, y1, x1 + cellWidth, y1 + cellHeight)
  }

  /** One rectangle per cell, in the order of the cells. */
  function DrawOps(cells: seq<(nat, nat)>, cellWidth: int, cellHeight: int): (r: seq<CanvasOp>)
    ensures |r| == |cells|
    ensures forall k :: 0 <= k < |cells| ==> r[k] == RectFor(cells[k], cellWidth, cellHeight)
  {
    seq(|cells|, k requires 0 <= k < |cells| => RectFor(cells[k], cellWidth, cellHeight))
  }

  lemma DrawOpsAppend(cells: seq<(nat, nat)>, cell: (nat, nat), cellWidth: int, cellHeight: int)
    ensures DrawOps(cells + [cell], cellWidth, cellHeight) ==
      DrawOps(cells, cellWidth, cellHeight) + [RectFor(cell, cellWidth, cellHeight)]
  {
  }

  /** Drawing cell (row, col) extends the walk by one rectangle. */
  lemma DrawStep(row: nat, col: nat, columns: nat, cellWidth: int, cellHeight: int)
    requires col < columns
    ensures DrawOps(Cells(row, columns) + RowCells(row, columns)[..col + 1], cellWidth, cellHeight)
      == DrawOps(Cells(row, columns) + RowCells(row, columns)[..col], cellWidth, cellHeight)
         + [RectFor((row, col), cellWidth, cellHeight)]
  {
    var done := Cells(row, columns) + RowCells(row, columns)[..col];
    NextCell(row, col, columns);
    DrawOpsAppend(done, (row, col), cellWidth, cellHeight);
  }

  lemma NextCell(row: nat, col: nat, columns: nat)
    requires col < columns
    ensures Cells(row, columns) + RowCells(row, columns)[..col + 1]
      == Cells(row, columns) + RowCells(row, columns)[..col] + [(row, col)]
  {
    var r := RowCells(row, columns);
    assert r[..col + 1] == r[..col] + [(row, col)];
  }

  lemma IdsAppend(start: nat, n: nat)
    ensures Ids(start, n + 1) == Ids(start, n) + [start + n + 1]
  {
  }

  /** The ids of `n` items created after `start` items. */
  function Ids(start: nat, n: nat): (r: seq<nat>)
    ensures |r| == n && forall k :: 0 <= k < n ==> r[k] == start + 1 + k
  {
    seq(n, k requires 0 <= k < n => start + 1 + k)
  }

  /** `edit_rectangle(row, col, colour)`: the fill it issues, if the index is in range. */
  function EditOps(rectangles: seq<nat>, columns: nat, row: int, col: int, colour: string): (r: seq<CanvasOp>)
    ensures |r| <= 1
    ensures r != [] <==> 0 <= row * columns + col < |rectangles|
    ensures r != [] ==> r[0] == FillItem(rectangles[row * columns + col], colour)
  {
    var index := row * columns + col;
    if 0 <= index < |rectangles| then [FillItem(rectangles[index], colour)] else []
  }

  /**
   * After `draw`, editing cell (r, c) of the grid fills the rectangle that was drawn for that
   * cell, at the coordinates of that cell.
   */
  lemma EditHitsDrawnCell(rows: nat, columns: nat, start: nat, cellWidth: int, cellHeight: int,
                          r: nat, c: nat, colour: string)
    requires r < rows && c < columns
    ensures var k := r * columns + c;
      && k < |Cells(rows, columns)|
      && EditOps(Ids(start, |Cells(rows, columns)|), columns, r, c, colour) == [FillItem(start + 1 + k, colour)]
      && DrawOps(Cells(rows, columns), cellWidth, cellHeight)[k] == RectFor((r, c), cellWidth, cellHeight)
  {
    CellAt(rows, columns, r, c);
  }

  /**
   * The index check does not look at the column: a column one past the last edits the first
   * cell of the next row.
   */
  lemma EditWrapsToNextRow(rows: nat, columns: nat, start: nat, r: nat, colour: string)
    requires r + 1 < rows && columns > 0
    ensures EditOps(Ids(start, |Cells(rows, columns)|), columns, r, columns, colour) ==
            EditOps(Ids(start, |Cells(rows, columns)|), columns, r + 1, 0, colour)
  {
    CellAt(rows, columns, r + 1, 0);
    assert r * columns + columns == (r + 1) * columns;
  }

  /** Indices outside the list are ignored. */
  lemma EditOutOfRangeIgnored(rectangles: seq<nat>, columns: nat, row: int, col: int, colour: string)
    requires row * columns + col < 0 || row * columns + col >= |rectangles|
    ensures EditOps(rectangles, columns, row, col, colour) == []
  {
  }

  // ---------------------------------------------------------------------------------------
  // Colour lookup

  /** Python list indexing: negative indices count from the end. */
  function PyIndex(value: int, length: nat): (r: Option<nat>)
    ensures r.Some? <==> -(length as int) <= value < length
    ensures r.Some? ==> r.value < length && (r.value == value || r.value == value + length)
  {
    if 0 <= value < length then Some(value)
    else if -(length as int) <= value < 0 then Some(value + length)
    else None
  }

  /**
   * `_check_matrix_size(matrix)`: the row count must match, and then only row 15 is checked
   * against the column count; with 15 rows or fewer that index raises IndexError.
   */
  function CheckMatrixSize(matrix: seq<seq<int>>, rows: nat, columns: nat): (r: Result<bool, Exception>)
    ensures |matrix| != rows ==> r == Success(false)
    ensures |matrix| == rows <= 15 ==> r == Failure(IndexError)
    ensures |matrix| == rows > 15 ==> r == Success(|matrix[15]| == columns)
  {
    if |matrix| != rows then Success(false)
    else if 15 >= |matrix| then Failure(IndexError)
    else Success(|matrix[15]| == columns)
  }

  /** Every value indexes the colour map. */
  predicate AllIndexable(matrix: seq<seq<int>>, length: nat) {
    forall i, j :: 0 <= i < |matrix| && 0 <= j < |matrix[i]| ==> PyIndex(matrix[i][j], length).Some?
  }

  /**
   * `match_colours(matrix_data)`: the colour of every value, row by row, when the size check
   * passes; `None` when it fails or a value is out of the map's range (the IndexError is
   * caught); the size check's own IndexError escapes.
   */
  function MatchColours(matrix: seq<seq<int>>, rows: nat, columns: nat, colourMap: seq<string>): (r: Result<Option<seq<seq<string>>>, Exception>)
    ensures r.Failure? ==> r.error == IndexError
    ensures r.Success? && r.value.Some? ==>
      |r.value.value| == |matrix| && forall i :: 0 <= i < |matrix| ==> |r.value.value[i]| == |matrix[i]|
  {
    match CheckMatrixSize(matrix, rows, columns)
    case Failure(e) => Failure(e)
    case Success(false) => Success(None)
    case Success(true) =>
      if !AllIndexable(matrix, |colourMap|) then Success(None)
      else Success(Some(seq(|matrix|, i requires 0 <= i < |matrix| =>
        seq(|matrix[i]|, j requires 0 <= j < |matrix[i]| => colourMap[PyIndex(matrix[i][j], |colourMap|).value]))))
  }

  /** The three outcomes of `match_colours`, each with the condition that leads to it. */
  lemma MatchColoursCases(matrix: seq<seq<int>>, rows: nat, columns: nat, colourMap: seq<string>)
    ensures var r := MatchColours(matrix, rows, columns, colourMap);
      && (r == Failure(IndexError) <==> |matrix| == rows <= 15)
      && (r == Success(None) <==>
            |matrix| != rows || (rows > 15 && (|matrix[15]| != columns || !AllIndexable(matrix, |colourMap|))))
      && (r.Success? && r.value.Some? ==>
            && rows > 15 && |matrix| == rows && |matrix[15]| == columns
            && |r.value.value| == rows
            && forall i :: 0 <= i < rows ==>
                 && |r.value.value[i]| == |matrix[i]|
                 && forall j :: 0 <= j < |matrix[i]| ==>
                      r.value.value[i][j] == colourMap[PyIndex(matrix[i][j], |colourMap|).value])
  {
  }

  /** Values 0 .. 4095 of a rows x columns matrix with more than 15 rows all find a colour. */
  lemma MatchColoursFullGrid(matrix: seq<seq<int>>, rows: nat, columns: nat, colourMap: seq<string>)
    requires rows > 15 && |colourMap| == COLOUR_MAP_SIZE && |matrix| == rows
    requires forall i :: 0 <= i < rows ==> |matrix[i]| == columns
    requires forall i, j :: 0 <= i < rows && 0 <= j < columns ==> 0 <= matrix[i][j] < COLOUR_MAP_SIZE
    ensures var r := MatchColours(matrix, rows, columns, colourMap);
      && r.Success? && r.value.Some?
      && forall i, j :: 0 <= i < rows && 0 <= j < columns ==> r.value.value[i][j] == colourMap[matrix[i][j]]
  {
    MatchColoursCases(matrix, rows, columns, colourMap);
  }

  // ---------------------------------------------------------------------------------------
  // update_matrix

  /** `colour_matrix[row][column]` exists. */
  predicate HasCell(colourMatrix: seq<seq<string>>, cell: (nat, nat)) {
    cell.0 < |colourMatrix| && cell.1 < |colourMatrix[cell.0]|
  }

  /** `colour_matrix[row][column]`, for a cell the matrix has. */
  function CellColour(colourMatrix: seq<seq<string>>, cell: (nat, nat)): string {
    if HasCell(colourMatrix, cell) then colourMatrix[cell.0][cell.1] else ""
  }

  /**
   * The fills of visiting `cells` in order, and whether the walk got through: it stops at the
   * first cell missing from the colour matrix, where `colour_matrix[row][column]` raises.
   */
  function UpdateEffect(cells: seq<(nat, nat)>, colourMatrix: seq<seq<string>>, rectangles: seq<nat>, columns: nat): (r: (seq<CanvasOp>, bool))
    ensures |r.0| <= |cells|
    ensures !r.1 ==> cells != []
  {
    if cells == [] then ([], true)
    else if !HasCell(colourMatrix, cells[0]) then ([], false)
    else
      var (rest, ok) := UpdateEffect(cells[1..], colourMatrix, rectangles, columns);
      (EditOps(rectangles, columns, cells[0].0, cells[0].1, colourMatrix[cells[0].0][cells[0].1]) + rest, ok)
  }

  /** The walk gets through exactly when the matrix has every cell of it. */
  lemma {:induction false} UpdateEffectCompletes(cells: seq<(nat, nat)>, colourMatrix: seq<seq<string>>, rectangles: seq<nat>, columns: nat)
    ensures UpdateEffect(cells, colourMatrix, rectangles, columns).1 <==>
      forall k :: 0 <= k < |cells| ==> HasCell(colourMatrix, cells[k])
  {
    if cells != [] {
      UpdateEffectCompletes(cells[1..], colourMatrix, rectangles, columns);
      assert forall k :: 1 <= k < |cells| ==> cells[1..][k - 1] == cells[k];
    }
  }

  lemma {:induction false} UpdateEffectAppend(cells: seq<(nat, nat)>, cell: (nat, nat), colourMatrix: seq<seq<string>>, rectangles: seq<nat>, columns: nat)
    requires UpdateEffect(cells, colourMatrix, rectangles, columns).1
    ensures var (ops, _) := UpdateEffect(cells, colourMatrix, rectangles, columns);
      UpdateEffect(cells + [cell], colourMatrix, rectangles, columns) ==
        if HasCell(colourMatrix, cell)
        then (ops + EditOps(rectangles, columns, cell.0, cell.1, colourMatrix[cell.0][cell.1]), true)
        else (ops, false)
  {
    if cells == [] {
      assert cells + [cell] == [cell] && [cell][1..] == [];
      if HasCell(colourMatrix, cell) {
        var extra := EditOps(rectangles, columns, cell.0, cell.1, colourMatrix[cell.0][cell.1]);
        assert extra + [] == [] + extra;
      }
    } else {
      assert (cells + [cell])[0] == cells[0];
      assert (cells + [cell])[1..] == cells[1..] + [cell];
      UpdateEffectAppend(cells[1..], cell, colourMatrix, rectangles, columns);
      var head := EditOps(rectangles, columns, cells[0].0, cells[0].1, colourMatrix[cells[0].0][cells[0].1]);
      var (rest, _) := UpdateEffect(cells[1..], colourMatrix, rectangles, columns);
      if HasCell(colourMatrix, cell) {
        var extra := EditOps(rectangles, columns, cell.0, cell.1, colourMatrix[cell.0][cell.1]);
        assert head + (rest + extra) == (head + rest) + extra;
      }
    }
  }

  /** Once the walk has stopped, visiting more cells changes nothing. */
  lemma {:induction false} UpdateEffectStopped(cells: seq<(nat, nat)>, more: seq<(nat, nat)>, colourMatrix: seq<seq<string>>, rectangles: seq<nat>, columns: nat)
    requires !UpdateEffect(cells, colourMatrix, rectangles, columns).1
    ensures UpdateEffect(cells + more, colourMatrix, rectangles, columns) == UpdateEffect(cells, colourMatrix, rectangles, columns)
  {
    assert cells != [];
    assert (cells + more)[0] == cells[0];
    if HasCell(colourMatrix, cells[0]) {
      assert (cells + more)[1..] == cells[1..] + more;
      UpdateEffectStopped(cells[1..], more, colourMatrix, rectangles, columns);
    }
  }

  /** The cells visited up to (row, col) are a prefix of the whole walk. */
  lemma {:induction false} CellsPrefix(rows: nat, columns: nat, row: nat)
    requires row <= rows
    ensures |Cells(row, columns)| <= |Cells(rows, columns)|
    ensures Cells(row, columns) == Cells(rows, columns)[..|Cells(row, columns)|]
    decreases rows - row
  {
    if row < rows {
      CellsPrefix(rows, columns, row + 1);
      assert Cells(row + 1, columns) == Cells(row, columns) + RowCells(row, columns);
    }
  }

  /** When the colour matrix covers the grid, every cell is filled, in row-major order. */
  lemma {:induction false} UpdateFullMatrix(cells: seq<(nat, nat)>, colourMatrix: seq<seq<string>>, rectangles: seq<nat>, columns: nat)
    requires forall k :: 0 <= k < |cells| ==> HasCell(colourMatrix, cells[k])
    ensures var (ops, ok) := UpdateEffect(cells, colourMatrix, rectangles, columns);
      && ok
      && ops == Flatten(seq(|cells|, k requires 0 <= k < |cells| =>
                  EditOps(rectangles, columns, cells[k].0, cells[k].1, CellColour(colourMatrix, cells[k]))))
  {
    if cells != [] {
      UpdateFullMatrix(cells[1..], colourMatrix, rectangles, columns);
      var f := seq(|cells|, k requires 0 <= k < |cells| =>
                  EditOps(rectangles, columns, cells[k].0, cells[k].1, CellColour(colourMatrix, cells[k])));
      var g := seq(|cells| - 1, k requires 0 <= k < |cells| - 1 =>
                  EditOps(rectangles, columns, cells[1..][k].0, cells[1..][k].1, CellColour(colourMatrix, cells[1..][k])));
      assert f[1..] == g;
    }
  }

  /**
   * After `draw`, an update with a colour matrix of at least rows x columns fills the k-th
   * drawn rectangle with the colour of the k-th cell in row-major order.
   */
  lemma {:induction false} UpdateAfterDraw(rows: nat, columns: nat, start: nat, colourMatrix: seq<seq<string>>)
    requires |colourMatrix| >= rows
    requires forall i :: 0 <= i < rows ==> |colourMatrix[i]| >= columns
    ensures var cells := Cells(rows, columns);
      var (ops, ok) := UpdateEffect(cells, colourMatrix, Ids(start, |cells|), columns);
      && ok
      && ops == seq(|cells|, k requires 0 <= k < |cells| =>
                  FillItem(start + 1 + k, CellColour(colourMatrix, cells[k])))
  {
    var cells := Cells(rows, columns);
    var rects := Ids(start, |cells|);
    CellsInGrid(rows, columns);
    UpdateFullMatrix(cells, colourMatrix, rects, columns);
    var parts := seq(|cells|, k requires 0 <= k < |cells| =>
                  EditOps(rects, columns, cells[k].0, cells[k].1, CellColour(colourMatrix, cells[k])));
    var fills := seq(|cells|, k requires 0 <= k < |cells| =>
                  FillItem(start + 1 + k, CellColour(colourMatrix, cells[k])));
    forall k | 0 <= k < |cells| ensures parts[k] == [fills[k]] {
      var (r, c) := cells[k];
      CellAt(rows, columns, r, c);
      CellsDistinctIndex(rows, columns, k);
    }
    FlattenSingletons(parts, fills);
  }

  /** Cell number k is (k / columns, k % columns), stated without division: k == r * columns + c. */
  lemma CellsDistinctIndex(rows: nat, columns: nat, k: nat)
    requires k < |Cells(rows, columns)|
    ensures var (r, c) := Cells(rows, columns)[k]; k == r * columns + c
  {
    CellsInGrid(rows, columns);
    var (r, c) := Cells(rows, columns)[k];
    CellAt(rows, columns, r, c);
    CellsIndexUnique(rows, columns, k, r * columns + c);
  }

  /** Two positions of the walk holding the same cell are the same position. */
  lemma {:induction false} CellsIndexUnique(rows: nat, columns: nat, k1: nat, k2: nat)
    requires k1 < |Cells(rows, columns)| && k2 < |Cells(rows, columns)|
    requires Cells(rows, columns)[k1] == Cells(rows, columns)[k2]
    ensures k1 == k2
  {
    if rows > 0 {
      var prev := Cells(rows - 1, columns);
      CellsInGrid(rows - 1, columns);
      var cells := Cells(rows, columns);
      if k1 < |prev| && k2 < |prev| {
        CellsIndexUnique(rows - 1, columns, k1, k2);
      } else if k1 >= |prev| && k2 >= |prev| {
        assert cells[k1] == RowCells(rows - 1, columns)[k1 - |prev|];
        assert cells[k2] == RowCells(rows - 1, columns)[k2 - |prev|];
      }
    }
  }

  lemma {:induction false} FlattenSingletons(parts: seq<seq<CanvasOp>>, items: seq<CanvasOp>)
    requires |parts| == |items| && forall k :: 0 <= k < |parts| ==> parts[k] == [items[k]]
    ensures Flatten(parts) == items
  {
    if parts != [] {
      FlattenSingletons(parts[1..], items[1..]);
    }
  }

  // ---------------------------------------------------------------------------------------
  // The widget

  class Matrix {
    const canvas: Canvas
    const rows: nat
    const columns: nat
    const cellWidth: nat
    const cellHeight: nat
    var rectangles: seq<nat>
    var colourMap: seq<string>
    var pressureCircle: Option<nat>

    /**
     * `Matrix(canvas, rows, columns)`: cell sizes by floor division of the canvas size, the
     * colour map, then `draw()`. A zero row or column count is a ZeroDivisionError.
     */
    constructor (canvas: Canvas, rows: nat, columns: nat, interpolate: int -> string)
      requires rows > 0 && columns > 0
      modifies canvas
      ensures this.canvas == canvas && this.rows == rows && this.columns == columns
      ensures cellWidth == canvas.reqWidth / columns && cellHeight == canvas.reqHeight / rows
      ensures |colourMap| == COLOUR_MAP_SIZE && forall i :: 0 <= i < COLOUR_MAP_SIZE ==> colourMap[i] == interpolate(i)
      ensures canvas.ops == old(canvas.ops) + DrawOps(Cells(rows, columns), cellWidth, cellHeight) + [CreatePressureCircle]
      ensures rectangles == Ids(old(canvas.created), |Cells(rows, columns)|)
      ensures canvas.created == old(canvas.created) + |Cells(rows, columns)| + 1
      ensures pressureCircle == Some(canvas.created)
    {
      this.canvas := canvas;
      this.rows, this.columns := rows, columns;
      cellWidth := canvas.reqWidth / columns;
      cellHeight := canvas.reqHeight / rows;
      rectangles := [];
      pressureCircle := None;
      new;
      colourMap := CreateColourmap(interpolate);
      Draw();
    }

    /** `draw()`: one rectangle per cell, row by row, then the hidden pressure circle. */
    method Draw()
      modifies this, canvas
      ensures canvas.ops == old(canvas.ops) + DrawOps(Cells(rows, columns), cellWidth, cellHeight) + [CreatePressureCircle]
      ensures rectangles == old(rectangles) + Ids(old(canvas.created), |Cells(rows, columns)|)
      ensures canvas.created == old(canvas.created) + |Cells(rows, columns)| + 1
      ensures pressureCircle == Some(canvas.created) && colourMap == old(colourMap)
    {
      for row := 0 to rows
        invariant canvas.ops == old(canvas.ops) + DrawOps(Cells(row, columns), cellWidth, cellHeight)
        invariant rectangles == old(rectangles) + Ids(old(canvas.created), |Cells(row, columns)|)
        invariant canvas.created == old(canvas.created) + |Cells(row, columns)|
        invariant colourMap == old(colourMap)
      {
        for col := 0 to columns
          invariant canvas.ops == old(canvas.ops) + DrawOps(Cells(row, columns) + RowCells(row, columns)[..col], cellWidth, cellHeight)
          invariant rectangles == old(rectangles) + Ids(old(canvas.created), |Cells(row, columns)| + col)
          invariant canvas.created == old(canvas.created) + |Cells(row, columns)| + col
          invariant colourMap == old(colourMap)
        {
          var x1 := col * cellWidth + 1;
          var y1 := row * cellHeight + 1;
          var x2 := x1 + cellWidth;
          var y2 := y1 + cellHeight;
          var rectangle := canvas.AddRectangle(x1, y1, x2, y2);
          rectangles := rectangles + [rectangle];
          DrawStep(row, col, columns, cellWidth, cellHeight);
          IdsAppend(old(canvas.created), |Cells(row, columns)| + col);
        }
        assert RowCells(row, columns)[..columns] == RowCells(row, columns);
      }
      var circle := canvas.AddPressureCircle();
      pressureCircle := Some(circle);
    }

    /** `edit_rectangle(row, col, colour)` */
    method EditRectangle(row: int, col: int, colour: string)
      modifies canvas
      ensures canvas.ops == old(canvas.ops) + EditOps(rectangles, columns, row, col, colour)
      ensures canvas.created == old(canvas.created)
    {
      var index := row * columns + col;
      if 0 <= index < |rectangles| {
        canvas.Fill(rectangles[index], colour);
      }
    }

    /**
     * `update_matrix(colour_matrix)`: nothing for `None` or an empty matrix; otherwise edit every
     * cell row by row, stopping with IndexError at the first cell the matrix lacks.
     */
    method UpdateMatrix(colourMatrix: Option<seq<seq<string>>>) returns (r: Result<(), Exception>)
      modifies canvas
      ensures canvas.created == old(canvas.created)
      ensures colourMatrix.None? || colourMatrix.value == [] ==> canvas.ops == old(canvas.ops) && r == Success(())
      ensures colourMatrix.Some? && colourMatrix.value != [] ==>
        var (ops, ok) := UpdateEffect(Cells(rows, columns), colourMatrix.value, rectangles, columns);
        && canvas.ops == old(canvas.ops) + ops
        && (ok ==> r == Success(()))
        && (!ok ==> r == Failure(IndexError))
    {
      if colourMatrix.None? || colourMatrix.value == [] {
        return Success(());
      }
      var cm := colourMatrix.value;
      for row := 0 to rows
        invariant UpdateEffect(Cells(row, columns), cm, rectangles, columns).1
        invariant canvas.ops == old(canvas.ops) + UpdateEffect(Cells(row, columns), cm, rectangles, columns).0
        invariant canvas.created == old(canvas.created)
      {
        assert Cells(row, columns) + RowCells(row, columns)[..0] == Cells(row, columns);
        for column := 0 to columns
          invariant UpdateEffect(Cells(row, columns) + RowCells(row, columns)[..column], cm, rectangles, columns).1
          invariant canvas.ops == old(canvas.ops) + UpdateEffect(Cells(row, columns) + RowCells(row, columns)[..column], cm, rectangles, columns).0
          invariant canvas.created == old(canvas.created)
        {
          ghost var done := Cells(row, columns) + RowCells(row, columns)[..column];
          assert done + [(row, column)] == Cells(row, columns) + RowCells(row, columns)[..column + 1];
          UpdateEffectAppend(done, (row, column), cm, rectangles, columns);
          if row >= |cm| || column >= |cm[row]| {
            RestOfWalk(rows, columns, row, column);
            UpdateEffectStopped(done + [(row, column)], Cells(rows, columns)[|done| + 1..], cm, rectangles, columns);
            return Failure(IndexError);
          }
          EditRectangle(row, column, cm[row][column]);
        }
        assert RowCells(row, columns)[..columns] == RowCells(row, columns);
      }
      return Success(());
    }
  }

  /** The walk so far, the current cell and the remaining cells make up the whole walk. */
  lemma RestOfWalk(rows: nat, columns: nat, row: nat, column: nat)
    requires row < rows && column < columns
    ensures var done := Cells(row, columns) + RowCells(row, columns)[..column];
      && |done| + 1 <= |Cells(rows, columns)|
      && Cells(rows, columns) == done + [(row, column)] + Cells(rows, columns)[|done| + 1..]
  {
    var done := Cells(row, columns) + RowCells(row, columns)[..column];
    CellsPrefix(rows, columns, row + 1);
    NextCellPrefix(columns, row, column);
    PrefixOfPrefix(Cells(rows, columns), Cells(row + 1, columns), done + [(row, column)]);
  }

  /** The walk up to and including cell (row, column) is a prefix of the first row + 1 rows. */
  lemma NextCellPrefix(columns: nat, row: nat, column: nat)
    requires column < columns
    ensures var cur := Cells(row, columns) + RowCells(row, columns)[..column] + [(row, column)];
      |cur| <= |Cells(row + 1, columns)| && Cells(row + 1, columns)[..|cur|] == cur
  {
    var r := RowCells(row, columns);
    assert r[..column + 1] == r[..column] + [(row, column)];
    assert Cells(row + 1, columns) == Cells(row, columns) + r;
  }

  /** A prefix of a prefix is a prefix, and the whole is that prefix followed by the rest. */
  lemma PrefixOfPrefix<T>(all: seq<T>, upto: seq<T>, cur: seq<T>)
    requires |upto| <= |all| && upto == all[..|upto|]
    requires |cur| <= |upto| && upto[..|cur|] == cur
    ensures |cur| <= |all| && all == cur + all[|cur|..]
  {
    assert all[..|cur|] == cur;
  }
}
