/**
  The drag-and-drop table as the history engine sees it: an ordered sequence
  of rows, each row a sequence of cells, each cell holding at most one box.

  Rows are only ever appended at the end of the table or removed, and a cell
  never leaves its row, so a cell is named by the identity of its row and its
  column. Boxes carry an identity separate from the number they display,
  because the numbering of new rows repeats numbers across rows.
*/
module Table {
  import opened Options

  /** A draggable box element: `id` is its identity, `number` the number it shows. */
  datatype Box = Box(id: nat, number: int)

  /** A table row: its identity and its cells, left to right. */
  datatype Row = Row(id: nat, cells: seq<Option<Box>>)

  /** A cell, named by the identity of its row and its column in that row. */
  datatype Cell = Cell(row: nat, col: nat)

  type Grid = seq<Row>

  /** Index of the first occurrence of `x` in `s`, or -1 when there is none. */
  function IndexOf<T(==)>(s: seq<T>, x: T): (k: int)
    ensures -1 <= k < |s|
    ensures 0 <= k ==> s[k] == x && forall i :: 0 <= i < k ==> s[i] != x
    ensures k == -1 <==> x !in s
  {
    if |s| == 0 then -1
    else if s[0] == x then 0
    else
      var k := IndexOf(s[1..], x);
      if k < 0 then -1 else k + 1
  }

  /** The identities of the rows, in table order. */
  function Ids(g: Grid): seq<nat> {
    seq(|g|, k requires 0 <= k < |g| => g[k].id)
  }

  /** The `rowIndex` of the row with identity `id`: its position, or -1 when it is not in the table. */
  function RowIndex(g: Grid, id: nat): int {
    IndexOf(Ids(g), id)
  }

  /** True when the table has a cell with this row identity and column. */
  predicate HasCell(g: Grid, c: Cell) {
    var k := RowIndex(g, c.row);
    0 <= k && c.col < |g[k].cells|
  }

  /** The box a cell holds; None for an empty cell and for a cell not in the table. */
  function At(g: Grid, c: Cell): Option<Box> {
    var k := RowIndex(g, c.row);
    if 0 <= k && c.col < |g[k].cells| then g[k].cells[c.col] else None
  }

  /** No two rows share an identity. */
  ghost predicate UniqueIds(g: Grid) {
    forall i, j :: 0 <= i < j < |g| ==> g[i].id != g[j].id
  }

  /** No box sits in two cells. */
  ghost predicate UniqueBoxes(g: Grid) {
    forall c1, c2 :: At(g, c1).Some? && At(g, c1) == At(g, c2) ==> c1 == c2
  }

  /** A table at rest: rows are distinct elements, and every box has exactly one parent cell. */
  ghost predicate WellFormed(g: Grid) {
    UniqueIds(g) && UniqueBoxes(g)
  }

  /** Every identity in the table, of rows and of boxes, is below `n`. */
  ghost predicate IdsBelow(g: Grid, n: nat) {
    && (forall k :: 0 <= k < |g| ==> g[k].id < n)
    && (forall c :: At(g, c).Some? ==> At(g, c).value.id < n)
  }

  /** The two tables have the same rows, in the same order, with the same number of cells. */
  ghost predicate SameShape(g1: Grid, g2: Grid) {
    && |g1| == |g2|
    && forall k :: 0 <= k < |g1| ==> g1[k].id == g2[k].id && |g1[k].cells| == |g2[k].cells|
  }

  /** One cell's content after `to.appendChild(b)`: the box leaves every other cell and arrives in `to`. */
  function MoveBoxInCell(v: Option<Box>, at: Cell, b: Box, to: Cell): Option<Box> {
    if at == to then Some(b) else if v == Some(b) then None else v
  }

  function MoveBoxInRow(row: Row, b: Box, to: Cell): Row {
    Row(row.id, seq(|row.cells|, j requires 0 <= j < |row.cells| => MoveBoxInCell(row.cells[j], Cell(row.id, j), b, to)))
  }

  /**
    `to.appendChild(b)` committed at once: the box is detached from its
    current cell and becomes the content of `to`. The DOM call would put `b`
    next to a box already in `to`; here `b` replaces it. The two agree for the
    swaps the page builds, because the other half of the swap moves that box
    out of `to` (`Commands.SwapExchanges`).
  */
  function MoveBox(g: Grid, b: Box, to: Cell): Grid {
    seq(|g|, k requires 0 <= k < |g| => MoveBoxInRow(g[k], b, to))
  }

  /** `table.appendChild(row)`: a row already in the table moves to the end, any other row is appended. */
  function AppendRow(g: Grid, row: Row): Grid {
    var k := RowIndex(g, row.id);
    if k < 0 then g + [row] else g[..k] + g[k + 1..] + [g[k]]
  }

  /**
    `table.deleteRow(index)` for the indices a `rowIndex` can take: -1 removes
    the last row (nothing when there is none), any other index removes the row
    at that position (HTMLTableElement.deleteRow in the HTML Living Standard).
  */
  function DeleteRow(g: Grid, index: int): Grid
    requires -1 <= index < |g|
  {
    if index == -1 then (if |g| == 0 then g else g[..|g| - 1])
    else g[..index] + g[index + 1..]
  }

  // ---------------------------------------------------------------------
  // Lemmas about looking cells up
  // ---------------------------------------------------------------------

  /** In a table with distinct rows, the cell at row position `k`, column `j` is the cell named by that row's identity. */
  lemma AtPosition(g: Grid, k: int, j: int)
    requires UniqueIds(g)
    requires 0 <= k < |g| && 0 <= j < |g[k].cells|
    ensures RowIndex(g, g[k].id) == k
    ensures HasCell(g, Cell(g[k].id, j))
    ensures At(g, Cell(g[k].id, j)) == g[k].cells[j]
  {
    var ids := Ids(g);
    assert ids[k] == g[k].id;
    var i := RowIndex(g, g[k].id);
    assert g[k].id in ids;
    assert i >= 0 && ids[i] == g[k].id;
  }

  /** Tables with the same row identities in the same order resolve every row identity to the same position. */
  lemma SameIdsSameRowIndex(g1: Grid, g2: Grid, id: nat)
    requires SameShape(g1, g2)
    ensures RowIndex(g1, id) == RowIndex(g2, id)
    ensures forall c: Cell :: c.row == id ==> HasCell(g1, c) == HasCell(g2, c)
  {
    assert Ids(g1) == Ids(g2);
  }

  /**
    Extensionality: two tables of the same shape whose every cell holds the
    same box are the same table.
  */
  lemma {:induction false} GridExt(g1: Grid, g2: Grid)
    requires SameShape(g1, g2) && UniqueIds(g1)
    requires forall c :: At(g1, c) == At(g2, c)
    ensures g1 == g2
  {
    assert UniqueIds(g2) by {
      forall i, j | 0 <= i < j < |g2| ensures g2[i].id != g2[j].id {
        assert g1[i].id == g2[i].id && g1[j].id == g2[j].id;
      }
    }
    forall k | 0 <= k < |g1| ensures g1[k] == g2[k] {
      forall j | 0 <= j < |g1[k].cells| ensures g1[k].cells[j] == g2[k].cells[j] {
        AtPosition(g1, k, j);
        AtPosition(g2, k, j);
        assert At(g1, Cell(g1[k].id, j)) == At(g2, Cell(g2[k].id, j));
      }
      assert g1[k].cells == g2[k].cells;
    }
  }

  // ---------------------------------------------------------------------
  // Lemmas about moving a box
  // ---------------------------------------------------------------------

  /** Moving a box keeps the rows, their order and their widths. */
  lemma MoveBoxShape(g: Grid, b: Box, to: Cell)
    ensures SameShape(g, MoveBox(g, b, to))
  {
  }

  /**
    After `to.appendChild(b)`, `to` holds `b` (when `to` is in the table), the
    cell that held `b` is empty, and every other cell is as before.
  */
  lemma MoveBoxAt(g: Grid, b: Box, to: Cell, c: Cell)
    ensures At(MoveBox(g, b, to), c) == if HasCell(g, c) then MoveBoxInCell(At(g, c), c, b, to) else None
  {
    var g' := MoveBox(g, b, to);
    SameIdsSameRowIndex(g, g', c.row);
    var k := RowIndex(g, c.row);
    if 0 <= k && c.col < |g[k].cells| {
      assert Ids(g)[k] == c.row;
      assert Cell(g[k].id, c.col) == c;
    }
  }

  /**
    The two halves of a swap touch different boxes and different cells, so the
    order in which their animations commit does not matter.
  */
  lemma {:induction false} MoveBoxCommute(g: Grid, b1: Box, to1: Cell, b2: Box, to2: Cell)
    requires b1 != b2 && to1 != to2
    ensures MoveBox(MoveBox(g, b1, to1), b2, to2) == MoveBox(MoveBox(g, b2, to2), b1, to1)
  {
    var x := MoveBox(MoveBox(g, b1, to1), b2, to2);
    var y := MoveBox(MoveBox(g, b2, to2), b1, to1);
    forall k | 0 <= k < |g| ensures x[k] == y[k] {
      assert x[k].cells == y[k].cells;
    }
  }

  // ---------------------------------------------------------------------
  // Lemmas about adding and removing rows
  // ---------------------------------------------------------------------

  /** The row identities of a table with one more row at the end. */
  lemma IdsAppend(g: Grid, row: Row)
    ensures Ids(g + [row]) == Ids(g) + [row.id]
  {
  }

  /**
    Appending a row whose identity is new leaves every existing cell as it was
    and adds the new row's cells, in order.
  */
  lemma AppendFreshAt(g: Grid, row: Row, c: Cell)
    requires RowIndex(g, row.id) == -1
    ensures HasCell(g + [row], c) == if c.row == row.id then c.col < |row.cells| else HasCell(g, c)
    ensures At(g + [row], c) == if c.row == row.id then (if c.col < |row.cells| then row.cells[c.col] else None) else At(g, c)
  {
    var ids := Ids(g);
    IdsAppend(g, row);
    var k := RowIndex(g, c.row);
    var k' := RowIndex(g + [row], c.row);
    if c.row == row.id {
      assert (ids + [row.id])[|g|] == row.id;
      assert k' == |g|;
    } else if k >= 0 {
      assert (ids + [row.id])[k] == c.row;
      assert k' == k;
    } else {
      assert c.row !in ids + [row.id];
    }
  }

  /** The boxes of a row are distinct. */
  ghost predicate DistinctBoxes(row: Row) {
    forall j1, j2 :: 0 <= j1 < |row.cells| && 0 <= j2 < |row.cells| && row.cells[j1].Some? && row.cells[j1] == row.cells[j2] ==> j1 == j2
  }

  /** None of the row's boxes is in the table. */
  ghost predicate FreshBoxes(g: Grid, row: Row) {
    forall j, c :: 0 <= j < |row.cells| && row.cells[j].Some? ==> At(g, c) != row.cells[j]
  }

  /** A table with a fresh row appended is still well formed when the row's boxes are new and distinct. */
  lemma AppendFreshWellFormed(g: Grid, row: Row)
    requires WellFormed(g)
    requires RowIndex(g, row.id) == -1
    requires DistinctBoxes(row) && FreshBoxes(g, row)
    ensures WellFormed(g + [row])
  {
    var g' := g + [row];
    assert UniqueIds(g') by {
      forall i, j | 0 <= i < j < |g'| ensures g'[i].id != g'[j].id {
        if j == |g| {
          assert Ids(g)[i] == g[i].id;
        }
      }
    }
    forall c1, c2 | At(g', c1).Some? && At(g', c1) == At(g', c2) ensures c1 == c2 {
      AppendFreshAt(g, row, c1);
      AppendFreshAt(g, row, c2);
    }
  }

  /** Identities below a bound stay below it after appending a row whose identities are below it too. */
  lemma AppendFreshIdsBelow(g: Grid, row: Row, n: nat)
    requires IdsBelow(g, n) && RowIndex(g, row.id) == -1
    requires row.id < n
    requires forall j :: 0 <= j < |row.cells| && row.cells[j].Some? ==> row.cells[j].value.id < n
    ensures IdsBelow(g + [row], n)
  {
    forall c | At(g + [row], c).Some? ensures At(g + [row], c).value.id < n {
      AppendFreshAt(g, row, c);
    }
  }

  /** Identities below a bound are below every larger bound. */
  lemma IdsBelowMonotone(g: Grid, n: nat, m: nat)
    requires IdsBelow(g, n) && n <= m
    ensures IdsBelow(g, m)
  {
  }

  /** `appendChild` of a row that is not in the table appends exactly that row. */
  lemma AppendRowFresh(g: Grid, row: Row)
    requires RowIndex(g, row.id) == -1
    ensures AppendRow(g, row) == g + [row]
  {
  }

  /** `appendChild` of the row just inserted at the end leaves the table as it is. */
  lemma AppendRowLast(g: Grid, row: Row)
    requires RowIndex(g, row.id) == -1
    ensures AppendRow(g + [row], row) == g + [row]
  {
    IdsAppend(g, row);
    var ids := Ids(g);
    assert (ids + [row.id])[|g|] == row.id;
    assert RowIndex(g + [row], row.id) == |g|;
    assert (g + [row])[..|g|] == g;
  }

  /** `deleteRow(rowIndex)` on the row just appended gives back the table it was appended to. */
  lemma DeleteLastAppended(g: Grid, row: Row)
    requires RowIndex(g, row.id) == -1
    ensures RowIndex(g + [row], row.id) == |g|
    ensures DeleteRow(g + [row], RowIndex(g + [row], row.id)) == g
  {
    IdsAppend(g, row);
    var ids := Ids(g);
    assert (ids + [row.id])[|g|] == row.id;
    assert (g + [row])[..|g|] == g;
  }
}
