/**
  The two reversible commands the history engine records: moving a box onto
  another cell (a swap of the two cells' contents) and adding a row.

  Each half of a swap commits through `appendChild` once its animation ends;
  here that commit is immediate, and both halves commit together.
*/
module Commands {
  import opened Options
  import opened Table

  datatype Command =
    | /** `draggedBox` left `draggedFrom` for `movedFrom`, whose box `movedBox` (if any) goes the other way. */
      BoxMove(draggedBox: Box, draggedFrom: Cell, movedBox: Option<Box>, movedFrom: Cell)
    | /** `newRow` was added at the end of the table. */
      RowAdd(newRow: Row)

  /**
    `_animateAndSwap`: each box that is present is appended to its destination
    cell. No row is added, removed or reshaped; what the cells then hold is
    `SwapExchanges`.
  */
  function AnimateAndSwap(g: Grid, box1: Option<Box>, toCell1: Cell, box2: Option<Box>, toCell2: Cell): (r: Grid)
    ensures SameShape(g, r)
  {
    var g1 := if box1.Some? then MoveBox(g, box1.value, toCell1) else g;
    if box2.Some? then MoveBox(g1, box2.value, toCell2) else g1
  }

  /**
    `execute`: a swap keeps the table's shape; a row addition appends the row,
    or moves it to the end when it is already in the table (`RowAddExecute`).
  */
  function Execute(c: Command, g: Grid): (r: Grid)
    ensures c.BoxMove? ==> SameShape(g, r)
    ensures c.RowAdd? ==> |r| == if RowIndex(g, c.newRow.id) < 0 then |g| + 1 else |g|
  {
    match c
    case BoxMove(draggedBox, draggedFrom, movedBox, movedFrom) =>
      AnimateAndSwap(g, Some(draggedBox), movedFrom, movedBox, draggedFrom)
    case RowAdd(newRow) =>
      AppendRow(g, newRow)
  }

  /**
    `undo`: a swap keeps the table's shape; a row addition deletes one row,
    the one at the recorded row's `rowIndex` (`RowAddUndoPresent`,
    `RowAddUndoAbsent`), or nothing when the table is empty.
  */
  function Undo(c: Command, g: Grid): (r: Grid)
    ensures c.BoxMove? ==> SameShape(g, r)
    ensures c.RowAdd? ==> |r| == if |g| == 0 then 0 else |g| - 1
  {
    match c
    case BoxMove(draggedBox, draggedFrom, movedBox, movedFrom) =>
      AnimateAndSwap(g, movedBox, movedFrom, Some(draggedBox), draggedFrom)
    case RowAdd(newRow) =>
      DeleteRow(g, RowIndex(g, newRow.id))
  }

  /** Both commands redo by executing again. */
  function Redo(c: Command, g: Grid): Grid {
    Execute(c, g)
  }

  /**
    The command was built from the table `g` as it stands: a swap names the
    dragged box's own cell and the target cell's current occupant, and a new
    row is a row not yet in the table, holding new boxes.
  */
  ghost predicate Applicable(c: Command, g: Grid) {
    match c
    case BoxMove(draggedBox, draggedFrom, movedBox, movedFrom) =>
      && draggedFrom != movedFrom
      && HasCell(g, draggedFrom) && HasCell(g, movedFrom)
      && At(g, draggedFrom) == Some(draggedBox)
      && At(g, movedFrom) == movedBox
    case RowAdd(newRow) =>
      RowIndex(g, newRow.id) == -1 && DistinctBoxes(newRow) && FreshBoxes(g, newRow)
  }

  /** Every identity the command brings into the table is below `n`. */
  ghost predicate CommandIdsBelow(c: Command, n: nat) {
    match c
    case BoxMove(_, _, _, _) => true
    case RowAdd(newRow) =>
      newRow.id < n && forall j :: 0 <= j < |newRow.cells| && newRow.cells[j].Some? ==> newRow.cells[j].value.id < n
  }

  // ---------------------------------------------------------------------
  // The swap
  // ---------------------------------------------------------------------

  /**
    `_animateAndSwap(x, to1, y, to2)` where `x` sits in `to2` and `y` in `to1`
    exchanges the contents of the two cells and touches no other cell. Either
    box may be absent, in which case its destination ends up empty.
  */
  lemma {:induction false} SwapExchanges(g: Grid, x: Option<Box>, to1: Cell, y: Option<Box>, to2: Cell)
    requires WellFormed(g)
    requires to1 != to2 && HasCell(g, to1) && HasCell(g, to2)
    requires At(g, to2) == x && At(g, to1) == y
    ensures SameShape(g, AnimateAndSwap(g, x, to1, y, to2))
    ensures forall c :: At(AnimateAndSwap(g, x, to1, y, to2), c) == if c == to1 then x else if c == to2 then y else At(g, c)
  {
    var g1 := if x.Some? then MoveBox(g, x.value, to1) else g;
    var g2 := AnimateAndSwap(g, x, to1, y, to2);
    if x.Some? {
      MoveBoxShape(g, x.value, to1);
    }
    if y.Some? {
      MoveBoxShape(g1, y.value, to2);
    }
    forall c ensures At(g2, c) == if c == to1 then x else if c == to2 then y else At(g, c) {
      SameIdsSameRowIndex(g, g1, c.row);
      if x.Some? {
        MoveBoxAt(g, x.value, to1, c);
      }
      if y.Some? {
        MoveBoxAt(g1, y.value, to2, c);
      }
      if x.Some? && c != to2 {
        assert At(g, c) != x;
      }
      if y.Some? && c != to1 {
        assert At(g, c) != y;
      }
    }
  }

  /** Exchanging the contents of two cells keeps every box in exactly one cell. */
  lemma ExchangeWellFormed(g: Grid, g': Grid, to1: Cell, to2: Cell)
    requires WellFormed(g) && SameShape(g, g')
    requires forall c :: At(g', c) == if c == to1 then At(g, to2) else if c == to2 then At(g, to1) else At(g, c)
    ensures WellFormed(g')
  {
    assert UniqueIds(g') by {
      forall i, j | 0 <= i < j < |g'| ensures g'[i].id != g'[j].id {
        assert g[i].id == g'[i].id && g[j].id == g'[j].id;
      }
    }
  }

  /**
    Executing a swap built from the current table puts the dragged box in the
    target cell and the target's box, if any, in the dragged box's old cell;
    when the target was empty, the old cell becomes empty. No other cell
    changes, and the table stays well formed.
  */
  lemma BoxMoveExecute(g: Grid, draggedBox: Box, draggedFrom: Cell, movedBox: Option<Box>, movedFrom: Cell)
    requires WellFormed(g)
    requires Applicable(BoxMove(draggedBox, draggedFrom, movedBox, movedFrom), g)
    ensures var g' := Execute(BoxMove(draggedBox, draggedFrom, movedBox, movedFrom), g);
      && SameShape(g, g')
      && At(g', movedFrom) == Some(draggedBox)
      && At(g', draggedFrom) == movedBox
      && (forall c :: c != movedFrom && c != draggedFrom ==> At(g', c) == At(g, c))
      && WellFormed(g')
  {
    SwapExchanges(g, Some(draggedBox), movedFrom, movedBox, draggedFrom);
    var g' := Execute(BoxMove(draggedBox, draggedFrom, movedBox, movedFrom), g);
    ExchangeWellFormed(g, g', movedFrom, draggedFrom);
  }

  /** Undoing a swap sends each box back to the cell it came from; no other cell changes. */
  lemma BoxMoveUndo(g: Grid, draggedBox: Box, draggedFrom: Cell, movedBox: Option<Box>, movedFrom: Cell)
    requires WellFormed(g)
    requires draggedFrom != movedFrom && HasCell(g, draggedFrom) && HasCell(g, movedFrom)
    requires At(g, movedFrom) == Some(draggedBox) && At(g, draggedFrom) == movedBox
    ensures var g' := Undo(BoxMove(draggedBox, draggedFrom, movedBox, movedFrom), g);
      && SameShape(g, g')
      && At(g', draggedFrom) == Some(draggedBox)
      && At(g', movedFrom) == movedBox
      && (forall c :: c != movedFrom && c != draggedFrom ==> At(g', c) == At(g, c))
  {
    SwapExchanges(g, movedBox, movedFrom, Some(draggedBox), draggedFrom);
  }

  /**
    The two halves of a swap can commit in either order: when there is a box
    on each side, appending the dragged box first or the moved box first gives
    the same table.
  */
  lemma SwapHalvesCommute(g: Grid, draggedBox: Box, draggedFrom: Cell, movedBox: Box, movedFrom: Cell)
    requires WellFormed(g)
    requires Applicable(BoxMove(draggedBox, draggedFrom, Some(movedBox), movedFrom), g)
    ensures Execute(BoxMove(draggedBox, draggedFrom, Some(movedBox), movedFrom), g)
         == MoveBox(MoveBox(g, movedBox, draggedFrom), draggedBox, movedFrom)
  {
    assert draggedBox != movedBox;
    MoveBoxCommute(g, draggedBox, movedFrom, movedBox, draggedFrom);
  }

  // ---------------------------------------------------------------------
  // Adding a row
  // ---------------------------------------------------------------------

  /** The table without the rows whose identity is `id`: the reference meaning of "remove that row". */
  function WithoutRow(g: Grid, id: nat): (r: Grid)
    ensures |r| <= |g|
  {
    if |g| == 0 then []
    else (if g[0].id == id then [] else [g[0]]) + WithoutRow(g[1..], id)
  }

  lemma {:induction false} WithoutAbsentRow(g: Grid, id: nat)
    requires forall i :: 0 <= i < |g| ==> g[i].id != id
    ensures WithoutRow(g, id) == g
  {
    if |g| > 0 {
      WithoutAbsentRow(g[1..], id);
    }
  }

  /** Removing the row at position `k` removes the row with that identity and nothing else, when identities are distinct. */
  lemma {:induction false} RemoveAtIsWithoutRow(g: Grid, k: int)
    requires UniqueIds(g) && 0 <= k < |g|
    ensures g[..k] + g[k + 1..] == WithoutRow(g, g[k].id)
    decreases k
  {
    if k == 0 {
      WithoutAbsentRow(g[1..], g[0].id);
      assert g[..0] + g[1..] == g[1..];
    } else {
      var t := g[1..];
      assert UniqueIds(t) by {
        forall i, j | 0 <= i < j < |t| ensures t[i].id != t[j].id {
          assert t[i] == g[i + 1] && t[j] == g[j + 1];
        }
      }
      assert t[k - 1] == g[k];
      RemoveAtIsWithoutRow(t, k - 1);
      assert g[0].id != g[k].id;
      assert g[..k] + g[k + 1..] == [g[0]] + (t[..k - 1] + t[k..]);
    }
  }

  /**
    Undoing a row addition deletes the row at its current `rowIndex`. When the
    row is in the table, that removes exactly the row with that identity,
    wherever it now stands, and nothing else.
  */
  lemma RowAddUndoPresent(g: Grid, row: Row)
    requires UniqueIds(g) && row.id in Ids(g)
    ensures Undo(RowAdd(row), g) == WithoutRow(g, row.id)
    ensures |Undo(RowAdd(row), g)| == |g| - 1
  {
    var k := RowIndex(g, row.id);
    assert Ids(g)[k] == g[k].id;
    RemoveAtIsWithoutRow(g, k);
  }

  /** When the row is not in the table its `rowIndex` is -1, and `deleteRow(-1)` removes the last row instead. */
  lemma RowAddUndoAbsent(g: Grid, row: Row)
    requires row.id !in Ids(g) && |g| > 0
    ensures Undo(RowAdd(row), g) == g[..|g| - 1]
  {
  }

  /**
    Executing a row addition whose row is not in the table appends that row.
    A row already there is moved to the end as it stands in the table: the
    other rows keep their order and contents.
  */
  lemma RowAddExecute(g: Grid, row: Row)
    ensures row.id !in Ids(g) ==> Execute(RowAdd(row), g) == g + [row]
    ensures row.id in Ids(g) ==> |Execute(RowAdd(row), g)| == |g| && Execute(RowAdd(row), g)[|g| - 1].id == row.id
    ensures UniqueIds(g) && row.id in Ids(g) ==>
      Execute(RowAdd(row), g) == WithoutRow(g, row.id) + [g[RowIndex(g, row.id)]]
  {
    var k := RowIndex(g, row.id);
    if k >= 0 {
      assert Ids(g)[k] == g[k].id;
      if UniqueIds(g) {
        RemoveAtIsWithoutRow(g, k);
      }
    }
  }

  // ---------------------------------------------------------------------
  // Round trip
  // ---------------------------------------------------------------------

  /**
    Executing a command built from the current table keeps the table well
    formed and its identities below any bound the command respects.
  */
  lemma ExecuteWellFormed(c: Command, g: Grid, n: nat)
    requires WellFormed(g) && IdsBelow(g, n)
    requires Applicable(c, g) && CommandIdsBelow(c, n)
    ensures WellFormed(Execute(c, g)) && IdsBelow(Execute(c, g), n)
  {
    match c
    case BoxMove(draggedBox, draggedFrom, movedBox, movedFrom) =>
      SwapExchanges(g, Some(draggedBox), movedFrom, movedBox, draggedFrom);
      var g' := Execute(c, g);
      ExchangeWellFormed(g, g', movedFrom, draggedFrom);
      assert IdsBelow(g', n) by {
        forall k | 0 <= k < |g'| ensures g'[k].id < n {
          assert g'[k].id == g[k].id;
        }
      }
    case RowAdd(newRow) =>
      AppendRowFresh(g, newRow);
      AppendFreshWellFormed(g, newRow);
      AppendFreshIdsBelow(g, newRow, n);
  }

  /**
    Undo after execute restores the table exactly: every cell holds the same
    box as before, and the rows are the same rows in the same order.
  */
  lemma UndoAfterExecute(c: Command, g: Grid)
    requires WellFormed(g) && Applicable(c, g)
    ensures Undo(c, Execute(c, g)) == g
  {
    match c
    case BoxMove(draggedBox, draggedFrom, movedBox, movedFrom) =>
      var g' := Execute(c, g);
      BoxMoveExecute(g, draggedBox, draggedFrom, movedBox, movedFrom);
      SameIdsSameRowIndex(g, g', draggedFrom.row);
      SameIdsSameRowIndex(g, g', movedFrom.row);
      BoxMoveUndo(g', draggedBox, draggedFrom, movedBox, movedFrom);
      GridExt(g, Undo(c, g'));
    case RowAdd(newRow) =>
      AppendRowFresh(g, newRow);
      DeleteLastAppended(g, newRow);
  }

  /**
    `redo` after `undo` after `execute` gives back the executed table, so the
    history can step forward and back over a command any number of times.
  */
  lemma RedoAfterUndo(c: Command, g: Grid)
    requires WellFormed(g) && Applicable(c, g)
    ensures Redo(c, Undo(c, Execute(c, g))) == Execute(c, g)
  {
    UndoAfterExecute(c, g);
  }
}
