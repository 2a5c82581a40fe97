/**
  The page around the history engine: turning a drop into a swap command,
  adding a numbered row, the history reset at page load, and any sequence of
  user actions after it.
*/
module Interaction {
  import opened Options
  import opened Table
  import opened Commands
  import opened History

  /** Number of boxes in a new row. */
  const INITIAL_BOX_COUNT: nat := 3

  /** Number of rows added when the page loads. */
  const INITIAL_ROW_COUNT: nat := 3

  // ---------------------------------------------------------------------
  // Dropping a box
  // ---------------------------------------------------------------------

  /** The cell holding box `b` (its `parentElement`), looking at the rows from position `k` on. */
  function LocateFrom(g: Grid, b: Box, k: nat): (r: Option<Cell>)
    requires k <= |g|
    ensures r.Some? ==> exists i :: k <= i < |g| && g[i].id == r.value.row && r.value.col < |g[i].cells| && g[i].cells[r.value.col] == Some(b)
    ensures r.None? ==> forall i, j :: k <= i < |g| && 0 <= j < |g[i].cells| ==> g[i].cells[j] != Some(b)
    decreases |g| - k
  {
    if k == |g| then None
    else
      var j := IndexOf(g[k].cells, Some(b));
      if j >= 0 then Some(Cell(g[k].id, j)) else LocateFrom(g, b, k + 1)
  }

  /** The cell holding box `b`, if the box is in the table. */
  function Locate(g: Grid, b: Box): Option<Cell> {
    LocateFrom(g, b, 0)
  }

  /** In a well-formed table, the cell found for a box is exactly the cell that holds it. */
  lemma LocateIsParent(g: Grid, b: Box, c: Cell)
    requires WellFormed(g)
    ensures Locate(g, b) == Some(c) <==> At(g, c) == Some(b)
  {
    var r := Locate(g, b);
    if r.Some? {
      var i :| 0 <= i < |g| && g[i].id == r.value.row && r.value.col < |g[i].cells| && g[i].cells[r.value.col] == Some(b);
      AtPosition(g, i, r.value.col);
    }
  }

  /** What `handleDrop` does with a drop. */
  datatype DropResult =
    | /** The drop landed outside every cell. */
      NoCell
    | /** No box was ever dragged, so reading its parent throws and the handler stops. */
      NoDragSource
    | /** The dragged box is not in the table. */
      NotInTable
    | /** The drop landed on the cell the dragged box already occupies. */
      OwnCell
    | /** A swap was built and submitted to `executeCommand`. */
      Submitted(command: Command)

  /**
    `handleDrop`: `target` is the cell enclosing the drop point, `dragged` the
    box of the last drag start. A swap is built only for a drop on a cell other
    than the dragged box's parent, and it records the target's occupant at
    drop time.
  */
  function HandleDrop(g: Grid, dragged: Option<Box>, target: Option<Cell>): (r: DropResult)
    ensures target.None? ==> r == NoCell
    ensures target.Some? && dragged.None? ==> r == NoDragSource
    ensures r.Submitted? ==>
      && r.command.BoxMove?
      && Some(r.command.draggedBox) == dragged
      && Some(r.command.movedFrom) == target
      && r.command.movedBox == At(g, r.command.movedFrom)
      && r.command.draggedFrom != r.command.movedFrom
  {
    if target.None? then NoCell
    else if dragged.None? then NoDragSource
    else
      match Locate(g, dragged.value)
      case None => NotInTable
      case Some(from) =>
        if target.value == from then OwnCell
        else Submitted(BoxMove(dragged.value, from, At(g, target.value), target.value))
  }

  /**
    For the cell `from` holding the dragged box: a drop on `from` creates no
    command, and a drop on any other cell submits exactly one swap, from
    `from` to the target, carrying the target's current occupant (possibly
    none).
  */
  lemma DropFilter(g: Grid, b: Box, from: Cell, target: Cell)
    requires WellFormed(g) && At(g, from) == Some(b)
    ensures HandleDrop(g, Some(b), Some(target))
         == if target == from then OwnCell else Submitted(BoxMove(b, from, At(g, target), target))
  {
    LocateIsParent(g, b, from);
  }

  /** A box in no cell of the table produces no command. */
  lemma DropOfBoxNotInTable(g: Grid, b: Box, target: Cell)
    requires WellFormed(g)
    requires forall c :: At(g, c) != Some(b)
    ensures HandleDrop(g, Some(b), Some(target)) == NotInTable
  {
    if Locate(g, b).Some? {
      LocateIsParent(g, b, Locate(g, b).value);
    }
  }

  /** A swap submitted for a drop on a cell of the table is built from the table as it stands. */
  lemma DropCommandApplicable(g: Grid, dragged: Option<Box>, target: Option<Cell>)
    requires WellFormed(g)
    requires target.Some? ==> HasCell(g, target.value)
    ensures HandleDrop(g, dragged, target).Submitted? ==> Applicable(HandleDrop(g, dragged, target).command, g)
  {
    if HandleDrop(g, dragged, target).Submitted? {
      var from := Locate(g, dragged.value).value;
      LocateIsParent(g, dragged.value, from);
      assert HasCell(g, from);
    }
  }

  /**
    The page after a drop: the submitted swap, if any, goes through the
    script's `executeCommand`, which leaves the redo button as it was.
  */
  function Drop(s: State, dragged: Option<Box>, target: Option<Cell>): (r: State)
    requires Valid(s)
    ensures Valid(r) && r.redoShown == s.redoShown && r.nextId == s.nextId
    ensures !HandleDrop(s.grid, dragged, target).Submitted? ==> r == s
    ensures HandleDrop(s.grid, dragged, target).Submitted? ==>
      && r.pointer == s.pointer + 1 && !CanRedo(r)
      && r.history[..s.pointer + 1] == s.history[..s.pointer + 1]
      && r.history[r.pointer] == HandleDrop(s.grid, dragged, target).command
      && r.grid == Execute(HandleDrop(s.grid, dragged, target).command, s.grid)
  {
    match HandleDrop(s.grid, dragged, target)
    case Submitted(command) => ExecuteCommandAsWritten(s, command)
    case _ => s
  }

  // ---------------------------------------------------------------------
  // Adding a row
  // ---------------------------------------------------------------------

  /**
    The boxes `addNewRow` creates, given the table's row count `n` once the new
    row is inserted and the identity of the first new box: box `i` shows
    `n * 100 + i * 100`.
  */
  function NewRowCells(n: nat, firstId: nat): (cells: seq<Option<Box>>)
    ensures |cells| == INITIAL_BOX_COUNT
    ensures forall i :: 0 <= i < |cells| ==> cells[i] == Some(Box(firstId + i, n * 100 + i * 100))
  {
    var startingNumber := n * 100;
    seq(INITIAL_BOX_COUNT, i requires 0 <= i < INITIAL_BOX_COUNT => Some(Box(firstId + i, startingNumber + (i + 1) * 100 - 100)))
  }

  /** The row `addNewRow` inserts: the next identity for the row, the following ones for its boxes. */
  function NewRow(s: State): Row {
    Row(s.nextId, NewRowCells(|s.grid| + 1, s.nextId + 1))
  }

  /** `table.insertRow()` and the new boxes: the new row at the end of the table, its identities handed out. */
  function InsertRow(s: State): (r: State)
    ensures r.grid == s.grid + [NewRow(s)] && r.nextId == s.nextId + 1 + INITIAL_BOX_COUNT
    ensures r.history == s.history && r.pointer == s.pointer && r.redoShown == s.redoShown
  {
    s.(grid := s.grid + [NewRow(s)], nextId := s.nextId + 1 + INITIAL_BOX_COUNT)
  }

  /**
    `addNewRow`: insert the new row at the end of the table, then record a row
    addition for it through the script's `executeCommand`, which leaves the
    redo button as it was.
  */
  function AddNewRow(s: State): (r: State)
    requires Valid(s)
    ensures Valid(r) && r.pointer == s.pointer + 1 && !CanRedo(r)
    ensures r.history[..s.pointer + 1] == s.history[..s.pointer + 1]
    ensures r.history[r.pointer] == RowAdd(NewRow(s))
    ensures |r.grid| == |s.grid| + 1
    ensures r.nextId == s.nextId + 1 + INITIAL_BOX_COUNT && r.redoShown == s.redoShown
  {
    var inserted := InsertRow(s);
    assert Ids(inserted.grid)[|s.grid|] == NewRow(s).id;
    ExecuteCommandAsWritten(inserted, RowAdd(NewRow(s)))
  }

  /**
    Numbers are not identities: the second box of one new row shows the same
    number as the first box of the row added after it.
  */
  lemma NumbersRepeatAcrossRows(n: nat, a: nat)
    ensures NewRowCells(n, a)[1].value.number == NewRowCells(n + 1, a + 1 + INITIAL_BOX_COUNT)[0].value.number
    ensures NewRowCells(n, a)[1].value.id != NewRowCells(n + 1, a + 1 + INITIAL_BOX_COUNT)[0].value.id
  {
  }

  /** A table whose identities are below `n` holds no row or box with identity `n` or above. */
  lemma FreshAbove(g: Grid, n: nat, m: nat)
    requires IdsBelow(g, n) && n <= m
    ensures m !in Ids(g)
    ensures forall c :: At(g, c).Some? ==> At(g, c).value.id < m
  {
  }

  /** The row `addNewRow` builds is new to the table, and so are its boxes. */
  lemma NewRowApplicable(s: State)
    requires IdsBelow(s.grid, s.nextId)
    ensures Applicable(RowAdd(NewRow(s)), s.grid)
    ensures CommandIdsBelow(RowAdd(NewRow(s)), s.nextId + 1 + INITIAL_BOX_COUNT)
  {
    FreshAbove(s.grid, s.nextId, s.nextId);
  }

  /** Handing out identities from a larger counter keeps a page tracking its history. */
  lemma RaiseNextId(s: State, ts: seq<Grid>, m: nat)
    requires Tracks(s, ts) && s.nextId <= m
    ensures Tracks(s.(nextId := m), ts)
  {
    forall i | 0 <= i < |ts| ensures Recorded(ts[i], m) {
      assert Recorded(ts[i], s.nextId);
      IdsBelowMonotone(ts[i], s.nextId, m);
    }
    forall i | 0 <= i < |s.history| ensures Replayed(ts, s.history, i) {
      assert Replayed(ts, s.history, i);
    }
  }

  /**
    Adding a row to a page tracking its history appends exactly the new row,
    whose identity and boxes are new, and keeps the script's invariant: the
    tables up to the cursor stay, and the new table follows them.
  */
  lemma AddNewRowConsistent(s: State, ts: seq<Grid>)
    requires Tracks(s, ts)
    ensures AddNewRow(s).grid == s.grid + [NewRow(s)]
    ensures Consistent(AddNewRow(s), ts[..s.pointer + 2] + [s.grid + [NewRow(s)]])
  {
    var row := NewRow(s);
    var c := RowAdd(row);
    var s2 := s.(nextId := s.nextId + 1 + INITIAL_BOX_COUNT);
    CurrentRecorded(s, ts);
    NewRowApplicable(s);
    RaiseNextId(s, ts, s2.nextId);
    ExecuteCommandAsWrittenConsistent(s2, ts, c);
    AppendRowFresh(s.grid, row);
    AppendRowLast(s.grid, row);
    assert AddNewRow(s) == ExecuteCommandAsWritten(s2, c);
  }

  // ---------------------------------------------------------------------
  // Page load
  // ---------------------------------------------------------------------

  /** `addNewRow` called `count` times in a row. */
  function AddRows(s: State, count: nat): (r: State)
    requires Valid(s)
    ensures Valid(r) && r.nextId == s.nextId + count * (1 + INITIAL_BOX_COUNT)
    ensures |r.grid| == |s.grid| + count
    decreases count
  {
    if count == 0 then s else AddRows(AddNewRow(s), count - 1)
  }

  /**
    Adding a row to a well-formed table whose identities are below the counter
    appends exactly the new row and keeps both properties.
  */
  lemma AddNewRowRecorded(s: State)
    requires Valid(s) && Recorded(s.grid, s.nextId)
    ensures AddNewRow(s).grid == s.grid + [NewRow(s)]
    ensures Recorded(AddNewRow(s).grid, AddNewRow(s).nextId)
  {
    var row := NewRow(s);
    var n := s.nextId + 1 + INITIAL_BOX_COUNT;
    NewRowApplicable(s);
    IdsBelowMonotone(s.grid, s.nextId, n);
    ExecuteWellFormed(RowAdd(row), s.grid, n);
    AppendRowFresh(s.grid, row);
    AppendRowLast(s.grid, row);
  }

  /** The rows added at load time leave a well-formed table with every identity below the next one to hand out. */
  lemma {:induction false} AddRowsConsistent(s: State, count: nat)
    requires Valid(s) && Recorded(s.grid, s.nextId)
    ensures Recorded(AddRows(s, count).grid, AddRows(s, count).nextId)
    decreases count
  {
    if count > 0 {
      var s1 := AddNewRow(s);
      AddNewRowRecorded(s);
      AddRowsConsistent(s1, count - 1);
      assert AddRows(s, count) == AddRows(s1, count - 1);
    }
  }

  /** The end of `window.onload`: empty the history, reset the cursor and refresh the redo button. */
  function ResetHistory(s: State): (r: State)
    ensures Valid(r) && r.history == [] && r.pointer == -1
    ensures r.grid == s.grid && r.nextId == s.nextId && !r.redoShown
  {
    var r := s.(history := [], pointer := -1);
    r.(redoShown := CanRedo(r))
  }

  /**
    `window.onload`: add the initial rows, then forget them in the history and
    refresh the redo button, whatever it showed before.
  */
  function OnLoad(s: State): (r: State)
    requires Valid(s)
    ensures |r.grid| == |s.grid| + INITIAL_ROW_COUNT
    ensures r.history == [] && r.pointer == -1 && !r.redoShown
  {
    ResetHistory(AddRows(s, INITIAL_ROW_COUNT))
  }

  /**
    After the page loads, the table has the initial rows, the history is empty
    with the cursor at -1, the redo button is disabled, both undo and redo do
    nothing, and the page is consistent with its (empty) history, its button
    showing exactly that nothing can be redone. The button's look before the
    load does not matter.
  */
  lemma OnLoadState(s: State, animating: bool)
    requires Valid(s) && WellFormed(s.grid) && IdsBelow(s.grid, s.nextId)
    ensures var r := OnLoad(s);
      && |r.grid| == |s.grid| + INITIAL_ROW_COUNT
      && r.history == [] && r.pointer == -1 && !r.redoShown
      && UndoLastAction(r, animating) == r
      && RedoLastAction(r, animating) == r
      && Consistent(r, [r.grid]) && ConsistentExact(r, [r.grid])
  {
    assert Recorded(s.grid, s.nextId);
    AddRowsConsistent(s, INITIAL_ROW_COUNT);
  }

  // ---------------------------------------------------------------------
  // Any sequence of user actions
  // ---------------------------------------------------------------------

  /** What the user can do on the page. */
  datatype Action =
    | /** Drop the box of the last drag start; `target` is the cell under the drop point, if any. */
      DropOn(dragged: Option<Box>, target: Option<Cell>)
    | /** Click undo while an animation is (or is not) running. */
      UndoClick(animating: bool)
    | /** Click redo while an animation is (or is not) running. */
      RedoClick(animating: bool)
    | /** Click "add row". */
      AddRowClick

  /** A drop event only reaches cells on the page: a cell not in the table is no drop target. */
  function DropTarget(g: Grid, target: Option<Cell>): (r: Option<Cell>)
    ensures r.Some? ==> HasCell(g, r.value) && r == target
  {
    if target.Some? && HasCell(g, target.value) then target else None
  }

  /**
    One user action on the script's page. Either the history is untouched, or
    a new command is pushed right after the kept prefix up to the cursor.
    Identities are never handed out twice.
  */
  function Step(s: State, a: Action): (r: State)
    requires Valid(s)
    ensures Valid(r) && r.nextId >= s.nextId
    ensures r.history == s.history || (r.pointer == s.pointer + 1 == |r.history| - 1 && r.history[..s.pointer + 1] == s.history[..s.pointer + 1])
  {
    match a
    case DropOn(dragged, target) => Drop(s, dragged, DropTarget(s.grid, target))
    case UndoClick(animating) => UndoLastAction(s, animating)
    case RedoClick(animating) => RedoLastAction(s, animating)
    case AddRowClick => AddNewRow(s)
  }

  /** A sequence of user actions on the script's page. */
  function Run(s: State, actions: seq<Action>): (r: State)
    requires Valid(s)
    ensures Valid(r) && r.nextId >= s.nextId
    decreases |actions|
  {
    if |actions| == 0 then s else Run(Step(s, actions[0]), actions[1..])
  }

  /** The tables the history replays after one action: a new command replaces the undone future. */
  ghost function StepTrace(s: State, ts: seq<Grid>, a: Action): seq<Grid>
    requires Valid(s)
  {
    match a
    case DropOn(dragged, target) =>
      if HandleDrop(s.grid, dragged, DropTarget(s.grid, target)).Submitted?
      then (if s.pointer + 2 <= |ts| then ts[..s.pointer + 2] else ts) + [Step(s, a).grid]
      else ts
    case UndoClick(_) => ts
    case RedoClick(_) => ts
    case AddRowClick => (if s.pointer + 2 <= |ts| then ts[..s.pointer + 2] else ts) + [Step(s, a).grid]
  }

  ghost function RunTrace(s: State, ts: seq<Grid>, actions: seq<Action>): seq<Grid>
    requires Valid(s)
    decreases |actions|
  {
    if |actions| == 0 then ts else RunTrace(Step(s, actions[0]), StepTrace(s, ts, actions[0]), actions[1..])
  }

  /**
    A drop on a cell of the table keeps the page tracking its history and
    keeps the script's invariant: a submitted swap replaces the undone future,
    anything else changes nothing.
  */
  lemma DropConsistent(s: State, ts: seq<Grid>, dragged: Option<Box>, target: Option<Cell>)
    requires Tracks(s, ts)
    requires target.Some? ==> HasCell(s.grid, target.value)
    ensures var d := HandleDrop(s.grid, dragged, target);
      var ts' := if d.Submitted? then ts[..s.pointer + 2] + [Drop(s, dragged, target).grid] else ts;
      && Tracks(Drop(s, dragged, target), ts')
      && (Consistent(s, ts) ==> Consistent(Drop(s, dragged, target), ts'))
  {
    CurrentRecorded(s, ts);
    DropCommandApplicable(s.grid, dragged, target);
    var d := HandleDrop(s.grid, dragged, target);
    if d.Submitted? {
      ExecuteCommandAsWrittenConsistent(s, ts, d.command);
    }
  }

  /** A drop as the page delivers it keeps the page tracking its history, and keeps the script's invariant. */
  lemma DropOnConsistent(s: State, ts: seq<Grid>, dragged: Option<Box>, target: Option<Cell>)
    requires Tracks(s, ts)
    ensures Tracks(Step(s, DropOn(dragged, target)), StepTrace(s, ts, DropOn(dragged, target)))
    ensures Consistent(s, ts) ==> Consistent(Step(s, DropOn(dragged, target)), StepTrace(s, ts, DropOn(dragged, target)))
  {
    DropConsistent(s, ts, dragged, DropTarget(s.grid, target));
  }

  /** Adding a row from the button keeps the page tracking its history, and keeps the script's invariant. */
  lemma AddRowClickConsistent(s: State, ts: seq<Grid>)
    requires Tracks(s, ts)
    ensures Tracks(Step(s, AddRowClick), StepTrace(s, ts, AddRowClick))
    ensures Consistent(Step(s, AddRowClick), StepTrace(s, ts, AddRowClick))
  {
    AddNewRowConsistent(s, ts);
  }

  /** Every user action keeps the page tracking its history, and keeps the script's invariant. */
  lemma StepConsistent(s: State, ts: seq<Grid>, a: Action)
    requires Tracks(s, ts)
    ensures Tracks(Step(s, a), StepTrace(s, ts, a))
    ensures Consistent(s, ts) ==> Consistent(Step(s, a), StepTrace(s, ts, a))
  {
    match a
    case DropOn(dragged, target) =>
      DropOnConsistent(s, ts, dragged, target);
    case UndoClick(animating) =>
      UndoLastActionConsistent(s, ts, animating);
    case RedoClick(animating) =>
      RedoLastActionConsistent(s, ts, animating);
    case AddRowClick =>
      AddRowClickConsistent(s, ts);
  }

  /**
    Whatever the user does, the table is always the one the history's applied
    prefix leads to, so each undo brings back exactly the table before the
    undone command and each redo exactly the table after it; and the redo
    button is enabled whenever redo is possible.
  */
  lemma {:induction false} RunConsistent(s: State, ts: seq<Grid>, actions: seq<Action>)
    requires Consistent(s, ts)
    ensures Consistent(Run(s, actions), RunTrace(s, ts, actions))
    decreases |actions|
  {
    if |actions| > 0 {
      StepConsistent(s, ts, actions[0]);
      RunConsistent(Step(s, actions[0]), StepTrace(s, ts, actions[0]), actions[1..]);
    }
  }

  /**
    The script's redo button can go stale: undo enables it, and the row added
    next leaves it enabled although nothing is left to redo.
  */
  lemma ScriptButtonGoesStale(s: State)
    requires Valid(s) && CanUndo(s)
    ensures var r := Run(s, [UndoClick(false), AddRowClick]);
      r.redoShown && !CanRedo(r)
  {
    var s1 := Step(s, UndoClick(false));
    assert Run(s, [UndoClick(false), AddRowClick]) == Run(s1, [AddRowClick]);
  }

  // ---------------------------------------------------------------------
  // The corrected page
  // ---------------------------------------------------------------------

  /**
    One user action on the corrected page, whose `executeCommand` calls
    `updateRedoButton` as the undo and redo handlers do.
  */
  function CorrectedStep(s: State, a: Action): (r: State)
    requires Valid(s)
    ensures Valid(r) && r.redoShown == CanRedo(r)
  {
    UpdateRedoButton(Step(s, a))
  }

  /** On a page whose button is exact, the corrected step runs drops and row additions through `History.ExecuteCommand`. */
  lemma CorrectedStepCallsExecuteCommand(s: State, a: Action)
    requires Valid(s) && s.redoShown == CanRedo(s)
    ensures a.DropOn? ==>
      var d := HandleDrop(s.grid, a.dragged, DropTarget(s.grid, a.target));
      CorrectedStep(s, a) == if d.Submitted? then ExecuteCommand(s, d.command) else s
    ensures a.AddRowClick? ==> CorrectedStep(s, a) == ExecuteCommand(InsertRow(s), RowAdd(NewRow(s)))
    ensures a.UndoClick? || a.RedoClick? ==> CorrectedStep(s, a) == Step(s, a)
  {
    match a
    case DropOn(dragged, target) =>
      var d := HandleDrop(s.grid, dragged, DropTarget(s.grid, target));
      if d.Submitted? {
        assert Step(s, a) == ExecuteCommandAsWritten(s, d.command);
      }
    case AddRowClick =>
      assert Step(s, a) == ExecuteCommandAsWritten(InsertRow(s), RowAdd(NewRow(s)));
    case UndoClick(animating) =>
    case RedoClick(animating) =>
  }

  /** A sequence of user actions on the corrected page. */
  function CorrectedRun(s: State, actions: seq<Action>): (r: State)
    requires Valid(s)
    ensures Valid(r) && (|actions| > 0 || s.redoShown == CanRedo(s) ==> r.redoShown == CanRedo(r))
    decreases |actions|
  {
    if |actions| == 0 then s else CorrectedRun(CorrectedStep(s, actions[0]), actions[1..])
  }

  /** The tables the corrected page's history replays after a sequence of actions. */
  ghost function CorrectedRunTrace(s: State, ts: seq<Grid>, actions: seq<Action>): seq<Grid>
    requires Valid(s)
    decreases |actions|
  {
    if |actions| == 0 then ts else CorrectedRunTrace(CorrectedStep(s, actions[0]), StepTrace(s, ts, actions[0]), actions[1..])
  }

  /** On the corrected page every user action keeps the button exact and the page tracking its history. */
  lemma {:induction false} CorrectedRunConsistent(s: State, ts: seq<Grid>, actions: seq<Action>)
    requires ConsistentExact(s, ts)
    ensures ConsistentExact(CorrectedRun(s, actions), CorrectedRunTrace(s, ts, actions))
    decreases |actions|
  {
    if |actions| > 0 {
      StepConsistent(s, ts, actions[0]);
      var r := Step(s, actions[0]);
      var ts' := StepTrace(s, ts, actions[0]);
      TracksMove(r, CorrectedStep(s, actions[0]), ts');
      CorrectedRunConsistent(CorrectedStep(s, actions[0]), ts', actions[1..]);
    }
  }

  /**
    From a page whose table is well formed, whatever the redo button showed,
    after loading and any sequence of user actions the page keeps the script's
    invariant; the corrected page keeps the button exact as well.
  */
  lemma LoadedPageStaysConsistent(s: State, actions: seq<Action>)
    requires Valid(s)
    requires WellFormed(s.grid) && IdsBelow(s.grid, s.nextId)
    ensures Consistent(Run(OnLoad(s), actions), RunTrace(OnLoad(s), [OnLoad(s).grid], actions))
    ensures ConsistentExact(CorrectedRun(OnLoad(s), actions), CorrectedRunTrace(OnLoad(s), [OnLoad(s).grid], actions))
  {
    OnLoadState(s, false);
    RunConsistent(OnLoad(s), [OnLoad(s).grid], actions);
    CorrectedRunConsistent(OnLoad(s), [OnLoad(s).grid], actions);
  }
}
