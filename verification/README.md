# Undo/redo of box swaps and row additions in a drag-and-drop table

This project models the part of the page script (`script.js`) that records
user changes to a drag-and-drop table so that they can be undone and redone:

- the table itself, as rows of cells that each hold at most one numbered box
  (`table.dfy`);
- the two reversible commands, `BoxMoveCommand` (swap the dragged box with the
  target cell's box, if any) and `RowAddCommand` (append a row)
  (`commands.dfy`);
- the history engine: `executeCommand`, `undoLastAction`, `redoLastAction`
  and the condition `updateRedoButton` shows (`history.dfy`);
- the drop handler's filter, the numbering of new rows, the history reset in
  `window.onload`, and any sequence of user actions (`interaction.dfy`).

Everything is immutable data and pure functions. A command's `execute`,
`undo` and `redo` map a table to a table. The page state holds:
- the table;
- the history and its cursor (-1 before the first command);
- whether the redo button shows enabled;
- the next identity a newly created row or box receives. This counter stands
  in for the browser creating fresh elements.

Boxes have an identity separate from the number they display, because the
numbering of new rows repeats numbers across rows (`NumbersRepeatAcrossRows`).

A swap's two halves each commit through `appendChild` when their animation
ends. Here both halves commit at once, and `SwapHalvesCommute` shows that
their order would not matter. `appendChild` of a box moves it: the box leaves
the cell it was in.

Undoing a row addition deletes the row at its current `rowIndex`. `rowIndex`
is -1 for a row that is not in the table, and `deleteRow(-1)` then removes the
last row (HTMLTableElement.deleteRow in the HTML Living Standard). That quirk
is modelled too. The main theorem shows it never happens: the row is always
present when its addition is undone, so the deletion removes that row by
identity.

The main theorem is about consistency. `History.Tracks(s, ts)` holds when a
ghost sequence of tables `ts` is replayed by the history:
- `ts[i]` is the table before `history[i]` and `ts[i+1]` the table after it;
- every command was built from the table it ran on;
- every table along the way is well formed;
- the current table is `ts[pointer + 1]`.

The redo button is judged on its own. `History.ButtonSound` says the button
shows enabled whenever redo is possible. `History.Consistent` is `Tracks`
together with `ButtonSound`, and it is what the script keeps. A drop and a
row addition go through `executeCommand` as written
(`History.ExecuteCommandAsWritten`), which does not refresh the button. So
after an undo and a new command the button can show enabled although nothing
is left to redo (see Findings). Every user action keeps `Consistent`, from
page load on (`RunConsistent`, `LoadedPageStaysConsistent`). So every undo
brings back exactly the table before the undone command, and every redo
brings back exactly the table after it.

`History.ConsistentExact` is `Tracks` with a button that shows exactly whether
redo is possible. It holds on the corrected page (`Interaction.CorrectedStep`,
`Interaction.CorrectedRun`), whose `executeCommand` refreshes the button
(`History.ExecuteCommand`). Every action there keeps it
(`CorrectedRunConsistent`).

`state.isAnimating` is never set to `true` in the script, so it is an input of
`UndoLastAction` and `RedoLastAction`, not part of the state.

## Model

| member | source | states |
|---|---|---|
| Table.MoveBoxCommute | script.js:48-55 | The two `appendChild` halves of `_animateAndSwap` involve different boxes and different cells. Committing them in either order gives the same table. |
| Commands.AnimateAndSwap | script.js:48-55 | `_animateAndSwap` adds, removes and reshapes no row: every row keeps its identity and its number of cells. What the cells then hold is `SwapExchanges`. |
| Commands.SwapExchanges | script.js:48-55 | `_animateAndSwap(x, to1, y, to2)`, with `x` in `to2` and `y` in `to1`, exchanges the two cells' contents. No other cell changes. An absent box leaves its destination empty. |
| Commands.SwapHalvesCommute | script.js:48-55 | For a swap with a box on each side, executing it equals committing the moved box's half first and then the dragged box's half. |
| Commands.Execute | script.js:26-66 | A swap's `execute` keeps the table's shape. A row addition's `execute` adds one row when the row's `rowIndex` is -1 and keeps the row count otherwise. What the cells and rows then hold is `BoxMoveExecute` and `RowAddExecute`. |
| Commands.Undo | script.js:35-70 | A swap's `undo` keeps the table's shape. A row addition's `undo` deletes exactly one row of a non-empty table, whichever row `rowIndex` picks. Which row that is comes from `RowAddUndoPresent` and `RowAddUndoAbsent`. |
| Commands.RedoAfterUndo | script.js:44-46 | `redo` is `execute` again, for both commands (also lines 72-74). After `execute` and `undo` of a command built from the table, `redo` gives back exactly the table `execute` produced. |
| Commands.BoxMoveExecute | script.js:26-33 | Take a swap built from the current table. After `execute`, the target cell holds the dragged box. The dragged box's old cell holds the target's former box, or is empty when there was none. Every other cell keeps its box, and the table stays well formed. |
| Commands.BoxMoveUndo | script.js:35-42 | `undo` sends the dragged box back to its origin cell and the moved box, if any, back to the target cell. No other cell changes. |
| Commands.RowAddExecute | script.js:64-66 | `execute` appends the recorded row when its identity is not in the table. A row already in the table (identities distinct) is moved to the end: the result is the table without it, followed by that row. |
| Commands.RowAddUndoPresent | script.js:68-70 | `deleteRow(newRow.rowIndex)` on a table holding the row removes exactly the row with that identity, wherever it stands, and nothing else. The reference definition for this is `WithoutRow`. |
| Commands.RowAddUndoAbsent | script.js:68-70 | When the row is not in the table, `rowIndex` is -1 and the undo removes the last row. |
| Commands.RemoveAtIsWithoutRow | script.js:68-70 | When row identities are distinct, removing the row at the position of an identity is the same as filtering out every row with that identity. |
| Commands.ExecuteWellFormed | script.js:20-75 | Executing a command built from the current table keeps every box in exactly one cell and the row identities distinct. |
| Commands.UndoAfterExecute | script.js:20-75 | For both commands, `undo` after `execute` restores the exact table: the same boxes in the same cells and the same rows in the same order. |
| History.UpdateRedoButton | script.js:92-100 | The button shows enabled exactly when the cursor is below the last index of the history. Nothing else on the page changes. |
| History.CanRedoIffRedoActs | script.js:95 | The condition the redo button shows, `p` below the last index of the history, holds exactly when a redo would change the page. |
| History.CanUndoIffUndoActs | script.js:84-90 | Undo's history guard, `p >= 0`, holds exactly when an undo without animation would change the page. |
| History.ExecuteCommandAsWritten | script.js:77-82 | `executeCommand` as written cuts the history to indices `0..p` and appends the command. The cursor moves to the new last index, the prefix `history[0..p]` is unchanged and the table is the command's `execute`. The redo button is not refreshed. |
| History.ExecuteCommand | script.js:77-82 | The corrected `executeCommand`, followed by a refresh of the redo button. Besides the above, redo is unavailable and the button is disabled. |
| History.UndoLastAction | script.js:84-90 | Does nothing when `p < 0` or an animation is running. Otherwise it undoes `history[p]`, decrements `p` and leaves redo available and shown. The cursor invariant holds, and the history sequence never changes. |
| History.RedoLastAction | script.js:102-111 | Does nothing when `p` is the last index of the history or an animation is running. Otherwise it redoes `history[p+1]` and increments `p`, and the button shows whether more is left to redo. The cursor invariant holds, and the history sequence never changes. |
| History.UndoLastActionConsistent | script.js:84-90 | Undo keeps the page tracking its history. When it acts, the table becomes exactly the recorded table before the undone command. It keeps the script's invariant `Consistent`, and keeps an exact button exact. |
| History.RedoLastActionConsistent | script.js:102-111 | Redo (which for both commands is `execute`) keeps the page tracking its history. When it acts, the table becomes exactly the recorded table after the redone command. It keeps `Consistent`, and keeps an exact button exact. |
| History.ExecuteCommandAsWrittenConsistent | script.js:77-82 | `executeCommand` as written, with a command built from the current table, keeps `Consistent`. The undone future is discarded, and the new table follows the tables up to the cursor. |
| History.ExecuteCommandConsistent | script.js:77-82 | The corrected `executeCommand` leaves the page tracking its history with an exact button, from any page that tracks its history. |
| History.ReplaysCutAndExtend | script.js:77-82 | Cutting the history after the cursor (`splice(p + 1)`) and appending a command built from the current table yields a history that still replays its tables. |
| History.UndoThenRedo | script.js:84-111 | On a page that tracks its history and has something to undo, undo followed by redo gives back the same page with its button refreshed, and exactly the same page when the button was exact. |
| History.RedoThenUndo | script.js:84-111 | On a page that tracks its history and has something to redo, redo followed by undo gives back the same page with the button enabled, and exactly the same page when the button was sound. |
| History.ExecuteThenUndo | script.js:77-90 | Undoing a command just executed restores the table and the cursor. The command stays in the history as the one redo would re-apply, and the button shows it. |
| History.StaleRedoButton | script.js:77-100 | After an undo, a new command through `executeCommand` as written leaves the redo button enabled, although nothing can be redone. |
| Interaction.LocateIsParent | script.js:134-138 | In a well-formed table, the cell found as the dragged box's parent is exactly the cell holding it. |
| Interaction.HandleDrop | script.js:131-144 | Without an enclosing cell there is no command. A drop with no box ever dragged throws before building one. A submitted command is a swap of the dragged box into the target cell, carrying the target's occupant at drop time, from a different cell. |
| Interaction.DropFilter | script.js:131-144 | A drop on the dragged box's own cell creates no command. A drop on any other cell submits exactly one swap from that cell to the target, whose moved box is the target's current occupant, possibly none. |
| Interaction.DropOfBoxNotInTable | script.js:131-144 | A dragged box that is in no cell of the table produces no command. |
| Interaction.DropCommandApplicable | script.js:131-144 | The swap a drop on a table cell submits is built from the table as it stands, so undoing it restores the table. |
| Interaction.Drop | script.js:131-144 | The page after a drop is unchanged unless a swap was submitted. If one was, it goes through `executeCommand` as written: the table is the swap's `execute`, the swap is the new last command, redo is unavailable, and the redo button keeps whatever it showed. |
| Interaction.DropConsistent | script.js:131-144 | A drop on a cell of the table keeps the page tracking its history, and keeps the script's invariant `Consistent`. A submitted swap replaces the undone future, and any other drop changes nothing. |
| Interaction.DropOnConsistent | script.js:131-144 | A drop as the page delivers it, on a cell or outside the table, keeps the page tracking its history and keeps `Consistent`. |
| Interaction.NewRowCells | script.js:177-181 | A new row has three boxes. With `n` the row count after insertion, box `i` shows `n*100 + i*100`, and each box has its own identity. |
| Interaction.NumbersRepeatAcrossRows | script.js:178-180 | The second box of one new row shows the same number as the first box of the next new row, though they are different boxes. |
| Interaction.InsertRow | script.js:176-182 | `insertRow` and the cells appended to it: the table gains the new row at the end, four identities are used, and the history and the button do not change. |
| Interaction.AddNewRow | script.js:175-186 | Adding a row records a row addition for the new row as the last command through `executeCommand` as written. Nothing is left to redo, one row is added, four fresh identities are used and the redo button keeps whatever it showed. |
| Interaction.AddNewRowConsistent | script.js:175-186 | On a page that tracks its history, adding a row appends exactly the new row. The page then satisfies the script's invariant `Consistent`, and the new table follows the recorded tables up to the cursor. |
| Interaction.AddRowClickConsistent | script.js:175-186 | A click on "add row" keeps the page tracking its history and leaves it `Consistent`. |
| Interaction.AddNewRowRecorded | script.js:175-186 | Adding a row to a well-formed table whose identities are below the counter appends exactly the new row and keeps both properties. |
| Interaction.AddRowsConsistent | script.js:209-211 | The rows added at load time leave a well-formed table with one more row per call. Every identity stays below the next one to hand out. |
| Interaction.ResetHistory | script.js:212-214 | The reset leaves an empty history, the cursor at -1, the table untouched and the redo button disabled. |
| Interaction.OnLoad | script.js:208-216 | `window.onload` adds the three initial rows, then empties the history, sets the cursor to -1 and disables the redo button, whatever the page showed before. |
| Interaction.OnLoadState | script.js:208-216 | After `window.onload` the table has the three initial rows, the history is empty with `p = -1`, and the redo button is disabled. Undo and redo both do nothing, and the page is consistent with its empty history, with an exact button. |
| Interaction.Step | script.js:113-216 | One user action (a drop, an undo or redo click, an "add row" click) keeps the cursor invariant and never lowers the identity counter. The history either stays the same or keeps its prefix up to the old cursor and gains one command, on which the cursor then stands. |
| Interaction.Run | script.js:113-216 | Any sequence of user actions keeps the cursor invariant and never lowers the identity counter. |
| Interaction.RunConsistent | script.js:77-111 | Any sequence of drops, undo clicks, redo clicks and row additions keeps the script's invariant `Consistent`: the page tracks its history and the redo button shows enabled whenever redo is possible. |
| Interaction.ScriptButtonGoesStale | script.js:77-186 | On the page as written, an undo click followed by an "add row" click leaves the redo button enabled with nothing to redo. |
| Interaction.CorrectedStep | script.js:92-111 | On the corrected page, every user action leaves the redo button showing exactly whether redo is possible. |
| Interaction.CorrectedStepCallsExecuteCommand | script.js:131-186 | On the corrected page, a drop that submits a swap and an "add row" click run through the corrected `executeCommand`. Undo and redo clicks act as on the page as written. |
| Interaction.CorrectedRun | script.js:92-111 | After any non-empty sequence of actions on the corrected page, or from an exact button, the redo button is exact. |
| Interaction.CorrectedRunConsistent | script.js:77-111 | On the corrected page any sequence of user actions keeps the page tracking its history with an exact redo button. |
| Interaction.LoadedPageStaysConsistent | script.js:208-216 | From a well-formed page, after load and any sequence of user actions, the page as written keeps `Consistent`, and the corrected page keeps the stronger `ConsistentExact`. |

## Left out

- The animation (`animateBoxMovement`, `resetBoxStyles`, `ANIMATION_DURATION`): pixel deltas, CSS transitions and `transitionend` timing. Each half of a swap commits immediately instead of after its animation.
- `getRandomColor`: boxes have no colour, because the colour is random and affects nothing else.
- `initializeDragAndDrop`, `handleDragStart`, `handleDragEnd` and `createNewBox`: this is event wiring and element construction. The box of the last drag start is an input of a drop, and element creation is the `nextId` counter.
- `state.isAnimating`: the script never sets it, so it is an input of undo and redo.
- The redo button's `classList` changes: only the enabled/disabled flag is kept.
- `index.html` is not part of this model. The table is taken to contain only the rows the model holds. A header row would shift `rowIndex` and the numbering of new rows.
- Interaction.HandleDrop: a stale dragged box whose row has since been removed gives `NotInTable` and no command. The script would instead build a swap with the box's detached cell as origin.
- Interaction.Step: a drop can only reach a cell on the page, so a cell that is not in the table counts as no drop target.
- Commands.RowAdd: the command records the row as a value, while the script keeps the live row element. `RowAddExecute` and `Tracks` show that the two agree. After `insertRow`, `appendChild` finds the recorded row at the end. At every undo and redo the table matches the recorded table, so the row's contents are as recorded.
- New drops are not blocked while an animation runs, because the script does not block them either.

## Findings

| source | as written | input that shows it | evidently intended | confidence | as-written member | corrected member |
|---|---|---|---|---|---|---|
| script.js:77-82 | `executeCommand` never calls `updateRedoButton`. | Add a row, undo it (the redo button becomes enabled), then drop a box onto another cell. The history now ends at the cursor, but the redo button keeps its enabled look. | The button is refreshed after every history change, as it is after undo and redo. | medium, not executed | History.ExecuteCommandAsWritten (exhibited by History.StaleRedoButton and Interaction.ScriptButtonGoesStale) | History.ExecuteCommand (used by Interaction.CorrectedStep; History.ExecuteCommandConsistent and Interaction.CorrectedRunConsistent show the button always matches `CanRedo`) |
