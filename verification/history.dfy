/**
  The history engine: a list of executed commands, a cursor on the most
  recently applied one (-1 before the first), and the redo button whose
  enabled look is derived from the two.

  `isAnimating` is never set anywhere in the page's script, so it is not part
  of the state: undo and redo take it as an input.
*/
module History {
  import opened Options
  import opened Table
  import opened Commands

  /**
    The page state: the table, the history and its cursor, whether the redo
    button is shown enabled, and the next identity a newly created element
    (row or box) receives.
  */
  datatype State = State(grid: Grid, history: seq<Command>, pointer: int, redoShown: bool, nextId: nat)

  /** The cursor invariant. */
  predicate Valid(s: State) {
    -1 <= s.pointer <= |s.history| - 1
  }

  /** The condition `updateRedoButton` shows: there is an undone command to redo. */
  predicate CanRedo(s: State) {
    s.pointer < |s.history| - 1
  }

  /** The history half of `undoLastAction`'s guard: some command is applied. */
  predicate CanUndo(s: State) {
    s.pointer >= 0
  }

  /**
    `updateRedoButton`: the button shows enabled exactly when there is an
    undone command to redo. Nothing but the button changes.
  */
  function UpdateRedoButton(s: State): (r: State)
    ensures r.redoShown == CanRedo(s)
    ensures r.(redoShown := s.redoShown) == s
  {
    s.(redoShown := CanRedo(s))
  }

  /**
    `executeCommand` as the script writes it: drop the commands after the
    cursor, execute the new one, append it and advance the cursor. The redo
    button is not refreshed.
  */
  function ExecuteCommandAsWritten(s: State, c: Command): (r: State)
    requires Valid(s)
    ensures Valid(r) && r.pointer == s.pointer + 1 && r.pointer == |r.history| - 1
    ensures r.history[..s.pointer + 1] == s.history[..s.pointer + 1] && r.history[r.pointer] == c
    ensures r.grid == Execute(c, s.grid)
    ensures r.redoShown == s.redoShown && r.nextId == s.nextId
  {
    State(Execute(c, s.grid), s.history[..s.pointer + 1] + [c], s.pointer + 1, s.redoShown, s.nextId)
  }

  /**
    `executeCommand` followed by `updateRedoButton`, as the undo and redo
    handlers do it. Afterwards the new command is the last one, nothing is left
    to redo, and the commands up to the old cursor are kept as they were.
  */
  function ExecuteCommand(s: State, c: Command): (r: State)
    requires Valid(s)
    ensures Valid(r) && r.pointer == s.pointer + 1 && r.pointer == |r.history| - 1
    ensures r.history[..s.pointer + 1] == s.history[..s.pointer + 1] && r.history[r.pointer] == c
    ensures r.grid == Execute(c, s.grid)
    ensures !CanRedo(r) && !r.redoShown && r.nextId == s.nextId
  {
    UpdateRedoButton(ExecuteCommandAsWritten(s, c))
  }

  /**
    `undoLastAction`: unless nothing is applied or an animation is running,
    undo the command at the cursor, move the cursor back and refresh the redo
    button. The history itself never changes.
  */
  function UndoLastAction(s: State, animating: bool): (r: State)
    requires Valid(s)
    ensures Valid(r) && r.history == s.history && r.nextId == s.nextId
    ensures !CanUndo(s) || animating ==> r == s
    ensures CanUndo(s) && !animating ==>
      && r.pointer == s.pointer - 1
      && r.grid == Undo(s.history[s.pointer], s.grid)
      && CanRedo(r) && r.redoShown
  {
    if s.pointer >= 0 && !animating then
      UpdateRedoButton(s.(grid := Undo(s.history[s.pointer], s.grid), pointer := s.pointer - 1))
    else
      s
  }

  /**
    `redoLastAction`: unless the cursor is on the last command or an animation
    is running, redo the command after the cursor, move the cursor forward and
    refresh the redo button. The history itself never changes.
  */
  function RedoLastAction(s: State, animating: bool): (r: State)
    requires Valid(s)
    ensures Valid(r) && r.history == s.history && r.nextId == s.nextId
    ensures !CanRedo(s) || animating ==> r == s
    ensures CanRedo(s) && !animating ==>
      && r.pointer == s.pointer + 1
      && r.grid == Redo(s.history[s.pointer + 1], s.grid)
      && CanUndo(r) && r.redoShown == CanRedo(r)
  {
    if s.pointer < |s.history| - 1 && !animating then
      UpdateRedoButton(s.(grid := Redo(s.history[s.pointer + 1], s.grid), pointer := s.pointer + 1))
    else
      s
  }

  // ---------------------------------------------------------------------
  // The history replays the table
  // ---------------------------------------------------------------------

  /**
    `ts[i]` is the table before `h[i]` and `ts[i + 1]` the table after it:
    every command was built from the table it was executed on, and every
    table along the way is well formed with identities below `n`.
  */
  ghost predicate Replays(ts: seq<Grid>, h: seq<Command>, n: nat) {
    && |ts| == |h| + 1
    && (forall i {:trigger Recorded(ts[i], n)} :: 0 <= i < |ts| ==> Recorded(ts[i], n))
    && (forall i {:trigger Replayed(ts, h, i)} :: 0 <= i < |h| ==> Replayed(ts, h, i))
  }

  /** A table the history passes through: well formed, with identities below `n`. */
  ghost predicate Recorded(g: Grid, n: nat) {
    WellFormed(g) && IdsBelow(g, n)
  }

  /** The command at index `i` was built from `ts[i]` and leads to `ts[i + 1]`. */
  ghost predicate Replayed(ts: seq<Grid>, h: seq<Command>, i: nat)
    requires i < |h| && |ts| == |h| + 1
  {
    Applicable(h[i], ts[i]) && Execute(h[i], ts[i]) == ts[i + 1]
  }

  /**
    The page agrees with its history: the cursor is valid, the history replays
    the tables `ts`, and the table is the one reached after the command at the
    cursor. The redo button plays no part.
  */
  ghost predicate Tracks(s: State, ts: seq<Grid>) {
    && Valid(s)
    && Replays(ts, s.history, s.nextId)
    && ts[s.pointer + 1] == s.grid
  }

  /** The redo button never shows disabled while a redo is possible. */
  predicate ButtonSound(s: State) {
    CanRedo(s) ==> s.redoShown
  }

  /**
    The invariant the script keeps: the page tracks its history, and the redo
    button is enabled whenever redo is possible. It may also show enabled when
    nothing is left to redo (`StaleRedoButton`).
  */
  ghost predicate Consistent(s: State, ts: seq<Grid>) {
    Tracks(s, ts) && ButtonSound(s)
  }

  /**
    The invariant of the corrected page, whose `executeCommand` refreshes the
    redo button: the page tracks its history, and the button shows exactly
    whether redo is possible.
  */
  ghost predicate ConsistentExact(s: State, ts: seq<Grid>) {
    Tracks(s, ts) && s.redoShown == CanRedo(s)
  }

  /** A page that keeps the history and lands on one of its recorded tables still tracks it. */
  lemma TracksMove(s: State, r: State, ts: seq<Grid>)
    requires Tracks(s, ts)
    requires r.history == s.history && r.nextId == s.nextId && Valid(r)
    requires ts[r.pointer + 1] == r.grid
    ensures Tracks(r, ts)
  {
  }

  /** The current table of a page that tracks its history is well formed, with identities below the counter. */
  lemma CurrentRecorded(s: State, ts: seq<Grid>)
    requires Tracks(s, ts)
    ensures WellFormed(s.grid) && IdsBelow(s.grid, s.nextId)
  {
    assert Recorded(ts[s.pointer + 1], s.nextId);
  }

  /** What the replay says about the command at index `i`. */
  lemma ReplayedStep(ts: seq<Grid>, h: seq<Command>, n: nat, i: int)
    requires Replays(ts, h, n) && 0 <= i < |h|
    ensures WellFormed(ts[i]) && Applicable(h[i], ts[i]) && Execute(h[i], ts[i]) == ts[i + 1]
  {
    assert Recorded(ts[i], n) && Replayed(ts, h, i);
  }

  /** When undo acts, the page lands on the table before the undone command. */
  lemma UndoLastActionTracks(s: State, ts: seq<Grid>, animating: bool)
    requires Tracks(s, ts)
    ensures Tracks(UndoLastAction(s, animating), ts)
    ensures CanUndo(s) && !animating ==> UndoLastAction(s, animating).grid == ts[s.pointer]
  {
    if CanUndo(s) && !animating {
      var p := s.pointer;
      ReplayedStep(ts, s.history, s.nextId, p);
      UndoAfterExecute(s.history[p], ts[p]);
      var r := UndoLastAction(s, animating);
      assert r.grid == ts[p];
      TracksMove(s, r, ts);
    }
  }

  /**
    Undo keeps the page tracking the same tables, and when it acts, it brings
    back the table before the undone command. Both the script's invariant and
    the corrected page's are kept.
  */
  lemma UndoLastActionConsistent(s: State, ts: seq<Grid>, animating: bool)
    requires Tracks(s, ts)
    ensures Tracks(UndoLastAction(s, animating), ts)
    ensures CanUndo(s) && !animating ==> UndoLastAction(s, animating).grid == ts[s.pointer]
    ensures Consistent(s, ts) ==> Consistent(UndoLastAction(s, animating), ts)
    ensures ConsistentExact(s, ts) ==> ConsistentExact(UndoLastAction(s, animating), ts)
  {
    UndoLastActionTracks(s, ts, animating);
  }

  /** When redo acts, the page lands on the table after the redone command. */
  lemma RedoLastActionTracks(s: State, ts: seq<Grid>, animating: bool)
    requires Tracks(s, ts)
    ensures Tracks(RedoLastAction(s, animating), ts)
    ensures CanRedo(s) && !animating ==> RedoLastAction(s, animating).grid == ts[s.pointer + 2]
  {
    if CanRedo(s) && !animating {
      var p := s.pointer;
      var r := RedoLastAction(s, animating);
      ReplayedStep(ts, s.history, s.nextId, p + 1);
      assert r.grid == ts[p + 2];
      TracksMove(s, r, ts);
    }
  }

  /**
    Redo keeps the page tracking the same tables, and when it acts, it brings
    back the table after the redone command. Both the script's invariant and
    the corrected page's are kept.
  */
  lemma RedoLastActionConsistent(s: State, ts: seq<Grid>, animating: bool)
    requires Tracks(s, ts)
    ensures Tracks(RedoLastAction(s, animating), ts)
    ensures CanRedo(s) && !animating ==> RedoLastAction(s, animating).grid == ts[s.pointer + 2]
    ensures Consistent(s, ts) ==> Consistent(RedoLastAction(s, animating), ts)
    ensures ConsistentExact(s, ts) ==> ConsistentExact(RedoLastAction(s, animating), ts)
  {
    RedoLastActionTracks(s, ts, animating);
  }

  /**
    `executeCommand` as written, with a command built from the current table,
    discards the undone future: the tables up to the cursor stay, and the new
    table follows them. Nothing is left to redo, so the button cannot hide a
    redo.
  */
  lemma ExecuteCommandAsWrittenConsistent(s: State, ts: seq<Grid>, c: Command)
    requires Tracks(s, ts)
    requires Applicable(c, s.grid) && CommandIdsBelow(c, s.nextId)
    ensures Consistent(ExecuteCommandAsWritten(s, c), ts[..s.pointer + 2] + [Execute(c, s.grid)])
  {
    var p := s.pointer;
    CurrentRecorded(s, ts);
    ExecuteWellFormed(c, s.grid, s.nextId);
    ReplaysCutAndExtend(ts, s.history, s.nextId, p + 1, c, Execute(c, s.grid));
    assert ExecuteCommandAsWritten(s, c).history == s.history[..p + 1] + [c];
  }

  /**
    The corrected `executeCommand` does the same to the history and tables,
    and leaves the button showing exactly that nothing is left to redo.
  */
  lemma ExecuteCommandConsistent(s: State, ts: seq<Grid>, c: Command)
    requires Tracks(s, ts)
    requires Applicable(c, s.grid) && CommandIdsBelow(c, s.nextId)
    ensures ConsistentExact(ExecuteCommand(s, c), ts[..s.pointer + 2] + [Execute(c, s.grid)])
  {
    ExecuteCommandAsWrittenConsistent(s, ts, c);
  }

  /**
    Cutting a replay after the table at index `k` and appending a command run
    on that table gives a replay again.
  */
  lemma ReplaysCutAndExtend(ts: seq<Grid>, h: seq<Command>, n: nat, k: nat, c: Command, g: Grid)
    requires Replays(ts, h, n) && k < |ts|
    requires Applicable(c, ts[k]) && Execute(c, ts[k]) == g && Recorded(g, n)
    ensures Replays(ts[..k + 1] + [g], h[..k] + [c], n)
  {
    var ts', h' := ts[..k + 1] + [g], h[..k] + [c];
    forall i | 0 <= i < |ts'| ensures Recorded(ts'[i], n) {
      if i <= k {
        assert ts'[i] == ts[i] && Recorded(ts[i], n);
      }
    }
    forall i | 0 <= i < |h'| ensures Replayed(ts', h', i) {
      if i < k {
        assert h'[i] == h[i] && Replayed(ts, h, i);
        assert ts'[i] == ts[i] && ts'[i + 1] == ts[i + 1];
      } else {
        assert h'[i] == c && ts'[i] == ts[k] && ts'[i + 1] == g;
      }
    }
  }

  /**
    Undo followed by redo returns the page to the state it was in, with the
    redo button refreshed: a stale enabled button becomes disabled, and a page
    whose button was exact comes back unchanged.
  */
  lemma UndoThenRedo(s: State, ts: seq<Grid>)
    requires Tracks(s, ts) && CanUndo(s)
    ensures RedoLastAction(UndoLastAction(s, false), false) == UpdateRedoButton(s)
    ensures s.redoShown == CanRedo(s) ==> RedoLastAction(UndoLastAction(s, false), false) == s
  {
    UndoLastActionConsistent(s, ts, false);
    ReplayedStep(ts, s.history, s.nextId, s.pointer);
  }

  /**
    Redo followed by undo returns the page to the state it was in, with the
    redo button enabled; on a page whose button does not hide the redo, that
    is exactly the state it was in.
  */
  lemma RedoThenUndo(s: State, ts: seq<Grid>)
    requires Tracks(s, ts) && CanRedo(s)
    ensures UndoLastAction(RedoLastAction(s, false), false) == s.(redoShown := true)
    ensures ButtonSound(s) ==> UndoLastAction(RedoLastAction(s, false), false) == s
  {
    var p := s.pointer;
    var c := s.history[p + 1];
    ReplayedStep(ts, s.history, s.nextId, p + 1);
    UndoAfterExecute(c, s.grid);
    var r := RedoLastAction(s, false);
    assert r.grid == Execute(c, s.grid) && r.pointer == p + 1;
    var u := UndoLastAction(r, false);
    assert u.grid == s.grid && u.pointer == p;
  }

  /**
    Undoing a command just executed through `executeCommand` brings the table
    and the cursor back; the command stays in the history as the one redo
    would re-apply, and the button shows it.
  */
  lemma ExecuteThenUndo(s: State, ts: seq<Grid>, c: Command)
    requires Tracks(s, ts)
    requires Applicable(c, s.grid)
    ensures var r := UndoLastAction(ExecuteCommandAsWritten(s, c), false);
      && r.grid == s.grid
      && r.pointer == s.pointer
      && r.history == s.history[..s.pointer + 1] + [c]
      && CanRedo(r) && r.redoShown
  {
    CurrentRecorded(s, ts);
    UndoAfterExecute(c, s.grid);
  }

  /** The redo button's condition holds exactly when redo would change the page. */
  lemma CanRedoIffRedoActs(s: State)
    requires Valid(s)
    ensures CanRedo(s) <==> RedoLastAction(s, false) != s
  {
  }

  /** Undo's history guard holds exactly when undo would change the page. */
  lemma CanUndoIffUndoActs(s: State)
    requires Valid(s)
    ensures CanUndo(s) <==> UndoLastAction(s, false) != s
  {
  }

  /**
    As written, `executeCommand` does not refresh the redo button: after an
    undo the button shows enabled, and a new command leaves it that way
    although nothing is left to redo.
  */
  lemma StaleRedoButton(s: State, c: Command)
    requires Valid(s) && CanUndo(s)
    ensures var r := ExecuteCommandAsWritten(UndoLastAction(s, false), c);
      r.redoShown && !CanRedo(r)
  {
  }
}
