/**
 * The snapshot history of the editor as a value: the current lines and the
 * undo and redo stacks of full copies of them, each stack with its top at the
 * end of the sequence.
 */
module UndoRedo {
  import opened Ascii
  import opened Optional

  type Lines = seq<Text>

  datatype History = History(lines: Lines, undo: seq<Lines>, redo: seq<Lines>)

  /** saveState: push a copy of the current lines onto undo and empty redo. */
  function Record(h: History): (r: History)
    ensures r.lines == h.lines && r.redo == []
    ensures |r.undo| == |h.undo| + 1 && r.undo[..|h.undo|] == h.undo && r.undo[|h.undo|] == h.lines
  {
    History(h.lines, h.undo + [h.lines], [])
  }

  /** A mutating operation: record the current lines, then install the new ones. */
  function Commit(h: History, newLines: Lines): (r: History)
    ensures r.lines == newLines && r.redo == []
    ensures |r.undo| == |h.undo| + 1 && r.undo[..|h.undo|] == h.undo && r.undo[|h.undo|] == h.lines
  {
    Record(h).(lines := newLines)
  }

  /** undo: nothing on an empty undo stack; otherwise the current lines go to redo and the top of undo comes back. */
  function Undo(h: History): (r: Option<History>)
    ensures r.Some? <==> h.undo != []
    ensures r.Some? ==> r.value.lines == h.undo[|h.undo| - 1]
    ensures r.Some? ==> |r.value.undo| + 1 == |h.undo| && |r.value.redo| == |h.redo| + 1
    ensures r.Some? ==> r.value.undo + [r.value.lines] == h.undo
    ensures r.Some? ==> r.value.redo[..|h.redo|] == h.redo && r.value.redo[|h.redo|] == h.lines
  {
    if h.undo == [] then None
    else Some(History(h.undo[|h.undo| - 1], h.undo[..|h.undo| - 1], h.redo + [h.lines]))
  }

  /** redo: the mirror image of undo. */
  function Redo(h: History): (r: Option<History>)
    ensures r.Some? <==> h.redo != []
    ensures r.Some? ==> r.value.lines == h.redo[|h.redo| - 1]
    ensures r.Some? ==> |r.value.redo| + 1 == |h.redo| && |r.value.undo| == |h.undo| + 1
    ensures r.Some? ==> r.value.redo + [r.value.lines] == h.redo
    ensures r.Some? ==> r.value.undo[..|h.undo|] == h.undo && r.value.undo[|h.undo|] == h.lines
  {
    if h.redo == [] then None
    else Some(History(h.redo[|h.redo| - 1], h.undo + [h.lines], h.redo[..|h.redo| - 1]))
  }

  /** Redo right after a successful undo puts back the whole history, not only the lines. */
  lemma RedoUndoesUndo(h: History)
    requires h.undo != []
    ensures Redo(Undo(h).value) == Some(h)
  {
    var u := Undo(h).value;
    assert u.undo + [u.lines] == h.undo;
    assert u.redo[..|u.redo| - 1] == h.redo;
  }

  /** Undo right after a successful redo puts back the whole history. */
  lemma UndoUndoesRedo(h: History)
    requires h.redo != []
    ensures Undo(Redo(h).value) == Some(h)
  {
    var r := Redo(h).value;
    assert r.redo + [r.lines] == h.redo;
    assert r.undo[..|r.undo| - 1] == h.undo;
  }

  /** Undo right after any mutating operation restores the lines it replaced, and that one edit becomes redoable. */
  lemma UndoAfterCommit(h: History, newLines: Lines)
    ensures Undo(Commit(h, newLines)) == Some(History(h.lines, h.undo, [newLines]))
  {
    assert (h.undo + [h.lines])[..|h.undo|] == h.undo;
    assert [] + [newLines] == [newLines];
  }

  /** Every mutating operation invalidates redo. */
  lemma NoRedoAfterCommit(h: History, newLines: Lines)
    ensures Redo(Commit(h, newLines)) == None
  {
  }

  /** k undos in a row, or None when the undo stack runs out. */
  function UndoN(h: History, k: nat): Option<History>
    decreases k
  {
    if k == 0 then Some(h)
    else match Undo(h)
      case None => None
      case Some(h') => UndoN(h', k - 1)
  }

  /** k redos in a row, or None when the redo stack runs out. */
  function RedoN(h: History, k: nat): Option<History>
  {
    if k == 0 then Some(h)
    else match RedoN(h, k - 1)
      case None => None
      case Some(h') => Redo(h')
  }

  /** k undos succeed exactly when the undo stack holds at least k snapshots, and move k of them to redo. */
  lemma {:induction false} UndoNSucceeds(h: History, k: nat)
    ensures UndoN(h, k).Some? <==> k <= |h.undo|
    ensures UndoN(h, k).Some? ==>
              |UndoN(h, k).value.undo| == |h.undo| - k && |UndoN(h, k).value.redo| == |h.redo| + k
    decreases k
  {
    if k > 0 && h.undo != [] {
      UndoNSucceeds(Undo(h).value, k - 1);
    }
  }

  /**
   * With no mutation in between, k undos followed by k redos restore the
   * exact history held before the undos, for every k up to the depth of the
   * undo stack.
   */
  lemma {:induction false} UndoRedoRoundTrip(h: History, k: nat)
    requires k <= |h.undo|
    ensures UndoN(h, k).Some?
    ensures RedoN(UndoN(h, k).value, k) == Some(h)
    decreases k
  {
    UndoNSucceeds(h, k);
    if k > 0 {
      var h1 := Undo(h).value;
      UndoRedoRoundTrip(h1, k - 1);
      assert RedoN(UndoN(h, k).value, k - 1) == Some(h1);
      RedoUndoesUndo(h);
    }
  }
}
