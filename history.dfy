/**
 * Undo and redo. The editor keeps an undo list and a redo list of graph snapshots beside
 * the current graph; a snapshot is pushed before every edit, the oldest snapshot is dropped
 * when the undo list grows past the limit, and any edit clears the redo list. The rules do
 * not depend on what a snapshot holds, so they are stated for any value type.
 */
module History {

  /** The undo list (oldest first), the current value, and the redo list (most recently undone last). */
  datatype Timeline<T> = Timeline(undo: seq<T>, current: T, redo: seq<T>)

  /** Appends `x` and, if the list is then longer than `limit`, drops its first entry (once). */
  function Push<T>(stack: seq<T>, x: T, limit: nat): (r: seq<T>)
    ensures |r| > 0 ==> r[|r| - 1] == x
    ensures |stack| <= limit ==> |r| <= limit
    ensures |stack| < limit ==> r == stack + [x]
    ensures |stack| == limit > 0 ==> r == stack[1..] + [x]
    ensures limit > 0 ==> |r| > 0
    ensures forall y :: y in r ==> y in stack || y == x
  {
    var s := stack + [x];
    if |s| > limit then s[1..] else s
  }

  /** Records `snapshot` as the state to return to, and forgets everything that was undone. */
  function Record<T>(t: Timeline<T>, snapshot: T, limit: nat): (r: Timeline<T>)
    ensures r.current == t.current && r.redo == []
    ensures r.undo == Push(t.undo, snapshot, limit)
  {
    Timeline(Push(t.undo, snapshot, limit), t.current, [])
  }

  /** `save_state`: records the current value before it is edited. */
  function Save<T>(t: Timeline<T>, limit: nat): Timeline<T> {
    Record(t, t.current, limit)
  }

  /** Steps back: the last snapshot becomes current and the current value goes to the redo list. */
  function Undo<T>(t: Timeline<T>): (r: Timeline<T>)
    ensures t.undo == [] ==> r == t
    ensures |r.undo| + |r.redo| == |t.undo| + |t.redo|
  {
    if t.undo == [] then t
    else Timeline(t.undo[..|t.undo| - 1], t.undo[|t.undo| - 1], t.redo + [t.current])
  }

  /** Steps forward: the last undone value becomes current and the current value goes back on the undo list. */
  function Redo<T>(t: Timeline<T>): (r: Timeline<T>)
    ensures t.redo == [] ==> r == t
    ensures |r.undo| + |r.redo| == |t.undo| + |t.redo|
  {
    if t.redo == [] then t
    else Timeline(t.undo + [t.current], t.redo[|t.redo| - 1], t.redo[..|t.redo| - 1])
  }

  /** Together the two lists never hold more than `limit` snapshots. */
  predicate Bounded<T>(t: Timeline<T>, limit: nat) {
    |t.undo| + |t.redo| <= limit
  }

  /** Recording, undoing and redoing all keep the bound; editing the current value does too. */
  lemma RecordKeepsBound<T>(t: Timeline<T>, snapshot: T, limit: nat)
    requires Bounded(t, limit)
    ensures Bounded(Record(t, snapshot, limit), limit)
  {
  }

  lemma UndoRedoKeepBound<T>(t: Timeline<T>, limit: nat)
    requires Bounded(t, limit)
    ensures Bounded(Undo(t), limit) && Bounded(Redo(t), limit)
  {
  }

  /** Redo right after an undo restores everything; so does undo right after a redo. */
  lemma RedoUndoesUndo<T>(t: Timeline<T>)
    requires t.undo != []
    ensures Redo(Undo(t)) == t
  {
    assert t.undo[..|t.undo| - 1] + [t.undo[|t.undo| - 1]] == t.undo;
    assert (t.redo + [t.current])[..|t.redo|] == t.redo;
  }

  lemma UndoUndoesRedo<T>(t: Timeline<T>)
    requires t.redo != []
    ensures Undo(Redo(t)) == t
  {
    assert t.redo[..|t.redo| - 1] + [t.redo[|t.redo| - 1]] == t.redo;
    assert (t.undo + [t.current])[..|t.undo|] == t.undo;
  }

  /**
   * Undo after a recorded edit brings back the value from before the edit, and redo then
   * brings back the edited value.
   */
  lemma UndoRevertsEdit<T>(t: Timeline<T>, edited: T, limit: nat)
    requires limit > 0
    ensures var after := Undo(Save(t, limit).(current := edited));
      && after.current == t.current
      && after.redo == [edited]
      && Redo(after).current == edited
  {
  }

  /** When the undo list is full, a new snapshot evicts the oldest one and keeps the rest in order. */
  lemma RecordEvictsOldest<T>(t: Timeline<T>, snapshot: T, limit: nat)
    requires |t.undo| == limit > 0
    ensures Record(t, snapshot, limit).undo == t.undo[1..] + [snapshot]
    ensures |Record(t, snapshot, limit).undo| == limit
  {
  }

  /**
   * Undoing `k` times after `k` recorded edits, with room on the list, walks back through
   * the recorded values: the value `k` steps back is the one saved `k` edits ago.
   */
  lemma {:induction false} UndoWalksBack<T>(t: Timeline<T>, k: nat)
    requires k <= |t.undo|
    ensures UndoTimes(t, k).current == (if k == 0 then t.current else t.undo[|t.undo| - k])
    ensures UndoTimes(t, k).undo == t.undo[..|t.undo| - k]
  {
    if k > 0 {
      UndoWalksBack(t, k - 1);
    }
  }

  function UndoTimes<T>(t: Timeline<T>, k: nat): Timeline<T> {
    if k == 0 then t else Undo(UndoTimes(t, k - 1))
  }
}
