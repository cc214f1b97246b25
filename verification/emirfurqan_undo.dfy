/**
 * src/main/java/com/emirfurqan/services/UndoService.java: a stack of earlier
 * states. The stack is a sequence whose last element is the top; the
 * "Nothing to undo." console line is left out.
 */
module EmirfurqanUndo {
  import opened Results

  datatype History<T> = History(states: seq<T>)

  /** A fresh service holds nothing. */
  function Empty<T>(): (h: History<T>)
    ensures !CanUndo(h)
  {
    History([])
  }

  /** `canUndo()` */
  predicate CanUndo<T>(h: History<T>)
  {
    |h.states| > 0
  }

  /** `saveState(previous)`: pushes a non-null state, ignores null. */
  function SaveState<T>(h: History<T>, previous: Option<T>): (r: History<T>)
    ensures previous.None? ==> r == h
    ensures previous.Some? ==> CanUndo(r) && |r.states| == |h.states| + 1
    ensures previous.Some? ==> r.states[|h.states|] == previous.value
    ensures r.states[..|h.states|] == h.states
  {
    match previous
    case None => h
    case Some(p) => History(h.states + [p])
  }

  /** `undoLastOperation()`: pops and returns the most recent state; with an
      empty history it returns null and the history stays empty. */
  function Undo<T>(h: History<T>): (r: (Option<T>, History<T>))
    ensures r.0.Some? <==> CanUndo(h)
    ensures !CanUndo(h) ==> r.1 == h
    ensures CanUndo(h) ==> r.1.states + [r.0.value] == h.states
  {
    if |h.states| == 0 then (None, h)
    else
      assert h.states == h.states[..|h.states| - 1] + [h.states[|h.states| - 1]];
      (Some(h.states[|h.states| - 1]), History(h.states[..|h.states| - 1]))
  }

  /** Undo after a save gives back the saved state and the history before it. */
  lemma UndoAfterSave<T>(h: History<T>, p: T)
    ensures Undo(SaveState(h, Some(p))) == (Some(p), h)
  {
    assert (h.states + [p])[..|h.states|] == h.states;
  }

  /** States come back in reverse order of saving (last in, first out). */
  lemma {:induction false} UndoReturnsNewestFirst<T>(h: History<T>, saved: seq<T>)
    ensures UndoAll(SaveAll(h, saved), |saved|) == (Reverse(saved), h)
  {
    if |saved| > 0 {
      var init := saved[..|saved| - 1];
      var last := saved[|saved| - 1];
      assert SaveAll(h, saved) == SaveState(SaveAll(h, init), Some(last));
      UndoAfterSave(SaveAll(h, init), last);
      UndoReturnsNewestFirst(h, init);
      assert Reverse(saved) == [last] + Reverse(init);
    }
  }

  /** Saving every state of `saved` in order. */
  function SaveAll<T>(h: History<T>, saved: seq<T>): (r: History<T>)
    ensures |r.states| == |h.states| + |saved|
  {
    if |saved| == 0 then h
    else SaveState(SaveAll(h, saved[..|saved| - 1]), Some(saved[|saved| - 1]))
  }

  /** Undoing `n` times, collecting the states returned. */
  function UndoAll<T>(h: History<T>, n: nat): (r: (seq<T>, History<T>))
    ensures |r.0| <= n
    decreases n
  {
    if n == 0 then ([], h)
    else
      var u := Undo(h);
      match u.0
      case None => ([], u.1)
      case Some(t) =>
        var more := UndoAll(u.1, n - 1);
        ([t] + more.0, more.1)
  }

  function Reverse<T>(s: seq<T>): (r: seq<T>)
    ensures |r| == |s|
    ensures forall i :: 0 <= i < |s| ==> r[i] == s[|s| - 1 - i]
  {
    if |s| == 0 then [] else [s[|s| - 1]] + Reverse(s[..|s| - 1])
  }
}
