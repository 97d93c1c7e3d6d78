/**
  The reading-progress state: which of the 60 divisions are done, which one is selected, and the
  browser storage slot the done flags are saved to (App.js, module state, loadProgress,
  saveProgress, setButtons, renderGrid, markDone, undoDone).
 */
module Progress {
  import opened Wrappers

  /** The number of divisions. */
  const Total := 60

  /**
    What the storage slot "hizb_done_v1" holds, as loadProgress sees it after JSON.parse: no
    value (or an empty string), text that does not parse, JSON `null` (whose `.done` throws), or
    a parsed value whose `done` field is an array (`Some`) or is not (`None`). Array elements
    are taken by their truthiness.
   */
  datatype Snapshot = Absent | Malformed | NullValue | Parsed(done: Option<seq<bool>>)

  /** The snapshot saveProgress writes for `d`: `JSON.stringify({done: d})`. */
  function Saved(d: seq<bool>): Snapshot
  {
    Parsed(Some(d))
  }

  /** loadProgress takes the stored array only when it is an array of exactly 60 entries. */
  predicate Accepted(stored: Snapshot)
  {
    stored.Parsed? && stored.done.Some? && |stored.done.value| == Total
  }

  /** The done flags after loadProgress, from the flags before it. */
  function Restore(stored: Snapshot, current: seq<bool>): (r: seq<bool>)
    ensures |current| == Total ==> |r| == Total
    ensures Accepted(stored) ==> r == stored.done.value
    ensures !Accepted(stored) ==> r == current
  {
    if Accepted(stored) then stored.done.value else current
  }

  /** Saving flags and loading them again gives the same flags back. */
  lemma SaveThenRestore(d: seq<bool>, current: seq<bool>)
    requires |d| == Total
    ensures Restore(Saved(d), current) == d
  {
  }

  /** The flags after markDone (v = true) or undoDone (v = false) with the given selection. */
  function WithEntry(d: seq<bool>, selected: Option<int>, v: bool): (r: seq<bool>)
    requires selected.Some? ==> 1 <= selected.value <= |d|
    ensures |r| == |d|
    ensures forall i :: 0 <= i < |d| ==> r[i] == (if selected == Some(i + 1) then v else d[i])
  {
    match selected
    case None => d
    case Some(n) => d[n - 1 := v]
  }

  /** Marking (or undoing) twice is the same as once. */
  lemma WithEntryIdempotent(d: seq<bool>, selected: Option<int>, v: bool)
    requires selected.Some? ==> 1 <= selected.value <= |d|
    ensures WithEntry(WithEntry(d, selected, v), selected, v) == WithEntry(d, selected, v)
  {
  }

  /** Undo after mark leaves the selected division not done, as if only undo had happened. */
  lemma MarkThenUndo(d: seq<bool>, n: int)
    requires 1 <= n <= |d|
    ensures WithEntry(WithEntry(d, Some(n), true), Some(n), false) == WithEntry(d, Some(n), false)
    ensures !WithEntry(WithEntry(d, Some(n), true), Some(n), false)[n - 1]
  {
  }

  /** The `disabled` flags setButtons gives the "done" and "undo" buttons. */
  datatype ButtonState = ButtonState(doneDisabled: bool, undoDisabled: bool)

  /** One grid button of renderGrid: its division, the "done" class and the "active" class. */
  datatype Cell = Cell(division: int, isDone: bool, active: bool)

  class Tracker {
    /** `done`: whether each division, 1 to 60 at index 0 to 59, has been read. */
    var done: array<bool>
    /** `selected`: the open division, if any. */
    var selected: Option<int>
    /** The storage slot the flags are saved to. */
    var store: Snapshot

    ghost predicate Valid()
      reads this
    {
      done.Length == Total && (selected.Some? ==> 1 <= selected.value <= Total)
    }

    /** The state at page load: nothing selected, all 60 divisions not done. */
    constructor (stored: Snapshot)
      ensures Valid() && fresh(done)
      ensures done[..] == seq(Total, _ => false) && selected.None? && store == stored
    {
      done := new bool[Total](_ => false);
      selected := None;
      store := stored;
    }

    /** loadProgress: adopt the stored flags when they are an array of 60, else keep the current ones. */
    method LoadProgress()
      requires Valid()
      modifies this
      ensures Valid() && selected == old(selected) && store == old(store)
      ensures done[..] == Restore(store, old(done[..]))
      ensures Accepted(store) ==> fresh(done)
      ensures !Accepted(store) ==> done == old(done)
    {
      if Accepted(store) {
        var arr := store.done.value;
        done := new bool[Total](i requires 0 <= i < Total => arr[i]);
        assert done[..] == arr;
      }
    }

    /** saveProgress: write the current flags to the slot. */
    method SaveProgress()
      modifies this`store
      ensures store == Saved(done[..])
    {
      store := Saved(done[..]);
    }

    /** The grid's selection of a division (the first step of openHizb). */
    method Select(n: int)
      requires Valid() && 1 <= n <= Total
      modifies this`selected
      ensures Valid() && selected == Some(n)
    {
      selected := Some(n);
    }

    /** markDone: with a selection, set its flag and save; without one, do nothing. */
    method MarkDone()
      requires Valid()
      modifies done, this`store
      ensures Valid()
      ensures done[..] == WithEntry(old(done[..]), selected, true)
      ensures store == if selected.None? then old(store) else Saved(done[..])
    {
      if selected.None? {
        return;
      }
      done[selected.value - 1] := true;
      SaveProgress();
    }

    /** undoDone: with a selection, clear its flag and save; without one, do nothing. */
    method UndoDone()
      requires Valid()
      modifies done, this`store
      ensures Valid()
      ensures done[..] == WithEntry(old(done[..]), selected, false)
      ensures store == if selected.None? then old(store) else Saved(done[..])
    {
      if selected.None? {
        return;
      }
      done[selected.value - 1] := false;
      SaveProgress();
    }

    /**
      setButtons: both disabled without a selection; with one, exactly one enabled: "done" when
      the division is not done yet, "undo" when it is.
     */
    function Buttons(): (b: ButtonState)
      requires Valid()
      reads this, done
      ensures selected.None? ==> b.doneDisabled && b.undoDisabled
      ensures selected.Some? ==> b.doneDisabled != b.undoDisabled
      ensures selected.Some? ==> (!b.doneDisabled <==> !done[selected.value - 1])
      ensures selected.Some? ==> (!b.undoDisabled <==> done[selected.value - 1])
    {
      match selected
      case None => ButtonState(true, true)
      case Some(n) => ButtonState(done[n - 1], !done[n - 1])
    }

    /** renderGrid, without the DOM: one cell per division, marked done and active from the state. */
    method RenderGrid() returns (cells: seq<Cell>)
      requires Valid()
      ensures |cells| == Total
      ensures forall i :: 0 <= i < Total ==> cells[i] == Cell(i + 1, done[i], selected == Some(i + 1))
    {
      cells := [];
      var i := 1;
      while i <= Total
        invariant 1 <= i <= Total + 1
        invariant |cells| == i - 1
        invariant forall k :: 0 <= k < i - 1 ==> cells[k] == Cell(k + 1, done[k], selected == Some(k + 1))
      {
        cells := cells + [Cell(i, done[i - 1], selected == Some(i))];
        i := i + 1;
      }
    }
  }
}
