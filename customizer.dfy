/**
 * The editing state of the ring editor, `RingCustomizer` in
 * app/static/js/app.js: the canvas's object list, the selected object and
 * the undo/redo history over snapshots of the object list.
 */
module Customizer {
  import opened Wrappers
  import opened Scene
  import History

  /**
   * What `saveState` records: the serialised canvas. Serialising keeps
   * every object with its name and type, so a snapshot is the object list.
   */
  datatype Snapshot = Snapshot(objects: seq<Element>)

  class RingCustomizer {
    /** The canvas's objects in paint order. */
    var objects: seq<Element>
    /** The index of the selected object, if any (`selectedObject`). */
    var selected: Option<nat>
    /** The committed snapshots, oldest first. */
    var history: seq<Snapshot>
    /** The cursor into `history`. */
    var historyIndex: int

    ghost predicate Valid()
      reads this
    {
      History.Buffer(history, historyIndex).Valid() && (selected.Some? ==> selected.value < |objects|)
    }

    /** The history fields as a value of the buffer specification. */
    function HistoryBuffer(): History.Buffer<Snapshot>
      reads this
    {
      History.Buffer(history, historyIndex)
    }

    /** A blank canvas whose history holds the one snapshot of the empty scene. */
    constructor ()
      ensures Valid()
      ensures objects == [] && selected == None
      ensures history == [Snapshot([])] && historyIndex == 0
    {
      objects := [];
      selected := None;
      var empty := History.Empty<Snapshot>();
      history := empty.entries;
      historyIndex := empty.cursor;
      new;
      SaveState();
      assert history == [Snapshot([])] by {
        History.CommitToEmpty(Snapshot([]));
      }
    }

    /** Commit a snapshot of the current objects to the history. */
    method SaveState()
      requires Valid()
      modifies this`history, this`historyIndex
      ensures Valid()
      ensures HistoryBuffer() == History.Commit(old(HistoryBuffer()), Snapshot(objects))
      ensures historyIndex == |history| - 1 && history[historyIndex] == Snapshot(objects)
    {
      var state := Snapshot(objects);
      history := history[..historyIndex + 1];
      history := history + [state];
      historyIndex := historyIndex + 1;
      if |history| > History.MaxHistory {
        history := history[1..];
        historyIndex := historyIndex - 1;
      }
    }

    /** The canvas reports the object at index `i` as selected (`onObjectSelected`). */
    method Select(i: nat)
      requires Valid() && i < |objects|
      modifies this`selected
      ensures Valid() && selected == Some(i)
    {
      selected := Some(i);
    }

    /** The canvas reports the selection as cleared (`onObjectDeselected`). */
    method Deselect()
      requires Valid()
      modifies this`selected
      ensures Valid() && selected == None
    {
      selected := None;
    }

    /** Restore the objects from a snapshot; nothing is selected afterwards. */
    method LoadState(state: Snapshot)
      modifies this`objects, this`selected
      ensures objects == state.objects && selected == None
    {
      objects := state.objects;
      selected := None;
    }

    /** Step back one snapshot and restore it, unless at the oldest one. */
    method Undo()
      requires Valid()
      modifies this
      ensures Valid()
      ensures HistoryBuffer() == History.Undo(old(HistoryBuffer()))
      ensures old(historyIndex) > 0 ==> objects == history[historyIndex].objects && selected == None
      ensures old(historyIndex) <= 0 ==> objects == old(objects) && selected == old(selected)
    {
      if historyIndex > 0 {
        historyIndex := historyIndex - 1;
        LoadState(history[historyIndex]);
      }
    }

    /** Step forward one snapshot and restore it, unless at the newest one. */
    method Redo()
      requires Valid()
      modifies this
      ensures Valid()
      ensures HistoryBuffer() == History.Redo(old(HistoryBuffer()))
      ensures old(historyIndex) < |history| - 1 ==> objects == history[historyIndex].objects && selected == None
      ensures old(historyIndex) >= |history| - 1 ==> objects == old(objects) && selected == old(selected)
    {
      if historyIndex < |history| - 1 {
        historyIndex := historyIndex + 1;
        LoadState(history[historyIndex]);
      }
    }

    /**
     * Remove the selected object, clear the selection and commit; with
     * nothing selected, do nothing.
     */
    method DeleteSelected()
      requires Valid()
      modifies this
      ensures Valid()
      ensures old(selected).None? ==>
        objects == old(objects) && selected == None && HistoryBuffer() == old(HistoryBuffer())
      ensures old(selected).Some? ==>
        && objects == RemoveAt(old(objects), old(selected).value)
        && selected == None
        && HistoryBuffer() == History.Commit(old(HistoryBuffer()), Snapshot(objects))
    {
      if selected.Some? {
        objects := RemoveAt(objects, selected.value);
        selected := None;
        SaveState();
      }
    }

    /**
     * Put a moved and renamed copy of the selected object on top, select
     * it and commit; with nothing selected, do nothing.
     */
    method DuplicateSelected()
      requires Valid()
      modifies this
      ensures Valid()
      ensures old(selected).None? ==>
        objects == old(objects) && selected == None && HistoryBuffer() == old(HistoryBuffer())
      ensures old(selected).Some? ==>
        && objects == old(objects) + [Duplicate(old(objects)[old(selected).value])]
        && selected == Some(|objects| - 1)
        && HistoryBuffer() == History.Commit(old(HistoryBuffer()), Snapshot(objects))
    {
      if selected.Some? {
        var cloned := Duplicate(objects[selected.value]);
        objects := objects + [cloned];
        selected := Some(|objects| - 1);
        SaveState();
      }
    }

    /**
     * Add a built-in gemstone at the canvas centre on top, select it and
     * commit. Any other source is an image the editor loads asynchronously,
     * which this model does not cover: the state is left as it was.
     */
    method AddElement(src: string, name: string, kind: string)
      requires Valid()
      modifies this
      ensures Valid()
      ensures NewElement(src, name, kind).None? ==>
        objects == old(objects) && selected == old(selected) && HistoryBuffer() == old(HistoryBuffer())
      ensures NewElement(src, name, kind).Some? ==>
        && objects == old(objects) + [NewElement(src, name, kind).value]
        && selected == Some(|objects| - 1)
        && HistoryBuffer() == History.Commit(old(HistoryBuffer()), Snapshot(objects))
    {
      var element := NewElement(src, name, kind);
      if element.Some? {
        objects := objects + [element.value];
        selected := Some(|objects| - 1);
        SaveState();
      }
    }
  }

  /**
   * A session on a fresh editor: adding a built-in gemstone puts it on the
   * canvas; undo goes back to the blank canvas and redo brings it back.
   */
  method UndoRedoSession(src: string, name: string, kind: string)
    requires src in BuiltinGems
  {
    var gem := NewElement(src, name, kind).value;
    var editor := new RingCustomizer();
    editor.AddElement(src, name, kind);
    assert editor.objects == [gem];

    editor.Undo();
    assert editor.objects == [] && editor.selected == None;

    editor.Redo();
    assert editor.objects == [gem];
  }
}
