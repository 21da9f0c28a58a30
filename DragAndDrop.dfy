/**
  The drag-and-drop hook of src/hooks/useDragAndDrop.ts and its wiring in
  src/App.tsx: the overlay flag follows the drag, a leave only counts once
  the pointer is outside the container, and a drop reads the first file
  and opens it in a new tab. Event objects, `preventDefault` and the
  asynchronous file reader are outside the model; what the reader produced
  is part of the input.
*/
module DragAndDrop {
  import opened Wrappers
  import opened Document
  import opened FileProcessor
  import opened FileManagement

  /** The container's bounding client rectangle. */
  datatype Rect = Rect(left: real, right: real, top: real, bottom: real)

  /** The pointer has left the container: strictly beyond one of its edges. */
  predicate Outside(x: real, y: real, r: Rect) {
    x < r.left || x > r.right || y < r.top || y > r.bottom
  }

  /** A pointer on the container or inside it (a child element, say) is not outside. */
  lemma OnOrInsideIsNotOutside(x: real, y: real, r: Rect)
    ensures !Outside(x, y, r) <==> r.left <= x <= r.right && r.top <= y <= r.bottom
  {
  }

  /** The first file of a drop, which is the only one processed. */
  function FirstDropped(dropped: seq<PickedFile>): (f: Option<PickedFile>)
    ensures f.Some? <==> |dropped| > 0
    ensures f.Some? ==> f.value == dropped[0]
  {
    if |dropped| > 0 then Some(dropped[0]) else None
  }

  /** Only the first file matters: the rest of a drop is ignored. */
  lemma DropIgnoresTheRest(first: PickedFile, rest: seq<PickedFile>, other: seq<PickedFile>)
    ensures FirstDropped([first] + rest) == FirstDropped([first] + other) == Some(first)
  {
    assert ([first] + rest)[0] == first == ([first] + other)[0];
  }

  /** The `isDragging` flag that shows the drop overlay. */
  class DragState {
    var isDragging: bool

    constructor()
      ensures !isDragging
    {
      isDragging := false;
    }

    /** `handleDragOver`: the flag is set (and left alone if it already was). */
    method DragOver()
      modifies this
      ensures isDragging
    {
      if !isDragging {
        isDragging := true;
      }
    }

    /** `handleDragLeave`: the flag is cleared only when the pointer is outside the container. */
    method DragLeave(x: real, y: real, rect: Rect)
      modifies this
      ensures isDragging == (old(isDragging) && !Outside(x, y, rect))
    {
      if Outside(x, y, rect) {
        isDragging := false;
      }
    }

    /**
      `handleDrop` with `onFileProcessed` from the application: the flag is
      cleared, and the first dropped file, once read, is appended to the
      open records and made active.
    */
    method Drop(dropped: seq<PickedFile>, tabs: TabStore)
      modifies this, tabs
      ensures !isDragging
      ensures var r := PickedRecord(FirstDropped(dropped));
        (r.None? ==> tabs.files == old(tabs.files) && tabs.activeId == old(tabs.activeId))
        && (r.Some? ==> tabs.files == old(tabs.files) + [r.value] && tabs.activeId == r.value.id)
    {
      isDragging := false;
      tabs.Upload(FirstDropped(dropped));
    }
  }
}
