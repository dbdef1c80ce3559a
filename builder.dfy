/**
 * The drag-and-drop state of the page builder (`Builder`): the list of blocks
 * placed in the work area, the id of the block being dragged, the fixed catalog
 * of draggable blocks, and the two gesture handlers that update that state.
 *
 * The gesture library (hit testing, the drag overlay, hover styling) is external:
 * a drag start reaches the model as the dragged id, a drag end as the dragged id
 * and the id of the droppable it was released over, if any.
 */
module BuilderComponent {
  import opened Options

  /** The styled box a catalog block is drawn as (the `Header`, `Footer` and `Banner` styled components). */
  datatype Box = HeaderBox | FooterBox | BannerBox

  /** A JSX element `<Box>text</Box>`. */
  datatype Jsx = Jsx(box: Box, text: string)

  /** A draggable block (`ComponentType`): its id and the element it shows. */
  datatype Entry = Entry(id: string, component: Jsx)

  /** The id of the only droppable region. */
  const WorkAreaId: string := "work-area"

  /** `availableComponents`: the blocks offered for dragging, in display order. */
  const Catalog: seq<Entry> := [
    Entry("header", Jsx(HeaderBox, "Header")),
    Entry("footer", Jsx(FooterBox, "Footer")),
    Entry("banner", Jsx(BannerBox, "Banner"))
  ]

  /**
   * `entries.find(e => e.id === id)`: an entry whose id is exactly `id`, or none
   * when no entry has that id.
   */
  function Find(entries: seq<Entry>, id: string): (r: Option<Entry>)
    ensures r.None? <==> forall i :: 0 <= i < |entries| ==> entries[i].id != id
    ensures r.Some? ==> r.value in entries && r.value.id == id
  {
    if entries == [] then None
    else if entries[0].id == id then Some(entries[0])
    else Find(entries[1..], id)
  }

  /** `find` returns the FIRST entry with the requested id. */
  lemma {:induction false} FindReturnsFirst(entries: seq<Entry>, id: string, i: nat)
    requires i < |entries| && entries[i].id == id
    requires forall j :: 0 <= j < i ==> entries[j].id != id
    ensures Find(entries, id) == Some(entries[i])
    decreases i
  {
    if i > 0 {
      assert entries[0].id != id;
      FindReturnsFirst(entries[1..], id, i - 1);
    }
  }

  /** The catalog ids are pairwise distinct, so a lookup in it is unambiguous. */
  lemma CatalogIdsDistinct()
    ensures forall i, j :: 0 <= i < j < |Catalog| ==> Catalog[i].id != Catalog[j].id
  {
  }

  /** Looking an id up in the catalog finds the entry carrying that id, and only for the three catalog ids. */
  lemma CatalogLookup(id: string)
    ensures Find(Catalog, id).Some? <==> id in {"header", "footer", "banner"}
    ensures Find(Catalog, id).Some? ==> Find(Catalog, id).value in Catalog && Find(Catalog, id).value.id == id
    ensures forall i :: 0 <= i < |Catalog| ==> Find(Catalog, Catalog[i].id) == Some(Catalog[i])
  {
  }

  /**
   * The placed list after a drag ends over `over` with block `active`: on a drop
   * over the work area, the catalog entry with the dragged id is appended; in every
   * other case the list is unchanged. There is no duplicate check.
   */
  function Drop(placed: seq<Entry>, active: string, over: Option<string>): (r: seq<Entry>)
    ensures |placed| <= |r| <= |placed| + 1 && r[..|placed|] == placed
    ensures |r| == |placed| + 1 <==> over == Some(WorkAreaId) && active in {"header", "footer", "banner"}
    ensures |r| == |placed| + 1 ==> r[|placed|] in Catalog && r[|placed|].id == active
  {
    CatalogLookup(active);
    if over == Some(WorkAreaId) then
      match Find(Catalog, active)
      case Some(entry) => placed + [entry]
      case None => placed
    else
      placed
  }

  /**
   * What a drop adds does not depend on what is already placed: dropping a block
   * that is already present appends it again.
   */
  lemma DropIgnoresPlaced(placed: seq<Entry>, active: string, over: Option<string>)
    ensures Drop(placed, active, over) == placed + Drop([], active, over)
  {
  }

  /** A drag end reported by the gesture library: the dragged id and the droppable under it, if any. */
  datatype DragEnd = DragEnd(active: string, over: Option<string>)

  /** The placed list after the drag ends `events`, handled one after the other. */
  function Replay(placed: seq<Entry>, events: seq<DragEnd>): (r: seq<Entry>)
    ensures |placed| <= |r| <= |placed| + |events|
    ensures r[..|placed|] == placed
    decreases |events|
  {
    if events == [] then placed
    else
      var next := Drop(placed, events[0].active, events[0].over);
      var r := Replay(next, events[1..]);
      assert r[..|placed|] == r[..|next|][..|placed|];
      r
  }

  /** The entries the drag ends `events` contribute, each on its own, in event order. */
  function Placements(events: seq<DragEnd>): (r: seq<Entry>)
    ensures |r| <= |events|
    ensures forall i :: 0 <= i < |r| ==> r[i] in Catalog
    decreases |events|
  {
    if events == [] then []
    else Drop([], events[0].active, events[0].over) + Placements(events[1..])
  }

  /**
   * Placement is append-only and order-preserving: after any sequence of drag ends
   * the list is the old list followed by the successful placements in call order.
   */
  lemma {:induction false} ReplayAppendsInOrder(placed: seq<Entry>, events: seq<DragEnd>)
    ensures Replay(placed, events) == placed + Placements(events)
    decreases |events|
  {
    if events != [] {
      var e := events[0];
      DropIgnoresPlaced(placed, e.active, e.over);
      ReplayAppendsInOrder(Drop(placed, e.active, e.over), events[1..]);
    }
  }

  /** `n` drag ends of the same kind. */
  function Repeat(e: DragEnd, n: nat): (r: seq<DragEnd>)
    ensures |r| == n && forall i :: 0 <= i < n ==> r[i] == e
  {
    if n == 0 then [] else [e] + Repeat(e, n - 1)
  }

  /**
   * No duplicate suppression: dropping the same catalog block `n` times on the work
   * area grows the list by exactly `n` copies of its entry.
   */
  lemma {:induction false} RepeatedDropsAllLand(placed: seq<Entry>, i: nat, n: nat)
    requires i < |Catalog|
    ensures var r := Replay(placed, Repeat(DragEnd(Catalog[i].id, Some(WorkAreaId)), n));
      |r| == |placed| + n && r[..|placed|] == placed &&
      forall k :: |placed| <= k < |r| ==> r[k] == Catalog[i]
    decreases n
  {
    var e, c := DragEnd(Catalog[i].id, Some(WorkAreaId)), Catalog[i];
    if n > 0 {
      var rest := Replay(placed + [c], Repeat(e, n - 1));
      assert Replay(placed, Repeat(e, n)) == rest by {
        assert Repeat(e, n)[0] == e && Repeat(e, n)[1..] == Repeat(e, n - 1);
        CatalogLookup(c.id);
        assert Drop(placed, e.active, e.over) == placed + [c];
      }
      RepeatedDropsAllLand(placed + [c], i, n - 1);
      assert rest[..|placed| + 1] == placed + [c];
      assert rest[..|placed|] == placed;
    }
  }

  /**
   * The builder's two state cells. `components` is declared as an object keyed by
   * work-area name but is handled as one list (it is spread into an array literal
   * on a drop and mapped over when drawn), so it is modelled as that list.
   */
  class Builder {
    var components: seq<Entry>
    var activeId: Option<string>

    /** Nothing placed, nothing being dragged. */
    constructor ()
      ensures components == [] && activeId == None
    {
      components := [];
      activeId := None;
    }

    /** `handleDragStart`: remember the dragged id; the placed list is untouched. */
    method HandleDragStart(active: string)
      modifies this
      ensures activeId == Some(active)
      ensures components == old(components)
    {
      activeId := Some(active);
    }

    /**
     * `handleDragEnd`: on a drop over the work area, append the catalog entry with
     * the dragged id, if there is one; then, on every path, forget the dragged id.
     */
    method HandleDragEnd(active: string, over: Option<string>)
      modifies this
      ensures activeId == None
      ensures components == Drop(old(components), active, over)
      ensures over != Some(WorkAreaId) || Find(Catalog, active).None? ==> components == old(components)
    {
      if over == Some(WorkAreaId) {
        var component := Find(Catalog, active);
        if component.Some? {
          components := components + [component.value];
        }
      }
      activeId := None;
    }
  }

  // ---------------------------------------------------------------------------
  // The state cell as declared
  // ---------------------------------------------------------------------------

  /** A value the `components` cell can hold: the declared object of work areas, or a list. */
  datatype StateValue = WorkAreas(areas: map<string, seq<Entry>>) | EntryList(items: seq<Entry>)

  /** The declared initial value: two empty work areas. */
  const DeclaredInitialState: StateValue := WorkAreas(map["work-area-1" := [], "work-area-2" := []])

  /**
   * `[...value, e]`: spreading a list copies its items; spreading a plain object
   * throws a TypeError because it is not iterable, given here as `None`.
   */
  function SpreadAppend(value: StateValue, e: Entry): (r: Option<StateValue>)
    ensures r.None? <==> value.WorkAreas?
    ensures r.Some? ==> r.value.EntryList? && |r.value.items| == |value.items| + 1 && r.value.items[|value.items|] == e
    ensures r.Some? ==> r.value.items[..|value.items|] == value.items
  {
    match value
    case WorkAreas(_) => None
    case EntryList(items) => Some(EntryList(items + [e]))
  }

  /**
   * `handleDragEnd` as written, on the cell's actual value. `None` stands for the
   * handler throwing at the spread, so that the rest of it, `setActiveId(null)`
   * included, does not run.
   */
  function DropAsWritten(value: StateValue, active: string, over: Option<string>): (r: Option<StateValue>)
    ensures r.None? <==> over == Some(WorkAreaId) && active in {"header", "footer", "banner"} && value.WorkAreas?
    ensures r.Some? && value.WorkAreas? ==> r.value == value
  {
    CatalogLookup(active);
    if over == Some(WorkAreaId) then
      match Find(Catalog, active)
      case Some(entry) => SpreadAppend(value, entry)
      case None => Some(value)
    else
      Some(value)
  }

  /** The first successful drop on the declared initial value throws instead of placing the block. */
  lemma FirstDropAsWrittenThrows(i: nat)
    requires i < |Catalog|
    ensures DropAsWritten(DeclaredInitialState, Catalog[i].id, Some(WorkAreaId)) == None
  {
  }

  /** `components.map(...)` in the view: a list is mapped entry by entry; a plain object has no `map` and the render throws, given as `None`. */
  function ViewEntriesAsWritten(value: StateValue): (r: Option<seq<Entry>>)
    ensures r.None? <==> value.WorkAreas?
    ensures r.Some? ==> r.value == value.items
  {
    match value
    case WorkAreas(_) => None
    case EntryList(items) => Some(items)
  }

  /** Mounting the builder throws: its first render maps over the declared initial value. */
  lemma FirstRenderAsWrittenThrows()
    ensures ViewEntriesAsWritten(DeclaredInitialState) == None
  {
  }

  /** On a list value the handler as written does exactly what `Drop` describes. */
  lemma DropAsWrittenOnListIsDrop(placed: seq<Entry>, active: string, over: Option<string>)
    ensures DropAsWritten(EntryList(placed), active, over) == Some(EntryList(Drop(placed, active, over)))
  {
  }
}
