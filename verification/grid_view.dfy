/**
 * The grid view of the media list: the preview of each tile, the selection
 * overlay and its toggle, and the reconciliation with a selection passed in by
 * the page.
 *
 * The overlay lies inside the tile, so a click on it toggles the item and then
 * bubbles up to the tile, which reports the item click as well. Without
 * selection mode there is no overlay and every click lands on the tile.
 */
module GridView {
  import opened Js
  import opened Seqs
  import opened MediaItems
  import MediaRenderer
  import Selection

  datatype GridPreview = GridImage | GridVideo | GridFile

  /** `renderMediaItem`: image, then video, then the file card; unlike the renderer the
      grid has no PDF preview. */
  function TilePreview(item: MediaItem): (p: GridPreview)
    ensures p == GridImage <==> MediaRenderer.IsImage(item)
    ensures p == GridVideo <==> !MediaRenderer.IsImage(item) && MediaRenderer.IsVideo(item)
  {
    if MediaRenderer.IsImage(item) then GridImage
    else if MediaRenderer.IsVideo(item) then GridVideo
    else GridFile
  }

  /** The grid's tile and the renderer without its PDF option choose the same kind of
      preview; a PDF is a file card in both. */
  lemma TileAgreesWithRenderer(item: MediaItem, showDetails: Nullable<bool>)
    ensures TilePreview(item) == GridImage <==>
      MediaRenderer.RendererPreview(item, showDetails, Undefined).ImagePreview?
    ensures TilePreview(item) == GridVideo <==>
      MediaRenderer.RendererPreview(item, showDetails, Undefined).VideoPreview?
    ensures TilePreview(item) == GridFile <==>
      MediaRenderer.RendererPreview(item, showDetails, Undefined).FilePreview?
  {
  }

  /** The component's local selection. */
  datatype GridState = GridState(selected: seq<int>)

  /** What a click does: the new state, the selection reported to
      `onSelectedItemsIdsChanged` if any, and the `(item, index)` reported to `onItemClick`. */
  datatype ClickEffect = ClickEffect(state: GridState, reported: Option<seq<int>>, clicked: (MediaItem, int))

  /** `toggleSelection(id)`: the new selection is stored and reported. */
  function Toggle(s: GridState, id: int): (r: (GridState, seq<int>))
    ensures r.0.selected == r.1
    ensures forall x :: x in r.1 <==> (x in s.selected <==> x != id)
  {
    var updated := Selection.Toggle(s.selected, id);
    (GridState(updated), updated)
  }

  /** A click on tile `index`, on its overlay or elsewhere on the tile. */
  function Click(items: seq<MediaItem>, inSelectionMode: bool, s: GridState, index: nat, onOverlay: bool): (e: ClickEffect)
    requires index < |items|
    ensures e.clicked == (items[index], index)
    ensures e.reported.Some? <==> inSelectionMode && onOverlay
    ensures e.reported.Some? ==> e.reported.value == e.state.selected
    ensures e.reported.None? ==> e.state == s
  {
    if inSelectionMode && onOverlay then
      var (t, updated) := Toggle(s, items[index].id);
      ClickEffect(t, Some(updated), (items[index], index))
    else
      ClickEffect(s, None, (items[index], index))
  }

  /** The sync effect on a new `selectedItemIds` prop. */
  function Sync(s: GridState, external: seq<int>): (r: GridState)
    ensures r.selected == s.selected || r.selected == external
    ensures !Selection.SameSelection(s.selected, external) ==> r.selected == external
  {
    GridState(Selection.Sync(s.selected, external))
  }

  /** Toggling in the grid leaves every other id where it was, keeps the selection free of
      duplicates, and a second click on the same overlay restores a selection that did not
      hold the id. */
  lemma ClickToggleProperties(items: seq<MediaItem>, s: GridState, index: nat)
    requires index < |items| && NoDuplicates(s.selected)
    ensures var e := Click(items, true, s, index, true);
      Remove(e.state.selected, items[index].id) == Remove(s.selected, items[index].id)
      && NoDuplicates(e.state.selected)
    ensures items[index].id !in s.selected ==>
      Click(items, true, Click(items, true, s, index, true).state, index, true).state == s
  {
    var id := items[index].id;
    Selection.ToggleKeepsOthers(s.selected, id);
    Selection.ToggleNoDuplicates(s.selected, id);
    Selection.ToggleTwice(s.selected, id);
  }

  /** Without selection mode no click changes the selection or reports one. */
  lemma NoSelectionModeNoToggle(items: seq<MediaItem>, s: GridState, index: nat, onOverlay: bool)
    requires index < |items|
    ensures Click(items, false, s, index, onOverlay).state == s
    ensures Click(items, false, s, index, onOverlay).reported.None?
  {
  }
}
