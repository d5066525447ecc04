/**
 * The library page AssetsManagerComponent2 at the top of the components: the
 * same deletion flow as the page on `useMediaList`, without a loader around
 * the delete request, over the page's own list state (`LocalList`).
 *
 * Deleting from the detail viewer appends the item's id to the selection and
 * then calls `handleDeleteMediaDefinitely()` with no argument. The argument
 * defaults to the selection of the render that created the handler, which does
 * not hold the id yet: as written the page asks to delete the previous
 * selection instead of the item (`ModalDeleteAsWritten`). `ModalDelete` passes
 * `[id]`, as the page on `useMediaList` does, and is the one the rest of the
 * model uses.
 */
module ManagerPageLegacy {
  import opened Js
  import opened Seqs
  import opened MediaItems
  import opened MediaDtos
  import LocalList
  import MediaListHook
  import Selection
  import Client
  import PageLogic
  import GridView
  import ManagerPage

  datatype PageState = PageState(
    list: LocalList.ListState,
    selected: seq<int>,
    multiSelect: bool,
    confirmOpen: bool,
    detailIndex: Option<int>,
    pendingIds: seq<int>,
    uploadDate: Option<int>)

  function Init(): (s: PageState)
    ensures s.list == LocalList.Init() && s.uploadDate == LocalList.InitialUploadDate
    ensures s.selected == [] && s.pendingIds == [] && s.detailIndex.None?
    ensures !s.confirmOpen && !s.multiSelect
  {
    PageState(LocalList.Init(), [], false, false, None, [], LocalList.InitialUploadDate)
  }

  // ---- Deletion ----

  /** `handleDeleteMediaDefinitely(ids = selectedMedia)`. */
  function RequestDelete(s: PageState, ids: Option<seq<int>>): (r: PageState)
    ensures r.pendingIds == (if ids.Some? then ids.value else s.selected)
    ensures !r.multiSelect && r.confirmOpen
    ensures r.list == s.list && r.selected == s.selected && r.detailIndex == s.detailIndex
  {
    s.(pendingIds := PageLogic.DeletionIds(s.selected, ids), multiSelect := false, confirmOpen := true)
  }

  predicate GroupDeleteEnabled(s: PageState) { |s.selected| > 0 }

  /** `handleConfirmDeleteMedia`: the dialogs close and the request runs with the same
      callbacks as on the page on `useMediaList`; its `onResponse` takes the pending ids
      out of the selection and the list, which the list effect then displays whole. */
  function ConfirmDelete(s: PageState, t: Client.Transport<ManagerPage.Body>): (r: PageState)
    ensures !r.multiSelect && !r.confirmOpen && r.detailIndex == s.detailIndex
    ensures r.list.selectedType == s.list.selectedType && r.list.showLoader == s.list.showLoader
  {
    var started := s.(multiSelect := false, confirmOpen := false);
    if ManagerPage.Responded(Client.MakeHttpRequest(ManagerPage.DeleteConfig(), t).events) then
      started.(selected := Selection.RemoveAll(s.selected, s.pendingIds),
               list := LocalList.SetMediaList(s.list, PageLogic.RemoveItems(s.list.mediaList, s.pendingIds)),
               pendingIds := [])
    else started
  }

  /** On success exactly the pending ids leave the selection and the list, the survivors
      keep their order and the whole list is displayed; on failure neither changes. */
  lemma ConfirmDeleteOutcome(s: PageState, t: Client.Transport<ManagerPage.Body>)
    ensures var r := ConfirmDelete(s, t);
      t.Delivered? ==>
        (forall x :: x in r.selected <==> x in s.selected && x !in s.pendingIds)
        && (forall i :: 0 <= i < |r.list.mediaList| ==> r.list.mediaList[i].id !in s.pendingIds)
        && (forall i :: 0 <= i < |s.list.mediaList| && s.list.mediaList[i].id !in s.pendingIds ==>
              s.list.mediaList[i] in r.list.mediaList)
        && IsSubsequence(r.list.mediaList, s.list.mediaList)
        && r.list.filtered == r.list.mediaList && r.pendingIds == []
    ensures var r := ConfirmDelete(s, t);
      t.Failed? ==> r.selected == s.selected && r.list == s.list && r.pendingIds == s.pendingIds
  {
    ManagerPage.DeleteRequestOutcome(t);
    PageLogic.RemoveItemsKeepsOrder(s.list.mediaList, s.pendingIds);
  }

  // ---- The detail viewer ----

  /** A list row click: the viewer opens on the item's position in the whole list. */
  function ListClick(s: PageState, item: MediaItem): (r: PageState)
    ensures r.detailIndex == Some(PageLogic.FindIndex(s.list.mediaList, item.id))
    ensures r.(detailIndex := s.detailIndex) == s
  {
    s.(detailIndex := Some(PageLogic.FindIndex(s.list.mediaList, item.id)))
  }

  /** `onSelectedItemsIdsChanged={setSelectedMedia}`: the page adopts the selection the
      list or the grid reports. */
  function SelectionReported(s: PageState, ids: seq<int>): (r: PageState)
    ensures r.selected == ids
    ensures r.(selected := s.selected) == s
  {
    s.(selected := ids)
  }

  /** A click on tile `index` of the displayed list, the grid holding its own selection `g`:
      in multi-select mode the overlay toggles the tile's id and the page adopts the grid's
      selection; otherwise the viewer opens as for a list row. */
  function GridClick(s: PageState, g: GridView.GridState, index: nat): (r: PageState)
    requires index < |s.list.filtered|
    ensures s.multiSelect ==>
      (forall x :: x in r.selected <==> (x in g.selected <==> x != s.list.filtered[index].id))
    ensures s.multiSelect ==> r.(selected := s.selected) == s
    ensures !s.multiSelect ==> r == ListClick(s, s.list.filtered[index])
  {
    var e := GridView.Click(s.list.filtered, s.multiSelect, g, index, true);
    var adopted := if e.reported.Some? then SelectionReported(s, e.reported.value) else s;
    if s.multiSelect then adopted else ListClick(adopted, e.clicked.0)
  }

  /** With the grid in step with the page, a tile click in multi-select mode enables the
      group delete with the tile's id among the ids to delete, leaves the viewer closed
      as it was, and a second click on the tile restores the page. */
  lemma GridClickFeedsGroupDelete(s: PageState, index: nat)
    requires index < |s.list.filtered| && s.multiSelect
    requires s.list.filtered[index].id !in s.selected
    ensures var r := GridClick(s, GridView.GridState(s.selected), index);
      GroupDeleteEnabled(r) && r.detailIndex == s.detailIndex
      && s.list.filtered[index].id in RequestDelete(r, None).pendingIds
      && GridClick(r, GridView.GridState(r.selected), index) == s
  {
    var id := s.list.filtered[index].id;
    var r := GridClick(s, GridView.GridState(s.selected), index);
    assert id in r.selected;
    Selection.ToggleTwice(s.selected, id);
  }

  /** The viewer reads its index in the whole list; the arrows are bounded by the display. */
  function Shown(s: PageState): Nullable<MediaItem> {
    PageLogic.DetailItem(s.list.mediaList, s.detailIndex)
  }

  function Previous(s: PageState): PageState {
    s.(detailIndex := PageLogic.PreviousIndex(s.detailIndex))
  }

  function Next(s: PageState): PageState {
    s.(detailIndex := PageLogic.NextIndex(s.detailIndex, |s.list.filtered|))
  }

  /** A row click on a listed item opens the viewer on the first item with its id, in
      multi-select mode too; while the whole list is displayed, "next" from there shows the next
      item of the list or, on the last one, stays. */
  lemma ClickShowsItem(s: PageState, item: MediaItem)
    requires item in s.list.mediaList
    ensures Shown(ListClick(s, item)).Present? && Shown(ListClick(s, item)).value.id == item.id
    ensures s.list.filtered == s.list.mediaList ==>
      var i := ListClick(s, item).detailIndex.value;
      Shown(Next(ListClick(s, item))) == Present(s.list.mediaList[if i + 1 < |s.list.mediaList| then i + 1 else i])
  {
  }

  // ---- Deletion from the viewer ----

  /** `onDeleteMediaItem` as written: the viewer closes, the id is appended to the
      selection, and the handler's default ids are the selection it was created with. */
  function ModalDeleteAsWritten(s: PageState, item: MediaItem): (r: PageState)
    ensures r.selected == s.selected + [item.id] && r.detailIndex.None? && r.confirmOpen
    ensures r.pendingIds == s.selected
  {
    RequestDelete(s.(detailIndex := None, selected := s.selected + [item.id]), Some(s.selected))
  }

  /** `onDeleteMediaItem` asking for the deletion of the item alone. */
  function ModalDelete(s: PageState, item: MediaItem): (r: PageState)
    ensures r.selected == s.selected + [item.id] && r.detailIndex.None? && r.confirmOpen
    ensures r.pendingIds == [item.id]
  {
    RequestDelete(s.(detailIndex := None, selected := s.selected + [item.id]), Some([item.id]))
  }

  /** As written, with nothing selected beforehand, a confirmed and successful deletion
      from the viewer deletes nothing: the item stays in the list and its id stays
      selected. */
  lemma ModalDeleteAsWrittenKeepsItem(s: PageState, item: MediaItem, t: Client.Transport<ManagerPage.Body>)
    requires s.selected == [] && item in s.list.mediaList && t.Delivered?
    ensures item in ConfirmDelete(ModalDeleteAsWritten(s, item), t).list.mediaList
    ensures ConfirmDelete(ModalDeleteAsWritten(s, item), t).selected == [item.id]
  {
    var m := ModalDeleteAsWritten(s, item);
    ManagerPage.DeleteRequestOutcome(t);
    PageLogic.RemoveItemsKeepsOrder(m.list.mediaList, []);
    Selection.RemoveAllKeepsOrder(m.selected, []);
    assert Selection.RemoveAll([item.id], []) == [item.id] by {
      assert [item.id][1..] == [];
    }
  }

  /** Corrected, a confirmed and successful deletion from the viewer removes the item
      from the list and its id from the selection, and keeps every other listed item and
      selected id. */
  lemma ModalDeleteRemovesItem(s: PageState, item: MediaItem, t: Client.Transport<ManagerPage.Body>)
    requires t.Delivered?
    ensures var r := ConfirmDelete(ModalDelete(s, item), t);
      item.id !in r.selected
      && (forall i :: 0 <= i < |r.list.mediaList| ==> r.list.mediaList[i].id != item.id)
      && (forall i :: 0 <= i < |s.list.mediaList| && s.list.mediaList[i].id != item.id ==>
            s.list.mediaList[i] in r.list.mediaList)
      && (forall x :: x in s.selected && x != item.id ==> x in r.selected)
  {
    ConfirmDeleteOutcome(ModalDelete(s, item), t);
  }

  // ---- Search, type, fetch, upload and dates ----

  function Search(s: PageState, keyword: string): PageState {
    s.(list := LocalList.Search(s.list, keyword))
  }

  function SelectType(s: PageState, t: string): PageState {
    s.(list := LocalList.SelectType(s.list, t))
  }

  function FetchMedia(s: PageState, result: MediaListHook.FindAllResult): PageState {
    s.(list := LocalList.FetchMedia(s.list, result))
  }

  /** The uploader's `onSuccess`: the mapped item is appended and the whole list displayed. */
  function Uploaded(s: PageState, dto: MediaDto, parse: string -> Option<int>): (r: PageState)
    ensures r.list.mediaList == s.list.mediaList + [ToMediaItem(dto, parse)]
    ensures r.list.filtered == r.list.mediaList
    ensures r.selected == s.selected && r.detailIndex == s.detailIndex
  {
    s.(list := LocalList.SetMediaList(s.list, s.list.mediaList + [ToMediaItem(dto, parse)]))
  }

  /** The upload-date effect over the displayed list. An item without a date would make
      the render throw, which the model leaves out by keeping the selected date; items
      mapped from DTOs always carry a date (`ToMediaItem`), so the case does not arise
      from a fetch or an upload. */
  function DatesEffect(s: PageState): (r: PageState)
    ensures r.(uploadDate := s.uploadDate) == s
  {
    match LocalList.UploadDates(s.list.filtered)
    case Some(dates) => s.(uploadDate := LocalList.SelectedDateAfter(s.uploadDate, dates))
    case None => s
  }

  /** After a fetch that delivers items with dates, the selected date is the date of the
      first delivered item, and the list effect has displayed the items whatever type is
      selected; nothing else of the page changes. */
  lemma FetchThenDates(s: PageState, items: seq<MediaItem>)
    requires |items| > 0 && forall i :: 0 <= i < |items| ==> items[i].uploadDate.Present?
    ensures var r := DatesEffect(FetchMedia(s, MediaListHook.Fetched(Present(items))));
      r.list.filtered == items && r.uploadDate == items[0].uploadDate.value.time
      && r.selected == s.selected && r.detailIndex == s.detailIndex && !r.list.showLoader
  {
  }
}
