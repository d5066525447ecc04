/**
 * The first library page, assetManager/AssetsManagerComponent: its own list
 * state (`LocalList`), a grid whose tiles carry a selection overlay in
 * multi-select mode, and a deletion that always deletes the whole selection
 * and then clears it.
 *
 * Unlike the later pages, the detail viewer's index is a position in the
 * displayed list, and it is read in the displayed list too.
 */
module ManagerPageV1 {
  import opened Js
  import opened Seqs
  import opened MediaItems
  import opened MediaDtos
  import LocalList
  import MediaListHook
  import Selection
  import Client
  import PageLogic
  import ManagerPage

  datatype PageState = PageState(
    list: LocalList.ListState,
    selected: seq<int>,
    multiSelect: bool,
    confirmOpen: bool,
    detailIndex: Option<int>,
    uploadDate: Option<int>)

  function Init(): (s: PageState)
    ensures s.list == LocalList.Init() && s.uploadDate == LocalList.InitialUploadDate
    ensures s.selected == [] && s.detailIndex.None? && !s.confirmOpen && !s.multiSelect
  {
    PageState(LocalList.Init(), [], false, false, None, LocalList.InitialUploadDate)
  }

  // ---- Selection and deletion ----

  /** `handleMediaSelected(id)`: the id's membership flips, nothing else changes. */
  function SelectMedia(s: PageState, id: int): (r: PageState)
    ensures forall x :: x in r.selected <==> (x in s.selected <==> x != id)
    ensures r.(selected := s.selected) == s
  {
    s.(selected := Selection.Toggle(s.selected, id))
  }

  /** Selecting the same id twice gives the selection back, when it holds no duplicate
      and the id was not selected. */
  lemma SelectMediaTwice(s: PageState, id: int)
    requires NoDuplicates(s.selected) && id !in s.selected
    ensures SelectMedia(SelectMedia(s, id), id) == s
  {
    Selection.ToggleTwice(s.selected, id);
  }

  /** `handleDeleteMediaDefinitely`: leave multi-select and open the confirmation. */
  function RequestDelete(s: PageState): (r: PageState)
    ensures !r.multiSelect && r.confirmOpen
    ensures r.list == s.list && r.selected == s.selected && r.detailIndex == s.detailIndex
  {
    s.(multiSelect := false, confirmOpen := true)
  }

  predicate GroupDeleteEnabled(s: PageState) { |s.selected| > 0 }

  /** `handleConfirmDeleteMedia`: the request deletes the selection; its `onResponse`
      clears the selection and takes the selected ids out of the list, which the list
      effect then displays whole. */
  function ConfirmDelete(s: PageState, t: Client.Transport<ManagerPage.Body>): (r: PageState)
    ensures !r.multiSelect && !r.confirmOpen && r.detailIndex == s.detailIndex
    ensures r.list.selectedType == s.list.selectedType
  {
    var started := s.(multiSelect := false, confirmOpen := false);
    if ManagerPage.Responded(Client.MakeHttpRequest(ManagerPage.DeleteConfig(), t).events) then
      started.(selected := [],
               list := LocalList.SetMediaList(s.list, PageLogic.RemoveItems(s.list.mediaList, s.selected)))
    else started
  }

  /** On success the selection is empty and the list has lost exactly the previously
      selected ids, keeping the rest in order; on failure neither changes. */
  lemma ConfirmDeleteOutcome(s: PageState, t: Client.Transport<ManagerPage.Body>)
    ensures var r := ConfirmDelete(s, t);
      t.Delivered? ==>
        r.selected == []
        && (forall i :: 0 <= i < |r.list.mediaList| ==> r.list.mediaList[i].id !in s.selected)
        && (forall i :: 0 <= i < |s.list.mediaList| && s.list.mediaList[i].id !in s.selected ==>
              s.list.mediaList[i] in r.list.mediaList)
        && IsSubsequence(r.list.mediaList, s.list.mediaList)
        && r.list.filtered == r.list.mediaList
    ensures var r := ConfirmDelete(s, t);
      t.Failed? ==> r.selected == s.selected && r.list == s.list
  {
    ManagerPage.DeleteRequestOutcome(t);
    PageLogic.RemoveItemsKeepsOrder(s.list.mediaList, s.selected);
  }

  // ---- The grid and the detail viewer ----

  /** A click on the tile at position `i` of the display. In multi-select mode the
      overlay covers the tile and toggles the item's id; otherwise the viewer opens on
      position `i`. */
  function TileClick(s: PageState, i: nat): (r: PageState)
    requires i < |s.list.filtered|
    ensures s.multiSelect ==> r == SelectMedia(s, s.list.filtered[i].id)
    ensures !s.multiSelect ==> r == s.(detailIndex := Some(i))
  {
    if s.multiSelect then SelectMedia(s, s.list.filtered[i].id) else s.(detailIndex := Some(i))
  }

  /** `filteredMediaList[index || 0]`. */
  function Shown(s: PageState): Nullable<MediaItem> {
    PageLogic.DetailItem(s.list.filtered, s.detailIndex)
  }

  function Previous(s: PageState): PageState {
    s.(detailIndex := PageLogic.PreviousIndex(s.detailIndex))
  }

  function Next(s: PageState): PageState {
    s.(detailIndex := PageLogic.NextIndex(s.detailIndex, |s.list.filtered|))
  }

  /** Outside multi-select a tile click shows that tile's item, and the arrows only ever
      show displayed items: the index and its bounds come from the same list. */
  lemma ViewerStaysOnDisplay(s: PageState, i: nat)
    requires i < |s.list.filtered| && !s.multiSelect
    ensures Shown(TileClick(s, i)) == Present(s.list.filtered[i])
    ensures Shown(Next(TileClick(s, i))).Present? && Shown(Next(TileClick(s, i))).value in s.list.filtered
    ensures Shown(Previous(TileClick(s, i))).Present? && Shown(Previous(TileClick(s, i))).value in s.list.filtered
  {
    PageLogic.NavigationClamp(i, |s.list.filtered|);
  }

  /** In multi-select mode a tile click toggles that item's id and leaves the viewer
      closed or where it was. */
  lemma MultiSelectClickToggles(s: PageState, i: nat)
    requires i < |s.list.filtered| && s.multiSelect
    ensures var r := TileClick(s, i);
      (s.list.filtered[i].id in r.selected <==> s.list.filtered[i].id !in s.selected)
      && r.detailIndex == s.detailIndex
  {
  }

  /** `onDeleteMediaItem`: the viewer closes, the id is appended to the selection (even
      when it is already there) and the confirmation opens. */
  function ModalDelete(s: PageState, item: MediaItem): (r: PageState)
    ensures r.selected == s.selected + [item.id] && r.detailIndex.None? && r.confirmOpen
  {
    RequestDelete(s.(detailIndex := None, selected := s.selected + [item.id]))
  }

  /** Confirmed and successful, a deletion from the viewer removes the item together with
      everything selected before, and leaves the selection empty. */
  lemma ModalDeleteThenConfirm(s: PageState, item: MediaItem, t: Client.Transport<ManagerPage.Body>)
    requires t.Delivered?
    ensures var r := ConfirmDelete(ModalDelete(s, item), t);
      r.selected == []
      && (forall i :: 0 <= i < |r.list.mediaList| ==>
            r.list.mediaList[i].id != item.id && r.list.mediaList[i].id !in s.selected)
  {
    ConfirmDeleteOutcome(ModalDelete(s, item), t);
  }

  // ---- Search, type, fetch and upload ----

  function Search(s: PageState, keyword: string): PageState {
    s.(list := LocalList.Search(s.list, keyword))
  }

  function SelectType(s: PageState, t: string): PageState {
    s.(list := LocalList.SelectType(s.list, t))
  }

  function FetchMedia(s: PageState, result: MediaListHook.FindAllResult): PageState {
    s.(list := LocalList.FetchMedia(s.list, result))
  }

  /** The uploader's `onSuccess`: the mapped item is appended and the whole list displayed. */
  function Uploaded(s: PageState, dto: MediaDto, parse: string -> Option<int>): (r: PageState)
    ensures r.list.mediaList == s.list.mediaList + [ToMediaItem(dto, parse)]
    ensures r.list.filtered == r.list.mediaList
    ensures r.selected == s.selected && r.detailIndex == s.detailIndex
  {
    s.(list := LocalList.SetMediaList(s.list, s.list.mediaList + [ToMediaItem(dto, parse)]))
  }
}
