/**
 * The media library page built on `useMediaList` (assetManager/AssetsManagerComponent2):
 * deletion behind the confirmation modal, the detail viewer over the list, the
 * in-place metadata update and the upload.
 *
 * Both requests go through `makeHttpRequest` with `throwOnError: () => false`,
 * so they never throw; the page reacts to the `onResponse` call alone.
 *
 * As written, confirming a deletion raises the loader and nothing lowers it
 * again (`ConfirmDeleteAsWritten`); `ConfirmDelete` lowers it once the request
 * has settled, as the update handler of the same page does.
 */
module ManagerPage {
  import opened Js
  import opened Seqs
  import opened MediaItems
  import opened MediaDtos
  import MediaFilters
  import MediaListHook
  import Selection
  import Client
  import PageLogic
  import GridView
  import ListView

  /** A response body: the update route answers with a DTO, which `onTransform` turns
      into an item. */
  datatype Body = DtoBody(dto: MediaDto) | ItemBody(item: MediaItem) | NoBody

  datatype PageState = PageState(
    media: MediaListHook.HookState,
    selected: seq<int>,
    multiSelect: bool,
    confirmOpen: bool,
    detailIndex: Option<int>,
    pendingIds: seq<int>)

  /** The page opens on the first menu entry, "all media", with nothing selected. */
  function Init(): (s: PageState)
    ensures s.media.selectedType == MediaFilters.AllTypes
    ensures s.selected == [] && s.pendingIds == [] && s.detailIndex.None?
    ensures !s.confirmOpen && !s.multiSelect
  {
    PageLogic.SupportedMediaFilters([], MediaItem(0, "", Undefined, Undefined, Undefined, Undefined,
      Undefined, Undefined, Undefined, Undefined, Undefined, Undefined));
    PageState(MediaListHook.Init(PageLogic.SupportedMedia[0].mimeType), [], false, false, None, [])
  }

  // ---- Deletion ----

  /** `handleDeleteMediaDefinitely(ids = selectedMedia)`: record the ids, leave
      multi-select and open the confirmation. */
  function RequestDelete(s: PageState, ids: Option<seq<int>>): (r: PageState)
    ensures r.pendingIds == (if ids.Some? then ids.value else s.selected)
    ensures !r.multiSelect && r.confirmOpen
    ensures r.media == s.media && r.selected == s.selected && r.detailIndex == s.detailIndex
  {
    s.(pendingIds := PageLogic.DeletionIds(s.selected, ids), multiSelect := false, confirmOpen := true)
  }

  /** The group delete button is enabled while something is selected. */
  predicate GroupDeleteEnabled(s: PageState) { |s.selected| > 0 }

  /** The callbacks passed with the delete request. */
  function DeleteConfig(): Client.Config<Body> {
    Client.Config(
      Some((e: Client.RequestError<Body>) => Client.Returns(())),
      None,
      Some((d: Body) => Client.Returns(())),
      None,
      Some((e: Client.RequestError<Body>) => Client.Returns(false)))
  }

  lemma DeleteConfigIsSilent()
    ensures Client.Silent(DeleteConfig())
  {
  }

  /** `onResponse` was called during the run. */
  predicate Responded(events: seq<Client.Event<Body>>) {
    exists i :: 0 <= i < |events| && events[i].ResponseCalled?
  }

  /** The delete request never throws, and its `onResponse` runs exactly when the
      response is delivered. */
  lemma DeleteRequestOutcome(t: Client.Transport<Body>)
    ensures !Client.MakeHttpRequest(DeleteConfig(), t).outcome.Threw?
    ensures Responded(Client.MakeHttpRequest(DeleteConfig(), t).events) <==> t.Delivered?
  {
    DeleteConfigIsSilent();
    Client.SilentRequest(DeleteConfig(), t);
    var events := Client.MakeHttpRequest(DeleteConfig(), t).events;
    if t.Delivered? {
      assert events[1].ResponseCalled?;
    } else {
      assert forall i :: 0 <= i < |events| ==> !events[i].ResponseCalled?;
    }
  }

  /** The delete's `onResponse`: the pending ids leave the selection and the list, and are
      cleared. */
  function DeleteSucceeded(s: PageState): PageState {
    s.(selected := Selection.RemoveAll(s.selected, s.pendingIds),
       media := MediaListHook.SetMediaList(s.media, PageLogic.RemoveItems(s.media.mediaList, s.pendingIds)),
       pendingIds := [])
  }

  /** `handleConfirmDeleteMedia` as written: the loader goes up and stays up. */
  function ConfirmDeleteAsWritten(s: PageState, t: Client.Transport<Body>): PageState {
    var started := s.(media := s.media.(showLoader := true), multiSelect := false, confirmOpen := false);
    if Responded(Client.MakeHttpRequest(DeleteConfig(), t).events) then DeleteSucceeded(started) else started
  }

  /** `handleConfirmDeleteMedia` with the loader lowered once the request settled. */
  function ConfirmDelete(s: PageState, t: Client.Transport<Body>): PageState {
    var r := ConfirmDeleteAsWritten(s, t);
    r.(media := r.media.(showLoader := false))
  }

  /** On success exactly the pending ids leave the selection and the list, which keep
      their order, and the pending ids are cleared; on failure nothing but the dialogs
      and the loader changes. */
  lemma ConfirmDeleteOutcome(s: PageState, t: Client.Transport<Body>)
    ensures var r := ConfirmDelete(s, t);
      !r.confirmOpen && !r.multiSelect && !r.media.showLoader && r.detailIndex == s.detailIndex
    ensures var r := ConfirmDelete(s, t);
      t.Delivered? ==>
        r.selected == Selection.RemoveAll(s.selected, s.pendingIds)
        && r.media.mediaList == PageLogic.RemoveItems(s.media.mediaList, s.pendingIds)
        && r.pendingIds == []
    ensures var r := ConfirmDelete(s, t);
      t.Failed? ==>
        r.selected == s.selected && r.media.mediaList == s.media.mediaList
        && r.media.filtered == s.media.filtered && r.pendingIds == s.pendingIds
  {
    DeleteRequestOutcome(t);
  }

  /** After a successful delete no remaining item or selected id is a pending one, every
      other item and id is kept in order, and the display is a subsequence of the list. */
  lemma DeleteRemovesExactlyPending(s: PageState, t: Client.Transport<Body>)
    requires t.Delivered?
    ensures var r := ConfirmDelete(s, t);
      (forall x :: x in r.selected <==> x in s.selected && x !in s.pendingIds)
      && (forall i :: 0 <= i < |r.media.mediaList| ==> r.media.mediaList[i].id !in s.pendingIds)
      && (forall i :: 0 <= i < |s.media.mediaList| && s.media.mediaList[i].id !in s.pendingIds ==>
            s.media.mediaList[i] in r.media.mediaList)
      && IsSubsequence(r.media.mediaList, s.media.mediaList)
      && IsSubsequence(r.selected, s.selected)
      && MediaListHook.Consistent(r.media)
  {
    ConfirmDeleteOutcome(s, t);
    DeleteRequestOutcome(t);
    PageLogic.RemoveItemsKeepsOrder(s.media.mediaList, s.pendingIds);
    Selection.RemoveAllKeepsOrder(s.selected, s.pendingIds);
    var m := MediaListHook.SetMediaList(s.media.(showLoader := true), PageLogic.RemoveItems(s.media.mediaList, s.pendingIds));
    assert MediaListHook.Consistent(m);
    assert ConfirmDelete(s, t).media == m.(showLoader := false);
  }

  /** As written the loader is still up after the request, whatever its outcome; the
      corrected handler differs from it in the loader alone. */
  lemma LoaderStaysUpAsWritten(s: PageState, t: Client.Transport<Body>)
    ensures ConfirmDeleteAsWritten(s, t).media.showLoader
    ensures !ConfirmDelete(s, t).media.showLoader
    ensures ConfirmDelete(s, t).(media := s.media) == ConfirmDeleteAsWritten(s, t).(media := s.media)
    ensures ConfirmDelete(s, t).media.mediaList == ConfirmDeleteAsWritten(s, t).media.mediaList
  {
  }

  // ---- The detail viewer ----

  /** A list row click: the viewer opens on the item's position in the whole list. */
  function ListClick(s: PageState, item: MediaItem): (r: PageState)
    ensures r.detailIndex == Some(PageLogic.FindIndex(s.media.mediaList, item.id))
    ensures r.(detailIndex := s.detailIndex) == s
  {
    s.(detailIndex := Some(PageLogic.FindIndex(s.media.mediaList, item.id)))
  }

  /** `onSelectedItemsIdsChanged={setSelectedMedia}` on the list and on the grid: the page
      adopts the selection the view reports. */
  function SelectionReported(s: PageState, ids: seq<int>): (r: PageState)
    ensures r.selected == ids
    ensures r.(selected := s.selected) == s
  {
    s.(selected := ids)
  }

  /** A click on tile `index` of the displayed list, the grid holding its own selection `g`.
      In multi-select mode the overlay covers the whole tile: the grid toggles the tile's id
      and reports its selection, which the page adopts, and the item click that bubbles up
      is ignored. Otherwise the viewer opens as for a list row. */
  function GridClick(s: PageState, g: GridView.GridState, index: nat): (r: PageState)
    requires index < |s.media.filtered|
    ensures s.multiSelect ==>
      (forall x :: x in r.selected <==> (x in g.selected <==> x != s.media.filtered[index].id))
    ensures s.multiSelect ==> r.(selected := s.selected) == s
    ensures !s.multiSelect ==> r == ListClick(s, s.media.filtered[index])
  {
    var e := GridView.Click(s.media.filtered, s.multiSelect, g, index, true);
    var adopted := if e.reported.Some? then SelectionReported(s, e.reported.value) else s;
    if s.multiSelect then adopted else ListClick(adopted, e.clicked.0)
  }

  /** With the grid in step with the page, a tile click in multi-select mode puts the
      tile's id in the group deletion, a second click on the same tile restores the page,
      and no click opens the viewer. */
  lemma GridClickFeedsGroupDelete(s: PageState, index: nat)
    requires index < |s.media.filtered| && s.multiSelect
    requires s.media.filtered[index].id !in s.selected
    ensures var r := GridClick(s, GridView.GridState(s.selected), index);
      GroupDeleteEnabled(r) && r.detailIndex == s.detailIndex
      && s.media.filtered[index].id in RequestDelete(r, None).pendingIds
      && GridClick(r, GridView.GridState(r.selected), index) == s
  {
    var id := s.media.filtered[index].id;
    var r := GridClick(s, GridView.GridState(s.selected), index);
    assert id in r.selected;
    Selection.ToggleTwice(s.selected, id);
  }

  /** A row or header checkbox of the list reaches the page: the page's selection becomes
      the list's, toggled. */
  lemma ListToggleReachesPage(s: PageState, l: ListView.ListState, id: int)
    requires l.selected == s.selected
    ensures var r := SelectionReported(s, ListView.ToggleRow(l, id).reported);
      (forall x :: x in r.selected <==> (x in s.selected <==> x != id))
      && r.detailIndex == s.detailIndex && r.media == s.media
  {
  }

  /** The item the viewer shows: the index is read in the whole list. */
  function Shown(s: PageState): Nullable<MediaItem> {
    PageLogic.DetailItem(s.media.mediaList, s.detailIndex)
  }

  /** The arrows, whose bounds come from the displayed list. */
  function Previous(s: PageState): PageState {
    s.(detailIndex := PageLogic.PreviousIndex(s.detailIndex))
  }

  function Next(s: PageState): PageState {
    s.(detailIndex := PageLogic.NextIndex(s.detailIndex, |s.media.filtered|))
  }

  predicate NextDisabled(s: PageState) {
    PageLogic.NextDisabled(s.detailIndex, |s.media.filtered|)
  }

  /** A click on an item of the list opens the viewer on that item. */
  lemma ClickShowsItem(s: PageState, item: MediaItem)
    requires item in s.media.mediaList
    ensures DetailOpenOn(ListClick(s, item), item.id)
  {
  }

  predicate DetailOpenOn(s: PageState, id: int) {
    s.detailIndex.Some? && Shown(s).Present? && Shown(s).value.id == id
  }

  /** With the images filter selected over the list [image, PDF, image], the display is
      the two images, but a click on the second image opens index 2; "next" is then
      enabled and does nothing, and "previous" shows the PDF, which is not on display. */
  lemma IndexMismatch(s: PageState, a: MediaItem, b: MediaItem, c: MediaItem)
    requires a.mimeType == Present("image/png") && c.mimeType == Present("image/png")
    requires b.mimeType == Present("application/pdf")
    requires a.id != c.id && b.id != c.id
    requires s.media.mediaList == [a, b, c] && s.media.selectedType == MediaFilters.ImagesFilter
    requires s.media.filtered == MediaFilters.FilterByType(s.media.mediaList, s.media.selectedType)
    ensures s.media.filtered == [a, c]
    ensures ListClick(s, c).detailIndex == Some(2)
    ensures !NextDisabled(ListClick(s, c)) && Next(ListClick(s, c)).detailIndex == Some(2)
    ensures Shown(Previous(ListClick(s, c))) == Present(b) && b !in s.media.filtered
  {
    ImagesOfThree(a, b, c);
    FindThird(a, b, c);
  }

  /** Helpers of `IndexMismatch`: `findIndex` on three items, the images filter on
      [image, PDF, image], and the two type matches it rests on. */
  lemma FindThird(a: MediaItem, b: MediaItem, c: MediaItem)
    requires a.id != c.id && b.id != c.id
    ensures PageLogic.FindIndex([a, b, c], c.id) == 2
  {
    assert [a, b, c][1..] == [b, c] && [b, c][1..] == [c];
    assert PageLogic.FindIndex([c], c.id) == 0;
    assert PageLogic.FindIndex([b, c], c.id) == 1;
  }

  lemma ImagesOfThree(a: MediaItem, b: MediaItem, c: MediaItem)
    requires a.mimeType == Present("image/png") && c.mimeType == Present("image/png")
    requires b.mimeType == Present("application/pdf")
    ensures MediaFilters.FilterByType([a, b, c], MediaFilters.ImagesFilter) == [a, c]
  {
    ImagesMatch(a);
    ImagesMatch(c);
    PdfIsNoImage(b);
    var f := MediaFilters.TypeFilter(MediaFilters.ImagesFilter);
    assert f(a) && !f(b) && f(c);
    FilterOfThree(a, b, c, f);
  }

  lemma FilterOfThree<T>(a: T, b: T, c: T, p: T -> bool)
    requires p(a) && !p(b) && p(c)
    ensures Filter([a, b, c], p) == [a, c]
  {
    assert [a, b, c][1..] == [b, c] && [b, c][1..] == [c] && [c][1..] == [];
    assert Filter([c], p) == [c];
    assert Filter([b, c], p) == [c];
  }

  lemma ImagesMatch(item: MediaItem)
    requires item.mimeType == Present("image/png")
    ensures MediaFilters.TypeMatches(MediaFilters.ImagesFilter, item)
  {
    assert MediaFilters.ImagesFilter == "image" + "/" + "*";
    assert "image/png" == "image" + "/" + "png";
    assert forall i :: 0 <= i < 5 ==> "image"[i] != '/';
    assert forall i :: 0 <= i < 3 ==> "png"[i] != '/';
    MediaFilters.TypeMatchesStructured("image", "*", "image", "png", item);
  }

  lemma PdfIsNoImage(item: MediaItem)
    requires item.mimeType == Present("application/pdf")
    ensures !MediaFilters.TypeMatches(MediaFilters.ImagesFilter, item)
  {
    assert MediaFilters.ImagesFilter == "image" + "/" + "*";
    assert "application/pdf" == "application" + "/" + "pdf";
    assert forall i :: 0 <= i < 5 ==> "image"[i] != '/';
    assert forall i :: 0 <= i < 11 ==> "application"[i] != '/';
    assert forall i :: 0 <= i < 3 ==> "pdf"[i] != '/';
    MediaFilters.TypeMatchesStructured("image", "*", "application", "pdf", item);
    assert "image" != "application" by { assert |"image"| != |"application"|; }
  }

  /** Deleting from the viewer closes it, appends the item's id to the selection and asks
      to confirm the deletion of that id alone. */
  function ViewerDelete(s: PageState, item: MediaItem): (r: PageState)
    ensures r.detailIndex.None? && r.confirmOpen && !r.multiSelect
    ensures r.selected == s.selected + [item.id]
    ensures r.pendingIds == [item.id]
  {
    RequestDelete(s.(detailIndex := None, selected := s.selected + [item.id]), Some([item.id]))
  }

  /** Confirmed, that deletion removes the item from the list and its id from the
      selection, and only it. */
  lemma ViewerDeleteThenConfirm(s: PageState, item: MediaItem, t: Client.Transport<Body>)
    requires t.Delivered?
    ensures var r := ConfirmDelete(ViewerDelete(s, item), t);
      item.id !in r.selected
      && (forall i :: 0 <= i < |r.media.mediaList| ==> r.media.mediaList[i].id != item.id)
      && (forall x :: x in s.selected && x != item.id ==> x in r.selected)
  {
    DeleteRemovesExactlyPending(ViewerDelete(s, item), t);
  }

  // ---- Metadata update ----

  /** `onTransform: (data) => mediaDtoToMediaItem(data)`; other bodies are passed on
      as they are. */
  function Transform(d: Body, parse: string -> Option<int>): Nullable<Body> {
    match d
    case DtoBody(x) => Present(ItemBody(ToMediaItem(x, parse)))
    case _ => Present(d)
  }

  function UpdateConfig(parse: string -> Option<int>): Client.Config<Body> {
    Client.Config(
      Some((e: Client.RequestError<Body>) => Client.Returns(())),
      Some((d: Body) => Client.Returns(Transform(d, parse))),
      Some((d: Body) => Client.Returns(())),
      None,
      Some((e: Client.RequestError<Body>) => Client.Returns(false)))
  }

  /** The item `onResponse` received, if it received one. */
  function RespondedItem(events: seq<Client.Event<Body>>): Option<MediaItem> {
    if |events| == 0 then None
    else if events[0].ResponseCalled? && events[0].value.ItemBody? then Some(events[0].value.item)
    else RespondedItem(events[1..])
  }

  /** `handleUpdateMediaItem`: the viewer closes during the request; `onResponse` writes the
      updated item at the viewer's index of the list, in place, so the displayed list is
      not recomputed; the viewer then reopens on the same index and the loader goes down.
      The viewer's index lies in the list, which is never shorter than the display. */
  function UpdateItem(s: PageState, t: Client.Transport<Body>, parse: string -> Option<int>): PageState
    requires s.detailIndex.Some? && 0 <= s.detailIndex.value < |s.media.mediaList|
  {
    var index := s.detailIndex.value;
    var responded := RespondedItem(Client.MakeHttpRequest(UpdateConfig(parse), t).events);
    var list := if responded.Some? then s.media.mediaList[index := responded.value] else s.media.mediaList;
    s.(media := s.media.(mediaList := list, showLoader := false), detailIndex := Some(index))
  }

  /** A delivered DTO replaces exactly the item at the viewer's index with its mapping;
      a failure changes no item; either way the viewer is back on its index with the
      loader down. */
  lemma UpdateReplacesOnlyIndex(s: PageState, t: Client.Transport<Body>, parse: string -> Option<int>)
    requires s.detailIndex.Some? && 0 <= s.detailIndex.value < |s.media.mediaList|
    ensures var r := UpdateItem(s, t, parse);
      r.detailIndex == s.detailIndex && !r.media.showLoader
      && |r.media.mediaList| == |s.media.mediaList|
      && r.media.filtered == s.media.filtered
      && (forall j :: 0 <= j < |s.media.mediaList| && j != s.detailIndex.value ==>
            r.media.mediaList[j] == s.media.mediaList[j])
    ensures t.Delivered? && t.response.data.DtoBody? ==>
      UpdateItem(s, t, parse).media.mediaList[s.detailIndex.value] == ToMediaItem(t.response.data.dto, parse)
    ensures t.Failed? ==> UpdateItem(s, t, parse).media.mediaList == s.media.mediaList
  {
    var events := Client.MakeHttpRequest(UpdateConfig(parse), t).events;
    if t.Failed? {
      var e := Client.Fetch(t).error;
      Client.CatchProperties(UpdateConfig(parse), e, [Client.RequestSent]);
      assert events == [Client.RequestSent, Client.ErrorCalled(e), Client.ThrowOnErrorCalled(e)];
      NoResponseNoItem(events);
    } else if t.response.data.DtoBody? {
      var d := t.response.data;
      var item := ToMediaItem(d.dto, parse);
      assert events == [Client.RequestSent, Client.TransformCalled(d), Client.ResponseCalled(ItemBody(item))];
      FirstResponseItem(events, 2);
    }
  }

  lemma {:induction false} NoResponseNoItem(events: seq<Client.Event<Body>>)
    requires forall i :: 0 <= i < |events| ==> !events[i].ResponseCalled?
    ensures RespondedItem(events) == None
    decreases |events|
  {
    if |events| > 0 {
      NoResponseNoItem(events[1..]);
    }
  }

  /** `RespondedItem` finds the item of the first `onResponse` call. */
  lemma {:induction false} FirstResponseItem(events: seq<Client.Event<Body>>, k: nat)
    requires k < |events| && events[k].ResponseCalled? && events[k].value.ItemBody?
    requires forall i :: 0 <= i < k ==> !events[i].ResponseCalled?
    ensures RespondedItem(events) == Some(events[k].value.item)
    decreases k
  {
    if k > 0 {
      FirstResponseItem(events[1..], k - 1);
    }
  }

  // ---- Upload ----

  /** The uploader's `onSuccess`: the mapped item is appended to the list and the display
      recomputed. */
  function Uploaded(s: PageState, dto: MediaDto, parse: string -> Option<int>): (r: PageState)
    ensures r.media.mediaList == s.media.mediaList + [ToMediaItem(dto, parse)]
    ensures r.selected == s.selected && r.detailIndex == s.detailIndex
    ensures MediaListHook.Consistent(r.media)
  {
    s.(media := MediaListHook.SetMediaList(s.media, s.media.mediaList + [ToMediaItem(dto, parse)]))
  }

  /** Under "all media" the uploaded item is displayed last. */
  lemma UploadShownUnderAllMedia(s: PageState, dto: MediaDto, parse: string -> Option<int>)
    requires s.media.selectedType == MediaFilters.AllTypes
    ensures var r := Uploaded(s, dto, parse);
      |r.media.filtered| > 0 && r.media.filtered[|r.media.filtered| - 1] == ToMediaItem(dto, parse)
  {
    MediaFilters.FilterByTypeContents(s.media.mediaList + [ToMediaItem(dto, parse)], MediaFilters.AllTypes);
  }
}
