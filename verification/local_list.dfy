/**
 * The list state of the two library pages that keep it themselves instead of
 * using `useMediaList` (AssetsManagerComponent2 at the top of the components,
 * and assetManager/AssetsManagerComponent): the canonical list, the list on
 * display, the selected type, the loader and the upload-date menu.
 *
 * These pages differ from the hook in three ways: selecting a type on an empty
 * list does not record the type; a change of the canonical list shows the
 * whole new list whatever type is selected; and a failed fetch is swallowed
 * without an error flag.
 */
module LocalList {
  import opened Js
  import opened Seqs
  import opened MediaItems
  import MediaFilters
  import MediaListHook

  datatype ListState = ListState(
    mediaList: seq<MediaItem>,
    filtered: seq<MediaItem>,
    selectedType: string,
    showLoader: bool)

  /** The list on display keeps the canonical order and holds nothing else. */
  predicate Consistent(s: ListState) {
    IsSubsequence(s.filtered, s.mediaList)
  }

  function Init(): (s: ListState)
    ensures s.mediaList == [] && s.filtered == [] && !s.showLoader
    ensures s.selectedType == MediaFilters.AllTypes
    ensures Consistent(s)
  {
    ListState([], [], "*/*", false)
  }

  /** `setMediaList(list)` followed by the effect on `[mediaList]`, which displays the
      new list as it is. */
  function SetMediaList(s: ListState, list: seq<MediaItem>): (r: ListState)
    ensures r.mediaList == list && Consistent(r)
    ensures r.selectedType == s.selectedType && r.showLoader == s.showLoader
  {
    SubsequenceReflexive(list);
    s.(mediaList := list, filtered := list)
  }

  /** `handleMediaTypeSelected(t)`: on an empty list, display nothing and return before
      the type is recorded; otherwise display the type filter of the list and record `t`. */
  function SelectType(s: ListState, t: string): (r: ListState)
    ensures r.mediaList == s.mediaList && r.showLoader == s.showLoader && Consistent(r)
    ensures |s.mediaList| == 0 ==> r.filtered == [] && r.selectedType == s.selectedType
    ensures |s.mediaList| > 0 ==> r.selectedType == t
    ensures t != MediaFilters.AllTypes ==>
      (forall i :: 0 <= i < |r.filtered| ==> MediaFilters.TypeMatches(t, r.filtered[i]))
      && (forall i :: 0 <= i < |s.mediaList| && MediaFilters.TypeMatches(t, s.mediaList[i]) ==>
            s.mediaList[i] in r.filtered)
    ensures t == MediaFilters.AllTypes ==> r.filtered == s.mediaList
  {
    MediaFilters.FilterByTypeContents(s.mediaList, t);
    if |s.mediaList| == 0 then s.(filtered := [])
    else s.(filtered := MediaFilters.FilterByType(s.mediaList, t), selectedType := t)
  }

  /** `handleMediaSearch(keyword)`: the canonical list filtered by name. */
  function Search(s: ListState, keyword: string): (r: ListState)
    ensures r.mediaList == s.mediaList && r.selectedType == s.selectedType && Consistent(r)
    ensures forall i :: 0 <= i < |r.filtered| ==> MediaFilters.OccursIn(keyword, r.filtered[i].name)
    ensures forall i :: 0 <= i < |s.mediaList| && MediaFilters.OccursIn(keyword, s.mediaList[i].name) ==>
      s.mediaList[i] in r.filtered
  {
    MediaFilters.SearchByNameContents(s.mediaList, keyword);
    s.(filtered := MediaFilters.SearchByName(s.mediaList, keyword))
  }

  /** `fetchMedia`: the loader goes up, a truthy result replaces the list, an exception is
      only logged, and the loader goes down. */
  function FetchMedia(s: ListState, result: MediaListHook.FindAllResult): (r: ListState)
    ensures !r.showLoader && r.selectedType == s.selectedType
    ensures result.Fetched? && result.data.Present? ==>
      r.mediaList == result.data.value && r.filtered == result.data.value
    ensures !(result.Fetched? && result.data.Present?) ==>
      r.mediaList == s.mediaList && r.filtered == s.filtered
  {
    var started := s.(showLoader := true);
    match result
    case Fetched(Present(items)) => SetMediaList(started, items).(showLoader := false)
    case _ => started.(showLoader := false)
  }

  /** Every transition keeps the display a subsequence of the canonical list. */
  lemma TransitionsKeepConsistent(s: ListState, list: seq<MediaItem>, t: string, keyword: string,
                                  result: MediaListHook.FindAllResult)
    requires Consistent(s)
    ensures Consistent(SetMediaList(s, list)) && Consistent(SelectType(s, t))
    ensures Consistent(Search(s, keyword)) && Consistent(FetchMedia(s, result))
  {
  }

  // ---- Compared with the hook ----

  /** Unless the hook shows a search and the type is the one it has selected, selecting a
      type displays what the hook displays for that type; on an empty list both display
      nothing, but only the hook records the type. */
  lemma SelectTypeAgreesWithHook(s: ListState, h: MediaListHook.HookState, t: string)
    requires h.mediaList == s.mediaList
    ensures h.selectedType != t || MediaListHook.ShowsTypeFilter(h) ==>
      SelectType(s, t).filtered == MediaListHook.SelectType(h, t).filtered
    ensures MediaListHook.SelectType(h, t).selectedType == t
    ensures |s.mediaList| == 0 ==> SelectType(s, t).selectedType == s.selectedType
  {
    MediaFilters.FilterByTypeContents(s.mediaList, t);
  }

  /** A new list is displayed whole, even under a type that some of its items do not
      match, where the hook displays only the matching items. */
  lemma ListChangeDropsTypeFilter(s: ListState, h: MediaListHook.HookState, list: seq<MediaItem>, i: nat)
    requires h.selectedType == s.selectedType && s.selectedType != MediaFilters.AllTypes
    requires i < |list| && !MediaFilters.TypeMatches(s.selectedType, list[i])
    ensures list[i] in SetMediaList(s, list).filtered
    ensures list[i] !in MediaListHook.SetMediaList(h, list).filtered
  {
    MediaFilters.FilterByTypeContents(list, s.selectedType);
  }

  /** Unlike the hook, a failed fetch leaves no trace: the list, the display and the
      type are as before and no error flag exists to raise. */
  lemma FailedFetchIsSwallowed(s: ListState)
    ensures FetchMedia(s, MediaListHook.FetchThrew) == s.(showLoader := false)
    ensures FetchMedia(s, MediaListHook.Fetched(Null)) == FetchMedia(s, MediaListHook.FetchThrew)
  {
  }

  // ---- The upload-date menu ----

  /** `uploadDates`: one entry per displayed item, in display order, duplicates kept;
      the entry is `getTime()` of the item's date, `None` standing for the NaN of an
      invalid date. An item without a date makes `uploadDate!.getTime()` throw, which
      is `None` here. */
  function UploadDates(filtered: seq<MediaItem>): (r: Option<seq<Option<int>>>)
    ensures r.Some? <==> forall i :: 0 <= i < |filtered| ==> filtered[i].uploadDate.Present?
    ensures r.Some? ==> |r.value| == |filtered|
    ensures r.Some? ==> forall i :: 0 <= i < |filtered| ==> r.value[i] == filtered[i].uploadDate.value.time
  {
    if |filtered| == 0 then Some([])
    else if !filtered[0].uploadDate.Present? then None
    else
      var rest := UploadDates(filtered[1..]);
      if rest.None? then None
      else Some([filtered[0].uploadDate.value.time] + rest.value)
  }

  /** The page opens with the date -1 selected. */
  const InitialUploadDate: Option<int> := Some(-1)

  /** The effect on `[uploadDates]`: the first entry is selected whenever there is one. */
  function SelectedDateAfter(current: Option<int>, dates: seq<Option<int>>): (r: Option<int>)
    ensures |dates| > 0 ==> r == dates[0]
    ensures |dates| == 0 ==> r == current
  {
    if |dates| > 0 then dates[0] else current
  }

  /** Two displayed items uploaded at the same instant give two equal entries, and the
      selected date after the effect is the date of the first displayed item. */
  lemma UploadDatesKeepDuplicates(a: MediaItem, b: MediaItem, t: int)
    requires a.uploadDate == Present(Date(Some(t))) && b.uploadDate == Present(Date(Some(t)))
    ensures UploadDates([a, b]) == Some([Some(t), Some(t)])
    ensures SelectedDateAfter(InitialUploadDate, UploadDates([a, b]).value) == Some(t)
  {
    assert [a, b][1..] == [b] && [b][1..] == [];
    var one: seq<Option<int>> := [Some(t)];
    assert UploadDates([b]) == Some(one + []);
    assert one + [] == one;
    assert UploadDates([a, b]) == Some(one + one);
    assert one + one == [Some(t), Some(t)];
  }
}
