/**
 * The `useMediaList` hook of the asset picker: the canonical list, the list on
 * display, the selected MIME filter and the loader/error flags.
 *
 * Every change to the canonical list or to the selected type runs the recompute
 * effect, so the transitions below that change either of them end with the
 * recomputation; setting the type already selected is no change. A search replaces the list on display until the next such
 * change.
 */
module MediaListHook {
  import opened Js
  import opened Seqs
  import opened MediaItems
  import opened MediaFilters

  datatype HookState = HookState(
    mediaList: seq<MediaItem>,
    filtered: seq<MediaItem>,
    selectedType: string,
    showErrors: bool,
    showLoader: bool)

  /** What `findAll()` produced: a value (possibly null or undefined) or an exception. */
  datatype FindAllResult = Fetched(data: Nullable<seq<MediaItem>>) | FetchThrew

  /** The list on display never holds an item that is not in the canonical list, and
      keeps the canonical order. */
  predicate Consistent(s: HookState) {
    IsSubsequence(s.filtered, s.mediaList)
  }

  function Init(initialType: string): (s: HookState)
    ensures s.mediaList == [] && s.filtered == [] && s.selectedType == initialType
    ensures !s.showErrors && !s.showLoader
    ensures Consistent(s)
  {
    HookState([], [], initialType, false, false)
  }

  /** The effect on `[mediaList, selectedMediaType]`: `handleMediaTypeSelected`. */
  function Recompute(s: HookState): (r: HookState)
    ensures r.mediaList == s.mediaList && r.selectedType == s.selectedType
    ensures r.showErrors == s.showErrors && r.showLoader == s.showLoader
    ensures Consistent(r)
  {
    FilterByTypeContents(s.mediaList, s.selectedType);
    s.(filtered := FilterByType(s.mediaList, s.selectedType))
  }

  /** `setMediaList(list)` followed by the effect it triggers. */
  function SetMediaList(s: HookState, list: seq<MediaItem>): (r: HookState)
    ensures r.mediaList == list && r.selectedType == s.selectedType
    ensures r.showErrors == s.showErrors && r.showLoader == s.showLoader
    ensures Consistent(r)
  {
    Recompute(s.(mediaList := list))
  }

  /** The display is the type filter of the canonical list: no search is on display. */
  predicate ShowsTypeFilter(s: HookState) {
    s.filtered == FilterByType(s.mediaList, s.selectedType)
  }

  /** `setSelectedMediaType(t)` followed by the effect it triggers. Setting the type
      already selected changes no state, so neither the render nor the effect runs. */
  function SelectType(s: HookState, t: string): (r: HookState)
    ensures r.mediaList == s.mediaList && r.selectedType == t
    ensures r.showErrors == s.showErrors && r.showLoader == s.showLoader
    ensures t == s.selectedType ==> r == s
    ensures t != s.selectedType ==> ShowsTypeFilter(r)
    ensures t != s.selectedType || Consistent(s) ==> Consistent(r)
  {
    if t == s.selectedType then s else Recompute(s.(selectedType := t))
  }

  /** `handleMediaSearch(keyword)`: the canonical list filtered by name. */
  function Search(s: HookState, keyword: string): (r: HookState)
    ensures r.mediaList == s.mediaList && r.selectedType == s.selectedType
    ensures r.showErrors == s.showErrors && r.showLoader == s.showLoader
    ensures Consistent(r)
  {
    SearchByNameContents(s.mediaList, keyword);
    s.(filtered := SearchByName(s.mediaList, keyword))
  }

  /** The start of `fetchMedia`. */
  function FetchStarted(s: HookState): (r: HookState)
    ensures r.showLoader && !r.showErrors
    ensures r.mediaList == s.mediaList && r.filtered == s.filtered && r.selectedType == s.selectedType
  {
    s.(showLoader := true, showErrors := false)
  }

  /** The end of `fetchMedia`: a truthy result replaces the list (an array is truthy even
      when empty), an exception raises the error flag, and the loader goes down. */
  function FetchFinished(s: HookState, result: FindAllResult): (r: HookState)
    ensures !r.showLoader
    ensures r.selectedType == s.selectedType
    ensures r.showErrors == (s.showErrors || result.FetchThrew?)
    ensures result.Fetched? && result.data.Present? ==> r.mediaList == result.data.value
    ensures !(result.Fetched? && result.data.Present?) ==> r.mediaList == s.mediaList && r.filtered == s.filtered
    ensures Consistent(s) ==> Consistent(r)
  {
    match result
    case Fetched(Present(items)) => SetMediaList(s, items).(showLoader := false)
    case Fetched(_) => s.(showLoader := false)
    case FetchThrew => s.(showErrors := true, showLoader := false)
  }

  /** `fetchMedia` as a whole. */
  function FetchMedia(s: HookState, result: FindAllResult): HookState {
    FetchFinished(FetchStarted(s), result)
  }

  // ---- Properties ----

  /** The search keeps exactly the canonical items whose name contains the keyword, in
      order, whatever type is selected and whatever was on display before. */
  lemma SearchIgnoresType(s: HookState, keyword: string, t: string)
    ensures Search(s.(selectedType := t), keyword).filtered == Search(s, keyword).filtered
    ensures Search(s, keyword).filtered == SearchByName(s.mediaList, keyword)
    ensures forall i :: 0 <= i < |s.mediaList| && OccursIn(keyword, s.mediaList[i].name) ==>
      s.mediaList[i] in Search(s, keyword).filtered
    ensures forall i :: 0 <= i < |Search(s, keyword).filtered| ==>
      OccursIn(keyword, Search(s, keyword).filtered[i].name)
  {
    SearchByNameContents(s.mediaList, keyword);
  }

  /** The empty keyword shows the whole canonical list. */
  lemma EmptySearchShowsAll(s: HookState)
    ensures Search(s, "").filtered == s.mediaList
  {
    EmptySearchKeepsAll(s.mediaList);
  }

  /** An empty canonical list shows nothing, whatever the type; `AllTypes` shows the
      whole list. */
  lemma RecomputeGuards(s: HookState)
    ensures |s.mediaList| == 0 ==> Recompute(s).filtered == []
    ensures s.selectedType == AllTypes ==> Recompute(s).filtered == s.mediaList
  {
    FilterByTypeContents(s.mediaList, s.selectedType);
  }

  /** A list change discards a search: what is displayed afterwards depends only on the
      new list and the selected type. */
  lemma ListChangeDiscardsSearch(s: HookState, keyword: string, list: seq<MediaItem>)
    ensures SetMediaList(Search(s, keyword), list).filtered == SetMediaList(s, list).filtered
    ensures SetMediaList(Search(s, keyword), list).filtered == FilterByType(list, s.selectedType)
  {
  }

  /** Selecting the type already selected keeps a search on display; selecting another
      type discards it, displaying what it would have displayed without the search. */
  lemma ReselectKeepsSearch(s: HookState, keyword: string, t: string)
    ensures SelectType(Search(s, keyword), s.selectedType).filtered == SearchByName(s.mediaList, keyword)
    ensures t != s.selectedType ==>
      SelectType(Search(s, keyword), t).filtered == SelectType(s, t).filtered
      && SelectType(s, t).filtered == FilterByType(s.mediaList, t)
  {
  }

  /** `fetchMedia` always ends with the loader down; the error flag is raised exactly when
      the request threw; the list is replaced exactly when the result is truthy, and then
      the display is that list under the selected type. */
  lemma FetchFlags(s: HookState, result: FindAllResult)
    ensures !FetchMedia(s, result).showLoader
    ensures FetchMedia(s, result).showErrors <==> result.FetchThrew?
    ensures result.Fetched? && result.data.Present? ==>
      FetchMedia(s, result).mediaList == result.data.value
      && FetchMedia(s, result).filtered == FilterByType(result.data.value, s.selectedType)
    ensures !(result.Fetched? && result.data.Present?) ==> FetchMedia(s, result).mediaList == s.mediaList
  {
  }

  /** Every transition of the hook keeps the display a subsequence of the canonical list. */
  lemma TransitionsKeepConsistent(s: HookState, list: seq<MediaItem>, t: string, keyword: string, result: FindAllResult)
    requires Consistent(s)
    ensures Consistent(SetMediaList(s, list)) && Consistent(SelectType(s, t))
    ensures Consistent(Search(s, keyword)) && Consistent(FetchMedia(s, result))
    ensures |FetchMedia(s, result).filtered| <= |FetchMedia(s, result).mediaList|
  {
    var r := FetchMedia(s, result);
    SubsequenceLength(r.filtered, r.mediaList);
  }
}
