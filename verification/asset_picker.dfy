/**
 * `AssetPickerComponent`: a `useMediaList` hook opened on the accepted type, a
 * grid that is always in selection mode, an uploader that appends to the list,
 * and the call-to-action that hands the selected items to the caller.
 *
 * The picker passes `multipleSelection={false}` to the grid, which has no such
 * prop: several items can be selected and emitted whatever `multiple` says.
 */
module AssetPicker {
  import opened Js
  import opened Seqs
  import opened MediaItems
  import opened MediaDtos
  import MediaFilters
  import MediaListHook
  import GridView
  import PageLogic

  /** `accept`'s default. */
  const DefaultAccept: string := "image/*"

  /** `mimeSelectionList`'s default: the images entry alone. */
  const DefaultMimeSelection: seq<PageLogic.MimeOption> := [PageLogic.MimeOption("Images", "image/*")]

  /** `accept ?? mimeSelectionList[0].mimeType` after default-parameter resolution. The
      defaults apply to `undefined` only; a `null` list, or an empty one, makes the
      fallback throw, which is `None` here. */
  function InitialType(accept: Nullable<string>, mimeSelectionList: Nullable<seq<PageLogic.MimeOption>>): (r: Option<string>)
    ensures accept.Undefined? ==> r == Some(DefaultAccept)
    ensures accept.Present? ==> r == Some(accept.value)
    ensures accept.Null? && mimeSelectionList.Undefined? ==> r == Some(DefaultMimeSelection[0].mimeType)
    ensures accept.Null? && mimeSelectionList.Present? && |mimeSelectionList.value| > 0 ==>
      r == Some(mimeSelectionList.value[0].mimeType)
    ensures r.None? <==>
      (accept.Null? && (mimeSelectionList.Null? || (mimeSelectionList.Present? && |mimeSelectionList.value| == 0)))
  {
    match accept
    case Undefined => Some(DefaultAccept)
    case Present(a) => Some(a)
    case Null =>
      match mimeSelectionList
      case Undefined => Some(DefaultMimeSelection[0].mimeType)
      case Null => None
      case Present(list) => if |list| > 0 then Some(list[0].mimeType) else None
  }

  /** With its props left out the picker opens on the images filter, the same as the
      first entry of its default type menu. */
  lemma DefaultsOpenOnImages(m: Nullable<seq<PageLogic.MimeOption>>)
    ensures InitialType(Undefined, m) == Some(MediaFilters.ImagesFilter)
    ensures InitialType(Null, Undefined) == InitialType(Undefined, m)
  {
  }

  datatype PickerState = PickerState(media: MediaListHook.HookState, selected: seq<int>, uploadDate: Option<int>)

  function Init(initialType: string): (s: PickerState)
    ensures s.media == MediaListHook.Init(initialType)
    ensures s.selected == [] && s.uploadDate == Some(-1)
  {
    PickerState(MediaListHook.Init(initialType), [], Some(-1))
  }

  /** A click on a tile's overlay: the grid is in selection mode, so the click toggles the
      tile's id and the grid reports the new selection, which the picker adopts. */
  function TileClick(s: PickerState, index: nat): (r: PickerState)
    requires index < |s.media.filtered|
    ensures forall x :: x in r.selected <==> (x in s.selected <==> x != s.media.filtered[index].id)
    ensures r.media == s.media
  {
    var e := GridView.Click(s.media.filtered, true, GridView.GridState(s.selected), index, true);
    s.(selected := e.reported.value)
  }

  /** The call-to-action is enabled while something is selected. */
  predicate CtaEnabled(s: PickerState) { |s.selected| > 0 }

  function SelectedFilter(selected: seq<int>): MediaItem -> bool {
    (it: MediaItem) => it.id in selected
  }

  /** The call-to-action: `mediaList.filter(it => selectedMedia.includes(it.id))`, when
      enabled. */
  function Emitted(s: PickerState): (r: Option<seq<MediaItem>>)
    ensures r.Some? <==> CtaEnabled(s)
    ensures r.Some? ==> forall i :: 0 <= i < |r.value| ==> r.value[i] in s.media.mediaList && r.value[i].id in s.selected
    ensures r.Some? ==> forall i :: 0 <= i < |s.media.mediaList| && s.media.mediaList[i].id in s.selected ==>
      s.media.mediaList[i] in r.value
  {
    if CtaEnabled(s) then Some(Filter(s.media.mediaList, SelectedFilter(s.selected))) else None
  }

  /** The items are emitted in the list's order, not in the order they were selected, and
      items the current display hides are emitted too. */
  lemma EmitsInListOrder(s: PickerState)
    requires CtaEnabled(s)
    ensures IsSubsequence(Emitted(s).value, s.media.mediaList)
  {
    FilterIsSubsequence(s.media.mediaList, SelectedFilter(s.selected));
  }

  /** Selecting b and then a, over the list [a, b], emits [a, b]. */
  lemma SelectionOrderIgnored(a: MediaItem, b: MediaItem, s: PickerState)
    requires a.id != b.id && s.media.mediaList == [a, b] && s.selected == [b.id, a.id]
    ensures Emitted(s) == Some([a, b])
  {
    var p := SelectedFilter(s.selected);
    assert p(a) && p(b);
    assert [a, b][1..] == [b] && [b][1..] == [];
    assert Filter([b], p) == [b];
    assert Filter([a, b], p) == [a] + [b];
    assert [a] + [b] == [a, b];
    assert Emitted(s) == Some(Filter([a, b], p));
  }

  /** Two clicks on two distinct tiles select both, and the call-to-action then emits both
      items, though the grid was asked for a single selection. */
  lemma SeveralItemsSelectable(s: PickerState, i: nat, j: nat)
    requires i < |s.media.filtered| && j < |s.media.filtered|
    requires s.selected == [] && s.media.filtered[i].id != s.media.filtered[j].id
    requires MediaListHook.Consistent(s.media)
    ensures var r := TileClick(TileClick(s, i), j);
      CtaEnabled(r) && s.media.filtered[i] in Emitted(r).value && s.media.filtered[j] in Emitted(r).value
  {
    var r := TileClick(TileClick(s, i), j);
    SubsequenceMembers(s.media.filtered, s.media.mediaList);
    var a := s.media.filtered[i];
    var b := s.media.filtered[j];
    assert a in s.media.mediaList && b in s.media.mediaList;
    var k :| 0 <= k < |s.media.mediaList| && s.media.mediaList[k] == a;
    var l :| 0 <= l < |s.media.mediaList| && s.media.mediaList[l] == b;
    assert a.id in r.selected && b.id in r.selected;
  }

  /** The uploader's `onSuccess`: the mapped item is appended to the list, which the hook
      then recomputes. */
  function Uploaded(s: PickerState, dto: MediaDto, parse: string -> Option<int>): (r: PickerState)
    ensures r.media.mediaList == s.media.mediaList + [ToMediaItem(dto, parse)]
    ensures r.selected == s.selected && MediaListHook.Consistent(r.media)
  {
    s.(media := MediaListHook.SetMediaList(s.media, s.media.mediaList + [ToMediaItem(dto, parse)]))
  }

  /** Under a type filter, the uploaded item is displayed, last, exactly when it matches
      the type; the rest of the display is what it was for the list before. */
  lemma UploadShownIffAccepted(s: PickerState, dto: MediaDto, parse: string -> Option<int>)
    requires s.media.selectedType != MediaFilters.AllTypes
    ensures var item := ToMediaItem(dto, parse);
      Uploaded(s, dto, parse).media.filtered ==
        MediaFilters.FilterByType(s.media.mediaList, s.media.selectedType)
        + (if MediaFilters.TypeMatches(s.media.selectedType, item) then [item] else [])
  {
    var item := ToMediaItem(dto, parse);
    FilterAppendOne(s.media.mediaList, item, MediaFilters.TypeFilter(s.media.selectedType));
  }

  /** The date effect: the first entry of the date menu is selected whenever the menu has
      one. The menu itself (`getDistinctDatesByDay`) is not part of this model and is
      given as `dates`. */
  function DatesEffect(s: PickerState, dates: seq<Option<int>>): (r: PickerState)
    ensures |dates| > 0 ==> r.uploadDate == dates[0]
    ensures |dates| == 0 ==> r == s
    ensures r.(uploadDate := s.uploadDate) == s
  {
    if |dates| > 0 then s.(uploadDate := dates[0]) else s
  }
}
