/**
 * Logic the media-library pages share, each page carrying its own copy of it in
 * the source: the MIME filter menu, the detail viewer's index (how it is looked
 * up, which item it shows, the previous/next buttons), and the removal of
 * deleted items from the list.
 *
 * The detail index is `undefined` while the viewer is closed. The buttons
 * compute `prev! - 1 >= 0` and `prev! + 1 < length`; on `undefined` both give
 * NaN, the test fails, and the index stays `undefined`.
 */
module PageLogic {
  import opened Js
  import opened Seqs
  import opened MediaItems
  import MediaFilters

  datatype MimeOption = MimeOption(name: string, mimeType: string)

  /** The type menu of the media pages, in menu order. */
  const SupportedMedia: seq<MimeOption> := [
    MimeOption("Tous les médias", "*/*"),
    MimeOption("Images", "image/*"),
    MimeOption("Sons", "audio/*"),
    MimeOption("Vidéos", "video/*"),
    MimeOption("Documents", "application/pdf"),
    MimeOption("Feuilles de calcul", "application/vnd.ms-excel"),
    MimeOption("Archives", "application/zip"),
    MimeOption("Textes", "text/*"),
    MimeOption("Non attachés", "none"),
    MimeOption("Les miens", "personal")
  ]

  /** The menu opens on "all media", whose filter passes the list through; the last two
      entries have no '/' and so select exactly the items whose type is that word. */
  lemma SupportedMediaFilters(list: seq<MediaItem>, item: MediaItem)
    ensures SupportedMedia[0].mimeType == MediaFilters.AllTypes
    ensures MediaFilters.FilterByType(list, SupportedMedia[0].mimeType) == list
    ensures MediaFilters.TypeMatches(SupportedMedia[8].mimeType, item) <==> item.mimeType == Present("none")
    ensures MediaFilters.TypeMatches(SupportedMedia[9].mimeType, item) <==> item.mimeType == Present("personal")
  {
    MediaFilters.FilterByTypeContents(list, MediaFilters.AllTypes);
    assert forall i :: 0 <= i < 4 ==> "none"[i] != '/';
    assert forall i :: 0 <= i < 8 ==> "personal"[i] != '/';
    MediaFilters.FilterWithoutSlashMatchesExactly("none", item);
    MediaFilters.FilterWithoutSlashMatchesExactly("personal", item);
  }

  // ---- The detail viewer ----

  /** `list.findIndex(it => it.id === id)`. */
  function FindIndex(list: seq<MediaItem>, id: int): (r: int)
    ensures -1 <= r < |list|
    ensures r == -1 <==> forall j :: 0 <= j < |list| ==> list[j].id != id
    ensures r >= 0 ==> list[r].id == id && forall j :: 0 <= j < r ==> list[j].id != id
  {
    if |list| == 0 then -1
    else if list[0].id == id then 0
    else
      var r := FindIndex(list[1..], id);
      if r == -1 then -1 else r + 1
  }

  /** `list[index || 0]`: index 0 and `undefined` both read the first item; an index
      outside the list reads `undefined`. */
  function DetailItem(list: seq<MediaItem>, index: Option<int>): (r: Nullable<MediaItem>)
    ensures r.Present? <==> var i := if index.Some? then index.value else 0; 0 <= i < |list|
    ensures index.Some? && 0 <= index.value < |list| ==> r == Present(list[index.value])
  {
    var i := if index.Some? then index.value else 0;
    if 0 <= i < |list| then Present(list[i]) else Undefined
  }

  predicate DetailOpen(index: Option<int>) { index.Some? }

  predicate PreviousDisabled(index: Option<int>) { index == Some(0) }

  predicate NextDisabled(index: Option<int>, length: nat) { index == Some(length - 1) }

  function PreviousIndex(index: Option<int>): Option<int> {
    match index
    case None => None
    case Some(i) => if i - 1 >= 0 then Some(i - 1) else Some(i)
  }

  function NextIndex(index: Option<int>, length: nat): Option<int> {
    match index
    case None => None
    case Some(i) => if i + 1 < length then Some(i + 1) else Some(i)
  }

  /** Within `[0, length)`, the buttons keep the index in range, move it by one exactly
      when they are enabled, and undo each other; a closed viewer stays closed. */
  lemma NavigationClamp(i: int, length: nat)
    requires 0 <= i < length
    ensures var p := PreviousIndex(Some(i)); p.Some? && 0 <= p.value < length
    ensures var n := NextIndex(Some(i), length); n.Some? && 0 <= n.value < length
    ensures PreviousIndex(Some(i)) == Some(i) <==> PreviousDisabled(Some(i))
    ensures NextIndex(Some(i), length) == Some(i) <==> NextDisabled(Some(i), length)
    ensures !PreviousDisabled(Some(i)) ==> NextIndex(PreviousIndex(Some(i)), length) == Some(i)
    ensures !NextDisabled(Some(i), length) ==> PreviousIndex(NextIndex(Some(i), length)) == Some(i)
    ensures PreviousIndex(None) == None && NextIndex(None, length) == None
  {
  }

  /** Outside `[0, length)` "next" is enabled but never moves: an index at or past the
      end stays where it is. */
  lemma NextStuckPastEnd(i: int, length: nat)
    requires i >= length
    ensures !NextDisabled(Some(i), length)
    ensures NextIndex(Some(i), length) == Some(i)
  {
  }

  // ---- Removal of deleted items ----

  function KeepFilter(ids: seq<int>): MediaItem -> bool {
    (item: MediaItem) => item.id !in ids
  }

  /** `list.filter(item => !ids.includes(item.id))`. */
  function RemoveItems(list: seq<MediaItem>, ids: seq<int>): (r: seq<MediaItem>)
    ensures forall i :: 0 <= i < |r| ==> r[i] in list && r[i].id !in ids
    ensures forall i :: 0 <= i < |list| && list[i].id !in ids ==> list[i] in r
  {
    Filter(list, KeepFilter(ids))
  }

  /** Removal keeps the survivors in order, and removes nothing when no id is given. */
  lemma RemoveItemsKeepsOrder(list: seq<MediaItem>, ids: seq<int>)
    ensures IsSubsequence(RemoveItems(list, ids), list)
    ensures |ids| == 0 ==> RemoveItems(list, ids) == list
  {
    FilterIsSubsequence(list, KeepFilter(ids));
    if |ids| == 0 {
      FilterAll(list, KeepFilter(ids));
    }
  }

  /** `(ids = selectedMedia) => [...ids]`: the ids to delete, the selection by default. */
  function DeletionIds(selected: seq<int>, ids: Option<seq<int>>): (r: seq<int>)
    ensures ids.None? ==> r == selected
    ensures ids.Some? ==> r == ids.value
  {
    if ids.Some? then ids.value else selected
  }
}
