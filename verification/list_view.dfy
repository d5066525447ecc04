/**
 * The table view of the media list: pagination over the items, the selection
 * with its select-all header, and the grouped-action button.
 *
 * `slice` follows JavaScript: a negative bound counts from the end and bounds
 * are clamped to the list. Pressing "next" on an empty list sets the page to
 * `Math.min(2, 0) = 0`, and page 0 is the slice from `-k` to 0, which is empty.
 */
module ListView {
  import opened Js
  import opened Seqs
  import opened MediaItems
  import Selection

  const DefaultItemsPerPage: nat := 5
  /** The value of the "Actions groupées" placeholder option. */
  const NoAction: string := "0"

  /** `Math.ceil(n / k)`. */
  function TotalPages(n: nat, k: nat): (t: nat)
    requires k > 0
    ensures t * k >= n
    ensures t > 0 ==> (t - 1) * k < n
    ensures t == 0 <==> n == 0
  {
    if n == 0 then 0 else 1 + TotalPages(if n <= k then 0 else n - k, k)
  }

  /** The position a `slice` bound denotes in a list of length `n`. */
  function SliceIndex(i: int, n: nat): (r: nat)
    ensures r <= n
    ensures 0 <= i <= n ==> r == i
  {
    if i < 0 then (if n + i < 0 then 0 else n + i) else if i > n then n else i
  }

  /** `xs.slice(start, end)`. */
  function Slice<T>(xs: seq<T>, start: int, end: int): seq<T> {
    var a := SliceIndex(start, |xs|);
    var b := SliceIndex(end, |xs|);
    if a < b then xs[a..b] else []
  }

  /** `paginatedItems`: `items.slice((p - 1) * k, p * k)`. */
  function Page<T>(items: seq<T>, p: int, k: nat): seq<T> {
    Slice(items, (p - 1) * k, p * k)
  }

  function Min(a: int, b: int): int { if a < b then a else b }

  /** A page within range is the stretch of the list it names: at most `k` items, in list
      order, and non-empty. */
  lemma PageInRange<T>(items: seq<T>, p: int, k: nat)
    requires k > 0 && 1 <= p <= TotalPages(|items|, k)
    ensures (p - 1) * k < |items|
    ensures Page(items, p, k) == items[(p - 1) * k .. Min(p * k, |items|)]
    ensures 0 < |Page(items, p, k)| <= k
    ensures p < TotalPages(|items|, k) ==> |Page(items, p, k)| == k
  {
    var t := TotalPages(|items|, k);
    var n := |items|;
    var lo := (p - 1) * k;
    var hi := p * k;
    assert hi == lo + k;
    assert 0 <= lo;
    assert lo < n by {
      MultiplyMonotonic(p - 1, t - 1, k);
    }
    assert SliceIndex(lo, n) == lo;
    assert SliceIndex(hi, n) == Min(hi, n);
    assert Page(items, p, k) == items[lo .. Min(hi, n)];
    if p < t {
      assert hi <= n by {
        MultiplyMonotonic(p, t - 1, k);
      }
    }
  }

  lemma MultiplyMonotonic(a: int, b: int, k: nat)
    requires a <= b
    ensures a * k <= b * k
  {
  }

  /** A page past the last one, as after items were deleted from the last page, is empty. */
  lemma PageBeyondLastIsEmpty<T>(items: seq<T>, p: int, k: nat)
    requires k > 0 && p > TotalPages(|items|, k)
    ensures Page(items, p, k) == []
  {
    MultiplyMonotonic(TotalPages(|items|, k), p - 1, k);
  }

  /** The pages from 1 to `q`, one after the other. */
  function PagesUpTo<T>(items: seq<T>, q: nat, k: nat): seq<T> {
    if q == 0 then [] else PagesUpTo(items, q - 1, k) + Page(items, q, k)
  }

  /** The first `q` pages together are the first `q * k` items. */
  lemma {:induction false} PagesUpToPrefix<T>(items: seq<T>, q: nat, k: nat)
    requires k > 0 && q <= TotalPages(|items|, k)
    ensures PagesUpTo(items, q, k) == items[..Min(q * k, |items|)]
    decreases q
  {
    if q > 0 {
      PagesUpToPrefix(items, q - 1, k);
      PageInRange(items, q, k);
      assert (q - 1) * k == q * k - k;
      assert items[..Min(q * k, |items|)] == items[..(q - 1) * k] + items[(q - 1) * k .. Min(q * k, |items|)];
    }
  }

  /** The pages, in order, cover the list exactly once. */
  lemma PagesCoverList<T>(items: seq<T>, k: nat)
    requires k > 0
    ensures PagesUpTo(items, TotalPages(|items|, k), k) == items
  {
    PagesUpToPrefix(items, TotalPages(|items|, k), k);
  }

  /** With the default page size, 12 items make 3 pages and the last holds 2. */
  lemma TwelveItemsExample<T>(items: seq<T>)
    requires |items| == 12
    ensures TotalPages(12, DefaultItemsPerPage) == 3
    ensures Page(items, 3, DefaultItemsPerPage) == items[10..12]
  {
    assert TotalPages(2, 5) == 1;
    assert TotalPages(7, 5) == 2;
  }

  // ---- Page navigation ----

  /** The « button: `Math.max(prev - 1, 1)`. */
  function Previous(p: int): int { if p - 1 > 1 then p - 1 else 1 }

  /** The » button: `Math.min(prev + 1, totalPages)`. */
  function Next(p: int, total: nat): int { if p + 1 < total then p + 1 else total }

  predicate PreviousDisabled(p: int) { p == 1 }
  predicate NextDisabled(p: int, total: nat) { p == total }

  /** From a page in range both buttons stay in range; each moves by one page unless it
      is disabled, and they undo each other. */
  lemma NavigationStaysInRange(p: int, total: nat)
    requires 1 <= p <= total
    ensures 1 <= Previous(p) <= total && 1 <= Next(p, total) <= total
    ensures PreviousDisabled(p) <==> Previous(p) == p
    ensures NextDisabled(p, total) <==> Next(p, total) == p
    ensures !PreviousDisabled(p) ==> Previous(p) == p - 1 && Next(Previous(p), total) == p
    ensures !NextDisabled(p, total) ==> Next(p, total) == p + 1 && Previous(Next(p, total)) == p
  {
  }

  /** On an empty list "next" is enabled on page 1 and leads to page 0, whose slice is
      empty; "previous" then leads back to page 1. */
  lemma NextOnEmptyList<T>(items: seq<T>, k: nat)
    requires k > 0 && |items| == 0
    ensures TotalPages(|items|, k) == 0 && !NextDisabled(1, 0)
    ensures Next(1, 0) == 0 && Page(items, 0, k) == []
    ensures Previous(0) == 1
  {
  }

  // ---- Component state ----

  datatype ListState = ListState(currentPage: int, selected: seq<int>, option: string)

  function Init(): ListState {
    ListState(1, [], NoAction)
  }

  function PageIds(items: seq<MediaItem>, s: ListState, k: nat): (ids: seq<int>)
    ensures |ids| == |Page(items, s.currentPage, k)|
    ensures forall i :: 0 <= i < |ids| ==> ids[i] == Page(items, s.currentPage, k)[i].id
  {
    Ids(Page(items, s.currentPage, k))
  }

  function Ids(items: seq<MediaItem>): (ids: seq<int>)
    ensures |ids| == |items|
    ensures forall i :: 0 <= i < |items| ==> ids[i] == items[i].id
  {
    if |items| == 0 then [] else [items[0].id] + Ids(items[1..])
  }

  /** The result of a selection change: the new state and the selection reported to
      `onSelectedItemsIdsChanged`. */
  datatype Change = Change(state: ListState, reported: seq<int>)

  /** A row checkbox. */
  function ToggleRow(s: ListState, id: int): (c: Change)
    ensures c.reported == c.state.selected
    ensures c.state == s.(selected := Selection.Toggle(s.selected, id))
  {
    var updated := Selection.Toggle(s.selected, id);
    Change(s.(selected := updated), updated)
  }

  /** The header checkbox. */
  function ToggleAll(items: seq<MediaItem>, s: ListState, k: nat): (c: Change)
    ensures c.reported == c.state.selected
    ensures c.state.currentPage == s.currentPage && c.state.option == s.option
    ensures Selection.HeaderChecked(s.selected, PageIds(items, s, k)) ==> c.state.selected == []
    ensures !Selection.HeaderChecked(s.selected, PageIds(items, s, k)) ==>
      c.state.selected == PageIds(items, s, k)
  {
    var updated := Selection.ToggleSelectAll(s.selected, PageIds(items, s, k));
    Change(s.(selected := updated), updated)
  }

  /** The sync effect on a new `selectedItemIds` prop. */
  function SyncSelection(s: ListState, external: seq<int>): (r: ListState)
    ensures r.currentPage == s.currentPage && r.option == s.option
    ensures r.selected == s.selected || r.selected == external
  {
    s.(selected := Selection.Sync(s.selected, external))
  }

  /** The "Appliquer" button is enabled iff some id is selected and an action other than
      the placeholder is chosen; a click emits the selection. */
  predicate ApplyEnabled(s: ListState) {
    |s.selected| > 0 && s.option != NoAction
  }

  function Apply(s: ListState): (emitted: Option<seq<int>>)
    ensures emitted.Some? <==> |s.selected| > 0 && s.option != NoAction
    ensures emitted.Some? ==> emitted.value == s.selected
  {
    if ApplyEnabled(s) then Some(s.selected) else None
  }

  /** A row's "Supprimer définitivement" emits that row's id alone. */
  function DeleteRow(item: MediaItem): (ids: seq<int>)
    ensures |ids| == 1 && ids[0] == item.id
  {
    [item.id]
  }

  /** The starting state: page 1, nothing selected, the placeholder action, so "Appliquer"
      is disabled. */
  lemma InitialState()
    ensures Init().currentPage == 1 && Init().selected == []
    ensures !ApplyEnabled(Init())
  {
  }
}
