# Media library core, modelled in Dafny

This project models the logic of a React media library (a "médiathèque"). The
library lists uploaded media items, filters them by MIME type and by name, pages
and selects them, shows one item in a detail viewer whose metadata can be
edited, deletes items after a typed confirmation, and hands a selection to the
caller through an asset picker. Every component is modelled as pure functions
over immutable state. React's `setState` followed by the effects it triggers is
one function application. Each operation comes with contracts and lemmas about
what it does.

The modules follow the source files:

- `Js`: the JavaScript values the code relies on. It covers `undefined`/`null`/present values, truthiness, `trim`, `includes` and `split`.
- `Seqs`: `filter`, subsequences and removal, used throughout.
- `MediaItems` (`MediaItem.ts`): the item record and `mediaItemDiffered`.
- `MediaDtos` (`MediaDto.ts`): the server record and its mapping to an item.
- `Functions` (`functions.ts`): the blankness tests and `readableSize`.
- `Utils` (`Utils.ts`): `newJSONBlob` and its numeric-string pattern.
- `ApiRoutes` (`ApiRoutes.ts`): the routes and `getUrl`.
- `Client` (`client.ts`): `fetcher` and `makeHttpRequest`, over a transport outcome that is given as a parameter.
- `MediaFilters`: the type filter and the name search shared by every page.
- `MediaListHook` (`useMediaList`): the hook that the newest library page and the picker use.
- `LocalList`: the list state of the two older pages, which keep it themselves.
- `Selection`: the row and tile selection of the list and grid components.
- `ListView`, `GridView`, `MediaRenderer`, `ItemCard`, `Tabs`, `ConfirmModal` and `DetailsModal`: the components of those names.
- `PageLogic`: the type menu, the detail viewer's index, and removal of deleted items.
- `ManagerPage`, `ManagerPageLegacy` and `ManagerPageV1`: the three library pages.
- `AssetPicker`: the picker.

The following are parameters of the model rather than part of it:

- The server's answers: a `Transport` outcome, or the result of `findAll`.
- `Date.parse`: a function from text to an optional instant.
- The configured base URL: a `Nullable<string>`.

Where the code and its written description disagree, the model follows the code:

- The list's select-all checkbox clears the whole selection, not only the page's ids.
- The confirmation modal's cancel button keeps the typed text.
- The picker's grid ignores `multipleSelection`, so several items can be selected.
- The two older pages display a new list whole, whatever type is selected.
- The grid renders PDFs as file cards.

## Model

| member | source | states |
|---|---|---|
| MediaItems.DifferedIffSomeTrackedKeyChanged | src/app/domain/dto/MediaItem.ts:39-51 | The diff holds exactly when one of the eleven keys other than `id` changed, in both the as-written and the corrected version. |
| MediaItems.TrackedChangeWitness | src/app/domain/dto/MediaItem.ts:39-51 | The eleven-way disjunction holds iff some tracked key's values changed, for any date comparison. |
| MediaItems.BlankValuesNeverChange | src/app/domain/dto/MediaItem.ts:30-33 | Two values that are each null, undefined or whitespace-only never count as a change. |
| MediaItems.DatesCompareByInstant | src/app/domain/dto/MediaItem.ts:26-28 | Two valid dates count as changed iff their instants differ, under both date comparisons. |
| MediaItems.LeadingSpaceIsAChange | src/app/domain/dto/MediaItem.ts:36 | Non-blank strings compare strictly: "a" and " a" are a change. |
| MediaItems.BlankComparisons | src/app/domain/dto/MediaItem.ts:30-36 | `undefined` and a whitespace string are the same blank value; the number 0 is not blank and differs from `undefined`. |
| MediaItems.SameValueUnchanged | src/app/domain/dto/MediaItem.ts:21-37 | A value compared with itself is unchanged, unless it is a date the comparison calls different from itself. |
| MediaItems.ComparisonsAgree | src/app/domain/dto/MediaItem.ts:26-28 | The as-written and corrected date comparisons give the same verdict whenever no invalid date is involved. |
| MediaItems.DifferedSymmetric | src/app/domain/dto/MediaItem.ts:20-52 | The diff does not depend on the order of its two arguments. |
| MediaItems.ValuesChangedSymmetric | src/app/domain/dto/MediaItem.ts:21-37 | Each per-key comparison is symmetric. |
| MediaItems.DifferedAsWrittenIrreflexiveOnValidDates | src/app/domain/dto/MediaItem.ts:20-52 | As written, an item whose date is absent or valid does not differ from itself. |
| MediaItems.InvalidDateDiffersFromItself | src/app/domain/dto/MediaItem.ts:26-27 | As written, an item whose upload date is an Invalid Date differs from itself. |
| MediaItems.DifferedIrreflexive | src/app/domain/dto/MediaItem.ts:20-52 | The corrected diff never reports a difference between an item and itself. |
| MediaItems.DiffersAgreeOnValidDates | src/app/domain/dto/MediaItem.ts:20-52 | When neither date is invalid, the two diffs agree. |
| MediaItems.IdIsNotTracked | src/app/domain/dto/MediaItem.ts:39-51 | Changing only the id is never a difference. |
| MediaItems.SingleKeyChange | src/app/domain/dto/MediaItem.ts:39-51 | When two items agree on every tracked key but one, the diff is exactly that key's comparison. |
| MediaDtos.ToMediaItemProperties | src/app/domain/dto/MediaDto.ts:18-23 | Every property but the upload date is copied unchanged. The upload date is always a date, valid exactly when the text parses, and then at the parsed instant. |
| MediaDtos.ToMediaItemInjectiveOffDate | src/app/domain/dto/MediaDto.ts:19-20 | Records with the same date text map to equal items iff they are equal. |
| MediaDtos.MissingDateMakesItemDifferFromItself | src/app/domain/dto/MediaDto.ts:21 | A record without a date maps to an item that the as-written diff reports as differing from itself, and the corrected diff does not. |
| MediaDtos.ToMediaItems | src/app/domain/dto/MediaDto.ts:18-23 | Mapping a list maps each record in place, keeping the length. |
| MediaDtos.ToMediaItemsKeepsIds | src/app/domain/dto/MediaDto.ts:19-20 | The mapped list keeps every id in the server's order. |
| Functions.BlankIffNullishOrWhitespace | src/app/domain/utils/functions.ts:15-17 | A value is blank iff it is null, undefined, or a string made only of whitespace. |
| Functions.NumbersAndDatesNeverBlank | src/app/domain/utils/functions.ts:15-17 | Numbers, zero included, and dates are never blank. |
| Functions.EmptyImpliesBlank | src/app/domain/utils/functions.ts:10-17 | Whatever `isNullOrEmpty` accepts is blank; " " is blank but not empty. |
| Functions.NullIsNotNullOrEmpty | src/app/domain/utils/functions.ts:6-12 | `null` is nullish, yet `isNullOrEmpty` rejects it. |
| Functions.NatToString | src/app/domain/utils/functions.ts:27 | The decimal text of a size is non-empty, all digits, and has no leading zero. |
| Functions.NatToStringRoundTrip | src/app/domain/utils/functions.ts:27 | The decimal text reads back as the number it was printed from. |
| Functions.ReadableSizeUnits | src/app/domain/utils/functions.ts:20-28 | The exact form, the byte count followed by " Octets", is used iff the size is at most 1024. Otherwise the size is divided by the largest power of 1024 it strictly exceeds, with the matching suffix, so the quotient is above 1 and, below "Go", at most 1024. |
| Functions.ReadableSize1024 | src/app/domain/utils/functions.ts:21-27 | Exactly 1024 bytes is written "1024 Octets". |
| Functions.UnitRankMonotonic | src/app/domain/utils/functions.ts:20-28 | A larger size never gets a smaller unit. |
| Utils.DigitRunEnd | src/app/domain/utils/Utils.ts:5 | The scan of a `\d+` run stops at the first non-digit or at the end. |
| Utils.DigitRunEndUnique | src/app/domain/utils/Utils.ts:5 | Any position satisfying the stopping rule is the one the scan finds. |
| Utils.DigitsSlice | src/app/domain/utils/Utils.ts:5 | A slice matches `\d+` iff it is non-empty and all digits. |
| Utils.NumericStringIsPattern | src/app/domain/utils/Utils.ts:3-6 | Soundness: a string the scan accepts splits into sign, integer digits, fraction and exponent. |
| Utils.SignEndOfDecomposition | src/app/domain/utils/Utils.ts:5 | In any split of a numeric string, the sign part ends where the scan says it does. |
| Utils.IntegerEndOfDecomposition | src/app/domain/utils/Utils.ts:5 | In any split, the integer part ends where the scan says it does. |
| Utils.FractionEndOfDecomposition | src/app/domain/utils/Utils.ts:5 | In any split, the fraction part ends where the scan says it does. |
| Utils.ExponentEndOfDecomposition | src/app/domain/utils/Utils.ts:5 | In any split, the exponent part ends where the scan says it does. |
| Utils.PatternIsNumericString | src/app/domain/utils/Utils.ts:3-6 | Completeness: every string that splits into the pattern's parts is accepted. |
| Utils.NumericStringIffPattern | src/app/domain/utils/Utils.ts:3-6 | The scan accepts exactly the strings matching `^-?\d+(\.\d+)?(e[-+]?\d+)?$` under the `i` flag. |
| Utils.NumericStringAccepts | src/app/domain/utils/Utils.ts:5 | "1E5" and "-2.5e-3" are numeric: either letter case, signed exponent. |
| Utils.NegativeExponentExample | src/app/domain/utils/Utils.ts:5 | "-2.5e-3" is numeric. |
| Utils.NumericStringRejects | src/app/domain/utils/Utils.ts:5 | ".5", "1.", "+1" and "" are not numeric. |
| Utils.EscapeStringIdentity | src/app/domain/utils/Utils.ts:14 | `JSON.stringify` leaves a string with nothing to escape unchanged between its quotes. |
| Utils.NumericCharacters | src/app/domain/utils/Utils.ts:5 | A numeric string holds only digits, '-', '+', '.', 'e' and 'E'. |
| Utils.NewJsonBlobContents | src/app/domain/utils/Utils.ts:2-17 | Non-numeric strings go out as they are in a `text/plain` blob. Numeric strings go out quoted, and other values as their JSON, both in an `application/json` blob. |
| ApiRoutes.GetUrl | src/app/domain/http/ApiRoutes.ts:10-12 | The URL is the base URL text followed by the path, with nothing between. |
| ApiRoutes.ViewRoundTrip | src/app/domain/http/ApiRoutes.ts:4 | A route names path `p` under the view prefix exactly when it is `view(p)`. |
| ApiRoutes.RoutesUnderFilesRoute | src/app/domain/http/ApiRoutes.ts:3-6 | Every route starts with "/data/files". The four fixed routes are distinct, and no view route equals any of them. |
| ApiRoutes.UpdateMediaAsWrittenLosesSeparator | src/app/domain/http/ApiRoutes.ts:7 | As written, the update route has no leading '/', so it is glued to the host: "http://hdata/files/update". |
| ApiRoutes.RoutesJoinWithSeparator | src/app/domain/http/ApiRoutes.ts:3-12 | With the corrected update route, every route joined to a base URL gives the base followed by "/data/files". |
| Client.BuildRequest | src/app/domain/http/client/client.ts:7-20 | The request goes to the base URL plus the route. The method defaults to "get" when nullish, the headers to none, and the payload is passed through. |
| Client.Fetch | src/app/domain/http/client/client.ts:13-37 | The result resolves iff the transport delivered, and then to the body. A failure with a server response becomes an `ApiError` with the fixed message; any other failure is rethrown. |
| Client.CatchProperties | src/app/domain/http/client/client.ts:51-55 | The catch block keeps the events before it and never resolves to data. It resolves to `undefined` iff `throwOnError` exists and `onError` did not throw. |
| Client.ReturnedIsRawResponse | src/app/domain/http/client/client.ts:49-50 | A resolved request carries the body the server sent, whatever `onTransform` returned. |
| Client.LoadingComesFirst | src/app/domain/http/client/client.ts:47-48 | `onLoading` runs first. Without it, the request is the first event. |
| Client.AfterSentKeepsPrefix | src/app/domain/http/client/client.ts:46-50 | Once sent, the run extends the events so far followed by the request. |
| Client.NoTransformWithoutResponse | src/app/domain/http/client/client.ts:49 | Without `onResponse`, `onTransform` is never invoked, and a delivered response resolves to its body. |
| Client.FailuresRethrownByDefault | src/app/domain/http/client/client.ts:54 | Without `throwOnError`, the request never resolves to `undefined`, and a failed transport is rethrown. |
| Client.SilentRequest | src/app/domain/http/client/client.ts:41-56 | Under callbacks that never throw and a `throwOnError` that says no, the request resolves iff delivered, with exactly the events of that outcome. |
| MediaFilters.NullishTypeNeverMatches | src/app/components/assetPicker/components.tsx:44-48 | An item without a MIME type matches no filter. |
| MediaFilters.TypeMatchesStructured | src/app/components/assetPicker/components.tsx:45-47 | For "a/b" types, filter "t/st" matches iff t = a and st is "*" or b. |
| MediaFilters.FilterWithoutSlashMatchesExactly | src/app/components/assetPicker/components.tsx:45-47 | A filter without '/' matches exactly the items of that very MIME type. |
| MediaFilters.WildcardSubtypeMatchesByType | src/app/components/assetPicker/components.tsx:45-47 | "t/*" matches every MIME type whose first segment is t. |
| MediaFilters.TypeMatchIsCaseSensitive | src/app/components/assetPicker/components.tsx:47 | "IMAGE/png" does not match "image/*". |
| MediaFilters.FilterByTypeContents | src/app/components/assetPicker/components.tsx:35-51 | The type filter keeps, in order, exactly the matching items. "*/*" keeps all, and an empty list gives nothing. |
| MediaFilters.SearchByNameContents | src/app/components/assetPicker/components.tsx:30-33 | The search keeps, in order, exactly the items whose name contains the keyword. |
| MediaFilters.EmptySearchKeepsAll | src/app/components/assetPicker/components.tsx:31 | The empty keyword keeps every item. |
| MediaListHook.Init | src/app/components/assetPicker/components.tsx:21-26 | The hook starts empty on the initial type, with no loader and no error, and consistent. |
| MediaListHook.Recompute | src/app/components/assetPicker/components.tsx:35-51 | The type effect changes only the display and keeps it a subsequence of the list. |
| MediaListHook.SetMediaList | src/app/components/assetPicker/components.tsx:66-68 | A new list is stored, the type and flags are kept, and the display stays consistent. |
| MediaListHook.SelectType | src/app/components/assetPicker/components.tsx:66-68 | Selecting a type records it and keeps the list and flags. A new type displays its filter of the list. The type already selected changes nothing, since React skips the effect when its dependencies are unchanged. |
| MediaListHook.ReselectKeepsSearch | src/app/components/assetPicker/components.tsx:66-68 | Re-selecting the current type keeps a search on display. Another type discards the search and displays that type's filter of the list. |
| MediaListHook.Search | src/app/components/assetPicker/components.tsx:30-33 | The search changes only the display, consistently. |
| MediaListHook.FetchStarted | src/app/components/assetPicker/components.tsx:54-55 | A fetch raises the loader and clears the error, changing nothing else. |
| MediaListHook.FetchFinished | src/app/components/assetPicker/components.tsx:56-63 | The loader goes down and a truthy result replaces the list. The error flag is raised iff the request threw; a null result changes nothing. |
| MediaListHook.SearchIgnoresType | src/app/components/assetPicker/components.tsx:30-33 | The search ignores the selected type and keeps exactly the items whose name contains the keyword. |
| MediaListHook.EmptySearchShowsAll | src/app/components/assetPicker/components.tsx:31 | The empty keyword shows the whole list. |
| MediaListHook.RecomputeGuards | src/app/components/assetPicker/components.tsx:36-43 | An empty list shows nothing; "*/*" shows the whole list. |
| MediaListHook.ListChangeDiscardsSearch | src/app/components/assetPicker/components.tsx:66-68 | After a list change the display depends only on the new list and the type, not on a previous search. |
| MediaListHook.FetchFlags | src/app/components/assetPicker/components.tsx:53-64 | After a fetch the loader is down, and the error flag is up iff the request threw. |
| MediaListHook.TransitionsKeepConsistent | src/app/components/assetPicker/components.tsx:21-68 | Every transition keeps the display a subsequence of the list. |
| LocalList.Init | src/app/components/AssetsManagerComponent2.tsx:32-40 | The page opens empty on "*/*" with no loader, consistent. |
| LocalList.SetMediaList | src/app/components/AssetsManagerComponent2.tsx:167-169 | A new list is displayed whole, whatever the type. |
| LocalList.SelectType | src/app/components/AssetsManagerComponent2.tsx:110-132 | On an empty list nothing is shown and the type is not recorded. Otherwise the type is recorded and exactly its matching items are shown. |
| LocalList.Search | src/app/components/AssetsManagerComponent2.tsx:105-108 | The display becomes exactly the items whose name contains the keyword. |
| LocalList.FetchMedia | src/app/components/AssetsManagerComponent2.tsx:135-149 | The loader ends down and a truthy result replaces and displays the list. Anything else leaves the list and display as they were. |
| LocalList.TransitionsKeepConsistent | src/app/components/AssetsManagerComponent2.tsx:105-169 | Every transition keeps the display a subsequence of the list. |
| LocalList.SelectTypeAgreesWithHook | src/app/components/AssetsManagerComponent2.tsx:110-132 | Selecting a type displays what the hook displays, unless the hook shows a search and the type is already selected. On an empty list only the hook records the type. |
| LocalList.ListChangeDropsTypeFilter | src/app/components/AssetsManagerComponent2.tsx:167-169 | A new list shows an item that the selected type excludes, which the hook would hide. |
| LocalList.FailedFetchIsSwallowed | src/app/components/AssetsManagerComponent2.tsx:143-148 | A failed or null fetch leaves nothing but the lowered loader. |
| LocalList.UploadDates | src/app/components/AssetsManagerComponent2.tsx:62-66 | The menu is defined iff every displayed item has a date. It then has one entry per displayed item, in order, each that item's instant. |
| LocalList.SelectedDateAfter | src/app/components/AssetsManagerComponent2.tsx:161-165 | The first menu entry is selected whenever there is one; otherwise the selection stays. |
| LocalList.UploadDatesKeepDuplicates | src/app/components/AssetsManagerComponent2.tsx:62-66 | Two items with the same instant give two equal entries, and the first is selected. |
| Selection.Toggle | src/app/components/MediaListComponent.tsx:54-63 | The id's membership flips and every other id keeps its membership; an absent id is appended. |
| Selection.ToggleKeepsOthers | src/app/components/MediaListComponent.tsx:56-59 | With the toggled id taken out, the selection is what it was, in order. |
| Selection.ToggleNoDuplicates | src/app/components/MediaListComponent.tsx:56-59 | Toggling keeps a duplicate-free selection duplicate-free and changes its length by one. |
| Selection.ToggleTwice | src/app/components/MediaListComponent.tsx:54-63 | Toggling twice restores the selection, or moves a selected id to the end; the set of ids is unchanged. |
| Selection.ToggleTwiceSelected | src/app/components/MediaListComponent.tsx:54-63 | Toggling a selected id twice moves it to the end. |
| Selection.ToggleSelectAll | src/app/components/MediaListComponent.tsx:43-52 | With the header checked the whole selection is cleared; otherwise it becomes the page's ids. |
| Selection.SelectAllComparesCountsOnly | src/app/components/MediaListComponent.tsx:45 | One id selected elsewhere checks a one-row page's header, and select-all then clears instead of selecting. |
| Selection.SelectAllThenClear | src/app/components/MediaListComponent.tsx:43-52 | Select-all checks the header, and a second click clears. |
| Selection.Sync | src/app/components/MediaListComponent.tsx:66-75 | The sync keeps the local selection or adopts the external one, and adopts it whenever they differ. |
| Selection.SyncAdoptsExternalIds | src/app/components/MediaListComponent.tsx:66-75 | For duplicate-free selections the test is set equality, and afterwards the ids are the external ones. |
| Selection.SyncMissesDuplicates | src/app/components/MediaListComponent.tsx:69-70 | [1, 1] is kept against [1, 2]. |
| Selection.RemoveAll | src/app/components/assetManager/AssetsManagerComponent2.tsx:116 | The selection keeps exactly the ids not being deleted. |
| Selection.RemoveAllKeepsOrder | src/app/components/assetManager/AssetsManagerComponent2.tsx:116 | The survivors keep their order, without new duplicates. |
| ListView.TotalPages | src/app/components/MediaListComponent.tsx:35 | The page count is the least t with t·k ≥ n. |
| ListView.SliceIndex | src/app/components/MediaListComponent.tsx:37-40 | A slice bound denotes a position within the list, itself when in range. |
| ListView.PageInRange | src/app/components/MediaListComponent.tsx:37-40 | Page p in range is the stretch [(p-1)k, min(pk, n)), non-empty, at most k long, and full unless it is the last. |
| ListView.MultiplyMonotonic | src/app/components/MediaListComponent.tsx:37-40 | Page bounds grow with the page number. |
| ListView.PageBeyondLastIsEmpty | src/app/components/MediaListComponent.tsx:37-40 | A page past the last is empty. |
| ListView.PagesUpToPrefix | src/app/components/MediaListComponent.tsx:35-40 | The first q pages together are the first q·k items. |
| ListView.PagesCoverList | src/app/components/MediaListComponent.tsx:35-40 | The pages, in order, cover the list exactly once. |
| ListView.TwelveItemsExample | src/app/components/MediaListComponent.tsx:27-40 | With 5 per page, 12 items make 3 pages and the last holds items 10 and 11. |
| ListView.NavigationStaysInRange | src/app/components/MediaListComponent.tsx:106-127 | From a page in range both arrows stay in range. Each is disabled iff it would not move, and otherwise they move by one and undo each other. |
| ListView.NextOnEmptyList | src/app/components/MediaListComponent.tsx:125-127 | On an empty list "next" is enabled on page 1 and leads to an empty page 0, from which "previous" returns to 1. |
| ListView.PageIds | src/app/components/MediaListComponent.tsx:48 | The ids of the current page, position by position. |
| ListView.Ids | src/app/components/MediaListComponent.tsx:48 | The ids of a list, position by position. |
| ListView.ToggleRow | src/app/components/MediaListComponent.tsx:162 | A row checkbox toggles the id and reports the new selection. |
| ListView.ToggleAll | src/app/components/MediaListComponent.tsx:140-141 | The header checkbox clears or selects the page's ids, reports it, and keeps page and action. |
| ListView.SyncSelection | src/app/components/MediaListComponent.tsx:66-75 | The sync changes only the selection, to the local or the external one. |
| ListView.Apply | src/app/components/MediaListComponent.tsx:93-94 | "Appliquer" emits iff something is selected and an action is chosen, and emits the selection. |
| ListView.DeleteRow | src/app/components/MediaListComponent.tsx:190 | A row's delete emits that row's id alone. |
| ListView.InitialState | src/app/components/MediaListComponent.tsx:30-33 | The list opens on page 1 with nothing selected and "Appliquer" disabled. |
| GridView.TilePreview | src/app/components/MediaGridComponent.tsx:27-56 | A tile is an image iff the type starts with "image/", a video iff otherwise a video, else a file card. |
| GridView.TileAgreesWithRenderer | src/app/components/MediaGridComponent.tsx:27-56 | The tile is the renderer's choice with its PDF option off. |
| GridView.Toggle | src/app/components/MediaGridComponent.tsx:61-70 | The id's membership flips; the new selection is stored and reported. |
| GridView.Click | src/app/components/MediaGridComponent.tsx:91-99 | The item and its index are reported. In selection mode an overlay click toggles and reports the selection; any other click changes nothing. |
| GridView.Sync | src/app/components/MediaGridComponent.tsx:73-82 | The sync keeps the local selection or adopts the external one, whenever they differ. |
| GridView.ClickToggleProperties | src/app/components/MediaGridComponent.tsx:61-70 | An overlay click leaves every other id in place, and two clicks on an unselected tile restore the state. |
| GridView.NoSelectionModeNoToggle | src/app/components/MediaGridComponent.tsx:91-99 | Outside selection mode no click changes or reports the selection. |
| MediaRenderer.StringOr | src/app/components/MediaItemRenderer.tsx:31 | `a \|\| b` yields a when it is a non-empty string, else b. |
| MediaRenderer.RendererPreview | src/app/components/MediaItemRenderer.tsx:12-136 | The first passing test wins: image, video, then PDF only with `renderIfPdf`, else a file card. The image falls back to the placeholder, and the caption appears iff `showDetails`, holding the name. |
| MediaRenderer.PreviewExamples | src/app/components/MediaItemRenderer.tsx:13-15 | PNG is an image and Matroska a video under any type. A PDF is a frame only on request, and an untyped item is a captioned file. |
| ItemCard.ExactlyOneIcon | src/app/components/MediaItemComponent.tsx:34-36 | The card shows exactly one icon: video, image or file, by its MIME prefix. |
| ItemCard.MatroskaIconMismatch | src/app/components/MediaItemComponent.tsx:19-50 | "application/x-matroska" plays as a video but carries the file icon. |
| ItemCard.Sections | src/app/components/MediaItemComponent.tsx:52-81 | At most five sections; the date section shows iff there is a date. |
| ItemCard.SectionsMembers | src/app/components/MediaItemComponent.tsx:52-81 | A section is shown iff it is the section of one of the five fields. |
| ItemCard.DescriptionShownIffTruthy | src/app/components/MediaItemComponent.tsx:52 | The description shows iff it is a non-empty string, and shows its text. |
| ItemCard.DownloadShownIffTruthy | src/app/components/MediaItemComponent.tsx:81 | The download link shows iff the URL is non-empty, and links to it. |
| ItemCard.SizeShownIffTruthy | src/app/components/MediaItemComponent.tsx:73 | The size shows iff it is a number other than 0. |
| ItemCard.CardRendersPdf | src/app/components/MediaItemComponent.tsx:50 | The card asks for the PDF frame, so a PDF shows as a frame. |
| Tabs.Headers | src/app/components/tabs/TabsComponent.tsx:72-79 | There is no more than one header per child. |
| Tabs.HeadersAppend | src/app/components/tabs/TabsComponent.tsx:72-79 | The headers of two runs of children are the headers of each, in order. |
| Tabs.HeadersComeFromTabs | src/app/components/tabs/TabsComponent.tsx:72-79 | Every header comes from a tab child. |
| Tabs.HeadersKeepEveryTab | src/app/components/tabs/TabsComponent.tsx:72-79 | Every tab child has its header, in its place among the tabs. |
| Tabs.AllTabsAllHeaders | src/app/components/tabs/TabsComponent.tsx:72-79 | A strip of tabs has one header per child, in order. |
| Tabs.ClickHeader | src/app/components/tabs/TabsComponent.tsx:94 | A header click activates its key. |
| Tabs.RenderTab | src/app/components/tabs/TabsComponent.tsx:23-29 | A tab throws outside a strip and shows iff its key is active. |
| Tabs.ClickShowsThatTab | src/app/components/tabs/TabsComponent.tsx:23-94 | A tab child has a header, and clicking it shows that tab. |
| ConfirmModal.Expected | src/app/components/ActionConfirmationModal.tsx:19 | The expected text defaults to "supprimer définitivement" for `undefined` only. |
| ConfirmModal.Step | src/app/components/ActionConfirmationModal.tsx:42-57 | Typing replaces the text. Cancel asks to close and keeps the text, and confirm goes through iff the text equals the expected one. |
| ConfirmModal.Signals | src/app/components/ActionConfirmationModal.tsx:24-57 | There is one signal per event. |
| ConfirmModal.TextAfterEvents | src/app/components/ActionConfirmationModal.tsx:24-57 | One more event acts on the text typed last. |
| ConfirmModal.LastTypedOfTail | src/app/components/ActionConfirmationModal.tsx:42 | After the first event, the text typed last is that of the remaining events. |
| ConfirmModal.ConfirmExactlyAfterExpectedText | src/app/components/ActionConfirmationModal.tsx:53-57 | A confirm click reaches the page iff the text typed last before it is the expected text. |
| ConfirmModal.SignalsPrefix | src/app/components/ActionConfirmationModal.tsx:24-57 | The signals of a prefix of the events are a prefix of the signals. |
| ConfirmModal.GateExamples | src/app/components/ActionConfirmationModal.tsx:19-57 | Case and accents matter and the default is reachable. Cancel keeps the text, a null expected text never confirms, and nor does an empty text. |
| DetailsModal.KeyOf | src/app/components/MediaDetailsModal.tsx:199-219 | Each input edits a tracked key. |
| DetailsModal.Edit | src/app/components/MediaDetailsModal.tsx:44-52 | An edit sets one key and leaves every other key as it was. |
| DetailsModal.Open | src/app/components/MediaDetailsModal.tsx:54-57 | A new item replaces both copies and the modal is clean. |
| DetailsModal.Input | src/app/components/MediaDetailsModal.tsx:199-219 | An input edits the working copy only. |
| DetailsModal.SavePayload | src/app/components/MediaDetailsModal.tsx:64-72 | The payload carries the original id and the working copy's name and texts. |
| DetailsModal.EditDirtyIff | src/app/components/MediaDetailsModal.tsx:60-62 | One edit makes the modal dirty iff it changes that field in the diff's sense. |
| DetailsModal.BlankAndRestoredEditsAreClean | src/app/components/MediaDetailsModal.tsx:60-62 | A blank value in an empty field, or the original value typed back, leaves the modal clean. |
| DetailsModal.EditDirtyAsWrittenIff | src/app/components/MediaDetailsModal.tsx:60-62 | With the diff as written and no date or a valid one, one edit makes the modal dirty iff it changes that field. |
| DetailsModal.EditDirtyAsWrittenOnInvalidDate | src/app/components/MediaDetailsModal.tsx:60-62 | With the diff as written and an Invalid Date, every edit makes the modal dirty. |
| DetailsModal.BlankAndRestoredEditsAreCleanAsWritten | src/app/components/MediaDetailsModal.tsx:60-62 | With the diff as written and no date or a valid one, a blank value in an empty field, or the original value typed back, leaves the modal clean. |
| DetailsModal.PayloadCarriesEdit | src/app/components/MediaDetailsModal.tsx:64-72 | After a title edit the payload differs from the clean one only in the title. |
| DetailsModal.TitleInputShowsAltText | src/app/components/MediaDetailsModal.tsx:209-210 | The Title input changes the title but keeps showing the alternative text. |
| DetailsModal.FreshCopyDirtyAsWritten | src/app/components/MediaDetailsModal.tsx:60-62 | With the diff as written, a fresh item with an Invalid Date is dirty at once. The corrected diff keeps it clean. |
| PageLogic.SupportedMediaFilters | src/app/components/assetManager/AssetsManagerComponent2.tsx:28-52 | The menu opens on "*/*", which passes the list through; "none" and "personal" match only those literal types. |
| PageLogic.FindIndex | src/app/components/assetManager/AssetsManagerComponent2.tsx:318 | `findIndex` gives the first position with the id, or -1 iff there is none. |
| PageLogic.DetailItem | src/app/components/assetManager/AssetsManagerComponent2.tsx:345 | `list[index \|\| 0]` is present iff the index, or 0, is in range, and then is that item. |
| PageLogic.NavigationClamp | src/app/components/assetManager/AssetsManagerComponent2.tsx:354-357 | Within range the arrows stay in range. Each is disabled iff it would not move, they undo each other, and a closed viewer stays closed. |
| PageLogic.NextStuckPastEnd | src/app/components/assetManager/AssetsManagerComponent2.tsx:355-357 | At or past the display's end "next" is enabled but does not move. |
| PageLogic.RemoveItems | src/app/components/assetManager/AssetsManagerComponent2.tsx:117 | Removal keeps exactly the items whose id is not being deleted. |
| PageLogic.RemoveItemsKeepsOrder | src/app/components/assetManager/AssetsManagerComponent2.tsx:117 | Removal keeps the survivors in order, and removes nothing when no id is given. |
| PageLogic.DeletionIds | src/app/components/assetManager/AssetsManagerComponent2.tsx:86-87 | The ids to delete default to the selection. |
| ManagerPage.Init | src/app/components/assetManager/AssetsManagerComponent2.tsx:55-74 | The page opens on "*/*" with nothing selected or pending and no dialog. |
| ManagerPage.RequestDelete | src/app/components/assetManager/AssetsManagerComponent2.tsx:86-90 | The ids, by default the selection, become pending; multi-select ends and the confirmation opens. |
| ManagerPage.DeleteConfigIsSilent | src/app/components/assetManager/AssetsManagerComponent2.tsx:99-119 | The delete callbacks never throw and `throwOnError` says no. |
| ManagerPage.DeleteRequestOutcome | src/app/components/assetManager/AssetsManagerComponent2.tsx:97-121 | The delete request never throws, and its `onResponse` runs iff the transport delivered. |
| ManagerPage.ConfirmDeleteOutcome | src/app/components/assetManager/AssetsManagerComponent2.tsx:93-122 | On success exactly the pending ids leave the selection and the list, in order, and nothing is pending. On failure only the dialogs and the loader change. |
| ManagerPage.DeleteRemovesExactlyPending | src/app/components/assetManager/AssetsManagerComponent2.tsx:116-118 | After a successful delete no remaining item or selected id is pending, and every other one survives. |
| ManagerPage.LoaderStaysUpAsWritten | src/app/components/assetManager/AssetsManagerComponent2.tsx:94 | As written the loader stays up after the request; the corrected handler lowers it and otherwise agrees. |
| ManagerPage.ListClick | src/app/components/assetManager/AssetsManagerComponent2.tsx:317-319 | A row click opens the viewer on the item's position in the whole list. |
| ManagerPage.SelectionReported | src/app/components/assetManager/AssetsManagerComponent2.tsx:311-327 | The page adopts the selection the list or the grid reports and changes nothing else. |
| ManagerPage.GridClick | src/app/components/assetManager/AssetsManagerComponent2.tsx:324-332 | Outside multi-select, a tile click opens the viewer as a row click does. In multi-select mode the page's selection becomes the grid's with the tile's id toggled, and nothing else changes. |
| ManagerPage.GridClickFeedsGroupDelete | src/app/components/MediaGridComponent.tsx:61-99 | With the grid in step with the page, a multi-select tile click enables the group delete with the tile's id among the ids to delete. The viewer stays as it was, and a second click restores the page. |
| ManagerPage.ListToggleReachesPage | src/app/components/assetManager/AssetsManagerComponent2.tsx:311-314 | A row checkbox of the list toggles that id in the page's selection and changes neither the list nor the viewer. |
| ManagerPage.ClickShowsItem | src/app/components/assetManager/AssetsManagerComponent2.tsx:317-319 | Clicking a listed item opens the viewer on an item with its id. |
| ManagerPage.IndexMismatch | src/app/components/assetManager/AssetsManagerComponent2.tsx:345-357 | Under the images filter over [image, PDF, image], clicking the last image gives index 2. "Next" is then enabled but stuck, and "previous" shows the hidden PDF. |
| ManagerPage.ViewerDelete | src/app/components/assetManager/AssetsManagerComponent2.tsx:347-351 | Deleting from the viewer closes it, appends the id to the selection, and asks to delete that id alone. |
| ManagerPage.ViewerDeleteThenConfirm | src/app/components/assetManager/AssetsManagerComponent2.tsx:347-351 | Confirmed and successful, it removes the item and its id and keeps every other item. |
| ManagerPage.UpdateReplacesOnlyIndex | src/app/components/assetManager/AssetsManagerComponent2.tsx:137-171 | A delivered DTO replaces exactly the item at the viewer's index with its mapping. The viewer index is restored, the loader lowered, the display left as it was, and a failure changes no item. |
| ManagerPage.NoResponseNoItem | src/app/components/assetManager/AssetsManagerComponent2.tsx:155 | Without an `onResponse` call no item is written. |
| ManagerPage.FirstResponseItem | src/app/components/assetManager/AssetsManagerComponent2.tsx:154-159 | The item written is the one `onResponse` received. |
| ManagerPage.Uploaded | src/app/components/assetManager/AssetsManagerComponent2.tsx:197-199 | An upload appends the mapped item and keeps the display consistent. |
| ManagerPage.UploadShownUnderAllMedia | src/app/components/assetManager/AssetsManagerComponent2.tsx:197-199 | Under "*/*" the uploaded item is displayed last. |
| ManagerPageLegacy.Init | src/app/components/AssetsManagerComponent2.tsx:31-43 | The page opens empty, nothing selected or pending, date -1. |
| ManagerPageLegacy.RequestDelete | src/app/components/AssetsManagerComponent2.tsx:68-72 | The ids, by default the selection, become pending and the confirmation opens. |
| ManagerPageLegacy.ConfirmDelete | src/app/components/AssetsManagerComponent2.tsx:75-103 | The dialogs close; type and loader are untouched. |
| ManagerPageLegacy.ConfirmDeleteOutcome | src/app/components/AssetsManagerComponent2.tsx:75-103 | On success exactly the pending ids leave selection and list, in order, and the list is displayed whole. On failure neither changes. |
| ManagerPageLegacy.ListClick | src/app/components/AssetsManagerComponent2.tsx:300-308 | A row click opens the viewer at the item's position in the whole list, in multi-select mode too. |
| ManagerPageLegacy.SelectionReported | src/app/components/AssetsManagerComponent2.tsx:300-316 | The page adopts the selection the list or the grid reports and changes nothing else. |
| ManagerPageLegacy.GridClick | src/app/components/AssetsManagerComponent2.tsx:313-321 | Outside multi-select, a tile click opens the viewer as a row click does. In multi-select mode the page's selection becomes the grid's with the tile's id toggled, and nothing else changes. |
| ManagerPageLegacy.GridClickFeedsGroupDelete | src/app/components/MediaGridComponent.tsx:61-99 | With the grid in step with the page, a multi-select tile click enables the group delete with the tile's id among the ids to delete. The viewer stays as it was, and a second click restores the page. |
| ManagerPageLegacy.ClickShowsItem | src/app/components/AssetsManagerComponent2.tsx:331-341 | The viewer shows the clicked row's item, in multi-select mode too; with the whole list displayed, "next" shows the next item or stays on the last. |
| ManagerPageLegacy.ModalDeleteAsWritten | src/app/components/AssetsManagerComponent2.tsx:333-337 | As written, the pending ids are the selection from before the item's id was appended. |
| ManagerPageLegacy.ModalDelete | src/app/components/AssetsManagerComponent2.tsx:333-337 | Corrected, the pending ids are the item's id alone. |
| ManagerPageLegacy.ModalDeleteAsWrittenKeepsItem | src/app/components/AssetsManagerComponent2.tsx:333-337 | As written, with nothing selected before, a successful deletion keeps the item and leaves its id selected. |
| ManagerPageLegacy.ModalDeleteRemovesItem | src/app/components/AssetsManagerComponent2.tsx:333-337 | Corrected, it removes the item and its id and keeps everything else. |
| ManagerPageLegacy.Uploaded | src/app/components/AssetsManagerComponent2.tsx:192-193 | An upload appends the mapped item and displays the whole list. |
| ManagerPageLegacy.DatesEffect | src/app/components/AssetsManagerComponent2.tsx:161-165 | The date effect changes only the selected date. |
| ManagerPageLegacy.FetchThenDates | src/app/components/AssetsManagerComponent2.tsx:135-173 | After a fetch of dated items they are displayed, and the first one's date is selected. |
| ManagerPageV1.Init | src/app/components/assetManager/AssetsManagerComponent.tsx:59-63 | The page opens empty with nothing selected and date -1. |
| ManagerPageV1.SelectMedia | src/app/components/assetManager/AssetsManagerComponent.tsx:70-74 | The id's membership flips and nothing else changes. |
| ManagerPageV1.SelectMediaTwice | src/app/components/assetManager/AssetsManagerComponent.tsx:70-74 | Selecting an unselected id twice restores the page. |
| ManagerPageV1.RequestDelete | src/app/components/assetManager/AssetsManagerComponent.tsx:65-68 | Multi-select ends and the confirmation opens. |
| ManagerPageV1.ConfirmDelete | src/app/components/assetManager/AssetsManagerComponent.tsx:77-104 | The dialogs close and the type is kept. |
| ManagerPageV1.ConfirmDeleteOutcome | src/app/components/assetManager/AssetsManagerComponent.tsx:77-104 | On success the selection empties and exactly its ids leave the list, in order. On failure nothing changes. |
| ManagerPageV1.TileClick | src/app/components/assetManager/AssetsManagerComponent.tsx:296-307 | In multi-select the overlay toggles the tile's id; otherwise the viewer opens on that display position. |
| ManagerPageV1.ViewerStaysOnDisplay | src/app/components/assetManager/AssetsManagerComponent.tsx:302-343 | A tile click shows that tile's item, and the arrows only show displayed items. |
| ManagerPageV1.MultiSelectClickToggles | src/app/components/assetManager/AssetsManagerComponent.tsx:305-307 | In multi-select a click flips the tile's id and leaves the viewer alone. |
| ManagerPageV1.ModalDelete | src/app/components/assetManager/AssetsManagerComponent.tsx:335-339 | Deleting from the viewer closes it, appends the id and opens the confirmation. |
| ManagerPageV1.ModalDeleteThenConfirm | src/app/components/assetManager/AssetsManagerComponent.tsx:335-339 | Confirmed, it removes the item with everything selected before and empties the selection. |
| ManagerPageV1.Uploaded | src/app/components/assetManager/AssetsManagerComponent.tsx:183-184 | An upload appends the mapped item and displays the whole list. |
| AssetPicker.InitialType | src/app/components/assetPicker/AssetPickerComponent.tsx:30-51 | The opening type is `accept`, defaulting to "image/*". A null `accept` falls back to the menu's first entry, and it throws iff that menu is null or empty. |
| AssetPicker.DefaultsOpenOnImages | src/app/components/assetPicker/AssetPickerComponent.tsx:30-36 | With no props the picker opens on the images filter. |
| AssetPicker.Init | src/app/components/assetPicker/AssetPickerComponent.tsx:51 | The picker opens with the hook on that type and nothing selected. |
| AssetPicker.TileClick | src/app/components/assetPicker/AssetPickerComponent.tsx:190-196 | A tile click flips the tile's id in the selection. |
| AssetPicker.Emitted | src/app/components/assetPicker/AssetPickerComponent.tsx:330-332 | The call-to-action emits iff something is selected, and then exactly the listed items whose id is selected. |
| AssetPicker.EmitsInListOrder | src/app/components/assetPicker/AssetPickerComponent.tsx:330-332 | The items come in list order. |
| AssetPicker.SelectionOrderIgnored | src/app/components/assetPicker/AssetPickerComponent.tsx:330-332 | Selecting b then a over [a, b] emits [a, b]. |
| AssetPicker.SeveralItemsSelectable | src/app/components/assetPicker/AssetPickerComponent.tsx:191-192 | Two clicks select two items and both are emitted, though the grid was asked for one. |
| AssetPicker.Uploaded | src/app/components/assetPicker/AssetPickerComponent.tsx:140-142 | An upload appends the mapped item and keeps the display consistent. |
| AssetPicker.UploadShownIffAccepted | src/app/components/assetPicker/AssetPickerComponent.tsx:140-142 | Under a type filter the upload is displayed, last, iff it matches. |
| AssetPicker.DatesEffect | src/app/components/assetPicker/AssetPickerComponent.tsx:57-61 | The first menu date is selected when there is one; nothing else changes. |

## Left out

- React scheduling: state updates and effects are applied at once, in the order the handlers call them. Renders in between, and the mount effect that fetches, are not modelled.
- Toasts, the clipboard, `window.open`, ripples, the uploader widget, the view-mode toggle and the footer count are presentation only.
- `getDistinctDatesByDay` (the date menu of the newest page and the picker) and the date labels (`toDateString`, `toLocaleDateString`) are not modelled. The menu's entries are given as a parameter.
- `Date.parse` is a parameter; its parsing rules are out of scope.
- `useUpload` and the request details of each endpoint are not modelled. Each page's requests are modelled through `Client.MakeHttpRequest` over a given `Transport`. Query parameters are passed through untouched.
- Functions.ReadableSizeUnits: the scaled forms print a floating-point quotient. The model records the divisor and the suffix, not the digits of the quotient.
- ItemCard.SizeShownIffTruthy: `{item.size && …}` with size 0 renders the text "0" in React. The model only states that no size section appears.
- ListView.TotalPages: requires a positive page size, since the component's page size is never 0 or negative in use.
- ManagerPage.UpdateReplacesOnlyIndex: requires the viewer's index to be in range. The handler writes in place into the previous list and returns it unchanged, so React does not recompute the display. The model applies the write to the list only.
- DetailsModal.Edit: `onUpdateMetadata` accepts any key; only the three keys the inputs use are modelled.
- ManagerPage.UpdateReplacesOnlyIndex: an update response that is not a DTO is passed through `onTransform` unmodelled.
- `MediaItem.name` is typed as required, so the `??` fallback on the name in the save payload cannot fire and is not modelled.
- ManagerPageV1.TileClick: in multi-select mode the overlay covers the tile, so a click is taken to reach the overlay only.
- ManagerPage.GridClick: the grid's own selection is a parameter rather than part of the page. A multi-select click is taken to reach the overlay, which covers the whole tile.
- ManagerPageLegacy.GridClick: the same as ManagerPage.GridClick.
- The picker's date effect appears twice (lines 57-61 and 66-70); the two are identical and are modelled once.
- `ErrorComponent`, `MetadataField`, `Textarea`, `DefaultButton`, `SelectComponent` and `withAttrs` are presentation files and are not part of this model.

## Findings

| source | as written | input that shows it | evidently intended | confidence | as-written member | corrected member |
|---|---|---|---|---|---|---|
| src/app/domain/dto/MediaItem.ts:26-27 | dates compare by `getTime() !==`, and NaN differs from itself | an item whose upload date is an Invalid Date, such as one mapped from a DTO without a date, compared with itself | an item never differs from itself, so the save button stays disabled until something is edited | not executed | MediaItems.InvalidDateDiffersFromItself | MediaItems.DifferedIrreflexive |
| src/app/components/assetManager/AssetsManagerComponent2.tsx:94 | the delete handler raises the loader and nothing lowers it | any confirmed deletion, successful or not | the loader goes down once the request settles, as in the update handler (line 170) | not executed | ManagerPage.LoaderStaysUpAsWritten | ManagerPage.ConfirmDeleteOutcome |
| src/app/components/AssetsManagerComponent2.tsx:333-337 | deleting from the viewer calls `handleDeleteMediaDefinitely()`, whose default is the selection captured before the id was appended | nothing selected, open an item, delete it and confirm: nothing is deleted and the id stays selected | the item shown is deleted, as the newer page does by passing `[mediaItem.id]` | not executed | ManagerPageLegacy.ModalDeleteAsWrittenKeepsItem | ManagerPageLegacy.ModalDeleteRemovesItem |
| src/app/domain/http/ApiRoutes.ts:7 | `updateMedia` returns "data/files/update", without the leading '/' | base URL "http://h" gives "http://hdata/files/update" | "/data/files/update", like every other route | not executed | ApiRoutes.UpdateMediaAsWrittenLosesSeparator | ApiRoutes.RoutesJoinWithSeparator |
