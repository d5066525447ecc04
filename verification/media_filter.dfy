/**
 * The two list filters of the media pages: by MIME type (a filter such as
 * `ImagesFilter` or "application/pdf", or `AllTypes` for everything) and by a
 * keyword in the name.
 *
 * A filter and an item's MIME type are both cut at '/' and compared segment by
 * segment with `===`: the type segments must be equal, and the filter's subtype
 * must be "*" or equal the item's subtype (two missing subtypes are equal, both
 * being `undefined`). An item without a MIME type destructures `""` and has no
 * segments at all, so it never matches.
 */
module MediaFilters {
  import opened Js
  import opened Seqs
  import opened MediaItems

  const AllTypes: string := "*/*"
  const ImagesFilter: string := "image/*"

  /** The predicate passed to `filter` by the type selection. */
  predicate TypeMatches(filter: string, item: MediaItem) {
    var f := SplitFirstTwo(filter, '/');
    match item.mimeType
    case Present(m) =>
      var p := SplitFirstTwo(m, '/');
      f.first == p.first && (f.second == Some("*") || f.second == p.second)
    case _ => false
  }

  /** `handleMediaTypeSelected`: nothing for an empty list, the list itself for `AllTypes`,
      otherwise the matching items. */
  function FilterByType(list: seq<MediaItem>, filter: string): seq<MediaItem> {
    if |list| == 0 then []
    else if filter == AllTypes then list
    else Filter(list, TypeFilter(filter))
  }

  function TypeFilter(filter: string): MediaItem -> bool {
    (item: MediaItem) => TypeMatches(filter, item)
  }

  function NameFilter(keyword: string): MediaItem -> bool {
    (item: MediaItem) => Includes(item.name, keyword)
  }

  /** `handleMediaSearch`: the items whose name contains the keyword, case-sensitively. */
  function SearchByName(list: seq<MediaItem>, keyword: string): seq<MediaItem> {
    Filter(list, NameFilter(keyword))
  }

  // ---- The type predicate ----

  /** An item without a MIME type matches no filter. */
  lemma NullishTypeNeverMatches(filter: string, item: MediaItem)
    requires item.mimeType.IsNullish()
    ensures !TypeMatches(filter, item)
  {
  }

  /** For MIME types of the form type/subtype, the filter type/subtype matches exactly
      when the types are equal and the filter's subtype is "*" or the item's. */
  lemma TypeMatchesStructured(t: string, st: string, a: string, b: string, item: MediaItem)
    requires '/' !in t && '/' !in st && '/' !in a && '/' !in b
    requires item.mimeType == Present(a + "/" + b)
    ensures TypeMatches(t + "/" + st, item) <==> t == a && (st == "*" || st == b)
  {
    SplitOfJoined(t, '/', st);
    SplitOfJoined(a, '/', b);
    assert SplitFirstTwo(st, '/').first == st;
    assert SplitFirstTwo(b, '/').first == b;
  }

  /** A filter without '/' (such as "none" or "personal") matches exactly the items
      whose MIME type is that very string. */
  lemma FilterWithoutSlashMatchesExactly(filter: string, item: MediaItem)
    requires '/' !in filter
    ensures TypeMatches(filter, item) <==> item.mimeType == Present(filter)
  {
  }

  /** A filter with subtype "*" matches every MIME type whose first segment is the type, including
      one that is just the type with no '/' at all. */
  lemma WildcardSubtypeMatchesByType(t: string, item: MediaItem)
    requires '/' !in t
    ensures TypeMatches(t + "/*", item) <==>
      item.mimeType.Present? && SplitFirstTwo(item.mimeType.value, '/').first == t
  {
    assert t + "/*" == t + ['/'] + "*";
    assert '/' !in "*";
    SplitOfJoined(t, '/', "*");
  }

  /** Comparisons are case-sensitive. */
  lemma TypeMatchIsCaseSensitive(item: MediaItem)
    requires item.mimeType == Present("IMAGE/png")
    ensures !TypeMatches(ImagesFilter, item)
  {
    assert ImagesFilter == "image" + "/" + "*";
    assert "IMAGE/png" == "IMAGE" + "/" + "png";
    assert forall i :: 0 <= i < 5 ==> "image"[i] != '/' && "IMAGE"[i] != '/';
    assert forall i :: 0 <= i < 3 ==> "png"[i] != '/';
    TypeMatchesStructured("image", "*", "IMAGE", "png", item);
  }

  // ---- The type filter ----

  /** The type filter keeps its matching items in their order: `AllTypes` keeps all of them,
      any other filter exactly those that match, and an empty list stays empty. */
  lemma FilterByTypeContents(list: seq<MediaItem>, filter: string)
    ensures IsSubsequence(FilterByType(list, filter), list)
    ensures filter == AllTypes ==> FilterByType(list, filter) == list
    ensures |list| == 0 ==> FilterByType(list, filter) == []
    ensures filter != AllTypes ==>
      (forall i :: 0 <= i < |FilterByType(list, filter)| ==> TypeMatches(filter, FilterByType(list, filter)[i]))
      && (forall i :: 0 <= i < |list| && TypeMatches(filter, list[i]) ==> list[i] in FilterByType(list, filter))
  {
    if |list| > 0 && filter != AllTypes {
      FilterIsSubsequence(list, TypeFilter(filter));
    } else {
      SubsequenceReflexive(FilterByType(list, filter));
    }
  }

  // ---- The name search ----

  /** `keyword` occurs somewhere in `name`. */
  ghost predicate OccursIn(keyword: string, name: string) {
    exists p: nat :: OccursAt(name, keyword, p)
  }

  /** The search keeps, in order, exactly the items whose name contains the keyword at
      some position. */
  lemma SearchByNameContents(list: seq<MediaItem>, keyword: string)
    ensures IsSubsequence(SearchByName(list, keyword), list)
    ensures forall i :: 0 <= i < |SearchByName(list, keyword)| ==>
      OccursIn(keyword, SearchByName(list, keyword)[i].name)
    ensures forall i :: 0 <= i < |list| && OccursIn(keyword, list[i].name) ==>
      list[i] in SearchByName(list, keyword)
  {
    var r := SearchByName(list, keyword);
    FilterIsSubsequence(list, NameFilter(keyword));
    forall i | 0 <= i < |r| ensures OccursIn(keyword, r[i].name) {
      assert NameFilter(keyword)(r[i]);
      IncludesIffOccurs(r[i].name, keyword);
    }
    forall i | 0 <= i < |list| && OccursIn(keyword, list[i].name)
      ensures list[i] in r
    {
      IncludesIffOccurs(list[i].name, keyword);
    }
  }

  /** The empty keyword keeps every item. */
  lemma EmptySearchKeepsAll(list: seq<MediaItem>)
    ensures SearchByName(list, "") == list
  {
    forall i | 0 <= i < |list| ensures Includes(list[i].name, "") {
      IncludesEmpty(list[i].name);
    }
    FilterAll(list, NameFilter(""));
  }
}
