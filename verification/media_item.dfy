/**
 * The client-side media item and the metadata diff `mediaItemDiffered` that the
 * detail modal uses as its dirty flag.
 *
 * The diff is modelled twice. `DifferedAsWritten` follows the source, where two
 * dates are compared with `getTime() !== getTime()`; because an Invalid Date's
 * `getTime()` is NaN and NaN differs from itself, an item whose date is invalid
 * differs from itself. `Differed` is the corrected diff, which treats two
 * invalid dates as the same instant; the rest of the model uses it.
 */
module MediaItems {
  import opened Js
  import Functions

  datatype MediaItem = MediaItem(
    id: int,
    name: string,
    altText: Nullable<string>,
    title: Nullable<string>,
    description: Nullable<string>,
    downloadUrl: Nullable<string>,
    mimeType: Nullable<string>,
    size: Nullable<int>,
    uploadDate: Nullable<Date>,
    uploadedBy: Nullable<string>,
    uploadedTo: Nullable<string>,
    dimensions: Nullable<string>)

  /** The properties of a media item, as `keyof MediaItem`. */
  datatype Key =
    | Id | Name | AltText | Title | Description | DownloadUrl | MimeType
    | Size | UploadDate | UploadedBy | UploadedTo | Dimensions

  /** `item[key]`. */
  function Get(item: MediaItem, key: Key): JsValue {
    match key
    case Id => NumberValue(item.id)
    case Name => StringValue(item.name)
    case AltText => StringProperty(item.altText)
    case Title => StringProperty(item.title)
    case Description => StringProperty(item.description)
    case DownloadUrl => StringProperty(item.downloadUrl)
    case MimeType => StringProperty(item.mimeType)
    case Size => NumberProperty(item.size)
    case UploadDate => DateProperty(item.uploadDate)
    case UploadedBy => StringProperty(item.uploadedBy)
    case UploadedTo => StringProperty(item.uploadedTo)
    case Dimensions => StringProperty(item.dimensions)
  }

  /** The eleven keys the diff inspects: every property except `id`. */
  predicate IsTracked(key: Key) {
    key != Id
  }

  /** `x.getTime() !== y.getTime()`: NaN is unequal to everything, itself included. */
  predicate TimesDifferAsWritten(x: Date, y: Date) {
    !(x.time.Some? && y.time.Some? && x.time.value == y.time.value)
  }

  /** The intended instant comparison: two invalid dates stand for the same (absent) instant. */
  predicate TimesDiffer(x: Date, y: Date) {
    x.time != y.time
  }

  /** `isChanged(key)` on the two values read, parameterised by the date comparison. */
  predicate ValuesChanged(a: JsValue, b: JsValue, timesDiffer: (Date, Date) -> bool) {
    if a.DateObject? && b.DateObject? then timesDiffer(a.d, b.d)
    else if Functions.IsNullUndefinedOrBlank(a) && Functions.IsNullUndefinedOrBlank(b) then false
    // Strict equality: values of different kinds are never `===`, and two dates
    // never get here, so structural equality is `===` on what remains.
    else a != b
  }

  predicate AnyTrackedChanged(a: MediaItem, b: MediaItem, timesDiffer: (Date, Date) -> bool) {
    ValuesChanged(Get(a, Name), Get(b, Name), timesDiffer)
    || ValuesChanged(Get(a, AltText), Get(b, AltText), timesDiffer)
    || ValuesChanged(Get(a, Title), Get(b, Title), timesDiffer)
    || ValuesChanged(Get(a, Description), Get(b, Description), timesDiffer)
    || ValuesChanged(Get(a, DownloadUrl), Get(b, DownloadUrl), timesDiffer)
    || ValuesChanged(Get(a, MimeType), Get(b, MimeType), timesDiffer)
    || ValuesChanged(Get(a, Size), Get(b, Size), timesDiffer)
    || ValuesChanged(Get(a, UploadDate), Get(b, UploadDate), timesDiffer)
    || ValuesChanged(Get(a, UploadedBy), Get(b, UploadedBy), timesDiffer)
    || ValuesChanged(Get(a, UploadedTo), Get(b, UploadedTo), timesDiffer)
    || ValuesChanged(Get(a, Dimensions), Get(b, Dimensions), timesDiffer)
  }

  /** `mediaItemDiffered(a, b)` as written. */
  predicate DifferedAsWritten(a: MediaItem, b: MediaItem) {
    AnyTrackedChanged(a, b, TimesDifferAsWritten)
  }

  /** `mediaItemDiffered(a, b)` with the intended date comparison. */
  predicate Differed(a: MediaItem, b: MediaItem) {
    AnyTrackedChanged(a, b, TimesDiffer)
  }

  /** The diff is a disjunction over exactly the tracked keys: it holds iff some
      property other than `id` changed. */
  lemma DifferedIffSomeTrackedKeyChanged(a: MediaItem, b: MediaItem)
    ensures Differed(a, b) <==>
      exists k :: IsTracked(k) && ValuesChanged(Get(a, k), Get(b, k), TimesDiffer)
    ensures DifferedAsWritten(a, b) <==>
      exists k :: IsTracked(k) && ValuesChanged(Get(a, k), Get(b, k), TimesDifferAsWritten)
  {
    TrackedChangeWitness(a, b, TimesDiffer);
    TrackedChangeWitness(a, b, TimesDifferAsWritten);
  }

  /** A tracked key whose values changed is one of the eleven disjuncts. */
  lemma TrackedChangeWitness(a: MediaItem, b: MediaItem, timesDiffer: (Date, Date) -> bool)
    ensures AnyTrackedChanged(a, b, timesDiffer) <==>
      exists k :: IsTracked(k) && ValuesChanged(Get(a, k), Get(b, k), timesDiffer)
  {
    if exists k :: IsTracked(k) && ValuesChanged(Get(a, k), Get(b, k), timesDiffer) {
      var k :| IsTracked(k) && ValuesChanged(Get(a, k), Get(b, k), timesDiffer);
      assert k.Name? || k.AltText? || k.Title? || k.Description? || k.DownloadUrl?
        || k.MimeType? || k.Size? || k.UploadDate? || k.UploadedBy? || k.UploadedTo? || k.Dimensions?;
    }
  }

  /** Two values that are each null, undefined or whitespace-only never count as a change. */
  lemma BlankValuesNeverChange(a: JsValue, b: JsValue, timesDiffer: (Date, Date) -> bool)
    requires Functions.IsNullUndefinedOrBlank(a) && Functions.IsNullUndefinedOrBlank(b)
    ensures !ValuesChanged(a, b, timesDiffer)
  {
  }

  /** Dates compare by instant, not by object. */
  lemma DatesCompareByInstant(t1: int, t2: int)
    ensures ValuesChanged(DateObject(Date(Some(t1))), DateObject(Date(Some(t2))), TimesDifferAsWritten) <==> t1 != t2
    ensures ValuesChanged(DateObject(Date(Some(t1))), DateObject(Date(Some(t2))), TimesDiffer) <==> t1 != t2
  {
  }

  /** Non-date, non-blank values compare by strict equality, so a leading space is a
      change. */
  lemma LeadingSpaceIsAChange()
    ensures ValuesChanged(StringValue("a"), StringValue(" a"), TimesDiffer)
  {
    assert !Functions.IsNullUndefinedOrBlank(StringValue("a")) by {
      Functions.BlankIffNullishOrWhitespace(StringValue("a"));
      assert !IsWhitespace("a"[0]);
    }
    assert StringValue("a") != StringValue(" a") by {
      assert |"a"| != |" a"|;
    }
  }

  /** `undefined` and a whitespace-only string are the same blank value; `0` is not blank. */
  lemma BlankComparisons()
    ensures !ValuesChanged(UndefinedValue, StringValue("  "), TimesDiffer)
    ensures ValuesChanged(NumberValue(0), UndefinedValue, TimesDiffer)
  {
    Functions.BlankIffNullishOrWhitespace(StringValue("  "));
    assert IsWhitespace("  "[0]) && IsWhitespace("  "[1]);
  }

  /** A value compared with itself is unchanged unless it is a date the comparison
      calls different from itself. */
  lemma SameValueUnchanged(v: JsValue, timesDiffer: (Date, Date) -> bool)
    requires v.DateObject? ==> !timesDiffer(v.d, v.d)
    ensures !ValuesChanged(v, v, timesDiffer)
  {
  }

  /** The two date comparisons agree on every pair that is not two dates one of which
      is invalid. */
  lemma ComparisonsAgree(a: JsValue, b: JsValue)
    requires a.DateObject? && b.DateObject? ==> a.d.IsValid() && b.d.IsValid()
    ensures ValuesChanged(a, b, TimesDiffer) == ValuesChanged(a, b, TimesDifferAsWritten)
  {
  }

  /** The diff does not depend on the order of its arguments, in both versions. */
  lemma DifferedSymmetric(a: MediaItem, b: MediaItem)
    ensures Differed(a, b) == Differed(b, a)
    ensures DifferedAsWritten(a, b) == DifferedAsWritten(b, a)
  {
    forall k: Key ensures ValuesChanged(Get(a, k), Get(b, k), TimesDiffer) == ValuesChanged(Get(b, k), Get(a, k), TimesDiffer)
      && ValuesChanged(Get(a, k), Get(b, k), TimesDifferAsWritten) == ValuesChanged(Get(b, k), Get(a, k), TimesDifferAsWritten)
    {
      ValuesChangedSymmetric(Get(a, k), Get(b, k));
    }
  }

  /** Each value comparison is symmetric, under both date comparisons. */
  lemma ValuesChangedSymmetric(x: JsValue, y: JsValue)
    ensures ValuesChanged(x, y, TimesDiffer) == ValuesChanged(y, x, TimesDiffer)
    ensures ValuesChanged(x, y, TimesDifferAsWritten) == ValuesChanged(y, x, TimesDifferAsWritten)
  {
  }

  /** As written, an item does not differ from itself as long as its date, if any,
      is a valid instant. */
  lemma DifferedAsWrittenIrreflexiveOnValidDates(a: MediaItem)
    requires a.uploadDate.Present? ==> a.uploadDate.value.IsValid()
    ensures !DifferedAsWritten(a, a)
  {
    forall k: Key ensures !ValuesChanged(Get(a, k), Get(a, k), TimesDifferAsWritten) {
      SameValueUnchanged(Get(a, k), TimesDifferAsWritten);
    }
  }

  /** As written, an item whose date is an Invalid Date differs from itself: the
      `getTime()` comparison sees NaN on both sides. */
  lemma InvalidDateDiffersFromItself(a: MediaItem)
    requires a.uploadDate == Present(Date(None))
    ensures DifferedAsWritten(a, a)
  {
    var v := Get(a, UploadDate);
    assert v == DateObject(Date(None));
    assert ValuesChanged(v, v, TimesDifferAsWritten);
  }

  /** The corrected diff never reports a difference between an item and itself. */
  lemma DifferedIrreflexive(a: MediaItem)
    ensures !Differed(a, a)
  {
    forall k: Key ensures !ValuesChanged(Get(a, k), Get(a, k), TimesDiffer) {
      SameValueUnchanged(Get(a, k), TimesDiffer);
    }
  }

  /** The two diffs agree whenever neither date is invalid. */
  lemma DiffersAgreeOnValidDates(a: MediaItem, b: MediaItem)
    requires a.uploadDate.Present? ==> a.uploadDate.value.IsValid()
    requires b.uploadDate.Present? ==> b.uploadDate.value.IsValid()
    ensures Differed(a, b) == DifferedAsWritten(a, b)
  {
    forall k | IsTracked(k)
      ensures ValuesChanged(Get(a, k), Get(b, k), TimesDiffer)
        == ValuesChanged(Get(a, k), Get(b, k), TimesDifferAsWritten)
    {
      ComparisonsAgree(Get(a, k), Get(b, k));
    }
    DifferedIffSomeTrackedKeyChanged(a, b);
  }

  /** Changing only `id` is never a difference. */
  lemma IdIsNotTracked(a: MediaItem, newId: int)
    ensures !Differed(a, a.(id := newId))
    ensures (a.uploadDate.Present? ==> a.uploadDate.value.IsValid()) ==> !DifferedAsWritten(a, a.(id := newId))
  {
    var b := a.(id := newId);
    forall k | IsTracked(k) ensures Get(a, k) == Get(b, k) {
    }
    DifferedIrreflexive(a);
    DifferedIffSomeTrackedKeyChanged(a, b);
    DifferedIffSomeTrackedKeyChanged(a, a);
    if a.uploadDate.Present? ==> a.uploadDate.value.IsValid() {
      DifferedAsWrittenIrreflexiveOnValidDates(a);
    }
  }

  /** When two items agree on every tracked key but `k`, the diff is exactly the
      change of `k`; in particular a distinct non-blank value there is a difference. */
  lemma SingleKeyChange(a: MediaItem, b: MediaItem, k: Key)
    requires IsTracked(k)
    requires forall j :: IsTracked(j) && j != k ==> Get(a, j) == Get(b, j)
    ensures Differed(a, b) <==> ValuesChanged(Get(a, k), Get(b, k), TimesDiffer)
    ensures (!Get(b, k).DateObject? && !Functions.IsNullUndefinedOrBlank(Get(b, k))
      && Get(a, k) != Get(b, k)) ==> Differed(a, b)
  {
    DifferedIffSomeTrackedKeyChanged(a, b);
  }
}
