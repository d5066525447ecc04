/**
 * `MediaDetailsModal`: the working copy of the item's metadata, its edits,
 * the dirty flag that enables "Enregistrer les modifications", and the update
 * request built on save.
 *
 * The dirty flag is the diff between the item the modal was given and the
 * working copy. It uses the corrected diff `MediaItems.Differed`; with the diff
 * as written, an item whose upload date is invalid opens with the save button
 * already enabled (`FreshCopyDirtyAsWritten`).
 */
module DetailsModal {
  import opened Js
  import opened MediaItems
  import Functions

  /** The three metadata inputs of the modal. */
  datatype TextField = AltTextField | TitleField | DescriptionField

  function KeyOf(f: TextField): (k: Key)
    ensures IsTracked(k)
  {
    match f
    case AltTextField => AltText
    case TitleField => Title
    case DescriptionField => Description
  }

  /** `onUpdateMetadata(key, value)`: the working copy with one key replaced. */
  function Edit(working: MediaItem, f: TextField, value: string): (r: MediaItem)
    ensures Get(r, KeyOf(f)) == StringValue(value)
    ensures forall k :: k != KeyOf(f) ==> Get(r, k) == Get(working, k)
  {
    match f
    case AltTextField => working.(altText := Present(value))
    case TitleField => working.(title := Present(value))
    case DescriptionField => working.(description := Present(value))
  }

  /** The modal's state: the item it was given and the working copy. */
  datatype ModalState = ModalState(original: MediaItem, working: MediaItem)

  /** The effect on `[mediaItem]`: a new item replaces both the original and the copy. */
  function Open(item: MediaItem): (s: ModalState)
    ensures s.original == item && s.working == item
    ensures !Dirty(s)
  {
    DifferedIrreflexive(item);
    ModalState(item, item)
  }

  /** `metadataChanged`, and so the save button's enablement. */
  predicate Dirty(s: ModalState) {
    Differed(s.original, s.working)
  }

  /** The dirty flag with the diff as written. */
  predicate DirtyAsWritten(s: ModalState) {
    DifferedAsWritten(s.original, s.working)
  }

  /** What each input displays: the Title input shows the alternative text. */
  function Displayed(s: ModalState, f: TextField): Nullable<string> {
    match f
    case AltTextField => s.working.altText
    case TitleField => s.working.altText
    case DescriptionField => s.working.description
  }

  /** An input change. */
  function Input(s: ModalState, f: TextField, value: string): (r: ModalState)
    ensures r.original == s.original
  {
    s.(working := Edit(s.working, f, value))
  }

  /** The body of the update request. */
  datatype UpdateRequest = UpdateRequest(
    id: int,
    name: string,
    altText: Nullable<string>,
    title: Nullable<string>,
    description: Nullable<string>)

  /** `handleSaveMetadataChanges`: the original id and the working copy's name and texts.
      `name` is always a string here, so the `?? mediaItem.name` fallback never applies. */
  function SavePayload(s: ModalState): (p: UpdateRequest)
    ensures p.id == s.original.id
    ensures p.name == s.working.name
    ensures p.altText == s.working.altText && p.title == s.working.title && p.description == s.working.description
  {
    UpdateRequest(s.original.id, s.working.name, s.working.altText, s.working.title, s.working.description)
  }

  // ---- Properties ----

  /** A single edit makes the copy dirty exactly when it changes that field in the sense
      of the diff: a non-blank value other than the original one, or a blank value where
      the original was not blank. */
  lemma EditDirtyIff(item: MediaItem, f: TextField, value: string)
    ensures Dirty(Input(Open(item), f, value)) <==>
      ValuesChanged(Get(item, KeyOf(f)), StringValue(value), TimesDiffer)
  {
    var r := Input(Open(item), f, value).working;
    SingleKeyChange(item, r, KeyOf(f));
  }

  /** The same holds for the flag as written while the item has no date or a valid one. */
  lemma EditDirtyAsWrittenIff(item: MediaItem, f: TextField, value: string)
    requires item.uploadDate.Present? ==> item.uploadDate.value.IsValid()
    ensures DirtyAsWritten(Input(Open(item), f, value)) <==>
      ValuesChanged(Get(item, KeyOf(f)), StringValue(value), TimesDiffer)
  {
    EditDirtyIff(item, f, value);
    DiffersAgreeOnValidDates(item, Input(Open(item), f, value).working);
  }

  /** With an Invalid Date, the flag as written is raised by any edit. */
  lemma EditDirtyAsWrittenOnInvalidDate(item: MediaItem, f: TextField, value: string)
    requires item.uploadDate == Present(Date(None))
    ensures DirtyAsWritten(Input(Open(item), f, value))
  {
    var r := Input(Open(item), f, value).working;
    assert Get(item, UploadDate) == Get(r, UploadDate);
    assert ValuesChanged(Get(item, UploadDate), Get(r, UploadDate), TimesDifferAsWritten);
    DifferedIffSomeTrackedKeyChanged(item, r);
  }

  /** A blank value typed into an empty field, and the original value typed back, leave
      the copy clean. */
  lemma BlankAndRestoredEditsAreClean(item: MediaItem, f: TextField, value: string)
    ensures Get(item, KeyOf(f)) == UndefinedValue && Trim(value) == "" ==>
      !Dirty(Input(Open(item), f, value))
    ensures Get(item, KeyOf(f)) == StringValue(value) ==> !Dirty(Input(Open(item), f, value))
  {
    EditDirtyIff(item, f, value);
    Functions.BlankIffNullishOrWhitespace(StringValue(value));
    if Trim(value) == "" {
      TrimEmptyIffAllWhitespace(value);
    }
  }

  /** The flag as written agrees on those edits while the item has no date or a valid one. */
  lemma BlankAndRestoredEditsAreCleanAsWritten(item: MediaItem, f: TextField, value: string)
    requires item.uploadDate.Present? ==> item.uploadDate.value.IsValid()
    ensures Get(item, KeyOf(f)) == UndefinedValue && Trim(value) == "" ==>
      !DirtyAsWritten(Input(Open(item), f, value))
    ensures Get(item, KeyOf(f)) == StringValue(value) ==> !DirtyAsWritten(Input(Open(item), f, value))
  {
    BlankAndRestoredEditsAreClean(item, f, value);
    EditDirtyAsWrittenIff(item, f, value);
  }

  /** The save payload reflects every edit: after editing the title, the request carries
      the new title and the original id, and nothing but the title differs from the
      request of the unedited copy. */
  lemma PayloadCarriesEdit(item: MediaItem, value: string)
    ensures SavePayload(Input(Open(item), TitleField, value)) ==
      SavePayload(Open(item)).(title := Present(value))
    ensures SavePayload(Input(Open(item), TitleField, value)).id == item.id
  {
  }

  /** Edits through the Title input change the title, but the input keeps showing the
      alternative text, so what was typed is not what is displayed. */
  lemma TitleInputShowsAltText(item: MediaItem, value: string)
    requires item.altText != Present(value)
    ensures Input(Open(item), TitleField, value).working.title == Present(value)
    ensures Displayed(Input(Open(item), TitleField, value), TitleField) != Present(value)
  {
  }

  /** With the diff as written, a freshly opened item with an invalid upload date is
      already dirty; the corrected flag is not. */
  lemma FreshCopyDirtyAsWritten(item: MediaItem)
    requires item.uploadDate == Present(Date(None))
    ensures DirtyAsWritten(Open(item))
    ensures !Dirty(Open(item))
  {
    InvalidDateDiffersFromItself(item);
  }
}
