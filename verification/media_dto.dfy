/**
 * The server's media record and `mediaDtoToMediaItem`, which copies every
 * property and replaces the upload date text by a `Date`.
 *
 * `Date.parse` is a parameter: it maps a date text to an instant, or to none
 * where it yields NaN. `Date.parse(undefined)` and `Date.parse(null)` read the
 * texts "undefined" and "null", which no engine accepts, so a missing upload
 * date always becomes an Invalid Date.
 */
module MediaDtos {
  import opened Js
  import opened MediaItems

  datatype MediaDto = MediaDto(
    id: int,
    name: string,
    altText: Nullable<string>,
    title: Nullable<string>,
    description: Nullable<string>,
    downloadUrl: Nullable<string>,
    mimeType: Nullable<string>,
    size: Nullable<int>,
    uploadDate: Nullable<string>,
    uploadedBy: Nullable<string>,
    uploadedTo: Nullable<string>,
    dimensions: Nullable<string>)

  /** `dto[key]` for the keys the DTO shares with the media item. */
  function DtoGet(dto: MediaDto, key: Key): JsValue
    requires key != UploadDate
  {
    match key
    case Id => NumberValue(dto.id)
    case Name => StringValue(dto.name)
    case AltText => StringProperty(dto.altText)
    case Title => StringProperty(dto.title)
    case Description => StringProperty(dto.description)
    case DownloadUrl => StringProperty(dto.downloadUrl)
    case MimeType => StringProperty(dto.mimeType)
    case Size => NumberProperty(dto.size)
    case UploadedBy => StringProperty(dto.uploadedBy)
    case UploadedTo => StringProperty(dto.uploadedTo)
    case Dimensions => StringProperty(dto.dimensions)
  }

  /** `new Date(Date.parse(text!))`. */
  function ParseUploadDate(text: Nullable<string>, parse: string -> Option<int>): Date {
    match text
    case Present(s) => Date(parse(s))
    case _ => Date(None)
  }

  /** `mediaDtoToMediaItem(dto)`: `{...dto, uploadDate: new Date(Date.parse(dto.uploadDate!))}`. */
  function ToMediaItem(dto: MediaDto, parse: string -> Option<int>): MediaItem {
    MediaItem(dto.id, dto.name, dto.altText, dto.title, dto.description, dto.downloadUrl,
      dto.mimeType, dto.size, Present(ParseUploadDate(dto.uploadDate, parse)),
      dto.uploadedBy, dto.uploadedTo, dto.dimensions)
  }

  /** The spread copies every property but the upload date unchanged; the upload date
      is always a `Date`, valid exactly when the text is present and parses. */
  lemma ToMediaItemProperties(dto: MediaDto, parse: string -> Option<int>)
    ensures forall k :: k != UploadDate ==> Get(ToMediaItem(dto, parse), k) == DtoGet(dto, k)
    ensures Get(ToMediaItem(dto, parse), UploadDate).DateObject?
    ensures Get(ToMediaItem(dto, parse), UploadDate).d.IsValid() <==>
      dto.uploadDate.Present? && parse(dto.uploadDate.value).Some?
    ensures dto.uploadDate.Present? ==>
      Get(ToMediaItem(dto, parse), UploadDate).d.time == parse(dto.uploadDate.value)
  {
  }

  /** Two records that differ anywhere but in the upload date text map to different items;
      with the same text they map to the same item. */
  lemma ToMediaItemInjectiveOffDate(a: MediaDto, b: MediaDto, parse: string -> Option<int>)
    requires a.uploadDate == b.uploadDate
    ensures ToMediaItem(a, parse) == ToMediaItem(b, parse) <==> a == b
  {
  }

  /** A record without an upload date maps to an item that the diff as written reports
      as differing from itself, while the corrected diff does not. */
  lemma MissingDateMakesItemDifferFromItself(dto: MediaDto, parse: string -> Option<int>)
    requires dto.uploadDate.IsNullish()
    ensures DifferedAsWritten(ToMediaItem(dto, parse), ToMediaItem(dto, parse))
    ensures !Differed(ToMediaItem(dto, parse), ToMediaItem(dto, parse))
  {
    InvalidDateDiffersFromItself(ToMediaItem(dto, parse));
    DifferedIrreflexive(ToMediaItem(dto, parse));
  }

  /** `dtos.map(mediaDtoToMediaItem)`. */
  function ToMediaItems(dtos: seq<MediaDto>, parse: string -> Option<int>): (items: seq<MediaItem>)
    ensures |items| == |dtos|
    ensures forall i :: 0 <= i < |dtos| ==> items[i] == ToMediaItem(dtos[i], parse)
  {
    if |dtos| == 0 then [] else [ToMediaItem(dtos[0], parse)] + ToMediaItems(dtos[1..], parse)
  }

  /** The mapped list keeps the ids in the server's order. */
  lemma ToMediaItemsKeepsIds(dtos: seq<MediaDto>, parse: string -> Option<int>)
    ensures forall i :: 0 <= i < |dtos| ==>
      ToMediaItems(dtos, parse)[i].id == dtos[i].id && ToMediaItems(dtos, parse)[i].name == dtos[i].name
  {
  }
}
