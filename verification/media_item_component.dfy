/**
 * `MediaItemComponent`, the card of one media item: the icon beside its name
 * and the optional sections below the preview.
 *
 * The card's video test looks at the "video/" prefix only, while the renderer
 * inside it also treats a Matroska file as a video, so the two can disagree.
 */
module ItemCard {
  import opened Js
  import opened MediaItems
  import MediaRenderer

  datatype Icon = ImageIcon | VideoIcon | FileIcon

  predicate CardIsImage(item: MediaItem) { MediaRenderer.MimeStartsWith(item, MediaRenderer.ImagePrefix) }
  predicate CardIsVideo(item: MediaItem) { MediaRenderer.MimeStartsWith(item, MediaRenderer.VideoPrefix) }

  /** The icons rendered, in order: one per test that holds, and the file icon when
      neither does. */
  function Icons(item: MediaItem): seq<Icon> {
    (if CardIsImage(item) then [ImageIcon] else [])
    + (if CardIsVideo(item) then [VideoIcon] else [])
    + (if !CardIsImage(item) && !CardIsVideo(item) then [FileIcon] else [])
  }

  /** No MIME type starts with both "image/" and "video/", so the card shows exactly one
      icon, and the video icon exactly for the "video/" types. */
  lemma ExactlyOneIcon(item: MediaItem)
    ensures |Icons(item)| == 1
    ensures Icons(item) == [VideoIcon] <==> CardIsVideo(item)
    ensures Icons(item) == [ImageIcon] <==> CardIsImage(item)
  {
    assert CardIsImage(item) ==> item.mimeType.value[0] == 'i';
    assert CardIsVideo(item) ==> item.mimeType.value[0] == 'v';
    if CardIsVideo(item) {
      assert Icons(item) == [] + [VideoIcon] + [];
    } else if CardIsImage(item) {
      assert Icons(item) == [ImageIcon] + [] + [];
      assert Icons(item)[0] != VideoIcon;
    } else {
      assert Icons(item) == [] + [] + [FileIcon];
      assert Icons(item)[0] != VideoIcon;
    }
  }

  /** A Matroska file outside "video/" is played as a video but carries the file icon. */
  lemma MatroskaIconMismatch(item: MediaItem)
    requires item.mimeType == Present("application/x-matroska")
    ensures Icons(item) == [FileIcon]
    ensures MediaRenderer.RendererPreview(item, Undefined, Present(true)) == MediaRenderer.VideoPreview
  {
    assert "application/x-matroska"[12..] == MediaRenderer.MatroskaSuffix;
    assert "application/x-matroska"[0] == 'a';
  }

  datatype Section = DescriptionSection(text: string) | DateSection | SizeSection(bytes: int)
    | DimensionsSection(text: string) | DownloadSection(url: string)

  /** The sections below the preview, in order; each appears when its field is truthy. A
      date object is truthy even when invalid, and a size of 0 is falsy. */
  function Sections(item: MediaItem): (r: seq<Section>)
    ensures |r| <= 5
    ensures DateSection in r <==> item.uploadDate.Present?
  {
    DescriptionPart(item) + DatePart(item) + SizePart(item) + DimensionsPart(item) + DownloadPart(item)
  }

  function DescriptionPart(item: MediaItem): seq<Section> {
    if TruthyString(item.description) then [DescriptionSection(item.description.value)] else []
  }

  function DatePart(item: MediaItem): seq<Section> {
    if item.uploadDate.Present? then [DateSection] else []
  }

  function SizePart(item: MediaItem): seq<Section> {
    if TruthyNumber(item.size) then [SizeSection(item.size.value)] else []
  }

  function DimensionsPart(item: MediaItem): seq<Section> {
    if TruthyString(item.dimensions) then [DimensionsSection(item.dimensions.value)] else []
  }

  function DownloadPart(item: MediaItem): seq<Section> {
    if TruthyString(item.downloadUrl) then [DownloadSection(item.downloadUrl.value)] else []
  }

  /** A section is on the card exactly when it is the section of one of the five parts. */
  lemma SectionsMembers(item: MediaItem)
    ensures forall x :: x in Sections(item) <==>
      x in DescriptionPart(item) || x in DatePart(item) || x in SizePart(item)
      || x in DimensionsPart(item) || x in DownloadPart(item)
  {
  }

  /** The description shows exactly when it is a non-empty string, and shows its text. */
  lemma DescriptionShownIffTruthy(item: MediaItem)
    ensures (exists t :: DescriptionSection(t) in Sections(item)) <==> TruthyString(item.description)
    ensures forall x :: x in Sections(item) && x.DescriptionSection? ==>
      TruthyString(item.description) && x.text == item.description.value
  {
    SectionsMembers(item);
    if TruthyString(item.description) {
      assert DescriptionSection(item.description.value) in DescriptionPart(item);
    }
  }

  /** The download link shows exactly when the URL is a non-empty string, and links to it. */
  lemma DownloadShownIffTruthy(item: MediaItem)
    ensures (exists u :: DownloadSection(u) in Sections(item)) <==> TruthyString(item.downloadUrl)
    ensures forall x :: x in Sections(item) && x.DownloadSection? ==>
      TruthyString(item.downloadUrl) && x.url == item.downloadUrl.value
  {
    SectionsMembers(item);
    if TruthyString(item.downloadUrl) {
      assert DownloadSection(item.downloadUrl.value) in DownloadPart(item);
    }
  }

  /** The size shows exactly when it is a number other than 0. */
  lemma SizeShownIffTruthy(item: MediaItem)
    ensures (exists b :: SizeSection(b) in Sections(item)) <==> TruthyNumber(item.size)
  {
    SectionsMembers(item);
    if TruthyNumber(item.size) {
      assert SizeSection(item.size.value) in SizePart(item);
    }
  }

  /** The card always asks its renderer for the PDF frame, so a PDF shows as a frame. */
  lemma CardRendersPdf(item: MediaItem)
    requires item.mimeType == Present("application/pdf")
    ensures MediaRenderer.RendererPreview(item, Undefined, Present(true)) == MediaRenderer.PdfFrame
  {
    MediaRenderer.PreviewExamples(item);
  }
}
