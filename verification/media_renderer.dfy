/**
 * `MediaItemRenderer`: the choice of preview for a media item from its MIME
 * type, and the MIME tests it shares with the grid and the item card.
 *
 * `item.mimeType?.startsWith(p)` is `undefined`, hence falsy, when the type is
 * null or undefined, so an item without a type passes none of the tests.
 */
module MediaRenderer {
  import opened Js
  import opened MediaItems

  const ImagePrefix: string := "image/"
  const VideoPrefix: string := "video/"
  const MatroskaSuffix: string := "x-matroska"
  const PdfPrefix: string := "application/pdf"
  /** The image source used when the item has no download URL. */
  const PlaceholderImage: string := "/api/placeholder/400/300"

  predicate MimeStartsWith(item: MediaItem, p: string) {
    item.mimeType.Present? && StartsWith(item.mimeType.value, p)
  }

  predicate MimeEndsWith(item: MediaItem, p: string) {
    item.mimeType.Present? && EndsWith(item.mimeType.value, p)
  }

  predicate IsImage(item: MediaItem) { MimeStartsWith(item, ImagePrefix) }

  predicate IsVideo(item: MediaItem) {
    MimeStartsWith(item, VideoPrefix) || MimeEndsWith(item, MatroskaSuffix)
  }

  predicate IsPdf(item: MediaItem) { MimeStartsWith(item, PdfPrefix) }

  /** A boolean prop with default `false`: the default replaces `undefined`, and `null`
      is falsy. */
  function FlagOrFalse(v: Nullable<bool>): bool {
    v.Present? && v.value
  }

  /** `a || b` on an optional string. */
  function StringOr(v: Nullable<string>, fallback: string): (r: string)
    ensures TruthyString(v) ==> r == v.value
    ensures !TruthyString(v) ==> r == fallback
  {
    if TruthyString(v) then v.value else fallback
  }

  datatype Preview =
    | ImagePreview(src: string)
    | VideoPreview
    | PdfFrame
    | FilePreview(caption: Option<string>)

  /** `renderMediaContent`: the first test that passes, in the order image, video, PDF
      (only when `renderIfPdf` is set), and the file card otherwise. */
  function RendererPreview(item: MediaItem, showDetails: Nullable<bool>, renderIfPdf: Nullable<bool>): (p: Preview)
    ensures p.ImagePreview? <==> IsImage(item)
    ensures p.VideoPreview? <==> !IsImage(item) && IsVideo(item)
    ensures p.PdfFrame? <==> !IsImage(item) && !IsVideo(item) && IsPdf(item) && FlagOrFalse(renderIfPdf)
    ensures p.ImagePreview? ==> (p.src == PlaceholderImage <== !TruthyString(item.downloadUrl))
    ensures p.FilePreview? ==> (p.caption.Some? <==> FlagOrFalse(showDetails))
    ensures p.FilePreview? && p.caption.Some? ==> p.caption.value == item.name
  {
    if IsImage(item) then ImagePreview(StringOr(item.downloadUrl, PlaceholderImage))
    else if IsVideo(item) then VideoPreview
    else if IsPdf(item) && FlagOrFalse(renderIfPdf) then PdfFrame
    else FilePreview(if FlagOrFalse(showDetails) then Some(item.name) else None)
  }

  function WithMime(item: MediaItem, m: string): MediaItem {
    item.(mimeType := Present(m))
  }

  /** What common types look like: an image, a Matroska file under any top-level type
      is a video, a PDF is a frame only on request, an untyped item is a file card, and
      the image test comes first even for a Matroska image. */
  lemma PreviewExamples(item: MediaItem)
    ensures RendererPreview(WithMime(item, "image/png"), Undefined, Undefined).ImagePreview?
    ensures RendererPreview(WithMime(item, "application/x-matroska"), Undefined, Undefined) == VideoPreview
    ensures RendererPreview(WithMime(item, "application/pdf"), Undefined, Present(true)) == PdfFrame
    ensures RendererPreview(WithMime(item, "application/pdf"), Undefined, Undefined) == FilePreview(None)
    ensures RendererPreview(item.(mimeType := Undefined), Present(true), Undefined) == FilePreview(Some(item.name))
    ensures RendererPreview(WithMime(item, "image/x-matroska"), Undefined, Undefined).ImagePreview?
  {
    assert "application/x-matroska"[12..] == MatroskaSuffix;
    assert "application/pdf"[..15] == PdfPrefix;
    assert "application/pdf"[0] != 'v';
    assert "image/png"[..6] == ImagePrefix;
    assert "image/x-matroska"[..6] == ImagePrefix;
    assert "application/x-matroska"[0] != 'i';
    assert "application/pdf"[0] != 'i';
    var m := "application/pdf";
    assert !EndsWith(m, MatroskaSuffix) by {
      assert m[|m| - |MatroskaSuffix|..] != MatroskaSuffix by {
        assert m[|m| - 1] == 'f';
      }
    }
  }
}
