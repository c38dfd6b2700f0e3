/**
 * Image rewriting. A converted HTML document is seen only through its image
 * elements: the `src` values in document order. The converter itself and the
 * HTML parser are outside the model.
 */
module Images {
  import opened Storage

  /** The `src` attributes of a document's `img` elements, in document order. */
  type Html = seq<string>

  /** Each `src`, in order, replaced by the URL its asset upload answers with. */
  function RewrittenSrcs(host: string, srcs: Html): (r: Html)
    ensures |r| == |srcs|
    ensures forall i :: 0 <= i < |srcs| ==> r[i] == PublicUrl(host, AssetKey(srcs[i]))
  {
    if srcs == [] then [] else [PublicUrl(host, AssetKey(srcs[0]))] + RewrittenSrcs(host, srcs[1..])
  }

  /** One asset upload per image, in document order. */
  function AssetUploads(srcs: Html): (r: seq<Upload>)
    ensures |r| == |srcs|
    ensures forall i :: 0 <= i < |srcs| ==> r[i] == Upload(srcs[i], AssetKey(srcs[i]))
  {
    if srcs == [] then [] else [Upload(srcs[0], AssetKey(srcs[0]))] + AssetUploads(srcs[1..])
  }

  /**
   * `replace_images_with_s3_urls`: every image's `src` is overwritten, in
   * place and in document order, by the URL of its upload.
   */
  method ReplaceImagesWithS3Urls(host: string, images: array<string>) returns (uploads: seq<Upload>)
    modifies images
    ensures images[..] == RewrittenSrcs(host, old(images[..]))
    ensures uploads == AssetUploads(old(images[..]))
  {
    uploads := [];
    for i := 0 to images.Length
      invariant |uploads| == i
      invariant forall k :: 0 <= k < i ==> uploads[k] == Upload(old(images[k]), AssetKey(old(images[k])))
      invariant forall k :: 0 <= k < i ==> images[k] == PublicUrl(host, AssetKey(old(images[k])))
      invariant forall k :: i <= k < images.Length ==> images[k] == old(images[k])
    {
      var upload := Upload(images[i], AssetKey(images[i]));
      uploads := uploads + [upload];
      images[i] := PublicUrl(host, upload.key);
    }
  }

  /**
   * `markdown_to_html`: `converted` is the converter's output; with asset
   * uploading on, its images are rewritten, otherwise it is returned as is.
   */
  method MarkdownToHtml(host: string, converted: Html, uploadAssetsToS3: bool)
    returns (html: Html, uploads: seq<Upload>)
    ensures html == (if uploadAssetsToS3 then RewrittenSrcs(host, converted) else converted)
    ensures uploads == (if uploadAssetsToS3 then AssetUploads(converted) else [])
  {
    html, uploads := converted, [];
    if uploadAssetsToS3 {
      var images := new string[|converted|](i requires 0 <= i < |converted| => converted[i]);
      assert images[..] == converted;
      uploads := ReplaceImagesWithS3Urls(host, images);
      html := images[..];
    }
  }

  /** Rewriting an already rewritten document yields the same URLs again. */
  lemma RewriteIsIdempotent(host: string, srcs: Html)
    ensures RewrittenSrcs(host, RewrittenSrcs(host, srcs)) == RewrittenSrcs(host, srcs)
  {
    var once := RewrittenSrcs(host, srcs);
    forall i | 0 <= i < |srcs|
      ensures RewrittenSrcs(host, once)[i] == once[i]
    {
      AssetKeyOfAssetUrl(host, srcs[i]);
    }
  }
}
