/** `MediaDownloader`: which download strategy a media URL takes and which
    file extension a downloaded image gets. The downloads themselves (the
    `yt-dlp` subprocess and the HTTP fetch) are parameters. */
module Media {
  import opened Base
  import opened Text

  datatype MediaKind = Video | Image

  /** A URL goes to the video strategy when its lowercased form mentions
      an HLS playlist or the word "video". */
  predicate LooksLikeVideo(url: string) {
    Contains(Lower(url), ".m3u8") || Contains(Lower(url), "video")
  }

  /** The branch `download_media` takes; `None` when it returns at once. */
  function Route(url: Option<string>): (r: Option<MediaKind>)
    ensures r.None? <==> url.None? || url.value == ""
    ensures r == Some(Video) <==> url.Some? && url.value != "" && LooksLikeVideo(url.value)
    ensures r == Some(Image) <==> url.Some? && url.value != "" && !LooksLikeVideo(url.value)
  {
    if url.None? || url.value == "" then None
    else if LooksLikeVideo(url.value) then Some(Video)
    else Some(Image)
  }

  /** `download_media`. `fetchVideo` and `fetchImage` stand for
      `_download_video` and `_download_image`; every failure of theirs,
      raised or returned, is `None`, because `download_media` catches
      whatever they raise. */
  function DownloadMedia(url: Option<string>, fetchVideo: string -> Option<string>,
                         fetchImage: string -> Option<string>): (r: Option<string>)
    ensures url.None? || url == Some("") ==> r.None?
    ensures Route(url) == Some(Video) ==> url.Some? && r == fetchVideo(url.value)
    ensures Route(url) == Some(Image) ==> url.Some? && r == fetchImage(url.value)
    ensures Route(url).None? ==> r.None?
  {
    match Route(url)
    case None => None
    case Some(Video) => fetchVideo(url.value)
    case Some(Image) => fetchImage(url.value)
  }

  /** Every non-empty URL is handed to exactly one fetcher: the video one
      when it mentions ".m3u8" or "video" in any case, the image one
      otherwise, and its answer is returned unchanged. */
  lemma DownloadMediaDispatch(url: string, fetchVideo: string -> Option<string>,
                              fetchImage: string -> Option<string>)
    requires url != ""
    ensures LooksLikeVideo(url) ==> DownloadMedia(Some(url), fetchVideo, fetchImage) == fetchVideo(url)
    ensures !LooksLikeVideo(url) ==> DownloadMedia(Some(url), fetchVideo, fetchImage) == fetchImage(url)
  {
  }

  lemma LowerUpper(s: string)
    ensures Lower(Upper(s)) == Lower(s)
  {
  }

  /** Routing ignores ASCII case: a URL, its lowercase and its uppercase
      form all take the same branch. */
  lemma RouteIgnoresCase(url: string)
    ensures Route(Some(url)) == Route(Some(Lower(url)))
    ensures Route(Some(url)) == Route(Some(Upper(url)))
  {
    LowerIdempotent(url);
    LowerUpper(url);
  }

  /** The extensions `_download_image` looks for, in the order it tries them. */
  const ImageExtensions: seq<string> := ["png", "jpeg", "gif", "webp"]

  /** The first of `exts` that occurs as `"." + ext` in `low`. */
  function FirstExtension(low: string, exts: seq<string>): (r: Option<nat>)
    ensures r.Some? ==> r.value < |exts| && Contains(low, "." + exts[r.value])
    ensures r.Some? ==> forall j :: 0 <= j < r.value ==> !Contains(low, "." + exts[j])
    ensures r.None? ==> forall j :: 0 <= j < |exts| ==> !Contains(low, "." + exts[j])
  {
    if |exts| == 0 then None
    else if Contains(low, "." + exts[0]) then Some(0)
    else match FirstExtension(low, exts[1..])
      case None => None
      case Some(j) => Some(j + 1)
  }

  /** The extension `_download_image` gives the saved file. */
  function ImageExtension(url: string): (r: string)
    ensures r == "jpg" || r in ImageExtensions
    ensures r == "jpg" <==> forall j :: 0 <= j < |ImageExtensions| ==> !Contains(Lower(url), "." + ImageExtensions[j])
    ensures forall i :: 0 <= i < |ImageExtensions| && r == ImageExtensions[i] ==>
      Contains(Lower(url), "." + r) && forall j :: 0 <= j < i ==> !Contains(Lower(url), "." + ImageExtensions[j])
  {
    match FirstExtension(Lower(url), ImageExtensions)
    case None => "jpg"
    case Some(i) => ImageExtensions[i]
  }

  /** A URL naming both a JPEG and a PNG is saved as PNG; one naming
      none of the four, such as a `.jpg` URL, falls back to "jpg". */
  lemma ImageExtensionExamples()
    ensures ImageExtension("https://a.io/x.JPEG?b.png") == "png"
    ensures ImageExtension("https://a.io/x.jpg") == "jpg"
  {
    var u := Lower("https://a.io/x.JPEG?b.png");
    assert u[21..25] == ".png";
    assert "." + ImageExtensions[0] == ".png";
    assert OccursAt(u, ".png", 21);
    var v := Lower("https://a.io/x.jpg");
    assert 'n' !in v && 'e' !in v && 'f' !in v && 'w' !in v;
    assert "." + ImageExtensions[0] == ".png" && "." + ImageExtensions[1] == ".jpeg";
    assert "." + ImageExtensions[2] == ".gif" && "." + ImageExtensions[3] == ".webp";
    MissingCharNoContains(v, ".png", 2);
    MissingCharNoContains(v, ".jpeg", 3);
    MissingCharNoContains(v, ".gif", 3);
    MissingCharNoContains(v, ".webp", 1);
  }
}
