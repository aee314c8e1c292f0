/** The listing records of src/model.rs and the three things the downloader
    derives from a media record: whether it is a video, where to download it
    from, and which file to store it in. */
module Media {
  import opened Wrappers
  import opened Text
  import opened Failures
  import opened FileSystem

  /** One media record of the feed. Only the fields the downloader reads are
      kept; `took_at` is whole seconds since the Unix epoch. */
  datatype MediaFile = MediaFile(
    id: int,
    uuid: string,
    mediaType: string,
    contentType: string,
    tookAt: int,
    expiringUrl: string,
    expiringThumbUrl: string,
    expiringVideoUrl: Option<string>)

  /** One page of the feed. */
  datatype Root = Root(hasNext: bool, hasPrev: bool, currentPage: int, mediaFiles: seq<MediaFile>)

  const PlaylistSegment: string := "media_files_playlist"
  const FilesSegment: string := "media_files"
  const DownloadSuffix: string := "/download"

  /** `is_video`: a record is a video exactly when its file gets the `mp4`
      extension of the table below. */
  predicate IsVideo(m: MediaFile): (r: bool)
    ensures r <==> Extension(m.contentType) == Ok("mp4")
  {
    m.contentType == "video/mp4"
  }

  /** File extension for a content type; any other type stops the run. */
  function Extension(contentType: string): (r: Result<string, Failure>)
    ensures r.Ok? ==> r.value in {"jpg", "png", "mp4"}
    ensures r == Ok("jpg") <==> contentType == "image/jpeg"
    ensures r == Ok("png") <==> contentType == "image/png"
    ensures r == Ok("mp4") <==> contentType == "video/mp4"
    ensures r.Err? ==> r.error == UnknownContentType(contentType)
  {
    if contentType == "image/jpeg" then Ok("jpg")
    else if contentType == "image/png" then Ok("png")
    else if contentType == "video/mp4" then Ok("mp4")
    else Err(UnknownContentType(contentType))
  }

  /** Where a record is downloaded from. A movie's url gets `/download`
      appended and then every `media_files_playlist` replaced; since no
      occurrence can reach into the appended `/download`, the result is the
      rewritten url followed by `/download`. */
  function DownloadUrl(m: MediaFile): (r: Result<string, Failure>)
    ensures m.mediaType == "photo" ==> r == Ok(m.expiringUrl)
    ensures m.mediaType == "movie" && m.expiringVideoUrl.None? ==> r == Err(MissingVideoUrl)
    ensures m.mediaType == "movie" && m.expiringVideoUrl.Some? ==>
      r == Ok(ReplaceAll(m.expiringVideoUrl.value, PlaylistSegment, FilesSegment) + DownloadSuffix)
    ensures m.mediaType == "movie" && m.expiringVideoUrl.Some? ==> EndsWith(r.value, DownloadSuffix)
    ensures m.mediaType != "photo" && m.mediaType != "movie" ==> r == Err(UnknownMediaType(m.mediaType))
  {
    if m.mediaType == "photo" then Ok(m.expiringUrl)
    else if m.mediaType == "movie" then
      match m.expiringVideoUrl
      case None => Err(MissingVideoUrl)
      case Some(url) =>
        DownloadSuffixSurvivesRewrite(url);
        Ok(ReplaceAll(url + DownloadSuffix, PlaylistSegment, FilesSegment))
    else Err(UnknownMediaType(m.mediaType))
  }

  lemma DownloadSuffixSurvivesRewrite(url: string)
    ensures ReplaceAll(url + DownloadSuffix, PlaylistSegment, FilesSegment)
         == ReplaceAll(url, PlaylistSegment, FilesSegment) + DownloadSuffix
  {
    assert DownloadSuffix[0] == '/' && '/' !in PlaylistSegment[1..];
    ReplaceAllConcat(url, DownloadSuffix, PlaylistSegment, FilesSegment);
    ReplaceAllShort(DownloadSuffix, PlaylistSegment, FilesSegment);
  }

  /** A movie url with one playlist segment, between a head and a tail in
      which the segment does not occur and where the tail is empty or starts a
      new path component: only that segment is rewritten, and `/download`
      goes at the end. */
  lemma MovieUrlRewrite(m: MediaFile, head: string, tail: string)
    requires m.mediaType == "movie" && m.expiringVideoUrl == Some(head + (PlaylistSegment + tail))
    requires forall k :: 0 <= k < |head| ==> !OccursAt(head, PlaylistSegment, k)
    requires forall k :: 0 <= k < |tail| ==> !OccursAt(tail, PlaylistSegment, k)
    requires tail == [] || tail[0] == '/'
    ensures DownloadUrl(m) == Ok(head + (FilesSegment + tail) + DownloadSuffix)
  {
    PlaylistRewrite(head, tail);
  }

  /** `https://x/media_files_playlist/abc` is downloaded from
      `https://x/media_files/abc/download`. */
  lemma MovieUrlExample(m: MediaFile)
    requires m.mediaType == "movie" && m.expiringVideoUrl == Some("https://x/media_files_playlist/abc")
    ensures DownloadUrl(m) == Ok("https://x/media_files/abc/download")
  {
    ExampleParts("https://x/", "/abc");
    MovieUrlRewrite(m, "https://x/", "/abc");
  }

  lemma ExampleParts(head: string, tail: string)
    requires head == "https://x/" && tail == "/abc"
    ensures "https://x/media_files_playlist/abc" == head + (PlaylistSegment + tail)
    ensures head + (FilesSegment + tail) + DownloadSuffix == "https://x/media_files/abc/download"
    ensures forall k :: 0 <= k < |head| ==> !OccursAt(head, PlaylistSegment, k)
    ensures forall k :: 0 <= k < |tail| ==> !OccursAt(tail, PlaylistSegment, k)
  {
  }

  /** One playlist segment between a head and a tail free of it, the tail
      empty or starting with `/`, is rewritten, and nothing else changes. */
  lemma PlaylistRewrite(head: string, tail: string)
    requires forall k :: 0 <= k < |head| ==> !OccursAt(head, PlaylistSegment, k)
    requires forall k :: 0 <= k < |tail| ==> !OccursAt(tail, PlaylistSegment, k)
    requires tail == [] || tail[0] == '/'
    ensures ReplaceAll(head + (PlaylistSegment + tail), PlaylistSegment, FilesSegment) == head + (FilesSegment + tail)
  {
    SplitBeforeSegment(head, tail);
    RewriteSegment(tail);
    ReplaceAllNoMatch(head, PlaylistSegment, FilesSegment);
  }

  lemma SplitBeforeSegment(head: string, tail: string)
    ensures ReplaceAll(head + (PlaylistSegment + tail), PlaylistSegment, FilesSegment)
         == ReplaceAll(head, PlaylistSegment, FilesSegment) + ReplaceAll(PlaylistSegment + tail, PlaylistSegment, FilesSegment)
  {
    var rest := PlaylistSegment + tail;
    assert rest[0] == 'm';
    assert 'm' !in PlaylistSegment[1..];
    ReplaceAllConcat(head, rest, PlaylistSegment, FilesSegment);
  }

  lemma RewriteSegment(tail: string)
    requires forall k :: 0 <= k < |tail| ==> !OccursAt(tail, PlaylistSegment, k)
    requires tail == [] || tail[0] == '/'
    ensures ReplaceAll(PlaylistSegment + tail, PlaylistSegment, FilesSegment) == FilesSegment + tail
  {
    var s := PlaylistSegment + tail;
    assert s[..|PlaylistSegment|] == PlaylistSegment && s[|PlaylistSegment|..] == tail;
    ReplaceAllNoMatch(tail, PlaylistSegment, FilesSegment);
  }

  /** The file a record is stored in: the lower-cased uuid with the
      extension of its content type, inside `basePath`. */
  function SuggestedFileName(m: MediaFile, basePath: string): (r: Result<FilePath, Failure>)
    ensures r.Ok? <==> Extension(m.contentType).Ok?
    ensures r.Err? ==> r.error == UnknownContentType(m.contentType)
    ensures r.Ok? ==> r.value.dir == basePath
    ensures r.Ok? ==> EndsWith(r.value.name, "." + Extension(m.contentType).value)
    ensures r.Ok? ==> forall i :: 0 <= i < |r.value.name| ==> !('A' <= r.value.name[i] <= 'Z')
  {
    match Extension(m.contentType)
    case Err(e) => Err(e)
    case Ok(ext) =>
      var name := Lower(m.uuid) + "." + ext;
      assert name[|name| - |"." + ext|..] == "." + ext;
      Ok(Join(basePath, name))
  }

  /** Two records land in the same file exactly when their uuids differ at
      most in letter case and their content types share an extension. */
  lemma SameFileIff(m1: MediaFile, m2: MediaFile, basePath: string)
    requires SuggestedFileName(m1, basePath).Ok? && SuggestedFileName(m2, basePath).Ok?
    ensures SuggestedFileName(m1, basePath) == SuggestedFileName(m2, basePath)
        <==> EqualIgnoringCase(m1.uuid, m2.uuid) && Extension(m1.contentType) == Extension(m2.contentType)
  {
    var e1, e2 := Extension(m1.contentType).value, Extension(m2.contentType).value;
    var n1, n2 := Lower(m1.uuid) + "." + e1, Lower(m2.uuid) + "." + e2;
    LowerIdentifiesCase(m1.uuid, m2.uuid);
    if n1 == n2 {
      assert |e1| == |e2| == 3;
      assert e1 == n1[|n1| - 3..] == n2[|n2| - 3..] == e2;
      assert Lower(m1.uuid) == n1[..|n1| - 4] == n2[..|n2| - 4] == Lower(m2.uuid);
    }
  }
}
