/** The older C# variant of the media record (Model.cs). Its string properties
    may be null, written here as `None`. */
module MediaCs {
  import opened Wrappers
  import opened Text
  import opened FileSystem
  import Media

  datatype CsMediaFile = CsMediaFile(
    uuid: Option<string>,
    mediaType: Option<string>,
    contentType: Option<string>,
    expiringUrl: Option<string>,
    expiringVideoUrl: Option<string>)

  /** The exceptions the two methods can throw. */
  datatype CsException =
    | UnknownMediaType(mediaType: Option<string>)
    | UnknownType(contentType: Option<string>)
    | NullReference

  /** `DownloadUrl`: a switch on the media type; the movie url is returned as
      it is, and a null url is returned without an exception. */
  function DownloadUrl(m: CsMediaFile): (r: Result<Option<string>, CsException>)
    ensures r.Ok? <==> m.mediaType == Some("photo") || m.mediaType == Some("movie")
    ensures m.mediaType == Some("photo") ==> r.value == m.expiringUrl
    ensures m.mediaType == Some("movie") ==> r.value == m.expiringVideoUrl
    ensures r.Err? ==> r.error == UnknownMediaType(m.mediaType)
  {
    match m.mediaType
    case Some("photo") => Ok(m.expiringUrl)
    case Some("movie") => Ok(m.expiringVideoUrl)
    case _ => Err(UnknownMediaType(m.mediaType))
  }

  /** `SuggestedFileName`: the content type is switched on first (a null or
      unknown one throws), then the uuid is lower-cased (a null one throws). */
  function SuggestedFileName(m: CsMediaFile, basePath: string): (r: Result<FilePath, CsException>)
    ensures r.Ok? <==> m.uuid.Some? && m.contentType.Some? && Media.Extension(m.contentType.value).Ok?
    ensures r.Ok? ==> r.value.dir == basePath
    ensures r.Ok? ==> EndsWith(r.value.name, "." + Media.Extension(m.contentType.value).value)
    ensures m.contentType.None? || Media.Extension(m.contentType.value).Err? ==> r == Err(UnknownType(m.contentType))
    ensures m.contentType.Some? && Media.Extension(m.contentType.value).Ok? && m.uuid.None? ==> r == Err(NullReference)
  {
    var ext :=
      match m.contentType
      case Some("image/jpeg") => Ok("jpg")
      case Some("image/png") => Ok("png")
      case Some("video/mp4") => Ok("mp4")
      case _ => Err(UnknownType(m.contentType));
    if ext.Err? then Err(ext.error)
    else if m.uuid.None? then Err(NullReference)
    else
      var name := Lower(m.uuid.value) + "." + ext.value;
      assert name[|name| - |"." + ext.value|..] == "." + ext.value;
      Ok(Join(basePath, name))
  }

  /** Two records land in the same file exactly when their uuids differ at
      most in letter case and their content types share an extension. */
  lemma SameFileIff(m1: CsMediaFile, m2: CsMediaFile, basePath: string)
    requires SuggestedFileName(m1, basePath).Ok? && SuggestedFileName(m2, basePath).Ok?
    ensures SuggestedFileName(m1, basePath) == SuggestedFileName(m2, basePath)
        <==> EqualIgnoringCase(m1.uuid.value, m2.uuid.value)
             && Media.Extension(m1.contentType.value) == Media.Extension(m2.contentType.value)
  {
    var u1, u2 := m1.uuid.value, m2.uuid.value;
    var e1, e2 := Media.Extension(m1.contentType.value).value, Media.Extension(m2.contentType.value).value;
    var n1, n2 := Lower(u1) + "." + e1, Lower(u2) + "." + e2;
    assert SuggestedFileName(m1, basePath).value.name == n1;
    assert SuggestedFileName(m2, basePath).value.name == n2;
    LowerIdentifiesCase(u1, u2);
    if n1 == n2 {
      assert |e1| == |e2| == 3;
      assert e1 == n1[|n1| - 3..] == n2[|n2| - 3..] == e2;
      assert Lower(u1) == n1[..|n1| - 4] == n2[..|n2| - 4] == Lower(u2);
    }
  }

  /** The file name depends on the uuid only through its lower-cased form. */
  lemma FileNameIgnoresUuidCase(m1: CsMediaFile, m2: CsMediaFile, basePath: string)
    requires m1.contentType == m2.contentType
    requires m1.uuid.Some? && m2.uuid.Some? && EqualIgnoringCase(m1.uuid.value, m2.uuid.value)
    ensures SuggestedFileName(m1, basePath) == SuggestedFileName(m2, basePath)
  {
    LowerIdentifiesCase(m1.uuid.value, m2.uuid.value);
  }

  /** The Rust record seen through the C# class: every string present. */
  function FromRust(m: Media.MediaFile): CsMediaFile {
    CsMediaFile(Some(m.uuid), Some(m.mediaType), Some(m.contentType), Some(m.expiringUrl), m.expiringVideoUrl)
  }

  /** Both variants name files alike: same file on success, and both refuse
      the same content types. */
  lemma FileNamesAgreeAcrossVariants(m: Media.MediaFile, basePath: string)
    ensures Media.SuggestedFileName(m, basePath).Ok? <==> SuggestedFileName(FromRust(m), basePath).Ok?
    ensures Media.SuggestedFileName(m, basePath).Ok? ==>
      Media.SuggestedFileName(m, basePath).value == SuggestedFileName(FromRust(m), basePath).value
  {
  }

  /** Both variants download photos from the same url. For a movie, the Rust
      variant rewrites the playlist segment and appends `/download` to the url
      the C# variant returns verbatim; a movie without a url is an error only
      in the Rust variant. */
  lemma DownloadUrlsAcrossVariants(m: Media.MediaFile)
    ensures m.mediaType == "photo" ==>
      Media.DownloadUrl(m).Ok? && DownloadUrl(FromRust(m)) == Ok(Some(Media.DownloadUrl(m).value))
    ensures m.mediaType == "movie" && m.expiringVideoUrl.Some? ==>
      DownloadUrl(FromRust(m)) == Ok(Some(m.expiringVideoUrl.value)) &&
      Media.DownloadUrl(m) == Ok(ReplaceAll(m.expiringVideoUrl.value, Media.PlaylistSegment, Media.FilesSegment) + Media.DownloadSuffix)
    ensures m.mediaType == "movie" && m.expiringVideoUrl.None? ==>
      DownloadUrl(FromRust(m)) == Ok(None) && Media.DownloadUrl(m).Err?
    ensures (m.mediaType != "photo" && m.mediaType != "movie") <==>
      (DownloadUrl(FromRust(m)).Err? && Media.DownloadUrl(m).Err?)
  {
  }
}
