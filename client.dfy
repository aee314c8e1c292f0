/** `FamilyAlbumClient`: the session state (base address, password, output
    directory, authenticity token, HTTP client) and its four operations. The
    network appears as functions from request to reply, the disk as a `Disk`,
    the transcoder as a function from input path to what it did. */
module AlbumClient {
  import opened Wrappers
  import opened Text
  import opened Failures
  import opened FileSystem
  import opened Media
  import opened FeedScan
  import opened Pagination
  import opened Download
  import opened Compress

  const SiteRoot: string := "https://mitene.us/f/"
  const LoginPath: string := "/login"

  /** The login form that is posted back. */
  datatype LoginForm = LoginForm(authenticityToken: string, password: string, commit: string)

  /** The login exchange: fetch the login page, extract the token, post the
      form with the password. The token, or why logging in failed. */
  function LoginOutcome(page: Response<string>, post: LoginForm -> Response<()>, password: string): (r: Result<string, Failure>)
    ensures page.NoResponse? ==> r == Err(Transport)
    ensures page.Response? && !IsSuccess(page.status) ==> r == Err(LoginPageStatus(page.status))
    ensures page.Response? && IsSuccess(page.status) && Find(page.body, TokenPattern).None? ==> r == Err(TokenPatternMissing)
    ensures r.Ok? ==> page.Response? && AuthToken(page.body) == Ok(r.value) && '"' !in r.value
    ensures r == Err(LoginRejected) ==> page.Response? && IsSuccess(page.status) && AuthToken(page.body).Ok?
  {
    match page
    case NoResponse => Err(Transport)
    case Response(status, text) =>
      if !IsSuccess(status) then Err(LoginPageStatus(status))
      else
        match AuthToken(text)
        case Err(e) => Err(e)
        case Ok(token) =>
          var reply := post(LoginForm(token, password, "Login"));
          if reply.Response? && IsSuccess(reply.status) then Ok(token) else Err(LoginRejected)
  }

  /** Logging in succeeds with token `t` exactly when the login page came back
      with a 2xx status, `t` is the token on it, and the form carrying `t` and
      the password was accepted with a 2xx status. */
  lemma LoginSucceedsIff(page: Response<string>, post: LoginForm -> Response<()>, password: string, t: string)
    ensures LoginOutcome(page, post, password) == Ok(t) <==>
      page.Response? && IsSuccess(page.status) && AuthToken(page.body) == Ok(t) &&
      post(LoginForm(t, password, "Login")).Response? && IsSuccess(post(LoginForm(t, password, "Login")).status)
  {
  }

  /** The listing as the pager sees it: page `p` fetched and scanned. */
  function Pages(listing: nat -> Response<Listing>, decode: string -> Option<Root>): nat -> Result<Root, Failure> {
    (p: nat) => ListingPage(listing(p), decode)
  }

  /** How `compress_videos` ends. */
  datatype CompressOutcome = NothingToCompress | Compressed | CompressFailed(failure: Failure)

  function CompressOutcomeOf(p: Pass): CompressOutcome {
    if p.failure.None? then Compressed else CompressFailed(p.failure.value)
  }

  class FamilyAlbumClient {
    const baseAddress: string
    const password: string
    const outputDirectory: string
    var authToken: Option<string>
    /** How many HTTP clients (each with its own cookie store) have been built. */
    var clients: nat

    constructor (idToken: string, password: string, outputDirectory: string)
      ensures baseAddress == SiteRoot + idToken
      ensures this.password == password && this.outputDirectory == outputDirectory
      ensures authToken == None && clients == 1
    {
      baseAddress := SiteRoot + idToken;
      this.password := password;
      this.outputDirectory := outputDirectory;
      authToken := None;
      clients := 1;
    }

    /** `login`: a fresh client, then the login exchange against
        `<base address>/login`; on success the token is kept. */
    method Login(get: string -> Response<string>, post: LoginForm -> Response<()>) returns (r: Result<(), Failure>)
      modifies this
      ensures clients == old(clients) + 1
      ensures var outcome := LoginOutcome(get(baseAddress + LoginPath), post, password);
              (r.Ok? <==> outcome.Ok?) && (r.Err? ==> r.error == outcome.error) &&
              authToken == (if outcome.Ok? then Some(outcome.value) else old(authToken))
    {
      clients := clients + 1;
      var page := get(baseAddress + LoginPath);
      if page.NoResponse? {
        return Err(Transport);
      }
      if !IsSuccess(page.status) {
        return Err(LoginPageStatus(page.status));
      }
      var token := ExtractAuthToken(page.body);
      if token.Err? {
        return Err(token.error);
      }
      var reply := post(LoginForm(token.value, password, "Login"));
      if reply.NoResponse? || !IsSuccess(reply.status) {
        return Err(LoginRejected);
      }
      authToken := Some(token.value);
      r := Ok(());
    }

    /** `save_media_file`: request the media, write the body to `filename`
        and stamp it with the capture time. */
    method SaveMediaFile(disk: Disk, filename: FilePath, m: MediaFile, serve: string -> Response<seq<Byte>>) returns (r: SaveOutcome)
      modifies disk
      ensures r == SaveOutcomeOf(m, serve)
      ensures r.Written? ==> disk.files == old(disk.files)[filename := Stamped(m, r.content)]
      ensures !r.Written? ==> disk.files == old(disk.files)
    {
      var url := DownloadUrl(m);
      if url.Err? {
        return SaveFailed(url.error);
      }
      var reply := serve(url.value);
      if reply.NoResponse? {
        return SaveFailed(Transport);
      }
      if reply.status == 403 {
        return Denied;
      }
      disk.Write(filename, reply.body);
      disk.SetMtime(filename, Time(m.tookAt, 0));
      r := Written(reply.body);
    }

    /** One pass of the loop of `download_all_media`, on the first of
        `items`: the existence checks, then the download. `stop` says how the
        pass ended if this item ended it. */
    method ProcessItem(disk: Disk, items: seq<MediaFile>, serve: string -> Response<seq<Byte>>)
      returns (stop: Option<RunOutcome>, downloaded: nat)
      requires items != []
      modifies disk
      ensures stop.None? ==> downloaded <= 1
      ensures stop.None? ==>
        Run(old(disk.files), outputDirectory, items, serve) == Lift(Run(disk.files, outputDirectory, items[1..], serve), 1, downloaded)
      ensures stop.Some? ==> Run(old(disk.files), outputDirectory, items, serve) == RunState(disk.files, stop.value, 0, 0)
    {
      downloaded := 0;
      var m := items[0];
      var name := SuggestedFileName(m, outputDirectory);
      if name.Err? {
        return Some(Aborted(name.error)), 0;
      }
      var filename := name.value;
      if !disk.Exists(filename) {
        if IsVideo(m) {
          filename := RawPath(filename);
        }
        if !disk.Exists(filename) {
          var saved := SaveMediaFile(disk, filename, m, serve);
          if saved.Denied? {
            return Some(AuthExpired), 0;
          }
          if saved.SaveFailed? {
            return Some(Aborted(saved.failure)), 0;
          }
          downloaded := 1;
        }
      }
      stop := None;
    }

    /** The loop of `download_all_media` over the collected media files. */
    method SaveAll(disk: Disk, items: seq<MediaFile>, serve: string -> Response<seq<Byte>>)
      returns (outcome: RunOutcome, count: nat, downloads: nat)
      modifies disk
      ensures RunState(disk.files, outcome, count, downloads) == Run(old(disk.files), outputDirectory, items, serve)
    {
      ghost var files0 := disk.files;
      count, downloads := 0, 0;
      var i := 0;
      while i < |items|
        invariant 0 <= i <= |items|
        invariant Run(files0, outputDirectory, items, serve) == Lift(Run(disk.files, outputDirectory, items[i..], serve), count, downloads)
      {
        assert items[i..][1..] == items[i + 1..];
        var stop, downloaded := ProcessItem(disk, items[i..], serve);
        if stop.Some? {
          return stop.value, count, downloads;
        }
        downloads := downloads + downloaded;
        count := count + 1;
        i := i + 1;
      }
      outcome := Finished;
    }

    /** `download_all_media`: page through the album, then save every media
        file that is not on disk yet. A 403 ends the pass as an expired
        session; any other failure aborts it. */
    method DownloadAllMedia(disk: Disk, listing: nat -> Response<Listing>, decode: string -> Option<Root>, serve: string -> Response<seq<Byte>>)
      returns (outcome: RunOutcome, count: nat, downloads: nat)
      requires Paginates(Pages(listing, decode))
      modifies disk
      ensures AllMedia(Pages(listing, decode)).Err? ==>
        outcome == Aborted(AllMedia(Pages(listing, decode)).error) && disk.files == old(disk.files) && count == 0 && downloads == 0
      ensures AllMedia(Pages(listing, decode)).Ok? ==>
        RunState(disk.files, outcome, count, downloads) == Run(old(disk.files), outputDirectory, AllMedia(Pages(listing, decode)).value, serve)
    {
      var fetched, _ := FetchImagesUrls(Pages(listing, decode));
      if fetched.Err? {
        return Aborted(fetched.error), 0, 0;
      }
      outcome, count, downloads := SaveAll(disk, fetched.value, serve);
    }

    /** The body of the loop of `compress_videos` for the raw file `name`:
        run the transcoder, then give the compressed file the raw file's
        modification time and delete the raw file. */
    method CompressFile(disk: Disk, name: string, transcode: FilePath -> Transcode) returns (failure: Option<Failure>)
      modifies disk
      ensures Step(disk.files, failure) == CompressStep(old(disk.files), outputDirectory, name, transcode, disk.clock)
    {
      var raw := FilePath(outputDirectory, name);
      var dest := FilePath(outputDirectory, Destination(name));
      var done := transcode(raw);
      if done.LaunchFailed? {
        return Some(TranscoderFailed);
      }
      if done.Produced? {
        disk.Write(dest, done.content);
      }
      if disk.Exists(dest) {
        if !disk.Exists(raw) {
          return Some(RawFileMissing);
        }
        disk.SetMtime(dest, disk.files[raw].mtime);
        disk.Remove(raw);
      }
      failure := None;
    }

    /** `compress_videos`: with the transcoder available, list the raw
        downloads and compress them one by one. `names` is the listing, in
        the order the directory gave it. */
    method CompressVideos(disk: Disk, transcoderReady: bool, transcode: FilePath -> Transcode)
      returns (outcome: CompressOutcome, count: nat, names: seq<string>)
      modifies disk
      ensures !transcoderReady ==> outcome == CompressFailed(TranscoderFailed) && disk.files == old(disk.files) && count == 0
      ensures transcoderReady ==>
        (forall n :: n in names <==> FilePath(outputDirectory, n) in old(disk.files) && EndsWith(n, RawSuffix)) &&
        (forall i, j :: 0 <= i < j < |names| ==> names[i] != names[j])
      ensures transcoderReady && names == [] ==> outcome == NothingToCompress && disk.files == old(disk.files) && count == 0
      ensures transcoderReady && names != [] ==>
        var pass := CompressAll(old(disk.files), outputDirectory, names, transcode, disk.clock);
        disk.files == pass.files && count == pass.count && outcome == CompressOutcomeOf(pass)
    {
      count := 0;
      names := [];
      if !transcoderReady {
        return CompressFailed(TranscoderFailed), count, names;
      }
      names := UncompressedNames(disk, outputDirectory);
      if names == [] {
        return NothingToCompress, count, names;
      }
      ghost var files0 := disk.files;
      var i := 0;
      while i < |names|
        invariant 0 <= i <= |names|
        invariant var pass := CompressAll(files0, outputDirectory, names, transcode, disk.clock);
                  var rest := CompressAll(disk.files, outputDirectory, names[i..], transcode, disk.clock);
                  pass == rest.(count := rest.count + count)
      {
        assert names[i..][0] == names[i] && names[i..][1..] == names[i + 1..];
        var failure := CompressFile(disk, names[i], transcode);
        if failure.Some? {
          return CompressFailed(failure.value), count, names;
        }
        count := count + 1;
        i := i + 1;
      }
      outcome := Compressed;
    }
  }
}
