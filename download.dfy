/** The download pass of `download_all_media` and `save_media_file`: every
    listed media file is saved once under its suggested name, a video under
    that name plus `.uncompressed` until it is compressed, and nothing that
    already exists is fetched again. */
module Download {
  import opened Wrappers
  import opened Text
  import opened Failures
  import opened FileSystem
  import opened Media

  /** Suffix of a video that has been downloaded but not yet compressed. */
  const RawSuffix: string := ".uncompressed"

  function RawPath(target: FilePath): FilePath {
    WithSuffix(target, RawSuffix)
  }

  /** What happens to one media file: nothing, or a download to a path. */
  datatype Decision = Skip | SaveTo(path: FilePath)

  /** The existence checks before a download: skip when the final file is
      there; a video is also skipped when its raw download is there. */
  function Plan(files: Files, target: FilePath, video: bool): (r: Decision)
    ensures r.SaveTo? ==> r.path !in files && r.path.dir == target.dir
  {
    if target in files then Skip
    else if video && RawPath(target) in files then Skip
    else if video then SaveTo(RawPath(target))
    else SaveTo(target)
  }

  /** A download never overwrites, and it lands on the final name exactly for
      a photo and on the raw name exactly for a video. */
  lemma PlanDecision(files: Files, target: FilePath, video: bool)
    ensures Plan(files, target, video) == Skip <==> target in files || (video && RawPath(target) in files)
    ensures Plan(files, target, video).SaveTo? ==>
      var p := Plan(files, target, video).path;
      p !in files && p.dir == target.dir && (p == target <==> !video) && (p == RawPath(target) <==> video)
  {
    assert RawPath(target) != target by {
      assert |RawPath(target).name| > |target.name|;
    }
  }

  /** The result of `save_media_file`. */
  datatype SaveOutcome = Written(content: seq<Byte>) | Denied | SaveFailed(failure: Failure)

  /** `save_media_file`: a download URL that cannot be formed and a request
      without a response end the run; 403 means the session expired; any
      other status has its body written, error pages included. `serve` stands
      for the media server, answering a URL. */
  function SaveOutcomeOf(m: MediaFile, serve: string -> Response<seq<Byte>>): (r: SaveOutcome)
    ensures DownloadUrl(m).Err? ==> r == SaveFailed(DownloadUrl(m).error)
    ensures DownloadUrl(m).Ok? ==> var reply := serve(DownloadUrl(m).value);
      (r == SaveFailed(Transport) <==> reply.NoResponse?) &&
      (r == Denied <==> reply.Response? && reply.status == 403) &&
      (r.Written? <==> reply.Response? && reply.status != 403) &&
      (r.Written? ==> r.content == reply.body)
  {
    match DownloadUrl(m)
    case Err(e) => SaveFailed(e)
    case Ok(url) =>
      match serve(url)
      case NoResponse => SaveFailed(Transport)
      case Response(status, body) => if status == 403 then Denied else Written(body)
  }

  /** A saved file carries the media's capture time, whole seconds. */
  function Stamped(m: MediaFile, content: seq<Byte>): FileEntry {
    FileEntry(content, Time(m.tookAt, 0))
  }

  /** How a download pass ends. */
  datatype RunOutcome = Finished | AuthExpired | Aborted(failure: Failure)

  /** The files after a pass, how it ended, how many media files it got
      through and how many of those it downloaded. */
  datatype RunState = RunState(files: Files, outcome: RunOutcome, count: nat, downloads: nat)

  /** `r` after `c` more media files processed, `d` of them downloaded. */
  function Lift(r: RunState, c: nat, d: nat): RunState {
    r.(count := r.count + c, downloads := r.downloads + d)
  }

  /** One media file handled: the pass goes on with new files and 0 or 1
      downloads, or stops. */
  datatype ItemStep = Continue(files: Files, downloaded: nat) | Stop(outcome: RunOutcome)

  /** The body of the download loop for one media file `m`. */
  function Advance(files: Files, dir: string, m: MediaFile, serve: string -> Response<seq<Byte>>): (r: ItemStep)
    ensures r.Stop? ==> r.outcome != Finished
    ensures r.Continue? ==> r.downloaded <= 1 && files.Keys <= r.files.Keys
    ensures r.Continue? ==> (r.downloaded == 0 <==> r.files == files)
  {
    match SuggestedFileName(m, dir)
    case Err(e) => Stop(Aborted(e))
    case Ok(target) =>
      match Plan(files, target, IsVideo(m))
      case Skip => Continue(files, 0)
      case SaveTo(p) =>
        match SaveOutcomeOf(m, serve)
        case Denied => Stop(AuthExpired)
        case SaveFailed(e) => Stop(Aborted(e))
        case Written(body) => Continue(files[p := Stamped(m, body)], 1)
  }

  /** The download loop over `items`, saving into directory `dir`. */
  function Run(files: Files, dir: string, items: seq<MediaFile>, serve: string -> Response<seq<Byte>>): (r: RunState)
    decreases |items|
    ensures r.downloads <= r.count <= |items|
    ensures files.Keys <= r.files.Keys
  {
    if items == [] then RunState(files, Finished, 0, 0)
    else
      match Advance(files, dir, items[0], serve)
      case Stop(outcome) => RunState(files, outcome, 0, 0)
      case Continue(next, d) => Lift(Run(next, dir, items[1..], serve), 1, d)
  }

  /** Where a media file is saved when it is not there yet. */
  function SavePath(m: MediaFile, dir: string): Option<FilePath> {
    match SuggestedFileName(m, dir)
    case Err(_) => None
    case Ok(target) => Some(if IsVideo(m) then RawPath(target) else target)
  }

  /** The media file is present on disk, under its final or its raw name. */
  predicate Present(files: Files, dir: string, m: MediaFile) {
    SuggestedFileName(m, dir).Ok? &&
    var target := SuggestedFileName(m, dir).value;
    target in files || (IsVideo(m) && RawPath(target) in files)
  }

  /** `entry` is the file saved for item `i`: at its save path, with its
      capture time. */
  predicate SavedBy(items: seq<MediaFile>, dir: string, i: int, p: FilePath, entry: FileEntry) {
    0 <= i < |items| && SavePath(items[i], dir) == Some(p) && entry.mtime == Time(items[i].tookAt, 0)
  }

  /** One media file: a pass that goes on has `m` present afterwards, keeps
      every earlier file, and either changed nothing or added one new file at
      the save path of `m`, stamped with its capture time. A present file is
      skipped. */
  lemma AdvanceEffect(files: Files, dir: string, m: MediaFile, serve: string -> Response<seq<Byte>>)
    ensures Present(files, dir, m) ==> Advance(files, dir, m, serve) == Continue(files, 0)
    ensures Advance(files, dir, m, serve).Continue? ==>
      var next := Advance(files, dir, m, serve).files;
      var d := Advance(files, dir, m, serve).downloaded;
      Present(next, dir, m) && d <= 1 && files.Keys <= next.Keys &&
      (forall p :: p in files ==> next[p] == files[p]) &&
      (d == 0 ==> next == files) &&
      (d == 1 ==> |next| == |files| + 1 && forall p :: p in next && p !in files ==>
         SavePath(m, dir) == Some(p) && next[p].mtime == Time(m.tookAt, 0))
  {
    if SuggestedFileName(m, dir).Ok? {
      PlanDecision(files, SuggestedFileName(m, dir).value, IsVideo(m));
      var a := Advance(files, dir, m, serve);
      if a.Continue? && a.downloaded == 1 {
        var p := Plan(files, SuggestedFileName(m, dir).value, IsVideo(m)).path;
        assert a.files.Keys == files.Keys + {p};
      }
    }
  }

  /** A pass never changes or removes a file that was there before; every
      file it adds lies in `dir`, is the save path of one of the items, and
      carries that item's capture time. */
  lemma {:induction false} RunOnlyAdds(files: Files, dir: string, items: seq<MediaFile>, serve: string -> Response<seq<Byte>>)
    ensures var r := Run(files, dir, items, serve);
      (forall p :: p in files ==> p in r.files && r.files[p] == files[p]) &&
      (forall p :: p in r.files && p !in files ==>
         p.dir == dir && exists i :: SavedBy(items, dir, i, p, r.files[p]))
    decreases |items|
  {
    if items != [] && Advance(files, dir, items[0], serve).Continue? {
      var m := items[0];
      var rest := items[1..];
      var next := Advance(files, dir, m, serve).files;
      AdvanceEffect(files, dir, m, serve);
      RunOnlyAdds(next, dir, rest, serve);
      var r := Run(files, dir, items, serve);
      assert r.files == Run(next, dir, rest, serve).files;
      forall q | q in r.files && q !in files
        ensures q.dir == dir && exists i :: SavedBy(items, dir, i, q, r.files[q])
      {
        if q in next {
          assert SavedBy(items, dir, 0, q, r.files[q]);
        } else {
          var i :| SavedBy(rest, dir, i, q, r.files[q]);
          assert items[i + 1] == rest[i];
          assert SavedBy(items, dir, i + 1, q, r.files[q]);
        }
      }
    }
  }

  /** The counters: every download is a processed item, a finished pass has
      processed every item, and each download adds exactly one file. */
  lemma {:induction false} RunCounts(files: Files, dir: string, items: seq<MediaFile>, serve: string -> Response<seq<Byte>>)
    ensures var r := Run(files, dir, items, serve);
      r.downloads <= r.count <= |items| &&
      (r.outcome == Finished <==> r.count == |items|) &&
      |r.files| == |files| + r.downloads
    decreases |items|
  {
    if items != [] && Advance(files, dir, items[0], serve).Continue? {
      AdvanceEffect(files, dir, items[0], serve);
      RunCounts(Advance(files, dir, items[0], serve).files, dir, items[1..], serve);
    }
  }

  /** After a finished pass every item is present on disk. */
  lemma {:induction false} RunFinishedCoversAll(files: Files, dir: string, items: seq<MediaFile>, serve: string -> Response<seq<Byte>>)
    requires Run(files, dir, items, serve).outcome == Finished
    ensures forall m :: m in items ==> Present(Run(files, dir, items, serve).files, dir, m)
    decreases |items|
  {
    if items != [] {
      var next := Advance(files, dir, items[0], serve).files;
      AdvanceEffect(files, dir, items[0], serve);
      RunFinishedCoversAll(next, dir, items[1..], serve);
      RunOnlyAdds(next, dir, items[1..], serve);
      assert forall x :: x in items ==> x == items[0] || x in items[1..];
    }
  }

  /** A pass over media files that are all present already downloads nothing
      and changes nothing. */
  lemma {:induction false} AllPresentRunIsNoop(files: Files, dir: string, items: seq<MediaFile>, serve: string -> Response<seq<Byte>>)
    requires forall m :: m in items ==> Present(files, dir, m)
    ensures Run(files, dir, items, serve) == RunState(files, Finished, |items|, 0)
    decreases |items|
  {
    if items != [] {
      assert items[0] in items;
      AdvanceEffect(files, dir, items[0], serve);
      assert forall m :: m in items[1..] ==> m in items;
      AllPresentRunIsNoop(files, dir, items[1..], serve);
    }
  }

  /** Running the same list again after a finished pass is a no-op. */
  lemma RunIdempotent(files: Files, dir: string, items: seq<MediaFile>, serve: string -> Response<seq<Byte>>)
    requires Run(files, dir, items, serve).outcome == Finished
    ensures var r := Run(files, dir, items, serve);
      Run(r.files, dir, items, serve) == RunState(r.files, Finished, |items|, 0)
  {
    RunFinishedCoversAll(files, dir, items, serve);
    AllPresentRunIsNoop(Run(files, dir, items, serve).files, dir, items, serve);
  }

  /** A pass over `items + rest` is a pass over `items` followed, if that
      finished, by a pass over `rest` from the files it left; a pass that
      stopped never looks at `rest`. */
  lemma {:induction false} RunConcat(files: Files, dir: string, items: seq<MediaFile>, rest: seq<MediaFile>, serve: string -> Response<seq<Byte>>)
    ensures var r := Run(files, dir, items, serve);
      Run(files, dir, items + rest, serve) ==
        if r.outcome == Finished then Lift(Run(r.files, dir, rest, serve), r.count, r.downloads) else r
    decreases |items|
  {
    if items == [] {
      assert items + rest == rest;
    } else {
      assert (items + rest)[0] == items[0];
      assert (items + rest)[1..] == items[1..] + rest;
      if Advance(files, dir, items[0], serve).Continue? {
        RunConcat(Advance(files, dir, items[0], serve).files, dir, items[1..], rest, serve);
      }
    }
  }

  /** A pass that stops does so at item `count`: the items before it form a
      finished pass leaving the same files, and that item stops the pass the
      same way. */
  lemma {:induction false} RunStopsAtItem(files: Files, dir: string, items: seq<MediaFile>, serve: string -> Response<seq<Byte>>)
    requires Run(files, dir, items, serve).outcome != Finished
    ensures var r := Run(files, dir, items, serve);
      r.count < |items| &&
      Run(files, dir, items[..r.count], serve) == RunState(r.files, Finished, r.count, r.downloads) &&
      Advance(r.files, dir, items[r.count], serve) == Stop(r.outcome)
    decreases |items|
  {
    var r := Run(files, dir, items, serve);
    var a := Advance(files, dir, items[0], serve);
    if a.Continue? {
      RunStopsAtItem(a.files, dir, items[1..], serve);
      var r1 := Run(a.files, dir, items[1..], serve);
      assert items[..r.count][0] == items[0];
      assert items[..r.count][1..] == items[1..][..r1.count];
      assert items[r.count] == items[1..][r1.count];
    } else {
      assert items[..0] == [];
    }
  }
}
