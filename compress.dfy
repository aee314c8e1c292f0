/** The file handling of `compress_videos`: list the raw downloads in the
    output directory, hand each to the transcoder, and when the compressed
    file is there give it the raw file's modification time and delete the
    raw file. The transcoder itself is a parameter. */
module Compress {
  import opened Wrappers
  import opened Text
  import opened Failures
  import opened FileSystem
  import opened Media
  import opened Download

  /** `replace(".uncompressed", "")`: the compressed file's name. It is no
      longer than the raw name, and a name without the suffix is kept. */
  function Destination(name: string): (r: string)
    ensures |r| <= |name|
    ensures Find(name, RawSuffix).None? ==> r == name
  {
    ReplaceAllNotFound(name, RawSuffix, []);
    ReplaceAll(name, RawSuffix, [])
  }

  /** A raw file's destination is a different, shorter name, so the
      transcoder never writes over its own input. */
  lemma DestinationDiffers(name: string)
    requires EndsWith(name, RawSuffix)
    ensures |Destination(name)| < |name|
  {
    assert OccursAt(name, RawSuffix, |name| - |RawSuffix|) by {
      assert name[|name| - |RawSuffix|..|name| - |RawSuffix| + |RawSuffix|] == name[|name| - |RawSuffix|..];
    }
    ReplaceAllDeleteShrinks(name, RawSuffix, |name| - |RawSuffix|);
  }

  lemma ReplaceAllSelf(from: string, to: string)
    requires from != []
    ensures ReplaceAll(from, from, to) == to
  {
    assert from[|from|..] == [];
    assert OccursAt(from, from, 0);
  }

  /** Appending the raw suffix and then taking the destination gives back
      the original name, when that name has no raw suffix inside it. */
  lemma DestinationOfRaw(base: string)
    requires Find(base, RawSuffix).None?
    ensures Destination(base + RawSuffix) == base
  {
    ReplaceAllConcat(base, RawSuffix, RawSuffix, []);
    ReplaceAllNoMatch(base, RawSuffix, []);
    ReplaceAllSelf(RawSuffix, []);
    assert base + [] == base;
  }

  /** A downloaded video is compressed into exactly the file the download
      pass looks for first, so a later pass skips that video. */
  lemma CompressedVideoIsTarget(m: MediaFile, dir: string, files: Files)
    requires IsVideo(m) && SavePath(m, dir).Some?
    requires Find(SuggestedFileName(m, dir).value.name, RawSuffix).None?
    ensures var raw := SavePath(m, dir).value;
            FilePath(raw.dir, Destination(raw.name)) == SuggestedFileName(m, dir).value
    ensures var raw := SavePath(m, dir).value;
            FilePath(raw.dir, Destination(raw.name)) in files ==> Present(files, dir, m)
  {
    DestinationOfRaw(SuggestedFileName(m, dir).value.name);
  }

  /** What the transcoder did: it could not be started or read, it wrote a
      compressed file, or it finished without writing one. */
  datatype Transcode = LaunchFailed | Produced(content: seq<Byte>) | NoOutput

  /** The files after one raw file, and the failure that stops the pass. */
  datatype Step = Step(files: Files, failure: Option<Failure>)

  /** After the transcoder: if the destination exists, it takes the raw
      file's mtime and the raw file goes; a missing raw file stops the pass. */
  function Settle(files: Files, raw: FilePath, dest: FilePath): (r: Step)
    ensures r.failure.Some? ==> r == Step(files, Some(RawFileMissing))
    ensures dest !in files ==> r == Step(files, None)
    ensures dest in files && raw in files && raw != dest ==>
      r.failure.None? && dest in r.files && raw !in r.files && r.files[dest].mtime == files[raw].mtime
    ensures forall p :: p != raw && p != dest ==> (p in r.files <==> p in files) && (p in files ==> r.files[p] == files[p])
  {
    if dest !in files then Step(files, None)
    else if raw !in files then Step(files, Some(RawFileMissing))
    else Step(files[dest := files[dest].(mtime := files[raw].mtime)] - {raw}, None)
  }

  /** One raw file `name` in `dir`. A written file is stamped with `clock`. */
  function CompressStep(files: Files, dir: string, name: string, transcode: FilePath -> Transcode, clock: Time): (r: Step)
    ensures r.failure == Some(TranscoderFailed) <==> transcode(FilePath(dir, name)).LaunchFailed?
    ensures r.failure == Some(TranscoderFailed) ==> r.files == files
    ensures r.failure.Some? ==> r.failure == Some(TranscoderFailed) || r.failure == Some(RawFileMissing)
    ensures forall p: FilePath :: p.dir != dir ==> (p in r.files <==> p in files) && (p in files ==> r.files[p] == files[p])
  {
    var raw := FilePath(dir, name);
    var dest := FilePath(dir, Destination(name));
    match transcode(raw)
    case LaunchFailed => Step(files, Some(TranscoderFailed))
    case NoOutput => Settle(files, raw, dest)
    case Produced(content) => Settle(files[dest := FileEntry(content, clock)], raw, dest)
  }

  /** One step on a raw file that exists: either the transcoder failed and
      nothing changed, or afterwards exactly one of raw and destination is
      left, the destination with the raw file's modification time; no other
      file changes. */
  lemma CompressStepEffect(files: Files, dir: string, name: string, transcode: FilePath -> Transcode, clock: Time)
    requires EndsWith(name, RawSuffix) && FilePath(dir, name) in files
    ensures var raw := FilePath(dir, name);
            var dest := FilePath(dir, Destination(name));
            var s := CompressStep(files, dir, name, transcode, clock);
            (s.failure.Some? ==> s == Step(files, Some(TranscoderFailed))) &&
            (s.failure.None? ==> (dest in s.files <==> raw !in s.files)) &&
            (dest in s.files && s.failure.None? ==> s.files[dest].mtime == files[raw].mtime) &&
            (transcode(raw).Produced? ==> s.files == files[dest := FileEntry(transcode(raw).content, files[raw].mtime)] - {raw}) &&
            (forall p :: p != raw && p != dest ==> (p in s.files <==> p in files) && (p in files ==> s.files[p] == files[p]))
  {
    DestinationDiffers(name);
    assert FilePath(dir, name) != FilePath(dir, Destination(name));
  }

  /** The outcome of the whole pass, and the count of raw files taken. */
  datatype Pass = Pass(files: Files, failure: Option<Failure>, count: nat)

  /** The loop over the listed raw names, stopping at the first failure. */
  function CompressAll(files: Files, dir: string, names: seq<string>, transcode: FilePath -> Transcode, clock: Time): (r: Pass)
    decreases |names|
    ensures r.count <= |names|
  {
    if names == [] then Pass(files, None, 0)
    else
      var s := CompressStep(files, dir, names[0], transcode, clock);
      if s.failure.Some? then Pass(s.files, s.failure, 0)
      else
        var r := CompressAll(s.files, dir, names[1..], transcode, clock);
        r.(count := r.count + 1)
  }

  /** The pass counts every raw file it gets through, whether or not a
      compressed file came out, and touches nothing outside `dir`. */
  lemma {:induction false} CompressAllCountsAndFrame(files: Files, dir: string, names: seq<string>, transcode: FilePath -> Transcode, clock: Time)
    ensures var r := CompressAll(files, dir, names, transcode, clock);
            r.count <= |names| && (r.failure.None? <==> r.count == |names|) &&
            forall p: FilePath :: p.dir != dir ==> (p in r.files <==> p in files) && (p in files ==> r.files[p] == files[p])
    decreases |names|
  {
    if names != [] {
      var s := CompressStep(files, dir, names[0], transcode, clock);
      if s.failure.None? {
        CompressAllCountsAndFrame(s.files, dir, names[1..], transcode, clock);
      }
    }
  }

  /** The single raw file `base.uncompressed`, transcoded: afterwards only
      `base` is left, with the new content and the raw file's time. */
  lemma OneRawFile(base: string, dir: string, e: FileEntry, content: seq<Byte>, transcode: FilePath -> Transcode, clock: Time)
    requires Find(base, RawSuffix).None?
    requires transcode(FilePath(dir, base + RawSuffix)) == Produced(content)
    ensures CompressAll(map[FilePath(dir, base + RawSuffix) := e], dir, [base + RawSuffix], transcode, clock)
         == Pass(map[FilePath(dir, base) := FileEntry(content, e.mtime)], None, 1)
  {
    var raw := FilePath(dir, base + RawSuffix);
    DestinationOfRaw(base);
    assert raw != FilePath(dir, base) by { assert |base + RawSuffix| > |base|; }
    var files := map[raw := e];
    var after := files[FilePath(dir, base) := FileEntry(content, clock)];
    var settled := after[FilePath(dir, base) := after[FilePath(dir, base)].(mtime := after[raw].mtime)] - {raw};
    assert settled == map[FilePath(dir, base) := FileEntry(content, e.mtime)];
    assert [base + RawSuffix][1..] == [];
  }

  /** The directory listing of `compress_videos`: the names in `dir` that
      end in `.uncompressed`, each once, in the listing's own order. */
  method UncompressedNames(disk: Disk, dir: string) returns (names: seq<string>)
    ensures forall n :: n in names <==> FilePath(dir, n) in disk.files && EndsWith(n, RawSuffix)
    ensures forall i, j :: 0 <= i < j < |names| ==> names[i] != names[j]
  {
    var remaining := set p | p in disk.files && p.dir == dir :: p.name;
    ghost var all := remaining;
    assert forall n :: n in all <==> FilePath(dir, n) in disk.files by {
      forall n | FilePath(dir, n) in disk.files ensures n in all {
        var p := FilePath(dir, n);
        assert p in disk.files && p.dir == dir && p.name == n;
      }
    }
    names := [];
    while remaining != {}
      invariant remaining <= all
      invariant forall n :: n in names ==> n in all && n !in remaining && EndsWith(n, RawSuffix)
      invariant forall n :: n in all && n !in remaining && EndsWith(n, RawSuffix) ==> n in names
      invariant forall i, j :: 0 <= i < j < |names| ==> names[i] != names[j]
      decreases |remaining|
    {
      var n :| n in remaining;
      if EndsWith(n, RawSuffix) {
        names := names + [n];
      }
      remaining := remaining - {n};
    }
  }
}
