/** The pure parts of `download_and_merge` (video_downloader_V4_HDR.py lines
    123-161): naming of the merged and temporary files, the remux command, and
    the delete-then-rename replace protocol, run on an abstract file system
    that maps paths to contents. The fetch, `prepare_filename` and the ffmpeg
    process are not modelled; their results are inputs. */
module Remux {
  import opened Wrappers
  import opened Streams

  newtype byte = x: int | 0 <= x < 256
  type Bytes = seq<byte>

  /** Path to contents; a path not in the map does not exist. */
  type FileSystem = map<string, Bytes>

  const MergedExtension: string := ".mkv"
  const TempSuffix: string := ".tmp.mkv"

  /** `i` is the position of the last '.' in `s`. */
  predicate IsLastDot(s: string, i: int) {
    && 0 <= i < |s|
    && s[i] == '.'
    && forall j :: i < j < |s| ==> s[j] != '.'
  }

  /** Position of the last '.' in `s`, scanning from the end. */
  function LastDot(s: string): (r: Option<nat>)
    ensures r.None? <==> '.' !in s
    ensures r.Some? ==> IsLastDot(s, r.value)
  {
    if |s| == 0 then None
    else if s[|s| - 1] == '.' then Some(|s| - 1)
    else
      var r := LastDot(s[..|s| - 1]);
      assert forall c :: c in s <==> c in s[..|s| - 1] || c == s[|s| - 1] by {
        assert s == s[..|s| - 1] + [s[|s| - 1]];
      }
      r
  }

  /** The container name: the last '.'-suffix of the fetched name is replaced
      by ".mkv", or ".mkv" is appended when the name has no '.'. */
  function MergedName(filename: string): (r: string)
    ensures '.' !in filename ==> r == filename + MergedExtension
    ensures forall i :: IsLastDot(filename, i) ==> r == filename[..i] + MergedExtension
  {
    match LastDot(filename)
    case None => filename + MergedExtension
    case Some(i) => filename[..i] + MergedExtension
  }

  /** The temporary sibling ffmpeg writes to; never the merged name itself. */
  function TempName(merged: string): (r: string)
    ensures |r| > |merged| && r[..|merged|] == merged
  {
    assert (merged + TempSuffix)[..|merged|] == merged;
    merged + TempSuffix
  }

  /** The argv of the remux process at lines 147-149: overwrite without
      asking, read `input`, copy every stream without re-encoding, write
      `output`. Only the two paths vary. */
  function RemuxArgv(input: string, output: string): (argv: seq<string>)
    ensures |argv| == 7
    ensures argv[..3] == ["ffmpeg", "-y", "-i"] && argv[4..6] == ["-c", "copy"]
    ensures argv[3] == input && argv[6] == output
  {
    ["ffmpeg", "-y", "-i", input, "-c", "copy", output]
  }

  /** A name made of a stem and a dot-free extension merges to stem + ".mkv". */
  lemma MergedNameOfExtension(stem: string, ext: string)
    requires '.' !in ext
    ensures MergedName(stem + "." + ext) == stem + MergedExtension
  {
    var s := stem + "." + ext;
    assert IsLastDot(s, |stem|) by {
      forall j | |stem| < j < |s| ensures s[j] != '.' {
        assert s[j] == ext[j - |stem| - 1];
      }
    }
    assert s[..|stem|] == stem;
  }

  /** Merging a merged name changes nothing. */
  lemma MergedNameIdempotent(filename: string)
    ensures MergedName(MergedName(filename)) == MergedName(filename)
  {
  }

  /** The remux never writes over its own input. */
  lemma TempNeverInput(filename: string)
    ensures TempName(MergedName(filename)) != filename
  {
  }

  /** The command run for a fetched file reads that file and writes the
      temporary name, which differs from both the input and the merged name. */
  lemma RemuxCommandShape(filename: string)
    ensures var argv := RemuxArgv(filename, TempName(MergedName(filename)));
      && |argv| == 7
      && argv[0] == "ffmpeg" && argv[1] == "-y" && argv[2] == "-i" && argv[4] == "-c" && argv[5] == "copy"
      && argv[3] == filename
      && argv[6] != filename
      && argv[6] != MergedName(filename)
  {
  }

  /** `os.remove`: fails when the path does not exist. */
  function RemoveFile(fs: FileSystem, path: string): (r: Result<FileSystem>)
    ensures r.Success? <==> path in fs
    ensures r.Success? ==> path !in r.value && forall p :: p != path ==> Unchanged(fs, r.value, p)
  {
    if path in fs then Success(fs - {path}) else Failure("FileNotFoundError")
  }

  /** `os.rename` with the semantics of the platform the tool targets
      (Windows): it fails when the source is missing or the destination
      already exists, which is why the replace deletes first. */
  function RenameFile(fs: FileSystem, src: string, dst: string): (r: Result<FileSystem>)
    ensures r.Success? <==> src in fs && dst !in fs
    ensures r.Success? ==>
      && src !in r.value && dst in r.value && r.value[dst] == fs[src]
      && forall p :: p != src && p != dst ==> Unchanged(fs, r.value, p)
  {
    if src !in fs then Failure("FileNotFoundError")
    else if dst in fs then Failure("FileExistsError")
    else Success(fs[dst := fs[src]] - {src})
  }

  /** Path `p` exists in both or neither, with the same contents. */
  predicate Unchanged(before: FileSystem, after: FileSystem, p: string) {
    (p in before <==> p in after) && (p in before ==> before[p] == after[p])
  }

  /** The observable effect of one ffmpeg run: exit status zero with the
      remuxed output, or a failure (`check=True` raises), possibly after a
      partial output was written. */
  datatype RemuxRun = Completed(output: Bytes) | Failed(partial: Option<Bytes>)

  /** The file system after the ffmpeg run; `-y` overwrites the output. */
  function RunRemux(fs: FileSystem, temp: string, run: RemuxRun): (r: FileSystem)
    ensures run.Completed? ==> temp in r && r[temp] == run.output
    ensures run.Failed? && run.partial.Some? ==> temp in r && r[temp] == run.partial.value
    ensures run == Failed(None) ==> r == fs
    ensures forall p :: p != temp ==> Unchanged(fs, r, p)
  {
    match run
    case Completed(out) => fs[temp := out]
    case Failed(Some(out)) => fs[temp := out]
    case Failed(None) => fs
  }

  /** The file system where a sequence of file operations stopped, and
      whether all of them succeeded. */
  datatype Attempt = Attempt(fs: FileSystem, ok: bool)

  /** Lines 152-155: delete the merged file if it exists, then rename the
      temporary file onto it. A failing step leaves the file system as the
      earlier steps made it: a rename that failed after the delete leaves the
      merged path gone. */
  function ReplaceMerged(fs: FileSystem, merged: string, temp: string): (r: Attempt)
    ensures temp in fs && temp != merged ==>
      && r.ok
      && merged in r.fs && r.fs[merged] == fs[temp]
      && temp !in r.fs
      && forall p :: p != merged && p != temp ==> Unchanged(fs, r.fs, p)
  {
    var cleared := if merged in fs then RemoveFile(fs, merged) else Success(fs);
    match cleared
    case Failure(_) => Attempt(fs, false)
    case Success(fs1) =>
      match RenameFile(fs1, temp, merged)
      case Failure(_) => Attempt(fs1, false)
      case Success(fs2) => Attempt(fs2, true)
  }

  /** The window the delete-then-rename order leaves open: if the rename
      fails after the old merged file was deleted (here, because the
      temporary file is missing), the merged path is gone. */
  lemma RenameFailureAfterDelete(fs: FileSystem, merged: string, temp: string)
    requires merged in fs && temp !in fs
    ensures ReplaceMerged(fs, merged, temp) == Attempt(fs - {merged}, false)
  {
  }

  /** File system after the merge step, the ffmpeg command that ran, and the
      merged path on success. */
  datatype MergeStep = MergeStep(fs: FileSystem, command: seq<string>, merged: Option<string>)

  /** Lines 144-155: name the outputs, run ffmpeg, and replace only after the
      remux succeeded. Any raised error yields no merged path. */
  function MergeAndReplace(fs: FileSystem, filename: string, run: RemuxRun): (r: MergeStep)
    ensures |r.command| == 7 && r.command[3] == filename
    ensures r.command[6] == TempName(MergedName(filename))
    ensures run.Failed? ==> forall p :: p != r.command[6] ==> Unchanged(fs, r.fs, p)
    ensures run.Failed? ==> r.merged.None?
    ensures run.Failed? ==> forall p :: p != TempName(MergedName(filename)) ==> Unchanged(fs, r.fs, p)
    ensures run == Failed(None) ==> r.fs == fs
    ensures run.Completed? ==>
      var merged := MergedName(filename);
      && r.merged == Some(merged)
      && merged in r.fs && r.fs[merged] == run.output
      && TempName(merged) !in r.fs
      && forall p :: p != merged && p != TempName(merged) ==> Unchanged(fs, r.fs, p)
  {
    var merged := MergedName(filename);
    var temp := TempName(merged);
    var argv := RemuxArgv(filename, temp);
    var remuxed := RunRemux(fs, argv[6], run);
    if run.Failed? then MergeStep(remuxed, argv, None)
    else
      var replaced := ReplaceMerged(remuxed, merged, argv[6]);
      MergeStep(replaced.fs, argv, if replaced.ok then Some(merged) else None)
  }

  /** What the fetch step yields: the resolver's answer for the item and the
      local filename `prepare_filename` reports for it. */
  datatype Fetched = Fetched(info: Info, filename: string)

  /** The merged path and the fetch-time dynamic-range label. */
  datatype Downloaded = Downloaded(path: string, hdr: Option<string>)

  datatype DownloadResult = DownloadResult(fs: FileSystem, outcome: Option<Downloaded>)

  /** `download_and_merge` after the fetch: a fetch failure, or a fetched
      answer whose formats cannot be read, changes nothing and yields
      `(None, None)`; otherwise the merge step runs and, on success, the label
      is the one derived from the fetch-time answer. `fs` is the file system
      after the fetch wrote its files. */
  function DownloadAndMerge(fs: FileSystem, fetched: Result<Fetched>, run: RemuxRun): (r: DownloadResult)
    ensures fetched.Failure? || Inspect(fetched.value.info).Failure? ==> r == DownloadResult(fs, None)
    ensures run.Failed? ==> r.outcome.None?
    ensures fetched.Success? && run.Failed? ==>
      forall p :: p != TempName(MergedName(fetched.value.filename)) ==> Unchanged(fs, r.fs, p)
    ensures fetched.Success? && Inspect(fetched.value.info).Success? && run.Completed? ==>
      var merged := MergedName(fetched.value.filename);
      && r.outcome == Some(Downloaded(merged, Inspect(fetched.value.info).value.hdr))
      && merged in r.fs && r.fs[merged] == run.output
      && TempName(merged) !in r.fs
      && forall p :: p != merged && p != TempName(merged) ==> Unchanged(fs, r.fs, p)
  {
    match fetched
    case Failure(_) => DownloadResult(fs, None)
    case Success(Fetched(info, filename)) =>
      match Inspect(info)
      case Failure(_) => DownloadResult(fs, None)
      case Success(details) =>
        var step := MergeAndReplace(fs, filename, run);
        match step.merged
        case None => DownloadResult(step.fs, None)
        case Some(path) => DownloadResult(step.fs, Some(Downloaded(path, details.hdr)))
  }

  /** Remuxing "clip.mp4" over a stale "clip.mkv": the new output sits at
      "clip.mkv", no temporary file remains, and the input is left alone. */
  lemma StaleMergedFileScenario(input: Bytes, stale: Bytes, output: Bytes)
    ensures MergeAndReplace(map["clip.mp4" := input, "clip.mkv" := stale], "clip.mp4", Completed(output))
         == MergeStep(map["clip.mp4" := input, "clip.mkv" := output],
                      RemuxArgv("clip.mp4", "clip.mkv.tmp.mkv"), Some("clip.mkv"))
  {
    MergedNameOfExtension("clip", "mp4");
    assert "clip" + "." + "mp4" == "clip.mp4";
    var fs := map["clip.mp4" := input, "clip.mkv" := stale];
    var r := MergeAndReplace(fs, "clip.mp4", Completed(output));
    var temp := TempName("clip.mkv");
    assert temp == "clip.mkv.tmp.mkv";
    assert r.fs.Keys == {"clip.mp4", "clip.mkv"} by {
      forall p | p in r.fs ensures p == "clip.mp4" || p == "clip.mkv" {
        if p != "clip.mkv" {
          assert p != temp;
          assert Unchanged(fs, r.fs, p);
        }
      }
      assert Unchanged(fs, r.fs, "clip.mp4");
    }
    assert Unchanged(fs, r.fs, "clip.mp4");
  }

  /** When the fetched file is already "clip.mkv" (the fetch merges to
      Matroska), the merged name equals the input, so the delete before the
      rename removes the fetched input itself and the remuxed copy takes its
      place; no temporary file remains. */
  lemma InputAlreadyMergedScenario(input: Bytes, output: Bytes)
    ensures MergeAndReplace(map["clip.mkv" := input], "clip.mkv", Completed(output))
         == MergeStep(map["clip.mkv" := output],
                      RemuxArgv("clip.mkv", "clip.mkv.tmp.mkv"), Some("clip.mkv"))
  {
    MergedNameOfExtension("clip", "mkv");
    assert "clip" + "." + "mkv" == "clip.mkv";
    var fs := map["clip.mkv" := input];
    var r := MergeAndReplace(fs, "clip.mkv", Completed(output));
    var temp := TempName("clip.mkv");
    assert temp == "clip.mkv.tmp.mkv";
    assert r.fs.Keys == {"clip.mkv"} by {
      forall p | p in r.fs ensures p == "clip.mkv" {
        assert p == "clip.mkv" || p == temp || Unchanged(fs, r.fs, p);
      }
    }
  }
}
