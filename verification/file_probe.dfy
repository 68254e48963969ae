/** The file prober that answers the integrity scheduler's requests: one batch
    covers a range of a torrent's manifest and reports the files that are not
    on disk as the manifest says. */
module FileProbe {
  import opened Common

  /** What reading a file's metadata gives. */
  datatype Observation = Unreadable | NotAFile | Sized(bytes: nat)

  datatype ManifestFile = ManifestFile(
    path: string,
    length: nat,
    isPadding: bool,
    isSkipped: bool,
    observed: Observation)

  datatype ProbeError = ReadError | UnexpectedType | SizeMismatch(expected: nat, observed: nat)

  datatype FileProbeEntry = FileProbeEntry(
    path: string,
    error: ProbeError,
    expectedSize: nat,
    observedSize: Option<nat>)

  datatype FileProbeBatchResult = FileProbeBatchResult(
    epoch: nat,
    scannedFiles: nat,
    nextFileIndex: nat,
    reachedEndOfManifest: bool,
    pendingMetadata: bool,
    problemFiles: seq<FileProbeEntry>)

  predicate Probed(f: ManifestFile) {
    !f.isPadding && !f.isSkipped
  }

  /** The entry reported for a file, if any. */
  function Problem(f: ManifestFile): Option<FileProbeEntry> {
    if !Probed(f) then None
    else match f.observed
      case Unreadable => Some(FileProbeEntry(f.path, ReadError, f.length, None))
      case NotAFile => Some(FileProbeEntry(f.path, UnexpectedType, f.length, None))
      case Sized(n) =>
        if n == f.length then None
        else Some(FileProbeEntry(f.path, SizeMismatch(f.length, n), f.length, Some(n)))
  }

  /** The problem entries of a run of manifest files, in manifest order. */
  function Problems(files: seq<ManifestFile>): seq<FileProbeEntry> {
    if files == [] then []
    else
      var rest := Problems(files[..|files| - 1]);
      match Problem(files[|files| - 1])
      case None => rest
      case Some(entry) => rest + [entry]
  }

  lemma ProblemsSnoc(files: seq<ManifestFile>, f: ManifestFile)
    ensures Problems(files + [f]) == Problems(files) + (if Problem(f).Some? then [Problem(f).value] else [])
  {
    assert (files + [f])[..|files|] == files;
  }

  lemma {:induction false} ProblemsConcat(a: seq<ManifestFile>, b: seq<ManifestFile>)
    ensures Problems(a + b) == Problems(a) + Problems(b)
  {
    if b == [] {
      assert a + b == a;
    } else {
      assert (a + b)[..|a + b| - 1] == a + b[..|b| - 1];
      ProblemsConcat(a, b[..|b| - 1]);
    }
  }

  /** Adjacent ranges of a manifest are reported as the concatenation of their reports. */
  lemma ProblemsSplit(manifest: seq<ManifestFile>, lo: nat, mid: nat, hi: nat)
    requires lo <= mid <= hi <= |manifest|
    ensures Problems(manifest[lo..hi]) == Problems(manifest[lo..mid]) + Problems(manifest[mid..hi])
  {
    assert manifest[lo..hi] == manifest[lo..mid] + manifest[mid..hi];
    ProblemsConcat(manifest[lo..mid], manifest[mid..hi]);
  }

  /** The reply while the torrent's metadata has not arrived. */
  function PendingReply(epoch: nat): FileProbeBatchResult {
    FileProbeBatchResult(epoch, 0, 0, false, true, [])
  }

  /** What a batch must report: exactly the problems of files `start..start + maxFiles`
      clipped to the manifest, and where the sweep goes on. */
  function HonestReply(manifest: seq<ManifestFile>, epoch: nat, start: nat, maxFiles: nat): FileProbeBatchResult {
    if start >= |manifest| then FileProbeBatchResult(epoch, 0, 0, true, false, [])
    else
      var end := Min(|manifest|, start + maxFiles);
      FileProbeBatchResult(
        epoch, end - start, if end == |manifest| then 0 else end, end == |manifest|, false,
        Problems(manifest[start..end]))
  }

  /** The files of a range that are worth looking at; the others cannot have a problem. */
  method PrepareBatch(manifest: seq<ManifestFile>, start: nat, end: nat) returns (files: seq<ManifestFile>)
    requires start <= end <= |manifest|
    ensures Problems(files) == Problems(manifest[start..end])
  {
    files := [];
    for index := start to end
      invariant Problems(files) == Problems(manifest[start..index])
    {
      PrepareStep(manifest[start..index], files, manifest[index]);
      assert manifest[start..index] + [manifest[index]] == manifest[start..index + 1];
      if Probed(manifest[index]) {
        files := files + [manifest[index]];
      }
    }
  }

  lemma PrepareStep(seen: seq<ManifestFile>, files: seq<ManifestFile>, f: ManifestFile)
    requires Problems(files) == Problems(seen)
    ensures Problems(if Probed(f) then files + [f] else files) == Problems(seen + [f])
  {
    ProblemsSnoc(seen, f);
    if Probed(f) {
      ProblemsSnoc(files, f);
    }
  }

  method CollectProblems(files: seq<ManifestFile>) returns (problems: seq<FileProbeEntry>)
    ensures problems == Problems(files)
  {
    problems := [];
    for index := 0 to |files|
      invariant problems == Problems(files[..index])
    {
      ProblemsSnoc(files[..index], files[index]);
      assert files[..index] + [files[index]] == files[..index + 1];
      var problem := Problem(files[index]);
      if problem.Some? {
        problems := problems + [problem.value];
      }
    }
    assert files[..|files|] == files;
  }

  method ProbeBatch(manifest: seq<ManifestFile>, epoch: nat, start: nat, maxFiles: nat)
    returns (result: FileProbeBatchResult)
    ensures result == HonestReply(manifest, epoch, start, maxFiles)
  {
    if start >= |manifest| {
      return FileProbeBatchResult(epoch, 0, 0, true, false, []);
    }
    var end := Min(|manifest|, start + maxFiles);
    var files := PrepareBatch(manifest, start, end);
    var problems := CollectProblems(files);
    var reachedEnd := end >= |manifest|;
    result := FileProbeBatchResult(
      epoch, end - start, if reachedEnd then 0 else end, reachedEnd, false, problems);
  }
}
