/** Downloading one module: the single-file path, the sequential part loop and
    the merge of parts into the final file, over a file system held as a map
    from paths to contents. */
module ModuleDownloader {
  import opened Wrappers
  import opened Errors
  import opened Core
  import opened PartNaming

  /** The local file system: each existing path and its bytes. */
  class FileSystem {
    var files: map<string, seq<byte>>

    constructor (files: map<string, seq<byte>>)
      ensures this.files == files
    {
      this.files := files;
    }
  }

  function Get(files: map<string, seq<byte>>, path: string): Option<seq<byte>> {
    if path in files then Some(files[path]) else None
  }

  /** The file system after a path is left holding `content` (None: no file). */
  function Put(files: map<string, seq<byte>>, path: string, content: Option<seq<byte>>): map<string, seq<byte>> {
    match content
    case Some(c) => files[path := c]
    case None => files - {path}
  }

  lemma GetPut(files: map<string, seq<byte>>, path: string, content: Option<seq<byte>>, p: string)
    ensures Get(Put(files, path, content), p) == if p == path then content else Get(files, p)
  {
  }

  /** Opening a path for appending creates it, empty, when it does not exist. */
  function Touch(files: map<string, seq<byte>>, path: string): (r: map<string, seq<byte>>)
    ensures path in r && r[path] == Get(files, path).GetOr([])
  {
    if path in files then files else files[path := []]
  }

  lemma GetTouch(files: map<string, seq<byte>>, path: string, p: string)
    ensures Get(Touch(files, path), p) == if p == path then Some(Get(files, path).GetOr([])) else Get(files, p)
  {
  }

  /** A progress event of the file downloader: `(loaded, total)`. */
  datatype Tick = Tick(loaded: nat, total: Option<nat>)

  /** What the file downloader is asked for: the URL, the destination, whether
      it may resume a partial file, and what is at the destination beforehand. */
  datatype FileRequest = FileRequest(url: string, destPath: string, resume: bool, existing: Option<seq<byte>>)

  /** What the file downloader reports: `{bytesDownloaded, error}`, the progress
      events it emitted, what it left at the destination, and whether one of
      its streams set the run-wide unrecoverable flag. */
  datatype FileDownload = FileDownload(
    bytesDownloaded: nat,
    error: Option<FragmenterError>,
    ticks: seq<Tick>,
    fileAfter: Option<seq<byte>>,
    raisedUnrecoverable: bool)

  /** `ModuleDownloaderProgress`; the part fields are None on the single-file path. */
  datatype Progress = Progress(
    loaded: nat,
    total: Option<nat>,
    partLoaded: Option<nat>,
    partTotal: Option<nat>,
    partIndex: Option<nat>,
    numParts: Option<int>)

  /** A failure while piping a part into the final file: how many of the part's
      bytes reached the final file, and the platform error. */
  datatype CopyFault = CopyFault(bytesCopied: nat, cause: Cause)

  /** The module is downloaded in parts iff its part count is finite and positive. */
  predicate IsSplit(m: DistributionModule) {
    m.splitFileCount.Some? && m.splitFileCount.value > 0
  }

  function NumParts(m: DistributionModule): nat {
    if IsSplit(m) then m.splitFileCount.value else 0
  }

  /** The progress records of the single-file path. */
  function SingleProgress(ticks: seq<Tick>, total: Option<nat>): seq<Progress>
  {
    seq(|ticks|, k requires 0 <= k < |ticks| => Progress(ticks[k].loaded, total, None, None, None, None))
  }

  /** The progress records of part `i`, whose predecessors brought `before` bytes. */
  function PartProgress(before: nat, ticks: seq<Tick>, total: Option<nat>, i: nat, numParts: Option<int>): seq<Progress>
  {
    seq(|ticks|, k requires 0 <= k < |ticks| =>
      Progress(before + ticks[k].loaded, total, Some(ticks[k].loaded), ticks[k].total, Some(i), numParts))
  }

  /** Appends the first `count` bytes of `part` (at most all of them) to `path`. */
  function AppendPrefix(files: map<string, seq<byte>>, path: string, part: seq<byte>, count: nat): map<string, seq<byte>> {
    files[path := Get(files, path).GetOr([]) + Copied(part, count)]
  }

  lemma GetAppendPrefix(files: map<string, seq<byte>>, path: string, part: seq<byte>, count: nat, p: string)
    ensures Get(AppendPrefix(files, path, part, count), p)
         == if p == path then Some(Get(files, path).GetOr([]) + Copied(part, count)) else Get(files, p)
  {
  }

  /** The first `count` bytes of `part`, or all of it when it is shorter. */
  function Copied(part: seq<byte>, count: nat): seq<byte> {
    part[..if count < |part| then count else |part|]
  }

  /** Opens `final` for appending, appends `content` to it and removes `partPath`. */
  function AppendAndRemove(files: map<string, seq<byte>>, final: string, partPath: string, content: seq<byte>)
    : map<string, seq<byte>>
  {
    var m := Touch(files, final);
    m[final := m[final] + content] - {partPath}
  }

  lemma GetAppendAndRemove(files: map<string, seq<byte>>, final: string, partPath: string, content: seq<byte>,
                           p: string)
    requires partPath != final
    ensures Get(AppendAndRemove(files, final, partPath, content), p)
         == if p == partPath then None
            else if p == final then Some(Get(files, final).GetOr([]) + content)
            else Get(files, p)
  {
  }

  type Downloader = FileRequest -> FileDownload
  type Copier = string -> Option<CopyFault>

  // ---------------------------------------------------------------------------
  // The part loop, over the URL and temporary path of each part

  /** Where part `i` is fetched from and downloaded to. */
  datatype PartTarget = PartTarget(url: string, path: string)

  /** One run of the part loop: the parts in order, whether their downloads may
      resume a partial file, the file downloader, and the file system the loop
      starts from. */
  datatype PartRun = PartRun(
    targets: seq<PartTarget>,
    resume: bool,
    download: Downloader,
    files0: map<string, seq<byte>>)

  /** No two parts share a temporary path. */
  predicate DistinctPaths(t: seq<PartTarget>) {
    forall i, j :: 0 <= i < |t| && 0 <= j < |t| && i != j ==> t[i].path != t[j].path
  }

  /** `p` is none of the temporary paths of parts `from..to-1`. */
  predicate Avoids(t: seq<PartTarget>, from: nat, to: nat, p: string) {
    forall j :: from <= j < to && j < |t| ==> t[j].path != p
  }

  /** What the file downloader reports for part `i`, which it fetches into a
      path holding what was there before the loop. */
  function Attempt(run: PartRun, i: nat): FileDownload
    requires i < |run.targets|
  {
    var t := run.targets[i];
    run.download(FileRequest(t.url, t.path, run.resume, Get(run.files0, t.path)))
  }

  /** The first part, from `from` on, whose download fails; all of them if none does. */
  function FirstFailedPart(run: PartRun, from: nat): (k: nat)
    requires from <= |run.targets|
    ensures from <= k <= |run.targets|
    ensures forall j :: from <= j < k ==> Attempt(run, j).error.None?
    ensures k < |run.targets| ==> Attempt(run, k).error.Some?
    decreases |run.targets| - from
  {
    if from == |run.targets| || Attempt(run, from).error.Some? then from
    else FirstFailedPart(run, from + 1)
  }

  /** The file system once parts 0..k-1 have been downloaded. */
  function Installed(run: PartRun, k: nat): map<string, seq<byte>>
    requires k <= |run.targets|
  {
    if k == 0 then run.files0
    else Put(Installed(run, k - 1), run.targets[k - 1].path, Attempt(run, k - 1).fileAfter)
  }

  /** Bytes reported by the downloads of parts 0..k-1. */
  function LoadedBefore(run: PartRun, k: nat): nat
    requires k <= |run.targets|
  {
    if k == 0 then 0 else LoadedBefore(run, k - 1) + Attempt(run, k - 1).bytesDownloaded
  }

  /** The progress records of parts 0..k-1, each against the module `total`
      and the manifest's `splitFileCount`. */
  function PartsProgress(run: PartRun, total: Option<nat>, numParts: Option<int>, k: nat): seq<Progress>
    requires k <= |run.targets|
  {
    if k == 0 then [] else
    PartsProgress(run, total, numParts, k - 1)
      + PartProgress(LoadedBefore(run, k - 1), Attempt(run, k - 1).ticks, total, k - 1, numParts)
  }

  lemma AppendAssoc<T>(a: seq<T>, b: seq<T>, c: seq<T>)
    ensures a + b + c == a + (b + c)
  {
  }

  /** One more part: the loop's state advances by that part's outcome, with
      the records emitted before the loop (`prior`) kept in front. */
  lemma PartStep(run: PartRun, total: Option<nat>, numParts: Option<int>, i: nat, prior: seq<Progress>)
    requires i < |run.targets|
    ensures Installed(run, i + 1) == Put(Installed(run, i), run.targets[i].path, Attempt(run, i).fileAfter)
    ensures LoadedBefore(run, i + 1) == LoadedBefore(run, i) + Attempt(run, i).bytesDownloaded
    ensures prior + PartsProgress(run, total, numParts, i + 1)
         == prior + PartsProgress(run, total, numParts, i)
          + PartProgress(LoadedBefore(run, i), Attempt(run, i).ticks, total, i, numParts)
    ensures RaisedBefore(run, i + 1) == (RaisedBefore(run, i) || Attempt(run, i).raisedUnrecoverable)
  {
    AppendAssoc(prior, PartsProgress(run, total, numParts, i),
                PartProgress(LoadedBefore(run, i), Attempt(run, i).ticks, total, i, numParts));
  }

  /** Whether a download of parts 0..k-1 set the run-wide unrecoverable flag. */
  function RaisedBefore(run: PartRun, k: nat): (b: bool)
    requires k <= |run.targets|
    ensures b <==> exists j :: 0 <= j < k && Attempt(run, j).raisedUnrecoverable
  {
    k > 0 && (RaisedBefore(run, k - 1) || Attempt(run, k - 1).raisedUnrecoverable)
  }

  /** What the part loop ends with: its result, the file system, the
      progress records, and whether the flag was raised. A failing part is
      removed and its error rethrown. */
  function PartsOutcome(run: PartRun, total: Option<nat>, numParts: Option<int>)
    : (Result<bool, FragmenterError>, map<string, seq<byte>>, seq<Progress>, bool)
  {
    var k := FirstFailedPart(run, 0);
    if k == |run.targets| then
      (Ok(true), Installed(run, k), PartsProgress(run, total, numParts, k), RaisedBefore(run, k))
    else
      (Err(Attempt(run, k).error.value),
       Installed(run, k + 1) - {run.targets[k].path},
       PartsProgress(run, total, numParts, k + 1),
       RaisedBefore(run, k + 1))
  }

  /** The outcome when every part downloads without error. */
  lemma PartsOutcomeAllDone(run: PartRun, total: Option<nat>, numParts: Option<int>)
    requires FirstFailedPart(run, 0) == |run.targets|
    ensures var outcome := PartsOutcome(run, total, numParts);
      && outcome.0 == Ok(true)
      && outcome.1 == Installed(run, |run.targets|)
      && outcome.2 == PartsProgress(run, total, numParts, |run.targets|)
      && outcome.3 == RaisedBefore(run, |run.targets|)
  {
  }

  /** The outcome when part `k` is the first whose download fails. */
  lemma PartsOutcomeFailedAt(run: PartRun, total: Option<nat>, numParts: Option<int>, k: nat)
    requires k < |run.targets| && FirstFailedPart(run, 0) == k
    ensures var outcome := PartsOutcome(run, total, numParts);
      && outcome.0 == Err(Attempt(run, k).error.value)
      && outcome.1 == Installed(run, k + 1) - {run.targets[k].path}
      && outcome.2 == PartsProgress(run, total, numParts, k + 1)
      && outcome.3 == RaisedBefore(run, k + 1)
  {
  }

  /** The part loop raises the run-wide flag exactly when the download of a
      part it attempted raised it; the parts after a failing one never run,
      so they cannot. */
  lemma PartsRaiseFlagIff(run: PartRun, total: Option<nat>, numParts: Option<int>)
    ensures PartsOutcome(run, total, numParts).3 <==>
      exists j :: 0 <= j < |run.targets| && j <= FirstFailedPart(run, 0) && Attempt(run, j).raisedUnrecoverable
  {
    var k := FirstFailedPart(run, 0);
    if k < |run.targets| {
      assert PartsOutcome(run, total, numParts).3 == RaisedBefore(run, k + 1);
    }
  }

  /** Downloading a part touches only its own temporary path. */
  lemma {:induction false} InstalledElsewhere(run: PartRun, k: nat, p: string)
    requires k <= |run.targets| && Avoids(run.targets, 0, k, p)
    ensures Get(Installed(run, k), p) == Get(run.files0, p)
  {
    if k > 0 {
      InstalledElsewhere(run, k - 1, p);
      GetPut(Installed(run, k - 1), run.targets[k - 1].path, Attempt(run, k - 1).fileAfter, p);
    }
  }

  /** After parts 0..k-1, part j holds what its download left behind. */
  lemma {:induction false} InstalledPart(run: PartRun, k: nat, j: nat)
    requires j < k <= |run.targets| && DistinctPaths(run.targets)
    ensures Get(Installed(run, k), run.targets[j].path) == Attempt(run, j).fileAfter
  {
    var prev := Installed(run, k - 1);
    GetPut(prev, run.targets[k - 1].path, Attempt(run, k - 1).fileAfter, run.targets[j].path);
    if j < k - 1 {
      InstalledPart(run, k - 1, j);
    }
  }

  /** The part loop succeeds exactly when every part's download reports no error. */
  lemma PartsSucceedIff(run: PartRun, total: Option<nat>, numParts: Option<int>)
    ensures PartsOutcome(run, total, numParts).0 == Ok(true)
        <==> forall j :: 0 <= j < |run.targets| ==> Attempt(run, j).error.None?
  {
    var k := FirstFailedPart(run, 0);
    if k < |run.targets| {
      assert Attempt(run, k).error.Some?;
    }
  }

  /** Where part `j` stands once the part loop is over: a downloaded part holds
      what its download left, the failed part is removed, and the parts after
      it are as they were. */
  lemma PartsOutcomeAt(run: PartRun, total: Option<nat>, numParts: Option<int>, j: nat)
    requires j < |run.targets| && DistinctPaths(run.targets)
    ensures var k := FirstFailedPart(run, 0);
      var after := PartsOutcome(run, total, numParts).1;
      var p := run.targets[j].path;
      && (j < k ==> Get(after, p) == Attempt(run, j).fileAfter)
      && (j == k ==> p !in after)
      && (j > k ==> Get(after, p) == Get(run.files0, p))
  {
    var k := FirstFailedPart(run, 0);
    var after := PartsOutcome(run, total, numParts).1;
    var p := run.targets[j].path;
    if k == |run.targets| {
      assert after == Installed(run, k);
      InstalledPart(run, k, j);
    } else {
      var installed := Installed(run, k + 1);
      assert after == installed - {run.targets[k].path};
      if j < k {
        InstalledPart(run, k + 1, j);
        assert Get(after, p) == Get(installed, p);
      } else if j > k {
        InstalledElsewhere(run, k + 1, p);
        assert Get(after, p) == Get(installed, p);
      }
    }
  }

  /** The part loop leaves every path other than the parts' temporary paths alone. */
  lemma PartsOutcomeElsewhere(run: PartRun, total: Option<nat>, numParts: Option<int>, p: string)
    requires Avoids(run.targets, 0, |run.targets|, p)
    ensures Get(PartsOutcome(run, total, numParts).1, p) == Get(run.files0, p)
  {
    var k := FirstFailedPart(run, 0);
    if k == |run.targets| {
      InstalledElsewhere(run, k, p);
    } else {
      InstalledElsewhere(run, k + 1, p);
    }
  }

  /** A part progress record names a part, and its `loaded` counts the bytes
      of the parts before that one plus the part's own. */
  predicate CountsEarlierParts(run: PartRun, total: Option<nat>, numParts: Option<int>, q: Progress) {
    && q.partIndex.Some? && q.partIndex.value < |run.targets| && q.partLoaded.Some?
    && q.loaded == LoadedBefore(run, q.partIndex.value) + q.partLoaded.value
    && q.total == total && q.numParts == numParts
  }

  /** Every part progress record counts the bytes of the earlier parts plus the
      part's own bytes, and names a part already attempted. */
  lemma {:induction false} PartsProgressLoaded(run: PartRun, total: Option<nat>, numParts: Option<int>, k: nat, m: nat)
    requires k <= |run.targets| && m < |PartsProgress(run, total, numParts, k)|
    ensures var q := PartsProgress(run, total, numParts, k)[m];
      CountsEarlierParts(run, total, numParts, q) && q.partIndex.value < k
  {
    var before := PartsProgress(run, total, numParts, k - 1);
    var step := PartProgress(LoadedBefore(run, k - 1), Attempt(run, k - 1).ticks, total, k - 1, numParts);
    assert PartsProgress(run, total, numParts, k) == before + step;
    var q := PartsProgress(run, total, numParts, k)[m];
    if m < |before| {
      PartsProgressLoaded(run, total, numParts, k - 1, m);
      assert q == before[m];
      assert CountsEarlierParts(run, total, numParts, q) && q.partIndex.value < k;
    } else {
      assert q == step[m - |before|];
      assert q.partIndex == Some(k - 1);
      assert CountsEarlierParts(run, total, numParts, q);
    }
  }

  // ---------------------------------------------------------------------------
  // The merge of the parts into the final file

  /** The first part, from `from` on, that is missing or whose copy faults; all of them if none. */
  function FirstUnmergeable(t: seq<PartTarget>, copy: Copier, files0: map<string, seq<byte>>, from: nat): (k: nat)
    requires from <= |t|
    ensures from <= k <= |t|
    ensures forall j :: from <= j < k ==> t[j].path in files0 && copy(t[j].path).None?
    ensures k < |t| ==> t[k].path !in files0 || copy(t[k].path).Some?
    decreases |t| - from
  {
    if from == |t| || t[from].path !in files0 || copy(t[from].path).Some? then from
    else FirstUnmergeable(t, copy, files0, from + 1)
  }

  /** The contents of parts 0..k-1 as they were before the merge, in order. */
  function ConcatParts(t: seq<PartTarget>, files0: map<string, seq<byte>>, k: nat): seq<byte>
    requires k <= |t|
  {
    if k == 0 then [] else ConcatParts(t, files0, k - 1) + Get(files0, t[k - 1].path).GetOr([])
  }

  /** The file system once parts 0..k-1 have each been appended to the final
      file (opened for appending first) and removed. */
  function Merged(final: string, t: seq<PartTarget>, files0: map<string, seq<byte>>, k: nat): map<string, seq<byte>>
    requires k <= |t|
  {
    if k == 0 then files0
    else AppendAndRemove(Merged(final, t, files0, k - 1), final, t[k - 1].path, Get(files0, t[k - 1].path).GetOr([]))
  }

  /** What the merge ends with: its result and the file system. */
  function MergeOutcome(final: string, t: seq<PartTarget>, copy: Copier, files0: map<string, seq<byte>>)
    : (Result<bool, FragmenterError>, map<string, seq<byte>>)
  {
    var k := FirstUnmergeable(t, copy, files0, 0);
    if k == |t| then (Ok(true), Merged(final, t, files0, k))
    else
      var appending := Touch(Merged(final, t, files0, k), final);
      var part := t[k].path;
      if part !in files0 then (Ok(false), appending)
      else
        var fault := copy(part).value;
        (Err(CreateFromError(fault.cause)), AppendPrefix(appending, final, files0[part], fault.bytesCopied))
  }

  /** Merging touches only the final path and the parts already merged. */
  lemma {:induction false} MergedElsewhere(final: string, t: seq<PartTarget>, files0: map<string, seq<byte>>,
                                           k: nat, p: string)
    requires k <= |t| && p != final && Avoids(t, 0, k, p) && Avoids(t, 0, k, final)
    ensures Get(Merged(final, t, files0, k), p) == Get(files0, p)
  {
    if k > 0 {
      MergedElsewhere(final, t, files0, k - 1, p);
      GetAppendAndRemove(Merged(final, t, files0, k - 1), final, t[k - 1].path,
                         Get(files0, t[k - 1].path).GetOr([]), p);
    }
  }

  /** After merging parts 0..k-1 the final file holds what it held before
      (nothing if it did not exist) followed by those parts in order. */
  lemma {:induction false} MergedFinal(final: string, t: seq<PartTarget>, files0: map<string, seq<byte>>, k: nat)
    requires 0 < k <= |t| && Avoids(t, 0, |t|, final)
    ensures Get(Merged(final, t, files0, k), final) == Some(Get(files0, final).GetOr([]) + ConcatParts(t, files0, k))
  {
    var prior := Get(files0, final).GetOr([]);
    var part := Get(files0, t[k - 1].path).GetOr([]);
    var before := Merged(final, t, files0, k - 1);
    GetAppendAndRemove(before, final, t[k - 1].path, part, final);
    assert Get(Merged(final, t, files0, k), final) == Some(Get(before, final).GetOr([]) + part);
    if k == 1 {
      assert ConcatParts(t, files0, k) == part;
    } else {
      MergedFinal(final, t, files0, k - 1);
      AppendAssoc(prior, ConcatParts(t, files0, k - 1), part);
    }
  }

  /** Merged parts are removed. */
  lemma {:induction false} MergedRemovesParts(final: string, t: seq<PartTarget>, files0: map<string, seq<byte>>,
                                              k: nat, j: nat)
    requires j < k <= |t| && DistinctPaths(t) && Avoids(t, 0, |t|, final)
    ensures Get(Merged(final, t, files0, k), t[j].path) == None
  {
    var before := Merged(final, t, files0, k - 1);
    GetAppendAndRemove(before, final, t[k - 1].path, Get(files0, t[k - 1].path).GetOr([]), t[j].path);
    if j < k - 1 {
      MergedRemovesParts(final, t, files0, k - 1, j);
    }
  }

  /** Each part is read as it was before the merge started. */
  lemma MergeSeesOriginal(final: string, t: seq<PartTarget>, files0: map<string, seq<byte>>, k: nat)
    requires k < |t| && DistinctPaths(t) && Avoids(t, 0, |t|, final)
    ensures Get(Touch(Merged(final, t, files0, k), final), t[k].path) == Get(files0, t[k].path)
  {
    MergedElsewhere(final, t, files0, k, t[k].path);
    GetTouch(Merged(final, t, files0, k), final, t[k].path);
  }

  /** The first unmergeable part is the least one that is missing or faults. */
  lemma FirstUnmergeableIs(t: seq<PartTarget>, copy: Copier, files0: map<string, seq<byte>>, k: nat)
    requires k < |t| && (t[k].path !in files0 || copy(t[k].path).Some?)
    requires forall i :: 0 <= i < k ==> t[i].path in files0 && copy(t[i].path).None?
    ensures FirstUnmergeable(t, copy, files0, 0) == k
  {
  }

  /** The merge returns true exactly when every part exists and copies without
      fault; then the final file is its old content followed by all the parts,
      and no part file is left. */
  lemma MergeCompletes(final: string, t: seq<PartTarget>, copy: Copier, files0: map<string, seq<byte>>)
    requires DistinctPaths(t) && Avoids(t, 0, |t|, final)
    ensures MergeOutcome(final, t, copy, files0).0 == Ok(true)
        <==> forall j :: 0 <= j < |t| ==> t[j].path in files0 && copy(t[j].path).None?
    ensures MergeOutcome(final, t, copy, files0).0 == Ok(true) && |t| > 0 ==>
      var after := MergeOutcome(final, t, copy, files0).1;
      && Get(after, final) == Some(Get(files0, final).GetOr([]) + ConcatParts(t, files0, |t|))
      && forall j :: 0 <= j < |t| ==> Get(after, t[j].path) == None
  {
    var k := FirstUnmergeable(t, copy, files0, 0);
    if k < |t| {
      assert t[k].path !in files0 || copy(t[k].path).Some?;
    } else if |t| > 0 {
      MergedFinal(final, t, files0, |t|);
      forall j | 0 <= j < |t| ensures Get(Merged(final, t, files0, |t|), t[j].path) == None {
        MergedRemovesParts(final, t, files0, |t|, j);
      }
    }
  }

  /** A missing part `k` ends the merge with false: the parts before it have
      been appended and removed, the final file exists, and the parts from `k`
      on are untouched. */
  lemma MergeStopsAtMissingPart(final: string, t: seq<PartTarget>, copy: Copier, files0: map<string, seq<byte>>,
                                k: nat, j: nat)
    requires DistinctPaths(t) && Avoids(t, 0, |t|, final)
    requires k < |t| && t[k].path !in files0
    requires forall i :: 0 <= i < k ==> t[i].path in files0 && copy(t[i].path).None?
    requires j < |t|
    ensures var outcome := MergeOutcome(final, t, copy, files0);
      && outcome.0 == Ok(false)
      && Get(outcome.1, final) == Some(Get(files0, final).GetOr([]) + ConcatParts(t, files0, k))
      && (j < k ==> Get(outcome.1, t[j].path) == None)
      && (j >= k ==> Get(outcome.1, t[j].path) == Get(files0, t[j].path))
  {
    FirstUnmergeableIs(t, copy, files0, k);
    var merged := Merged(final, t, files0, k);
    var appending := Touch(merged, final);
    assert MergeOutcome(final, t, copy, files0) == (Ok(false), appending);
    OpenedFinal(final, t, files0, k);
    GetTouch(merged, final, t[j].path);
    if j < k {
      MergedRemovesParts(final, t, files0, k, j);
    } else {
      MergedElsewhere(final, t, files0, k, t[j].path);
    }
  }

  /** Opening the final file after parts 0..k-1 are merged: it holds its old
      content followed by those parts. */
  lemma OpenedFinal(final: string, t: seq<PartTarget>, files0: map<string, seq<byte>>, k: nat)
    requires k <= |t| && Avoids(t, 0, |t|, final)
    ensures Touch(Merged(final, t, files0, k), final)[final] == Get(files0, final).GetOr([]) + ConcatParts(t, files0, k)
  {
    var merged := Merged(final, t, files0, k);
    var prior := Get(files0, final).GetOr([]);
    if k > 0 {
      MergedFinal(final, t, files0, k);
    } else {
      assert prior + ConcatParts(t, files0, k) == prior;
    }
  }

  /** A fault while copying part `k` yields the classified platform error;
      the final file keeps the bytes that were copied, and part `k` stays. */
  lemma MergeFaultKeepsCopiedBytes(final: string, t: seq<PartTarget>, copy: Copier, files0: map<string, seq<byte>>,
                                   k: nat)
    requires DistinctPaths(t) && Avoids(t, 0, |t|, final)
    requires k < |t| && t[k].path in files0 && copy(t[k].path).Some?
    requires forall i :: 0 <= i < k ==> t[i].path in files0 && copy(t[i].path).None?
    ensures var outcome := MergeOutcome(final, t, copy, files0);
      var fault := copy(t[k].path).value;
      var part := files0[t[k].path];
      && outcome.0 == Err(CreateFromError(fault.cause))
      && Get(outcome.1, final)
         == Some(Get(files0, final).GetOr([]) + ConcatParts(t, files0, k) + Copied(part, fault.bytesCopied))
      && Get(outcome.1, t[k].path) == Some(part)
  {
    FirstUnmergeableIs(t, copy, files0, k);
    var appending := Touch(Merged(final, t, files0, k), final);
    var fault := copy(t[k].path).value;
    var part := files0[t[k].path];
    var after := AppendPrefix(appending, final, part, fault.bytesCopied);
    var outcome := MergeOutcome(final, t, copy, files0);
    assert outcome.0 == Err(CreateFromError(fault.cause)) && outcome.1 == after;
    OpenedFinal(final, t, files0, k);
    MergeSeesOriginal(final, t, files0, k);
    GetAppendPrefix(appending, final, part, fault.bytesCopied, final);
    GetAppendPrefix(appending, final, part, fault.bytesCopied, t[k].path);
  }

  // ---------------------------------------------------------------------------
  // Download, then merge

  /** What the downloads of parts 0..k-1 left at their paths, in order. */
  function Downloaded(run: PartRun, k: nat): seq<byte>
    requires k <= |run.targets|
  {
    if k == 0 then [] else Downloaded(run, k - 1) + Attempt(run, k - 1).fileAfter.GetOr([])
  }

  /** The merge reads back, part by part, what the downloads left. */
  lemma {:induction false} ConcatDownloaded(run: PartRun, k: nat)
    requires k <= |run.targets| && DistinctPaths(run.targets)
    ensures ConcatParts(run.targets, Installed(run, |run.targets|), k) == Downloaded(run, k)
  {
    if k > 0 {
      ConcatDownloaded(run, k - 1);
      InstalledPart(run, |run.targets|, k - 1);
    }
  }

  /** When every part downloads without error and leaves a file, and no copy
      faults, the parts are fetched and merged: the final file is its old
      content followed by every part's download in order, no temporary part
      is left, and every other path is as it was. */
  lemma DownloadThenMerge(run: PartRun, total: Option<nat>, numParts: Option<int>, final: string,
                          copy: Copier, p: string)
    requires DistinctPaths(run.targets) && Avoids(run.targets, 0, |run.targets|, final)
    requires |run.targets| > 0
    requires forall j :: 0 <= j < |run.targets| ==>
      Attempt(run, j).error.None? && Attempt(run, j).fileAfter.Some? && copy(run.targets[j].path).None?
    ensures var parts := PartsOutcome(run, total, numParts);
      var merge := MergeOutcome(final, run.targets, copy, parts.1);
      && parts.0 == Ok(true)
      && merge.0 == Ok(true)
      && Get(merge.1, final) == Some(Get(run.files0, final).GetOr([]) + Downloaded(run, |run.targets|))
      && (p != final && Avoids(run.targets, 0, |run.targets|, p) ==> Get(merge.1, p) == Get(run.files0, p))
      && (forall j :: 0 <= j < |run.targets| ==> Get(merge.1, run.targets[j].path) == None)
  {
    var n := |run.targets|;
    var files1 := Installed(run, n);
    PartsSucceedIff(run, total, numParts);
    assert PartsOutcome(run, total, numParts).1 == files1;
    forall j | 0 <= j < n ensures run.targets[j].path in files1 && copy(run.targets[j].path).None? {
      InstalledPart(run, n, j);
    }
    MergeCompletes(final, run.targets, copy, files1);
    InstalledElsewhere(run, n, final);
    ConcatDownloaded(run, n);
    if p != final && Avoids(run.targets, 0, n, p) {
      InstalledElsewhere(run, n, p);
      MergedElsewhere(final, run.targets, files1, n, p);
    }
  }

  /** `ModuleDownloader`: downloads one module of a distribution. */
  class ModuleDownloader {
    const ctx: FragmenterContext
    const baseUrl: string
    const distributionModule: DistributionModule
    const moduleIndex: nat
    const retryCount: nat
    const fullModuleHash: string
    /** The size found by the metadata request, if any. */
    var probedModuleFileSize: Option<nat>
    /** The progress events emitted so far, in order. */
    var emitted: seq<Progress>

    constructor (ctx: FragmenterContext, baseUrl: string, distributionModule: DistributionModule,
                 moduleIndex: nat, retryCount: nat, fullModuleHash: string)
      ensures this.ctx == ctx && this.baseUrl == baseUrl && this.distributionModule == distributionModule
      ensures this.moduleIndex == moduleIndex && this.retryCount == retryCount
      ensures this.fullModuleHash == fullModuleHash
      ensures probedModuleFileSize == None && emitted == []
    {
      this.ctx := ctx;
      this.baseUrl := baseUrl;
      this.distributionModule := distributionModule;
      this.moduleIndex := moduleIndex;
      this.retryCount := retryCount;
      this.fullModuleHash := fullModuleHash;
      probedModuleFileSize := None;
      emitted := [];
    }

    /** `probedModuleFileSize ?? module.completeFileSize`. */
    function Total(): Option<nat>
      reads this`probedModuleFileSize
    {
      if probedModuleFileSize.Some? then probedModuleFileSize else distributionModule.completeFileSize
    }

    function N(): nat {
      NumParts(distributionModule)
    }

    function FinalPath(destDir: string): string {
      ModuleFilePath(destDir, distributionModule.name)
    }

    /** The URL and temporary path of 0-based part `i`. */
    function Target(destDir: string, i: nat): PartTarget {
      PartTarget(PartUrl(baseUrl, distributionModule.name, distributionModule.hash, fullModuleHash,
                         i, N(), retryCount),
                 TempPartPath(destDir, distributionModule.name, PartIndexString(i, N())))
    }

    /** The targets of parts 0..k-1, in order. */
    function TargetsUpTo(destDir: string, k: nat): (t: seq<PartTarget>)
      ensures |t| == k
    {
      if k == 0 then [] else TargetsUpTo(destDir, k - 1) + [Target(destDir, k - 1)]
    }

    function Targets(destDir: string): seq<PartTarget> {
      TargetsUpTo(destDir, N())
    }

    lemma {:induction false} TargetAt(destDir: string, k: nat, i: nat)
      requires i < k
      ensures TargetsUpTo(destDir, k)[i] == Target(destDir, i)
    {
      if i < k - 1 {
        TargetAt(destDir, k - 1, i);
      }
    }

    /** Distinct parts have distinct temporary paths, none of them the final path. */
    lemma TargetsDistinct(destDir: string)
      ensures DistinctPaths(Targets(destDir))
      ensures Avoids(Targets(destDir), 0, N(), FinalPath(destDir))
    {
      var t := Targets(destDir);
      forall i, j | 0 <= i < N() && 0 <= j < N() && i != j ensures t[i].path != t[j].path {
        TargetAt(destDir, N(), i);
        TargetAt(destDir, N(), j);
        TempPartPathsDistinct(destDir, distributionModule.name, i, j, N());
      }
      forall j | 0 <= j < N() ensures t[j].path != FinalPath(destDir) {
        TargetAt(destDir, N(), j);
        TempPartPathIsNotModuleFile(destDir, distributionModule.name, PartIndexString(j, N()));
      }
    }

    /** Part `i`'s target, whose temporary path the earlier parts of the loop
        have not touched. */
    lemma PartUntouchedBefore(destDir: string, download: Downloader, files0: map<string, seq<byte>>, i: nat)
      requires i < N()
      ensures Targets(destDir)[i] == Target(destDir, i)
      ensures Get(Installed(Run(destDir, download, files0), i), Target(destDir, i).path)
           == Get(files0, Target(destDir, i).path)
    {
      TargetAt(destDir, N(), i);
      TargetsDistinct(destDir);
      InstalledElsewhere(Run(destDir, download, files0), i, Target(destDir, i).path);
    }

    /** The part loop this downloader runs into `destDir`. */
    function Run(destDir: string, download: Downloader, files0: map<string, seq<byte>>): PartRun {
      PartRun(Targets(destDir), retryCount > 0, download, files0)
    }

    /** The file downloader's streams set the shared flag when they meet an
        unrecoverable error; it is never reset. */
    method NoteUnrecoverable(raised: bool)
      modifies ctx`unrecoverableErrorEncountered
      ensures ctx.unrecoverableErrorEncountered == (old(ctx.unrecoverableErrorEncountered) || raised)
    {
      if raised {
        ctx.unrecoverableErrorEncountered := true;
      }
    }

    // -------------------------------------------------------------------------
    // The single-file path

    function SingleRequest(destDir: string, files0: map<string, seq<byte>>): FileRequest {
      FileRequest(
        ModuleFileUrl(baseUrl, distributionModule.name, distributionModule.hash, fullModuleHash, retryCount),
        FinalPath(destDir), retryCount > 0, Get(files0, FinalPath(destDir)))
    }

    /** `downloadModuleFile`: one file download straight to the final path; on
        failure the final path is removed if present and the error rethrown. */
    method DownloadModuleFile(fs: FileSystem, destDir: string, download: Downloader)
      returns (r: Result<bool, FragmenterError>)
      modifies fs, this`emitted, ctx`unrecoverableErrorEncountered
      ensures var out := download(SingleRequest(destDir, old(fs.files)));
        && emitted == old(emitted) + SingleProgress(out.ticks, old(Total()))
        && ctx.unrecoverableErrorEncountered == (old(ctx.unrecoverableErrorEncountered) || out.raisedUnrecoverable)
        && (out.error.None? ==> r == Ok(true) && fs.files == Put(old(fs.files), FinalPath(destDir), out.fileAfter))
        && (out.error.Some? ==> r == Err(out.error.value) && fs.files == old(fs.files) - {FinalPath(destDir)})
    {
      var url := ModuleFileUrl(baseUrl, distributionModule.name, distributionModule.hash, fullModuleHash, retryCount);
      var filePath := ModuleFilePath(destDir, distributionModule.name);
      var out := download(FileRequest(url, filePath, retryCount > 0, Get(fs.files, filePath)));
      NoteUnrecoverable(out.raisedUnrecoverable);
      emitted := emitted + SingleProgress(out.ticks, Total());
      fs.files := Put(fs.files, filePath, out.fileAfter);
      if out.error.Some? {
        if filePath in fs.files {
          fs.files := fs.files - {filePath};
        }
        return Err(out.error.value);
      }
      return Ok(true);
    }

    // -------------------------------------------------------------------------
    // The part loop and the merge

    /** One part's download into its temporary path: the file downloader's
        report, its progress records after the `before` bytes of the earlier
        parts, the flag its streams may raise, and the file it leaves. */
    method DownloadPart(fs: FileSystem, target: PartTarget, download: Downloader, i: nat, before: nat,
                        total: Option<nat>, ghost run: PartRun)
      returns (out: FileDownload)
      requires i < |run.targets| && run.targets[i] == target
      requires run.download == download && run.resume == (retryCount > 0)
      requires Get(fs.files, target.path) == Get(run.files0, target.path)
      modifies fs, this`emitted, ctx`unrecoverableErrorEncountered
      ensures out == Attempt(run, i)
      ensures fs.files == Put(old(fs.files), target.path, out.fileAfter)
      ensures emitted == old(emitted) + PartProgress(before, out.ticks, total, i, distributionModule.splitFileCount)
      ensures ctx.unrecoverableErrorEncountered == (old(ctx.unrecoverableErrorEncountered) || out.raisedUnrecoverable)
    {
      out := download(FileRequest(target.url, target.path, retryCount > 0, Get(fs.files, target.path)));
      NoteUnrecoverable(out.raisedUnrecoverable);
      emitted := emitted + PartProgress(before, out.ticks, total, i, distributionModule.splitFileCount);
      fs.files := Put(fs.files, target.path, out.fileAfter);
    }

    /** `downloadModuleFileParts`: parts in ascending order; a failing part
        has its temporary file removed and its error rethrown at once. */
    method DownloadModuleFileParts(fs: FileSystem, destDir: string, download: Downloader)
      returns (r: Result<bool, FragmenterError>)
      modifies fs, this`emitted, ctx`unrecoverableErrorEncountered
      ensures var outcome := PartsOutcome(Run(destDir, download, old(fs.files)), old(Total()),
                                          distributionModule.splitFileCount);
        && r == outcome.0 && fs.files == outcome.1 && emitted == old(emitted) + outcome.2
        && ctx.unrecoverableErrorEncountered == (old(ctx.unrecoverableErrorEncountered) || outcome.3)
    {
      var numParts := N();
      var totalLoaded := 0;
      var i := 0;
      ghost var run := Run(destDir, download, fs.files);
      ghost var emitted0 := emitted;
      ghost var raised0 := ctx.unrecoverableErrorEncountered;
      var total := Total();
      ghost var k := FirstFailedPart(run, 0);
      while i < numParts
        invariant 0 <= i <= numParts && i <= k
        invariant fs.files == Installed(run, i)
        invariant totalLoaded == LoadedBefore(run, i)
        invariant emitted == emitted0 + PartsProgress(run, total, distributionModule.splitFileCount, i)
        invariant ctx.unrecoverableErrorEncountered == (raised0 || RaisedBefore(run, i))
      {
        var target := Target(destDir, i);
        PartUntouchedBefore(destDir, download, run.files0, i);
        PartStep(run, total, distributionModule.splitFileCount, i, emitted0);
        var out := DownloadPart(fs, target, download, i, totalLoaded, total, run);
        if out.error.Some? {
          fs.files := fs.files - {target.path};
          assert k == i;
          PartsOutcomeFailedAt(run, total, distributionModule.splitFileCount, i);
          return Err(out.error.value);
        }
        assert i < k;
        totalLoaded := totalLoaded + out.bytesDownloaded;
        i := i + 1;
      }
      assert k == numParts;
      PartsOutcomeAllDone(run, total, distributionModule.splitFileCount);
      return Ok(true);
    }

    /** `mergeModuleFileParts`: for each part in order, the final file is opened
        for appending; a missing part ends the merge with `false`, a failed copy
        with the classified error; otherwise the part is appended and removed. */
    method MergeModuleFileParts(fs: FileSystem, destDir: string, copy: Copier)
      returns (r: Result<bool, FragmenterError>)
      modifies fs
      ensures var outcome := MergeOutcome(FinalPath(destDir), Targets(destDir), copy, old(fs.files));
        r == outcome.0 && fs.files == outcome.1
    {
      var numParts := N();
      var i := 0;
      ghost var files0 := fs.files;
      ghost var t := Targets(destDir);
      ghost var k := FirstUnmergeable(t, copy, files0, 0);
      TargetsDistinct(destDir);
      while i < numParts
        invariant 0 <= i <= numParts && i <= k
        invariant fs.files == Merged(FinalPath(destDir), t, files0, i)
      {
        var finalPath := ModuleFilePath(destDir, distributionModule.name);
        fs.files := Touch(fs.files, finalPath);
        var partIndexString := PartIndexString(i, numParts);
        var filePath := TempPartPath(destDir, distributionModule.name, partIndexString);
        TargetAt(destDir, numParts, i);
        assert t[i].path == filePath;
        MergeSeesOriginal(finalPath, t, files0, i);
        if filePath !in fs.files {
          assert k == i;
          return Ok(false);
        }
        var fault := copy(filePath);
        if fault.Some? {
          fs.files := AppendPrefix(fs.files, finalPath, fs.files[filePath], fault.value.bytesCopied);
          assert k == i;
          return Err(CreateFromError(fault.value.cause));
        }
        assert i < k;
        fs.files := fs.files[finalPath := fs.files[finalPath] + fs.files[filePath]];
        fs.files := fs.files - {filePath};
        i := i + 1;
      }
      assert k == numParts;
      return Ok(true);
    }

    // -------------------------------------------------------------------------
    // The entry point

    /** `startDownload`: records the phase, takes the probed size (None when the
        metadata request failed or gave no finite length), then downloads the
        module in parts and merges them, or as one file. */
    method StartDownload(fs: FileSystem, destDir: string, probe: Option<nat>, download: Downloader, copy: Copier)
      returns (r: Result<bool, FragmenterError>)
      modifies ctx`currentPhase, ctx`unrecoverableErrorEncountered, this`probedModuleFileSize, this`emitted, fs
      ensures ctx.currentPhase == Some(Phase(InstallModuleDownload, distributionModule, moduleIndex))
      ensures probedModuleFileSize == probe
      ensures !IsSplit(distributionModule) ==>
        var out := download(SingleRequest(destDir, old(fs.files)));
        && emitted == old(emitted) + SingleProgress(out.ticks, Total())
        && ctx.unrecoverableErrorEncountered == (old(ctx.unrecoverableErrorEncountered) || out.raisedUnrecoverable)
        && (out.error.None? ==> r == Ok(true) && fs.files == Put(old(fs.files), FinalPath(destDir), out.fileAfter))
        && (out.error.Some? ==> r == Err(out.error.value) && fs.files == old(fs.files) - {FinalPath(destDir)})
      ensures IsSplit(distributionModule) ==>
        var parts := PartsOutcome(Run(destDir, download, old(fs.files)), Total(), distributionModule.splitFileCount);
        && emitted == old(emitted) + parts.2
        && ctx.unrecoverableErrorEncountered == (old(ctx.unrecoverableErrorEncountered) || parts.3)
        && (parts.0.Err? ==> r == parts.0 && fs.files == parts.1)
        && (parts.0.Ok? ==>
              var merge := MergeOutcome(FinalPath(destDir), Targets(destDir), copy, parts.1);
              r == merge.0 && fs.files == merge.1)
    {
      ctx.currentPhase := Some(Phase(InstallModuleDownload, distributionModule, moduleIndex));
      probedModuleFileSize := probe;
      var moduleSplitFileCount := distributionModule.splitFileCount;
      if moduleSplitFileCount.Some? && moduleSplitFileCount.value > 0 {
        var downloaded := DownloadModuleFileParts(fs, destDir, download);
        if downloaded.Err? {
          return downloaded;
        }
        r := MergeModuleFileParts(fs, destDir, copy);
      } else {
        r := DownloadModuleFile(fs, destDir, download);
      }
    }
  }
}
