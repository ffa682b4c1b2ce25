/**
 * The comparison session of the folder sync checker: the two chosen folders,
 * the two digest indexes, the missing-file list, the busy flag and the
 * progress bar, with the operations that fill and use them.
 */
module FolderSyncChecker {
  import opened Wrappers
  import opened Paths
  import opened FileSystem
  import opened Fingerprint
  import opened OrderedDict
  import opened DigestIndex
  import opened Reconcile
  import opened ReportWriter
  import opened Replication

  /** The values start + 1, start + 2, ..., start + n, in that order. */
  function Progress(start: nat, n: nat): (s: seq<int>)
    ensures |s| == n
    decreases n
  {
    if n == 0 then [] else Progress(start, n - 1) + [start + n]
  }

  /** Each value is one more than the one before it, from start + 1 up to start + n. */
  lemma {:induction false} ProgressCounts(start: nat, n: nat)
    ensures forall i :: 0 <= i < n ==> Progress(start, n)[i] == start + i + 1
    decreases n
  {
    if n > 0 {
      ProgressCounts(start, n - 1);
    }
  }

  /** Counting on from where an earlier run stopped continues that run. */
  lemma {:induction false} ProgressConcat(start: nat, m: nat, n: nat)
    ensures Progress(start, m) + Progress(start + m, n) == Progress(start, m + n)
    decreases n
  {
    if n > 0 {
      ProgressConcat(start, m, n - 1);
    }
  }

  /** Logging the next value after an earlier log and a run of values extends the run. */
  lemma LogStep(log: seq<int>, run: seq<int>, start: nat, i: nat, value: nat)
    requires run == log + Progress(start, i) && value == start + i + 1
    ensures run + [value] == log + Progress(start, i + 1)
  {
    assert Progress(start, i + 1) == Progress(start, i) + [value];
  }

  /** Two runs logged one after the other form one run. */
  lemma LogConcat(log: seq<int>, m: nat, n: nat)
    ensures (log + Progress(0, m)) + Progress(m, n) == log + Progress(0, m + n)
  {
    ProgressConcat(0, m, n);
  }

  class FileComparatorApp {
    /** The source folder (Folder 1) and the target folder (Folder 2). */
    const folder1: Path
    const folder2: Path
    /** The content digest, `hashlib.md5(...).hexdigest()`. */
    const md5: Bytes -> HexDigest

    var hashes1: Index
    var hashes2: Index
    var missingFiles: seq<Path>
    var isScanning: bool
    /** The progress bar's "maximum" and "value" options; Tk starts them at 100 and 0. */
    var progressMaximum: nat
    var progressValue: nat
    /** The values handed to `update_progress`, in order. */
    ghost var progressLog: seq<int>

    ghost predicate Valid()
      reads this
    {
      && hashes1.Valid()
      && hashes2.Valid()
      && forall p <- missingFiles :: Below(folder1, p)
    }

    constructor (folder1: Path, folder2: Path, md5: Bytes -> HexDigest)
      ensures Valid()
      ensures this.folder1 == folder1 && this.folder2 == folder2 && this.md5 == md5
      ensures hashes1 == Empty() && hashes2 == Empty() && missingFiles == [] && !isScanning
      ensures progressMaximum == 100 && progressValue == 0 && progressLog == []
    {
      this.folder1, this.folder2, this.md5 := folder1, folder2, md5;
      hashes1, hashes2 := Empty(), Empty();
      missingFiles := [];
      isScanning := false;
      progressMaximum, progressValue := 100, 0;
      progressLog := [];
    }

    /**
     * The busy-flag guard of "Start Scan": a request while a scan is running is
     * rejected and changes nothing; otherwise the flag is raised and the
     * progress bar reset, and the scan itself is the caller's next ScanFolders.
     */
    method StartScan() returns (started: bool)
      modifies this`isScanning, this`progressValue
      ensures started == !old(isScanning)
      ensures isScanning
      ensures progressValue == if started then 0 else old(progressValue)
    {
      if !isScanning {
        isScanning := true;
        progressValue := 0;
        started := true;
      } else {
        started := false;
      }
    }

    /**
     * The fingerprint of one file: None when it cannot be opened, otherwise the
     * digest of the 4096-byte chunks read until the first empty read, which is
     * the digest of the whole content.
     */
    method ComputeMd5(disk: Disk, filepath: Path) returns (r: Option<HexDigest>)
      ensures r == FileDigest(disk.State(), filepath, md5)
      ensures r.None? <==> !disk.State().Readable(filepath)
      ensures r.Some? ==> r.value == md5(disk.files[filepath])
    {
      if !disk.State().Readable(filepath) {
        return None;
      }
      var data := disk.files[filepath];
      var hash := Fresh;
      var pos := 0;
      ghost var read: seq<Bytes> := [];
      while true
        invariant 0 <= pos <= |data|
        invariant read + Chunks(data[pos..]) == Chunks(data)
        invariant hash == UpdateAll(Fresh, read)
        decreases |data| - pos
      {
        var chunk := data[pos..Min(pos + ChunkSize, |data|)];
        if chunk == [] {
          break;
        }
        ReadStep(data, pos, read);
        UpdateAllAppend(Fresh, read, chunk);
        hash := hash.Update(chunk);
        read := read + [chunk];
        pos := pos + |chunk|;
      }
      assert pos == |data| && Chunks(data[pos..]) == [];
      assert read + [] == read;
      assert hash == UpdateAll(Fresh, Chunks(data));
      StreamedDigest(data, md5);
      r := Some(hash.Finish(md5));
    }

    /**
     * The scan: index both folders' files (as listed by os.walk), list the
     * source files whose digest the target lacks, and write the manifest.
     * `manifestWriteOk` is whether opening and writing missing_files.txt in
     * the source folder succeeds; when it does not, the exception ends the scan
     * before the busy flag is cleared.
     */
    method ScanFolders(disk: Disk, files1: seq<Path>, files2: seq<Path>, manifestWriteOk: bool)
      returns (manifest: Option<string>)
      requires forall p <- files1 :: Below(folder1, p)
      modifies this`hashes1, this`hashes2, this`missingFiles, this`isScanning
      modifies this`progressMaximum, this`progressValue, this`progressLog
      ensures Valid()
      ensures hashes1 == Build(disk.State(), files1, md5)
      ensures hashes2 == Build(disk.State(), files2, md5)
      ensures missingFiles == Missing(hashes1, hashes2)
      ensures progressMaximum == |files1| + |files2|
      ensures progressValue == if |files1| + |files2| == 0 then old(progressValue) else progressMaximum
      ensures progressLog == old(progressLog) + Progress(0, |files1| + |files2|)
      ensures manifest == if manifestWriteOk then Some(Manifest(RenderAll(missingFiles))) else None
      ensures isScanning == (old(isScanning) && !manifestWriteOk)
    {
      hashes1, hashes2 := Empty(), Empty();
      missingFiles := [];

      progressMaximum := |files1| + |files2|;
      ghost var fs := disk.State();
      var h1, h2 := HashBoth(disk, files1, files2);
      hashes1, hashes2 := h1, h2;

      var missing := FindMissing(h1, h2);
      MissingBelow(fs, files1, files2, md5, folder1);
      missingFiles := missing;

      if !manifestWriteOk {
        return None;
      }
      var text := ManifestText(missing);
      manifest := Some(text);
      isScanning := false;
    }

    /**
     * The reconciliation loop of the scan: the source file kept for each source
     * digest, in the order the digests were first met, when the target has no
     * file with that digest.
     */
    method FindMissing(h1: Index, h2: Index) returns (missing: seq<Path>)
      requires h1.Valid()
      ensures missing == Missing(h1, h2)
    {
      missing := [];
      for i := 0 to |h1.keys|
        invariant missing == Collect(h1.keys[..i], h1.values, h2.values)
      {
        var md5Hash := h1.keys[i];
        CollectStep(h1.keys, h1.values, h2.values, i);
        if md5Hash !in h2.values {
          missing := missing + [h1.values[md5Hash]];
        }
      }
      assert h1.keys[..|h1.keys|] == h1.keys;
    }

    /** The text written to missing_files.txt: each missing path on its own line. */
    method ManifestText(missing: seq<Path>) returns (text: string)
      ensures text == Manifest(RenderAll(missing))
    {
      text := "";
      for i := 0 to |missing|
        invariant text == Manifest(RenderAll(missing[..i]))
      {
        ManifestPrefix(missing, i);
        text := text + Render(missing[i]) + "\n";
      }
      assert missing[..|missing|] == missing;
    }

    /** The two hashing loops of the scan, the second counting on from where the first stopped. */
    method HashBoth(disk: Disk, files1: seq<Path>, files2: seq<Path>) returns (h1: Index, h2: Index)
      modifies this`progressValue, this`progressLog
      ensures h1 == Build(disk.State(), files1, md5) && h1.Valid()
      ensures h2 == Build(disk.State(), files2, md5) && h2.Valid()
      ensures progressValue == if |files1| + |files2| == 0 then old(progressValue) else |files1| + |files2|
      ensures progressLog == old(progressLog) + Progress(0, |files1| + |files2|)
    {
      h1 := HashFiles(disk, files1, 0);
      h2 := HashFiles(disk, files2, |files1|);
      LogConcat(old(progressLog), |files1|, |files2|);
    }

    /**
     * One of the two hashing loops of the scan (they differ only in the folder
     * and the dict they fill): every file is fingerprinted, a readable one is
     * entered under its digest, and the progress count goes up by one per
     * file whether or not it could be read.
     */
    method HashFiles(disk: Disk, files: seq<Path>, progressCount: nat) returns (hashes: Index)
      modifies this`progressValue, this`progressLog
      ensures hashes == Build(disk.State(), files, md5)
      ensures progressValue == if |files| == 0 then old(progressValue) else progressCount + |files|
      ensures progressLog == old(progressLog) + Progress(progressCount, |files|)
    {
      hashes := Empty();
      ghost var fs := disk.State();
      ghost var log0, value0 := progressLog, progressValue;
      var count := progressCount;
      // A hexdigest is never the empty string, so `if md5_hash:` tests only for None.
      for i := 0 to |files|
        invariant hashes == Build(fs, files[..i], md5)
        invariant count == progressCount + i
        invariant progressValue == if i == 0 then value0 else count
        invariant progressLog == log0 + Progress(progressCount, i)
      {
        var md5Hash := ComputeMd5(disk, files[i]);
        assert md5Hash == FileDigest(fs, files[i], md5);
        BuildStep(fs, files, md5, i);
        if md5Hash.Some? {
          hashes := hashes.Put(md5Hash.value, files[i]);
        }
        assert hashes == Build(fs, files[..i + 1], md5);
        ghost var run := progressLog;
        count := count + 1;
        UpdateProgress(count);
        LogStep(log0, run, progressCount, i, count);
      }
      assert files[..|files|] == files;
    }

    /** Moves the progress bar to `value`. */
    method UpdateProgress(value: nat)
      modifies this`progressValue, this`progressLog
      ensures progressValue == value
      ensures progressLog == old(progressLog) + [value]
    {
      progressValue := value;
      progressLog := progressLog + [value];
    }

    /**
     * "Copy Missing Files": runs the copy only when the user confirms. The
     * disclaimer dialog that follows the confirmation always returns true, so
     * it adds no second condition.
     */
    method CopyMissingFiles(disk: Disk, confirmed: bool)
      requires Valid()
      modifies disk, this`progressMaximum, this`progressValue, this`progressLog
      ensures confirmed ==> disk.State() == Replicate(old(disk.State()), folder1, folder2, missingFiles)
      ensures confirmed ==> progressMaximum == progressValue == |missingFiles|
      ensures confirmed ==> progressLog == old(progressLog) + Progress(0, |missingFiles|)
      ensures !confirmed ==> disk.State() == old(disk.State())
      ensures !confirmed ==> progressMaximum == old(progressMaximum) && progressValue == old(progressValue)
      ensures !confirmed ==> progressLog == old(progressLog)
    {
      if confirmed {
        CopyFilesThread(disk);
      }
    }

    /**
     * The copy loop: each missing file goes to the same place relative to the
     * target folder; the destination folder is created when absent; a file is
     * copied only when nothing exists at its destination, and a failing copy
     * is logged and the loop goes on.
     */
    method CopyFilesThread(disk: Disk)
      requires Valid()
      modifies disk, this`progressMaximum, this`progressValue, this`progressLog
      ensures disk.State() == Replicate(old(disk.State()), folder1, folder2, missingFiles)
      ensures progressMaximum == progressValue == |missingFiles|
      ensures progressLog == old(progressLog) + Progress(0, |missingFiles|)
    {
      var totalFiles := |missingFiles|;
      progressMaximum := totalFiles;
      progressValue := 0;
      var progressCount := 0;
      ghost var fs0 := disk.State();
      ghost var log0 := progressLog;

      for i := 0 to |missingFiles|
        invariant disk.State() == Replicate(fs0, folder1, folder2, missingFiles[..i])
        invariant progressCount == progressValue == i
        invariant progressLog == log0 + Progress(0, i)
        modifies disk, this`progressValue, this`progressLog
      {
        var srcPath := missingFiles[i];
        var relPath := RelPath(srcPath, folder1);
        var destPath := folder2 + relPath;
        var destDir := DirName(destPath);
        ghost var before := disk.State();

        var dirExists := disk.Exists(destDir);
        if !dirExists {
          var made := disk.MakeDirs(destDir);
        }
        var destExists := disk.Exists(destPath);
        if !destExists {
          var copied := disk.Copy2(srcPath, destPath);
        }
        assert disk.State() == Step(before, folder1, folder2, srcPath);
        assert missingFiles[..i + 1][..i] == missingFiles[..i];
        ghost var run := progressLog;
        progressCount := progressCount + 1;
        UpdateProgress(progressCount);
        LogStep(log0, run, 0, i, progressCount);
      }
      assert missingFiles[..|missingFiles|] == missingFiles;
    }
  }
}
