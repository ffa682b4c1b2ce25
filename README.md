# Folder Sync Checker — verified model of the comparison engine

Folder Sync Checker compares a source folder (Folder 1) with a target folder
(Folder 2) by file content. It fingerprints every file with MD5, reading
4096-byte chunks. It keeps one dict from digest to path per folder
(`hashes1`, `hashes2`). It lists the source files whose content the target
lacks (`missing_files`) and writes that list to `missing_files.txt`. On
request, it copies those files into the target folder at the same relative
place, creating folders as needed and never overwriting an existing path.

This project models that engine, the `FileComparatorApp` methods
`start_scan`, `scan_folders`, `compute_md5` and `copy_files_thread`, and
proves what they promise.

- **Imperative part.** `FolderSyncChecker.FileComparatorApp` is a class with
  the session's fields: the two folders, the two dicts, the missing list, the
  busy flag, and the progress bar's `maximum` and `value`. A ghost field,
  `progressLog`, records every value handed to `update_progress`, in order.
  Its methods keep the source's loops and carry loop invariants.
- **Filesystem.** `FileSystem.Disk` is the mutable filesystem that the copy
  loop changes in place. `FileSystem.Fs` is the value it holds: file bytes,
  directories, and paths that cannot be opened.
- **Specifications.** Each method is proved against a function on values, and
  the properties are lemmas about those functions:
  - `DigestIndex.Build` for the hashing loops;
  - `Reconcile.Missing` for the reconciliation loop;
  - `ReportWriter.Manifest` for the manifest text;
  - `Replication.Replicate`, a left fold of one loop pass, for the copy loop.
- **Paths** are sequences of names. On a POSIX system, a path Python holds
  as a string is `Paths.Render` of it (`/` before each name). Every source
  file comes from walking Folder 1, so `os.path.relpath(src, folder1)` strips
  that prefix.
- **Dicts.** A Python dict is `OrderedDict.Dict`: a map plus its keys in
  first-insertion order. Assigning to a key that is already present keeps
  the key's place.
- **MD5** is the parameter `md5: Bytes -> HexDigest`. A `HexDigest` is a
  string of 32 characters. It is never empty, so
  `if md5_hash:` only tests for `None`. The `hashlib` object is modelled as
  the bytes absorbed so far.

Four behaviours of the code that a reader might not expect, all modelled
as written:
- **Which duplicate is kept.** When several files in one folder share a
  digest, each one overwrites the dict entry, so the last readable one is
  kept (`DigestIndex.BuildLastWins`). The key keeps the place of its first
  insertion.
- **Failed manifest write.** `missing_files.txt` is opened outside any
  `try`, so an exception there ends `scan_folders` before `is_scanning` is
  cleared. The flag then stays set, and every later "Start Scan" is refused.
  In the model, `ScanFolders` returns `None` and leaves `isScanning` as it
  was (set, after `StartScan`).
- **Line breaks in names.** A file name may contain "\n" on POSIX. The
  manifest then shows that path across two lines, and reading
  `missing_files.txt` back line by line no longer gives the list. The
  manifest lemmas therefore state their results for names without "\n".
- **Copy outcomes.** The copy loop only prints a message for each failed or
  skipped entry. It counts nothing and returns nothing.

## Model

| member | source | states |
|---|---|---|
| FolderSyncChecker.FileComparatorApp.constructor | FolderSyncChecker.py:58-68 | The session starts with empty dicts, an empty missing list and the busy flag down; the two folders are the ones chosen; the progress bar has Tk's default maximum of 100 and value 0 |
| FolderSyncChecker.FileComparatorApp.StartScan | FolderSyncChecker.py:153-160 | A request while a scan runs is refused and changes nothing; otherwise the busy flag is raised and the progress value reset to 0 |
| FolderSyncChecker.FileComparatorApp.ScanFolders | FolderSyncChecker.py:162-211 | The dicts are exactly the digest indexes of the two file lists. The missing list is exactly their reconciliation, and every entry lies inside Folder 1. The progress maximum is the total file count. The progress bar is handed 1, 2, ..., up to that count, in order, and ends there. The manifest is the missing paths one per line. The busy flag is cleared only when the manifest is written |
| FolderSyncChecker.FileComparatorApp.HashBoth | FolderSyncChecker.py:178-195 | The two hashing loops build exactly `Build` of each file list; the second loop counts on from where the first stopped, so the bar is handed 1 .. total in order |
| FolderSyncChecker.FileComparatorApp.HashFiles | FolderSyncChecker.py:183-195 | One hashing loop builds exactly `Build` of its file list. The progress bar is handed count + 1, count + 2, ..., one value per file whether or not it could be read |
| FolderSyncChecker.FileComparatorApp.FindMissing | FolderSyncChecker.py:197-200 | The reconciliation loop yields exactly `Missing` of the two dicts |
| FolderSyncChecker.FileComparatorApp.ManifestText | FolderSyncChecker.py:203-206 | The text written is `Manifest` of the rendered missing paths: each path followed by "\n", in list order |
| FolderSyncChecker.FileComparatorApp.ComputeMd5 | FolderSyncChecker.py:213-222 | None exactly when the file cannot be opened; otherwise the streamed digest of the chunks equals the digest of the whole content |
| FolderSyncChecker.FileComparatorApp.UpdateProgress | FolderSyncChecker.py:224-225 | The progress bar shows the value given, and the value is appended to the log of values shown |
| FolderSyncChecker.Progress | FolderSyncChecker.py:187-188 | The run of values handed to the bar by n files counted from `start` has one value per file |
| FolderSyncChecker.ProgressCounts | FolderSyncChecker.py:187-188 | Value i of the run is start + i + 1: each file moves the bar up by exactly one |
| FolderSyncChecker.ProgressConcat | FolderSyncChecker.py:180-195 | A run counted on from where an earlier run stopped continues it, so the two hashing loops hand over one unbroken run |
| FolderSyncChecker.FileComparatorApp.CopyMissingFiles | FolderSyncChecker.py:228-237 | Without confirmation nothing changes; with it the copy loop runs (the disclaimer dialog always returns true) |
| FolderSyncChecker.FileComparatorApp.CopyFilesThread | FolderSyncChecker.py:269-296 | The filesystem after the loop is `Replicate` of the one before over the missing list. The progress maximum is the list's length, and the bar is handed 1, 2, ..., up to that length, in order |
| FileSystem.Disk.MakeDirs | FolderSyncChecker.py:284 | `os.makedirs` reports failure when the folder or one above it is a regular file, and then creates nothing; otherwise it adds the folder and its missing ancestors. It touches no file |
| FileSystem.Disk.Copy2 | FolderSyncChecker.py:288-291 | `shutil.copy2` fails when the source cannot be read, the destination cannot be written or its folder is absent, and then nothing changes; on success only the destination changes and holds the source's bytes |
| FileSystem.Fs.NothingBelowFile | FolderSyncChecker.py:283 | On a well-formed tree `os.path.exists` is false for every path below a regular file, and the folder holding a file exists and is not itself a file |
| FileSystem.Fs.MakeDirs | FolderSyncChecker.py:284 | The filesystem stays well formed, folders only grow and files are untouched. When the folder or one above it is a regular file, `os.makedirs` fails and nothing changes; otherwise the folder and all its ancestors exist afterwards. Every new folder is on the way to the requested one |
| FileSystem.Fs.Copy2 | FolderSyncChecker.py:288-291 | A failed copy changes nothing; a successful one writes the source's bytes at the destination; every other path is unchanged |
| Fingerprint.Chunks | FolderSyncChecker.py:217 | Every chunk read is non-empty and at most 4096 bytes; there are none exactly when the file is empty |
| Fingerprint.ChunksConcat | FolderSyncChecker.py:216-218 | The chunks put back together are the file's content |
| Fingerprint.ChunksFull | FolderSyncChecker.py:217 | Every chunk but the last is a full 4096-byte read |
| Fingerprint.ChunksAt | FolderSyncChecker.py:217 | The read at any offset before the end returns the next at most 4096 bytes and the reads after it start where it stopped |
| Fingerprint.UpdateAllAbsorbs | FolderSyncChecker.py:218 | After `update` with each chunk the hash object has absorbed the chunks' bytes in order |
| Fingerprint.StreamedDigest | FolderSyncChecker.py:214-222 | Hashing the chunks one by one gives the digest of the whole content |
| Fingerprint.Md5State.Update | FolderSyncChecker.py:218 | `update` appends the chunk to what the hash object has absorbed and keeps everything absorbed before |
| Fingerprint.UpdateAll | FolderSyncChecker.py:217-218 | After a run of `update` calls the bytes absorbed before the run are still a prefix, and the last chunk passed ends what was absorbed |
| OrderedDict.Dict.Put | FolderSyncChecker.py:186 | Assignment stores the value, keeps every key listed once, and leaves the key order alone when the key was present |
| DigestIndex.Build | FolderSyncChecker.py:183-195 | The dict is well formed and has no more keys than files were scanned |
| DigestIndex.BuildLastWins | FolderSyncChecker.py:183-186 | A digest is a key exactly when some readable file has it, and its path is the last such file scanned |
| DigestIndex.IndexSound | FolderSyncChecker.py:183-186 | Every stored path was scanned, is readable and has the digest it is stored under |
| DigestIndex.UnreadableNeverIndexed | FolderSyncChecker.py:184-185 | A file that cannot be opened is never a value of the dict |
| DigestIndex.IndexComplete | FolderSyncChecker.py:183-186 | A digest is a key if and only if some readable scanned file has that content digest |
| DigestIndex.IndexPathsDistinct | FolderSyncChecker.py:183-186 | No two keys share a path, so duplicate content collapses to one entry |
| DigestIndex.IndexOrder | FolderSyncChecker.py:183-186 | The keys are the distinct digests of the readable files in the order first met, so the dict has one key per distinct digest |
| DigestIndex.LastWith | FolderSyncChecker.py:183-186 | The position returned is the last readable file with the digest, and None means no readable file has it |
| Reconcile.Collect | FolderSyncChecker.py:198-200 | No more paths than keys visited, every path collected is a stored value of the source dict, nothing when the target has every key, and one path per key when it has none |
| Reconcile.Missing | FolderSyncChecker.py:197-200 | No more missing paths than source digests, each one a path stored in `hashes1`, and as many as there are source digests when `hashes2` is empty |
| Reconcile.MissingAllWhenTargetEmpty | FolderSyncChecker.py:197-200 | When `hashes2` is empty, every path stored in `hashes1` is missing |
| Reconcile.CollectExact | FolderSyncChecker.py:198-200 | A path is collected exactly when some visited key the target lacks stores it |
| Reconcile.CollectDistinct | FolderSyncChecker.py:198-200 | Keys storing distinct paths give a list without repeats |
| Reconcile.MissingExact | FolderSyncChecker.py:197-200 | A path is missing exactly when `hashes1` stores it under a digest `hashes2` lacks |
| Reconcile.MissingByContent | FolderSyncChecker.py:183-200 | A source file is listed exactly when it is the kept file for its content and no readable target file, under any name or place, has that digest |
| Reconcile.MatchedNeverMissing | FolderSyncChecker.py:190-200 | A source file whose content digest equals that of a readable target file is never listed |
| Reconcile.UnreadableTargetIgnored | FolderSyncChecker.py:190-200 | An unreadable target file is never a match: adding one changes nothing |
| Reconcile.MissingNoDuplicates | FolderSyncChecker.py:197-200 | Each missing path is listed once |
| Reconcile.MissingDistinct | FolderSyncChecker.py:197-200 | When no two source digests store the same path, the missing list has no repeats |
| Reconcile.MissingBelow | FolderSyncChecker.py:169-171 | Every missing path lies inside Folder 1 |
| ReportWriter.Manifest | FolderSyncChecker.py:203-206 | The text is empty exactly when there are no lines; otherwise it starts with the first line and ends with "\n"; it has at least one character per line |
| ReportWriter.ManifestAppend | FolderSyncChecker.py:205-206 | Writing one more path appends it and "\n" to the text written so far |
| ReportWriter.ManifestPrefix | FolderSyncChecker.py:205-206 | After path i the text is that of paths 0 .. i |
| ReportWriter.ManifestRoundTrip | FolderSyncChecker.py:203-206 | When no line contains "\n" of its own, splitting the manifest at line breaks gives back exactly the lines written |
| ReportWriter.ManifestLineCount | FolderSyncChecker.py:203-206 | When no line contains "\n" of its own, the manifest holds one line break per listed path |
| ReportWriter.ManifestListsPaths | FolderSyncChecker.py:203-206 | When no name in any path contains "\n", line i of the manifest is missing path i, and there are as many lines as paths |
| Paths.RelPath | FolderSyncChecker.py:278 | The relative path is non-empty and Folder 1 followed by it is the source path |
| Paths.DirName | FolderSyncChecker.py:280 | The parent folder is the path less its last name |
| Paths.Lineage | FolderSyncChecker.py:284 | The folders `os.makedirs` ensures are exactly the path and every one of its ancestors, down to the root |
| Paths.Render | FolderSyncChecker.py:171 | The string is empty exactly for the empty path; otherwise it starts with "/" and ends with the last name, and it has at least one character per name |
| Paths.RenderSingleLine | FolderSyncChecker.py:206 | A path whose names have no line break renders to one line |
| Paths.ApartBelowDistinct | FolderSyncChecker.py:276-279 | A path inside one of two folders that do not contain each other is never a path inside the other |
| Replication.Dest | FolderSyncChecker.py:278-279 | The destination lies inside Folder 2 with the same relative path as the source inside Folder 1 |
| Replication.DestMirrors | FolderSyncChecker.py:276-279 | A file at Folder 1 + r goes to Folder 2 + r, and no other source goes there |
| Replication.Step | FolderSyncChecker.py:276-293 | One pass keeps the filesystem well formed, never changes or removes an existing file, leaves the entry settled (its folder exists; its destination exists or the copy fails), and any new file is the entry's destination holding the source's bytes |
| Replication.Replicate | FolderSyncChecker.py:276-296 | The loop never changes or removes an existing file, and every new file is the destination of some entry |
| Replication.SettledStable | FolderSyncChecker.py:276-293 | Later passes that only add things keep an entry settled |
| Replication.ReplicateSettlesAll | FolderSyncChecker.py:276-293 | After the loop every entry is settled, a failing copy does not stop the entries after it |
| Replication.ReplicateSettledNoop | FolderSyncChecker.py:283-293 | When every entry is settled the loop changes nothing |
| Replication.ReplicateIdempotent | FolderSyncChecker.py:276-296 | Running the copy a second time over the same list leaves the filesystem as the first run left it |
| Replication.ReplicateCopiesContent | FolderSyncChecker.py:286-289 | Every file the loop creates is at the destination of a readable source and holds that source's bytes from before the loop |
| Scenarios.BuildSingle | FolderSyncChecker.py:183-186 | Scanning one readable file stores its digest under it |
| Scenarios.BuildPair | FolderSyncChecker.py:183-186 | Scanning two readable files with different contents stores both digests in scan order |
| Scenarios.SourceIndexExample | FolderSyncChecker.py:183-186 | Scanning a.txt ("hello") then b.txt ("world") stores two digests in that order |
| Scenarios.TargetIndexExample | FolderSyncChecker.py:190-193 | Scanning c.txt ("hello") stores the one digest |
| Scenarios.MissingOfPair | FolderSyncChecker.py:197-200 | Of two source digests, exactly the path of the one the target lacks is listed |
| Scenarios.MissingByContentExample | FolderSyncChecker.py:197-200 | With those folders only b.txt is missing: a.txt matches c.txt by content despite its name |
| Scenarios.ReplicateExample | FolderSyncChecker.py:276-296 | Copying b.txt creates dst/b.txt with "world" and changes nothing else |
| Scenarios.ReplicateSkipsExistingExample | FolderSyncChecker.py:286-293 | When dst/b.txt already exists the entry is skipped and nothing changes |
| Scenarios.BlockedDestinationExample | FolderSyncChecker.py:282-293 | On a well-formed filesystem where a regular file dst/sub stands where the folder dst/sub/deeper must go, `os.makedirs` fails, the copy fails, and the entry leaves the filesystem as it was |

## Left out

- The tkinter user interface is not modelled. This covers `Tooltip`, `create_widgets`, the folder pickers, `open_website`, the status label, the buttons and message boxes, and the confirmation and disclaimer dialogs. The two folders are constructor arguments, and the user's answer to the confirmation is the `confirmed` parameter of `CopyMissingFiles`.
- `threading.Thread` dispatch is not modelled. `StartScan` models the busy-flag guard and the caller then runs `ScanFolders`, so interleaving between threads is not modelled. `copy_missing_files` does not consult the busy flag, and neither does the model.
- MD5 itself and `hexdigest` formatting are not modelled. The digest is an arbitrary function from bytes to a 32-character string; that its characters are hexadecimal is not part of the type, since only its being non-empty matters to the code. The properties that depend on telling contents apart hold for any such function.
- `os.walk` is not modelled: traversal order, symbolic links and the discovery of files. The two file lists are parameters of `ScanFolders`, and the source list is required to lie inside Folder 1.
- `os.path.relpath` edge cases are not modelled: `..`, other drives, and a Folder 1 re-chosen between scan and copy.
- ScanFolders: the manifest is returned as text and not written into the filesystem state, so a later scan does not see `missing_files.txt` among Folder 1's files. Its text encoding is not modelled. Whether opening the file succeeds is the parameter `manifestWriteOk`.
- CopyFilesThread: the exception `os.makedirs` raises is not propagated. When the destination folder or one above it is a regular file, the code's thread ends at that entry. In the model `MakeDirs` reports failure and creates nothing, the following copy fails for want of a folder, and the loop goes on with the next entry (`Scenarios.BlockedDestinationExample`).
- Paths.Render: Windows paths are not modelled. There `os.path.join` uses "\\" as separator, and text-mode writing turns each "\n" of `missing_files.txt` into "\r\n"; the manifest and rendering lemmas describe a POSIX system.
- FileSystem.Fs.MakeDirs: permission and other I/O failures of `os.makedirs` (a Folder 2 that cannot be written, a read-only filesystem) are not modelled. The model's `MakeDirs` fails only when a regular file is in the way; in the code any such exception ends the copy thread.
- FileSystem.Fs.Copy2: the timestamps and permission bits preserved by `copy2` are not part of the state. Failures after the destination has been opened for writing are not modelled: a full disk, a read error part-way through the source, or `copystat` raising. `copy2` does not remove the destination when a later step raises. So in the code such a failure leaves a partial file, or a complete file without the source's timestamps, at the destination. The loop catches the error, and every later run skips that path as existing, so the copy is never retried. In the model every failed copy leaves the disk unchanged, so `Replication.ReplicateCopiesContent` ("holds that source's bytes") covers only the failures the model has: an unreadable source, an unwritable destination, or a missing folder.
- Vanishing files and other concurrent changes to the disk during a scan are not modelled. Every read sees the same filesystem state.
- Replication.ReplicateSettlesAll, Replication.ReplicateIdempotent and Replication.ReplicateCopiesContent require that neither folder contains the other. When they do, a file copied early in the loop can be an entry read later, and the one-pass results do not hold as stated.
- The `print` logging of read and copy errors, and the final message box, are not modelled.
