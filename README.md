# Smart System Cleaner: the file-identity and deletion engine

This is a model, in Dafny, of the engine under the Smart System Cleaner desktop tool. The model covers four parts:

- **The recycle bin of its own** (`RecycleBin`). Objects are moved into `~/.smart_cleaner_bin` under a timestamped name. A metadata document maps each name to the original path, the deletion date and the size. Objects can be restored from the bin or removed for good.
- **The cleanup routines.**
  - Measuring the temporary directory and sending its files to the system trash.
  - Grouping the files under a directory by content digest, and listing the groups of more than one file.
  - Sending the duplicates a user selects to the trash.
- **`secure_delete`.** A file has random bytes appended to it a number of times (it is opened in append mode) and is then removed. A directory is walked bottom-up and emptied, then removed itself.
- **The filesystem underneath them.** The host filesystem is a `Disk` object that holds a map from absolute path to node (`File(bytes)` or `Dir`). Paths are lists of components, and `[]` is the root. Every operating-system call the engine makes is a function from the old map to either the new map or the error the call raises:
  - `os.path.getsize`, `os.remove`, `os.rmdir`, `os.makedirs`;
  - `shutil.move`, with its "move into an existing directory" and "replace a file" rules;
  - `send2trash`.

  The methods that change the filesystem apply those functions to `Disk.nodes`, which they declare in `modifies`. `Disk.Valid()` says the map is a tree. Every method that changes `Disk.nodes` ensures it afterwards.

Files:

- `wrappers.dfy`: `Option` and `Result`.
- `filesystem.dfy` (module `FileSystem`): paths, nodes, `Disk`, the OS primitives and their laws. The laws include tree preservation, the move round trip and a move over a file.
- `recycle_bin.dfy` (module `TrashStore`): the bin key, the metadata document, the `RecycleBin` class and the move/restore round trip.
- `cleanup.dfy` (module `Cleanup`): the temp-directory scan and sweep, the duplicate scan and the deletion of selected duplicates.
- `secure_delete.dfy` (module `SecureErase`): the write passes, the bottom-up walk and `secure_delete`.

Inputs the model takes as parameters:

- **`os.walk`:** the sequence of `WalkStep(root, dirs, files)` triples it yields. The scans accept any walk. `secure_delete` requires the walk to be the bottom-up walk of the directory it erases (`BottomUpWalk`).
- **`hashlib.md5(...).hexdigest()`:** an uninterpreted function `digest` from bytes to a string.
- **`datetime.now()`:** an `Instant`. `move_to_bin` reads the clock twice, once for the key and once for the recorded date, so it takes two.
- **`os.urandom`:** a `Noise` function giving the byte for each pass and offset.
- **The metadata file:** a field `doc` of the bin, `Absent | Garbled | Stored(index)`. It is not a node of the disk, and JSON encoding is not modelled.
- **`send2trash` refusals:** a set `refused` of paths it raises on. It also raises on missing paths and on the root.
- **Files `open(..., 'rb')` cannot read:** a set `unreadable`.
- **Dialog answers and Treeview selections:** the confirmation is a `bool`, and the list and the selection are sequences of `Row(id, path)`.

Features the code does not implement, and which the model therefore leaves out as well:

- `move_to_bin` handles one path and adds no disambiguator to colliding keys (`BinKeyCollides`). Take a second move, in the same second, of an object with the same base name. What `shutil.move` does then depends on what the earlier move left at the bin path:
  - a file moved onto the earlier file replaces it (`MovedOverFile`);
  - a directory moved onto the earlier file raises `FileExistsError`: the rename fails, and the `copytree` fallback cannot create a directory where the file is;
  - when the earlier object is a directory, the object goes inside it, and the move raises (`shutil.Error`: the destination already exists) if that directory already holds its name.

  The metadata entry is overwritten only when the move succeeds. A move that raises changes neither the disk nor the index (`MoveToBin`).
- There is no partial restore and no destination override.
- No directory structure is recorded.
- `permanently_delete` uses `os.remove`, so it cannot delete a trashed directory: the entry stays (`PermanentlyDelete`).
- The digest is MD5, not a stronger hash.
- Unreadable files are skipped silently, not reported.
- `secure_delete` never goes through the recycle bin first.

## Model

| member | source | states |
|---|---|---|
| FileSystem.GetSize | cleanup.py:41 | `os.path.getsize` succeeds exactly on a present path and reports the file length, or the fixed directory size |
| FileSystem.StepPaths | cleanup.py:38-41 | one walk step lists, for each file name in order, the joined path `root/name` |
| FileSystem.Removed | recycle_bin.py:72 | `os.remove` succeeds exactly on a present file and then removes only that path; a missing path raises `FileNotFoundError` |
| FileSystem.RemovedDir | utils.py:17-18 | `os.rmdir` succeeds exactly on an empty directory other than the root, and then removes only that path |
| FileSystem.Trashed | cleanup.py:54 | `send2trash` succeeds exactly on a present, non-refused, non-root path, and the object goes away with everything under it |
| FileSystem.Mkdir | recycle_bin.py:17 | `os.mkdir` succeeds exactly when the name is free and its parent is a directory, and adds just that directory |
| FileSystem.MakeDirs | recycle_bin.py:16-17 | `os.makedirs` succeeds only on a missing path, and then keeps every node and adds the path as a directory |
| FileSystem.MakeDirsAdds | recycle_bin.py:16-17 | a successful `os.makedirs` adds the directory and only missing ancestors of it, all as directories, keeps every node and keeps the tree |
| FileSystem.MoveTarget | recycle_bin.py:42 | `shutil.move` moves the object to `dst`, or to `dst/<basename of src>` exactly when `dst` is an existing directory |
| FileSystem.Moved | recycle_bin.py:42 | a present source moved onto itself stays put. A name already present inside a destination directory raises first (`shutil.Error`, `FileExists` in the model), even when the source is missing. Otherwise a missing source raises `FileNotFoundError`, and a directory moved onto a file raises `FileExistsError`. For a present source, the move succeeds exactly when the target is free or is a file replaced by a file, neither path lies under the other, and the target's parent is a directory. A successful move relocates the source's subtree to the target |
| FileSystem.MovedRelocates | recycle_bin.py:42 | a successful `shutil.move` removes the source, puts the source object at the target (inside `dst` when `dst` is a directory) and leaves every node outside both subtrees untouched |
| FileSystem.MovedPreservesTree | recycle_bin.py:42 | `shutil.move` keeps the filesystem a tree |
| FileSystem.MoveRoundTrip | recycle_bin.py:42 | moving an object to a free name and moving it back succeeds both times and gives back exactly the original filesystem |
| FileSystem.MovedOverFile | recycle_bin.py:42 | `shutil.move` of a file onto another file replaces the destination's content, and nothing else changes except that the source disappears |
| FileSystem.RemovedPreservesTree | recycle_bin.py:72 | `os.remove` keeps the filesystem a tree |
| FileSystem.RemovedDirPreservesTree | utils.py:17-18 | `os.rmdir` keeps the filesystem a tree |
| FileSystem.PrunedPreservesTree | cleanup.py:54 | taking away a whole subtree other than the root keeps the filesystem a tree |
| FileSystem.ListingMembers | cleanup.py:38-39 | the nested walk loops visit exactly the paths `root/name` of the walk's steps, for every file name of every step |
| TrashStore.Stamp | recycle_bin.py:38 | the `%Y%m%d_%H%M%S` stamp is 15 characters: eight digits, `_`, six digits |
| TrashStore.StampInjective | recycle_bin.py:38 | the `%Y%m%d_%H%M%S` stamp names the second exactly: two readings have equal stamps exactly when they fall within the same second |
| TrashStore.BinKey | recycle_bin.py:37-39 | the bin name is the stamp, `_` and then the base name, unchanged |
| TrashStore.BinKeyCollides | recycle_bin.py:37-39 | two bin keys are equal exactly when the moves happen in the same second and the objects have the same base name; nothing disambiguates them |
| TrashStore.RecycleBin.constructor | recycle_bin.py:10-12 | the bin directory is `~/.smart_cleaner_bin` and the metadata document starts as the one found there |
| TrashStore.RecycleBin.EnsureBinExists | recycle_bin.py:15-19 | an existing bin directory is kept, and an empty document is written only when there is none. A file at the bin path makes the metadata write raise `NotADirectoryError`, and nothing changes. A missing bin is built with `os.makedirs`, missing ancestors included, and given an empty document; when `os.makedirs` raises, nothing changes |
| TrashStore.OpenBin | recycle_bin.py:10-19 | `RecycleBin()`: the same three outcomes. On success the new bin is valid and sits at `~/.smart_cleaner_bin`; on failure the error `os.makedirs` or the metadata write raised is returned |
| TrashStore.RecycleBin.LoadMetadata | recycle_bin.py:21-26 | the stored index, or the empty map when the document is missing or does not parse |
| TrashStore.RecycleBin.SaveMetadata | recycle_bin.py:28-30 | the document afterwards holds exactly the given index |
| TrashStore.RecycleBin.MoveToBin | recycle_bin.py:32-48 | a missing path raises `FileNotFoundError` and changes nothing. A failing `shutil.move` changes nothing. On success the source is gone, the bin path holds the object when it was free (a directory there takes the object inside it), and the index is the old one with exactly the `<stamp>_<basename>` key set (overwriting any earlier entry) to the path as given, the second clock reading and the size of the bin path. The bin stays valid |
| TrashStore.RecycleBin.MovedIntoBin | recycle_bin.py:40-42 | a move into the bin keeps the bin directory and removes the source; the bin path is present afterwards, and when it was free it holds the moved object |
| TrashStore.ParentReady | recycle_bin.py:57-60 | an existing parent of the recorded path leaves the disk as it is; a missing one is created as a directory when `os.makedirs` succeeds, and every node is kept |
| TrashStore.RecycleBin.RestoreFile | recycle_bin.py:50-64 | an unknown key raises `ValueError` and changes nothing. Otherwise a missing parent of the recorded path is created with `os.makedirs`. The object is moved back, and exactly that key leaves the index. A failing `os.makedirs` changes nothing; a failing move keeps the created parent and the whole index |
| TrashStore.RecycleBin.PermanentlyDelete | recycle_bin.py:66-74 | an unknown key raises `ValueError` and changes nothing. When `os.remove` raises (a directory, a missing object) the filesystem and the entry are unchanged. On success exactly the bin path and exactly that key are gone |
| TrashStore.RecycleBin.GetBinContents | recycle_bin.py:76-77 | returns what `_load_metadata` reads (the empty map for a missing or unparsable document) and changes nothing, so two calls return the same map |
| TrashStore.MovedKeepsDirs | recycle_bin.py:42 | `shutil.move` keeps every directory outside the moved subtree, in particular the bin directory |
| TrashStore.BinRoundTrip | recycle_bin.py:42-62 | moving an object into a free slot of the bin leaves its parent in place, so restoring creates nothing, and the move back gives the original filesystem |
| TrashStore.TrashAndRestore | recycle_bin.py:32-64 | `move_to_bin(p)` followed by `restore_file` on the new key both succeed and give back the same filesystem and the same index, when the key collides with nothing |
| TrashStore.RestoreTrashed | recycle_bin.py:50-64 | restoring the key just added by a move into the bin succeeds and leaves the filesystem and the index as they were before that move |
| Cleanup.TempTotalAppend | cleanup.py:38-43 | the total over two listings is the sum of their totals |
| Cleanup.TempTotalCounts | cleanup.py:38-43 | every listed file that exists counts with its whole size, and a listing of only missing files totals 0 |
| Cleanup.ScanTempFiles | cleanup.py:33-45 | the temporary directory is `%TEMP%` on Windows when set, else `/tmp`; 0 when it is missing; otherwise the sum of `getsize` over every listed file, skipping the calls that raise |
| Cleanup.TrashBatchSpec | cleanup.py:50-56 | after trashing a listing one path at a time, failures skipped, exactly the objects under no trashable listed path remain, unchanged, and the disk stays a tree |
| Cleanup.TrashBatchEmptiesListing | cleanup.py:47-57 | when every listed path is trashable, measuring the same listing again after the sweep gives 0 |
| Cleanup.FailedCallIsNoOp | cleanup.py:53-56 | a `send2trash` call in the loop that raises has no effect: the batch leaves the same disk as the batch without that path, so the other paths are not affected |
| Cleanup.DeleteTempFiles | cleanup.py:47-58 | the same temporary directory; when it exists, the disk afterwards is the batch of its listed files; the returned total is the fresh measurement of a second walk |
| Cleanup.MatchingMembers | cleanup.py:80-86 | a path is among the matches of a digest exactly when it is listed, readable and has that digest |
| Cleanup.FirstIndexMatching | cleanup.py:77-86 | a digest has a first readable listed file exactly when some readable listed file has that digest |
| Cleanup.GroupedSpec | cleanup.py:76-88 | `file_hashes` holds each digest of a readable listed file, once and in order of first occurrence. Each digest's list is exactly the readable listed files with that digest, in walk order. Unreadable files appear nowhere |
| Cleanup.HashFiles | cleanup.py:76-88 | the nested loops build exactly the dictionary `Grouped`, which `GroupedSpec` characterises |
| Cleanup.ReportMembers | cleanup.py:89-93 | a line is listed exactly when its path is in a group of more than one path, with that path's size |
| Cleanup.DuplicatesReported | cleanup.py:76-93 | a line is listed exactly when its path is a listed readable file, at least one other listed entry shares its digest, and the line shows its size in bytes; a unique digest is never listed |
| Cleanup.ListDuplicates | cleanup.py:89-93 | the list inserted is the groups of more than one path, in dictionary order, each in its stored order |
| Cleanup.ScanDupFiles | cleanup.py:67-94 | a blank or non-existent directory is an error, with no scanning; otherwise the result is the duplicate list of the walk |
| Cleanup.KeepMembers | cleanup.py:102-106 | a line stays in the list exactly when it was there and its item was not deleted |
| Cleanup.KeepNone | cleanup.py:102-106 | deleting no items leaves the list as it was |
| Cleanup.KeepTwice | cleanup.py:102-106 | deleting items one by one is deleting them all at once |
| Cleanup.SweepNodes | cleanup.py:102-105 | the disk after the confirmed loop is the batch of the selected paths |
| Cleanup.SweepTrashed | cleanup.py:102-106 | an item is deleted from the list exactly when its own `send2trash` call succeeded |
| Cleanup.SweepFailed | cleanup.py:104-108 | an error is shown for a path exactly when the call for an item with that path raised |
| Cleanup.DeleteSelectedDup | cleanup.py:96-108 | an empty selection only warns, and a declined confirmation changes nothing. A confirmed one sends each selected path to the trash and deletes from the list exactly the items whose call succeeded. One error is reported per failing path, in order, and the disk is the sweep's |
| SecureErase.Burst | utils.py:10 | `os.urandom(length)` gives exactly `length` bytes |
| SecureErase.Written | utils.py:7-10 | `f.write` in append mode puts the buffer after the file's data and keeps the data. Writing in place at a position keeps the bytes before it, puts the buffer there, keeps any bytes after it, and grows the file only when the buffer runs past the end |
| SecureErase.AppendedLength | utils.py:7-10 | every appending pass adds `length` bytes |
| SecureErase.AppendedKeepsData | utils.py:7-10 | appending passes never touch the bytes already in the file |
| SecureErase.AppendPasses | utils.py:6-10 | the loop as written: `max(passes, 0)` passes, each appending `length` random bytes (the size measured before any write) whatever `seek(0)` did; nothing else on disk changes |
| SecureErase.AppendLeavesOriginal | utils.py:6-10 | after the loop as written the file still starts with all its original bytes and is `length * (passes + 1)` bytes long |
| SecureErase.AppendLeavesOriginalExample | utils.py:6-10 | a 3-byte file after 3 passes is 12 bytes long and still starts with its original 3 bytes |
| SecureErase.Overwritten | utils.py:8-10 | writing in place keeps the file length |
| SecureErase.OverwritePasses | utils.py:6-10 | the loop as intended: each pass writes `length` random bytes over the whole file, so the file ends as the last pass's bytes at its old length |
| SecureErase.OverwriteHidesOriginal | utils.py:8-10 | after at least one pass in place, any two files of one length have equal content: nothing of the original bytes is left |
| SecureErase.WalkDone | utils.py:13-18 | after every step of the bottom-up walk only the directory itself is left of its subtree, empty, and `os.rmdir` removes it, leaving exactly the rest of the tree |
| SecureErase.EraseStep | utils.py:13-17 | one step of the walk erases every listed file and removes every listed subdirectory, which the earlier steps have emptied |
| SecureErase.EraseFile | utils.py:5-11 | a regular file is removed; only that path goes, and the disk stays a tree. What `os.remove` discards is the original content with `max(passes, 0)` bursts appended: it still starts with every original byte, and is `max(passes, 0) + 1` times as long |
| SecureErase.EraseTree | utils.py:12-18 | a directory walked bottom-up loses exactly its whole subtree, itself last; nothing else changes |
| SecureErase.SecureDelete | utils.py:4-18 | for a file path, what `os.remove` discards is the original content with `max(passes, 0)` bursts appended. Afterwards nothing at or under the path exists and nothing else has changed. A path that is neither file nor directory is a silent no-op. The disk stays a tree |

## Left out

- The user interface is not modelled: Tkinter widgets, dialogs, the Treeview, the progress labels and the buttons. Dialog answers and selections are inputs, and the Treeview is a sequence of rows.
- Threads are not modelled. The scans run one at a time on an unchanging filesystem.
- Float MB/KB display conversions are not modelled. Sizes are whole bytes.
- Path strings are not modelled: no separator handling, normalisation, `~` expansion, symbolic links or case rules. Paths are component lists, and the home directory is a parameter.
- Permissions are reduced to the `refused` set for `send2trash` and the `unreadable` set for reading. `shutil.move`, `os.makedirs`, `os.remove` and `os.rmdir` fail only for the reasons the tree itself gives.
- Where `send2trash` puts an object is not modelled, only that it leaves the visible tree.
- JSON encoding and decoding are not modelled. The metadata document is a value in `RecycleBin.doc`, not a file on the disk, so a failing `json.dump` is not modelled either.
- `os.walk` is an input. For `secure_delete` it must be the bottom-up walk of the unchanging directory. The scans accept any sequence, so they do not claim to visit every file under the directory.
- Cleanup.TempDirectory: both temp routines compute the directory with it. It has no contract of its own, and `os.name == 'nt'` and the `TEMP` variable are parameters. An empty `TEMP` value is not modelled, since paths are component lists.
- Cleanup.SizeOrSkip: the duplicate list uses the same size as the temp scan, which is 0 when `getsize` raises. The code calls `getsize` at cleanup.py:92 without a `try`. A listed duplicate is a readable file of the same unchanging disk, so the call cannot raise here; a file vanishing between hashing and listing is not modelled.
- FileSystem.DirectorySize: a directory's `st_size`, which `getsize` reports and `move_to_bin` records as the size of a trashed directory, is the constant 4096. The real value depends on the filesystem.
- SecureErase.SecureDelete: the `passes=3` default is not modelled; `passes` is any `int` given by the caller.
- SecureErase.SecureDelete: requires a directory path other than the root. Erasing `/` would remove everything under it and then raise from `os.rmdir("/")`, which is not modelled.
- SecureErase.SecureDelete: exceptions raised part-way are not modelled, for example by a file that cannot be opened or removed. Recursive calls on files get the same `passes` and the same `noise` function, so the random bytes of different files are not independent.
- SecureErase.SecureDelete: what the storage media still holds after `os.remove` is not modelled, only the visible tree. The content discarded is stated for a file path (`written`), not for each file inside a walked directory.
- FileSystem.Moved: for a directory source whose target's parent is missing, `shutil.move` falls back to `copytree`, which creates the missing parents. That fallback is not modelled: the move raises `FileNotFoundError` in the model. `move_to_bin` targets a name inside the existing bin directory, and `restore_file` creates the parent first, so neither reaches that case.

## Findings

| source | as written | input that shows it | evidently intended | confidence | as-written member | corrected member |
|---|---|---|---|---|---|---|
| utils.py:7-10 | the file is opened with mode `"ba+"`, so every `f.write` lands at the end of the file and `f.seek(0)` has no effect on where it writes | a 3-byte file `[7, 7, 7]` with `passes = 3`: before `os.remove` the file is 12 bytes long and still starts with `[7, 7, 7]` | each pass writes over the file's own bytes from offset 0 (a mode such as `"rb+"`), so the length stays the same and no original byte survives | high; not executed | SecureErase.AppendPasses, SecureErase.AppendLeavesOriginalExample | SecureErase.OverwritePasses, SecureErase.OverwriteHidesOriginal |
