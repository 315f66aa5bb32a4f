/**
 * The cleaner's own recycle bin: a directory `~/.smart_cleaner_bin` that holds
 * trashed objects under generated names, and a metadata document beside them
 * that maps each name to where the object came from, when and how big it was.
 * Every operation loads the document, checks, changes the map and the
 * filesystem, and saves the document.
 */
module TrashStore {
  import opened Wrappers
  import opened FileSystem

  /** A reading of datetime.now(). */
  datatype DateTime = DateTime(year: nat, month: nat, day: nat, hour: nat, minute: nat, second: nat, microsecond: nat)
  {
    predicate Valid()
    {
      && 1 <= year <= 9999 && 1 <= month <= 12 && 1 <= day <= 31
      && hour < 24 && minute < 60 && second < 60 && microsecond < 1000000
    }
  }

  type Instant = t: DateTime | t.Valid() witness DateTime(1970, 1, 1, 0, 0, 0, 0)

  function Pow10(w: nat): (p: nat)
    ensures p >= 1
  {
    if w == 0 then 1 else 10 * Pow10(w - 1)
  }

  function DigitChar(d: nat): (c: char)
    requires d < 10
    ensures '0' <= c <= '9'
  {
    ('0' as int + d) as char
  }

  /** The decimal digit of `n` at position `k`, counting from the units. */
  function Digit(n: nat, k: nat): (d: nat)
    ensures d < 10
  {
    if k == 0 then n % 10 else Digit(n / 10, k - 1)
  }

  /** The last `width` decimal digits of `n`, zero-padded: strftime's %m, %d, %H ... (and %Y with width 4). */
  function Padded(n: nat, width: nat): (s: string)
    ensures |s| == width
    ensures forall i :: 0 <= i < width ==> '0' <= s[i] <= '9'
  {
    seq(width, i requires 0 <= i < width => DigitChar(Digit(n, width - 1 - i)))
  }

  /** The padded form is the padded rest followed by the last digit. */
  lemma PaddedSplit(n: nat, width: nat)
    requires width > 0
    ensures Padded(n, width) == Padded(n / 10, width - 1) + [DigitChar(n % 10)]
  {
    var s, t := Padded(n, width), Padded(n / 10, width - 1) + [DigitChar(n % 10)];
    forall i | 0 <= i < width ensures s[i] == t[i] {
      if i < width - 1 {
        assert Digit(n, width - 1 - i) == Digit(n / 10, width - 2 - i);
        assert t[i] == Padded(n / 10, width - 1)[i];
      } else {
        assert Digit(n, 0) == n % 10;
      }
    }
  }

  /** Numbers below 10^width have distinct padded forms. */
  lemma {:induction false} PaddedInjective(n: nat, m: nat, width: nat)
    requires n < Pow10(width) && m < Pow10(width)
    requires Padded(n, width) == Padded(m, width)
    ensures n == m
  {
    if width > 0 {
      var s, t := Padded(n, width), Padded(m, width);
      PaddedSplit(n, width);
      PaddedSplit(m, width);
      assert s[width - 1] == DigitChar(n % 10) && t[width - 1] == DigitChar(m % 10);
      assert n % 10 == m % 10;
      assert s[..width - 1] == Padded(n / 10, width - 1);
      assert t[..width - 1] == Padded(m / 10, width - 1);
      PaddedInjective(n / 10, m / 10, width - 1);
    }
  }

  /** datetime.now().strftime("%Y%m%d_%H%M%S"). */
  function Stamp(t: Instant): (s: string)
    ensures |s| == 15 && s[8] == '_'
    ensures forall i :: 0 <= i < 15 && i != 8 ==> '0' <= s[i] <= '9'
  {
    Padded(t.year, 4) + Padded(t.month, 2) + Padded(t.day, 2) + "_"
      + Padded(t.hour, 2) + Padded(t.minute, 2) + Padded(t.second, 2)
  }

  /** Two readings within the same second; the stamp ignores microseconds. */
  predicate SameSecond(a: Instant, b: Instant)
  {
    a.year == b.year && a.month == b.month && a.day == b.day
      && a.hour == b.hour && a.minute == b.minute && a.second == b.second
  }

  /** The stamp names the second exactly: equal stamps mean the same second, and conversely. */
  lemma StampInjective(a: Instant, b: Instant)
    ensures Stamp(a) == Stamp(b) <==> SameSecond(a, b)
  {
    if Stamp(a) == Stamp(b) {
      var s, t := Stamp(a), Stamp(b);
      assert Pow10(2) == 100 && Pow10(4) == 10000;
      assert s[0..4] == Padded(a.year, 4) && t[0..4] == Padded(b.year, 4);
      assert s[4..6] == Padded(a.month, 2) && t[4..6] == Padded(b.month, 2);
      assert s[6..8] == Padded(a.day, 2) && t[6..8] == Padded(b.day, 2);
      assert s[9..11] == Padded(a.hour, 2) && t[9..11] == Padded(b.hour, 2);
      assert s[11..13] == Padded(a.minute, 2) && t[11..13] == Padded(b.minute, 2);
      assert s[13..15] == Padded(a.second, 2) && t[13..15] == Padded(b.second, 2);
      PaddedInjective(a.year, b.year, 4);
      PaddedInjective(a.month, b.month, 2);
      PaddedInjective(a.day, b.day, 2);
      PaddedInjective(a.hour, b.hour, 2);
      PaddedInjective(a.minute, b.minute, 2);
      PaddedInjective(a.second, b.second, 2);
    }
  }

  /** f"{timestamp}_{file_name}": the name a trashed object gets in the bin. */
  function BinKey(now: Instant, fileName: string): (k: string)
    ensures |k| == 16 + |fileName| && k[..15] == Stamp(now) && k[15] == '_' && k[16..] == fileName
  {
    Stamp(now) + "_" + fileName
  }

  /**
   * Two moves get the same key exactly when they happen within the same
   * second and their objects have the same base name; nothing disambiguates.
   */
  lemma BinKeyCollides(now1: Instant, name1: string, now2: Instant, name2: string)
    ensures BinKey(now1, name1) == BinKey(now2, name2) <==> SameSecond(now1, now2) && name1 == name2
  {
    StampInjective(now1, now2);
    if BinKey(now1, name1) == BinKey(now2, name2) {
      var k1, k2 := BinKey(now1, name1), BinKey(now2, name2);
      assert Stamp(now1) == k1[..15] && Stamp(now2) == k2[..15];
      assert name1 == k1[16..] && name2 == k2[16..];
    }
  }

  /** One record of metadata.json. */
  datatype Entry = Entry(originalPath: Path, deletedDate: Instant, size: nat)

  type Index = map<string, Entry>

  /** What metadata.json holds: nothing yet, text that does not parse, or an index. */
  datatype MetadataDoc = Absent | Garbled | Stored(index: Index)

  /** The exceptions the bin's operations raise. */
  datatype BinError =
    | NotFound          // FileNotFoundError from move_to_bin
    | NotInBin          // ValueError from restore_file and permanently_delete
    | Os(cause: OsError) // whatever shutil.move, os.makedirs or os.remove raise

  datatype Outcome = Done | Failed(error: BinError)

  const BinFolder: string := ".smart_cleaner_bin"

  /** The parent of `original` as restore_file leaves it: created with os.makedirs when missing. */
  function ParentReady(nodes: Nodes, original: Path): (r: Result<Nodes, OsError>)
    ensures Dirname(original) in nodes ==> r == Success(nodes)
    ensures r.Success? ==> (forall q :: q in nodes ==> q in r.value && r.value[q] == nodes[q]) && Dirname(original) in r.value
    ensures Dirname(original) !in nodes && r.Success? ==> r.value[Dirname(original)] == Dir
  {
    if Dirname(original) in nodes then Success(nodes) else MakeDirs(nodes, Dirname(original))
  }

  class RecycleBin {
    const disk: Disk
    const binDir: Path
    /** The contents of `binDir/metadata.json`. */
    var doc: MetadataDoc

    ghost predicate Valid()
      reads this, disk
    {
      disk.Valid() && binDir in disk.nodes && disk.nodes[binDir].Dir?
    }

    /** os.path.join(self.bin_dir, bin_name). */
    function BinPath(key: string): Path
    {
      Join(binDir, key)
    }

    /** The fields RecycleBin() sets before it calls _ensure_bin_exists. */
    constructor (disk: Disk, home: Path, onDisk: MetadataDoc)
      ensures this.disk == disk && binDir == Join(home, BinFolder) && doc == onDisk
    {
      this.disk := disk;
      binDir := Join(home, BinFolder);
      doc := onDisk;
    }

    /**
     * _ensure_bin_exists: a missing bin directory is created with
     * os.makedirs, missing ancestors included, and gets an empty document
     * (there can be no document in a directory just made). An existing
     * directory keeps its contents and gets an empty document only when it
     * has none. When the bin path is a file, os.path.exists is true, so no
     * directory is made, and saving the document under it raises
     * NotADirectoryError.
     */
    method EnsureBinExists() returns (r: Outcome)
      requires disk.Valid()
      modifies this, disk
      ensures disk.Valid()
      ensures binDir in old(disk.nodes) && old(disk.nodes)[binDir].Dir? ==>
        && r == Done && disk.nodes == old(disk.nodes)
        && doc == if old(doc).Absent? then Stored(map[]) else old(doc)
      ensures binDir in old(disk.nodes) && old(disk.nodes)[binDir].File? ==>
        r == Failed(Os(NotADirectory)) && disk.nodes == old(disk.nodes) && doc == old(doc)
      ensures binDir !in old(disk.nodes) ==>
        match MakeDirs(old(disk.nodes), binDir)
        case Failure(e) => r == Failed(Os(e)) && disk.nodes == old(disk.nodes) && doc == old(doc)
        case Success(made) => r == Done && disk.nodes == made && doc == Stored(map[])
      ensures r.Done? ==> Valid()
    {
      if binDir !in disk.nodes {
        var made := MakeDirs(disk.nodes, binDir);
        if made.Failure? {
          return Failed(Os(made.error));
        }
        MakeDirsAdds(disk.nodes, binDir);
        disk.nodes := made.value;
        SaveMetadata(map[]);
        return Done;
      }
      if disk.nodes[binDir].File? {
        return Failed(Os(NotADirectory));
      }
      if doc.Absent? {
        SaveMetadata(map[]);
      }
      r := Done;
    }

    /** _load_metadata: the stored index, or an empty one when the document is missing or unparsable. */
    function LoadMetadata(): (m: Index)
      reads this
      ensures doc.Stored? ==> m == doc.index
      ensures !doc.Stored? ==> m == map[]
    {
      match doc
      case Stored(index) => index
      case _ => map[]
    }

    /** _save_metadata: overwrite the document with `m`. */
    method SaveMetadata(m: Index)
      modifies this`doc
      ensures doc == Stored(m)
    {
      doc := Stored(m);
    }

    /**
     * move_to_bin: a missing path raises before anything is read or changed;
     * otherwise the object is moved to `binDir/<stamp>_<name>` and recorded
     * under that key with the path as given, the second clock reading and
     * the size os.path.getsize reports for the bin path. A key already in
     * the index is overwritten, but only once the move has succeeded: a
     * move that raises leaves the disk and the index as they were.
     */
    method MoveToBin(filePath: Path, now: Instant, later: Instant) returns (r: Outcome)
      requires Valid()
      modifies this, disk
      ensures Valid()
      ensures filePath !in old(disk.nodes) ==>
        r == Failed(NotFound) && disk.nodes == old(disk.nodes) && doc == old(doc)
      ensures filePath in old(disk.nodes) ==>
        var key := BinKey(now, Basename(filePath));
        var moved := Moved(old(disk.nodes), filePath, BinPath(key));
        && (moved.Failure? ==>
              r == Failed(Os(moved.error)) && disk.nodes == old(disk.nodes) && doc == old(doc))
        && (moved.Success? ==>
              && r == Done && disk.nodes == moved.value
              && filePath !in disk.nodes && BinPath(key) in disk.nodes
              && doc == Stored(old(LoadMetadata())[key := Entry(filePath, later, SizeOf(disk.nodes[BinPath(key)]))])
              && (BinPath(key) !in old(disk.nodes) ==> disk.nodes[BinPath(key)] == old(disk.nodes)[filePath]))
    {
      if filePath !in disk.nodes {
        return Failed(NotFound);
      }
      var metadata := LoadMetadata();
      var fileName := Basename(filePath);
      var key := BinKey(now, fileName);
      var binPath := BinPath(key);
      var moved := Moved(disk.nodes, filePath, binPath);
      if moved.Failure? {
        return Failed(Os(moved.error));
      }
      assert Basename(binPath) == key;
      MovedIntoBin(disk.nodes, filePath, key);
      disk.nodes := moved.value;
      metadata := metadata[key := Entry(filePath, later, SizeOf(disk.nodes[binPath]))];
      SaveMetadata(metadata);
      r := Done;
    }

    /** A move into the bin keeps the bin directory, and the bin path then exists. */
    lemma MovedIntoBin(nodes: Nodes, src: Path, key: string)
      requires Tree(nodes) && binDir in nodes && nodes[binDir].Dir?
      requires Moved(nodes, src, BinPath(key)).Success? && src != BinPath(key)
      ensures var r := Moved(nodes, src, BinPath(key)).value;
        && Tree(r) && binDir in r && r[binDir].Dir? && src !in r && BinPath(key) in r
        && (BinPath(key) !in nodes ==> r[BinPath(key)] == nodes[src])
    {
      var b := BinPath(key);
      MovedPreservesTree(nodes, src, b);
      MovedKeepsDirs(nodes, src, b, binDir);
      if src != b {
        MovedRelocates(nodes, src, b);
        var t := MoveTarget(nodes, src, b);
        if t != b {
          MovedKeepsDirs(nodes, src, b, b);
        }
      }
    }

    /**
     * restore_file: an unknown key raises and changes nothing; otherwise a
     * missing parent of the recorded path is created, the object is moved
     * back to the recorded path, and exactly that key leaves the index. A
     * failing move leaves the created parent in place, and the entry too.
     */
    method RestoreFile(key: string) returns (r: Outcome)
      requires Valid()
      modifies this, disk
      ensures Valid()
      ensures key !in old(LoadMetadata()) ==>
        r == Failed(NotInBin) && disk.nodes == old(disk.nodes) && doc == old(doc)
      ensures key in old(LoadMetadata()) ==>
        var original := old(LoadMetadata())[key].originalPath;
        var ready := ParentReady(old(disk.nodes), original);
        && (ready.Failure? ==>
              r == Failed(Os(ready.error)) && disk.nodes == old(disk.nodes) && doc == old(doc))
        && (ready.Success? && Moved(ready.value, BinPath(key), original).Failure? ==>
              && r == Failed(Os(Moved(ready.value, BinPath(key), original).error))
              && disk.nodes == ready.value && doc == old(doc))
        && (ready.Success? && Moved(ready.value, BinPath(key), original).Success? ==>
              && r == Done && disk.nodes == Moved(ready.value, BinPath(key), original).value
              && doc == Stored(old(LoadMetadata()) - {key}))
    {
      var metadata := LoadMetadata();
      if key !in metadata {
        return Failed(NotInBin);
      }
      var binPath := BinPath(key);
      var originalPath := metadata[key].originalPath;
      var originalDir := Dirname(originalPath);
      if originalDir !in disk.nodes {
        var made := MakeDirs(disk.nodes, originalDir);
        if made.Failure? {
          return Failed(Os(made.error));
        }
        MakeDirsAdds(disk.nodes, originalDir);
        disk.nodes := made.value;
      }
      var moved := Moved(disk.nodes, binPath, originalPath);
      if moved.Failure? {
        return Failed(Os(moved.error));
      }
      MovedPreservesTree(disk.nodes, binPath, originalPath);
      MovedKeepsDirs(disk.nodes, binPath, originalPath, binDir);
      disk.nodes := moved.value;
      metadata := metadata - {key};
      SaveMetadata(metadata);
      r := Done;
    }

    /**
     * permanently_delete: an unknown key raises and changes nothing; the
     * object is removed with os.remove before the entry is dropped, so when
     * os.remove raises (a directory, a missing object) the entry survives.
     */
    method PermanentlyDelete(key: string) returns (r: Outcome)
      requires Valid()
      modifies this, disk
      ensures Valid()
      ensures key !in old(LoadMetadata()) ==>
        r == Failed(NotInBin) && disk.nodes == old(disk.nodes) && doc == old(doc)
      ensures key in old(LoadMetadata()) ==>
        match Removed(old(disk.nodes), BinPath(key))
        case Failure(e) => r == Failed(Os(e)) && disk.nodes == old(disk.nodes) && doc == old(doc)
        case Success(rest) => r == Done && disk.nodes == rest && doc == Stored(old(LoadMetadata()) - {key})
      ensures r.Done? ==> BinPath(key) !in disk.nodes && key !in LoadMetadata()
    {
      var metadata := LoadMetadata();
      if key !in metadata {
        return Failed(NotInBin);
      }
      var binPath := BinPath(key);
      var removed := Removed(disk.nodes, binPath);
      if removed.Failure? {
        return Failed(Os(removed.error));
      }
      RemovedPreservesTree(disk.nodes, binPath);
      disk.nodes := removed.value;
      metadata := metadata - {key};
      SaveMetadata(metadata);
      r := Done;
    }

    /** get_bin_contents: the index as _load_metadata reads it; nothing changes. */
    method GetBinContents() returns (contents: Index)
      ensures contents == LoadMetadata()
      ensures doc.Stored? ==> contents == doc.index
      ensures !doc.Stored? ==> contents == map[]
    {
      contents := LoadMetadata();
    }
  }

  /**
   * RecycleBin(): the bin is `home/.smart_cleaner_bin`, made ready by
   * _ensure_bin_exists; when that raises, so does the constructor, and no
   * bin is handed out.
   */
  method OpenBin(disk: Disk, home: Path, onDisk: MetadataDoc) returns (r: Result<RecycleBin, BinError>)
    requires disk.Valid()
    modifies disk
    ensures disk.Valid()
    ensures r.Success? ==> fresh(r.value) && r.value.Valid() && r.value.disk == disk && r.value.binDir == Join(home, BinFolder)
    ensures Join(home, BinFolder) in old(disk.nodes) && old(disk.nodes)[Join(home, BinFolder)].Dir? ==>
      && r.Success? && disk.nodes == old(disk.nodes)
      && r.value.doc == if onDisk.Absent? then Stored(map[]) else onDisk
    ensures Join(home, BinFolder) in old(disk.nodes) && old(disk.nodes)[Join(home, BinFolder)].File? ==>
      r == Failure(Os(NotADirectory)) && disk.nodes == old(disk.nodes)
    ensures Join(home, BinFolder) !in old(disk.nodes) ==>
      match MakeDirs(old(disk.nodes), Join(home, BinFolder))
      case Failure(e) => r == Failure(Os(e)) && disk.nodes == old(disk.nodes)
      case Success(made) => r.Success? && disk.nodes == made && r.value.doc == Stored(map[])
  {
    var bin := new RecycleBin(disk, home, onDisk);
    var ready := bin.EnsureBinExists();
    if ready.Failed? {
      return Failure(ready.error);
    }
    r := Success(bin);
  }

  /**
   * shutil.move leaves every directory outside the moved subtree where it
   * was: a move target never is nor contains an existing directory.
   */
  lemma MovedKeepsDirs(nodes: Nodes, src: Path, dst: Path, q: Path)
    requires Tree(nodes) && Moved(nodes, src, dst).Success?
    requires q in nodes && nodes[q].Dir? && !(src <= q)
    ensures q in Moved(nodes, src, dst).value && Moved(nodes, src, dst).value[q] == Dir
  {
    if src != dst {
      var t := MoveTarget(nodes, src, dst);
      MovedRelocates(nodes, src, dst);
      if t <= q {
        if t != q {
          AncestorIsDir(nodes, q, t);
        }
        assert false;
      }
    }
  }

  /**
   * On the filesystem alone: a move into a free slot of the bin leaves the
   * object's parent in place, so restore_file creates nothing, and the move
   * back gives the filesystem as it was.
   */
  lemma BinRoundTrip(nodes: Nodes, binDir: Path, key: string, p: Path)
    requires Tree(nodes) && binDir in nodes && nodes[binDir].Dir?
    requires p in nodes && !(p <= binDir) && Join(binDir, key) !in nodes
    ensures Moved(nodes, p, Join(binDir, key)).Success?
    ensures var trashed := Moved(nodes, p, Join(binDir, key)).value;
      && ParentReady(trashed, p) == Success(trashed)
      && Moved(trashed, Join(binDir, key), p) == Success(nodes)
  {
    var b := Join(binDir, key);
    assert Dirname(b) == binDir;
    PrefixOfChild(p, binDir, key);
    MoveRoundTrip(nodes, p, b);
  }

  /**
   * The round trip through the bin: moving an object into a free slot of the
   * bin and restoring that key gives back the same filesystem and the same index.
   */
  method TrashAndRestore(bin: RecycleBin, p: Path, now: Instant, later: Instant) returns (moved: Outcome, restored: Outcome)
    requires bin.Valid()
    requires p in bin.disk.nodes && !(p <= bin.binDir)
    requires bin.BinPath(BinKey(now, Basename(p))) !in bin.disk.nodes
    requires BinKey(now, Basename(p)) !in bin.LoadMetadata()
    modifies bin, bin.disk
    ensures bin.Valid()
    ensures moved == Done && restored == Done
    ensures bin.disk.nodes == old(bin.disk.nodes) && bin.LoadMetadata() == old(bin.LoadMetadata())
  {
    var key := BinKey(now, Basename(p));
    BinRoundTrip(bin.disk.nodes, bin.binDir, key, p);
    moved := bin.MoveToBin(p, now, later);
    restored := RestoreTrashed(bin, key, p, old(bin.disk.nodes), old(bin.LoadMetadata()));
  }

  /** The second half of the round trip: restoring the key of an object just moved into the bin. */
  method RestoreTrashed(bin: RecycleBin, key: string, p: Path, ghost nodes: Nodes, ghost index: Index) returns (restored: Outcome)
    requires bin.Valid() && key !in index && key in bin.LoadMetadata()
    requires bin.LoadMetadata() == index[key := bin.LoadMetadata()[key]] && bin.LoadMetadata()[key].originalPath == p
    requires ParentReady(bin.disk.nodes, p) == Success(bin.disk.nodes)
    requires Moved(bin.disk.nodes, bin.BinPath(key), p) == Success(nodes)
    modifies bin, bin.disk
    ensures bin.Valid()
    ensures restored == Done && bin.disk.nodes == nodes && bin.LoadMetadata() == index
  {
    ghost var before := bin.LoadMetadata();
    UpdateThenRemove(index, key, before[key]);
    restored := bin.RestoreFile(key);
  }

  /** Recording a new key and then removing it gives the index back. */
  lemma UpdateThenRemove(index: Index, key: string, e: Entry)
    requires key !in index
    ensures index[key := e] - {key} == index
  {
  }
}
