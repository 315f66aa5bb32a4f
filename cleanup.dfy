/**
 * The cleanup tab's engine: measuring and trashing the temporary directory,
 * finding files with equal content, and trashing the duplicates a user picks.
 * os.walk is an input (the triples it yields), the disk is read and changed
 * through the filesystem primitives, and send2trash is `Trashed`.
 */
module Cleanup {
  import opened Wrappers
  import opened FileSystem

  /**
   * The temporary directory both temp routines compute first: %TEMP% on
   * Windows, /tmp when that is unset or elsewhere.
   */
  function TempDirectory(onWindows: bool, tempVariable: Option<Path>): Path
  {
    if onWindows && tempVariable.Some? then tempVariable.value else ["tmp"]
  }

  // ---------------------------------------------------------------------------
  // Temporary files

  /**
   * The size os.path.getsize reports for `p`, or 0 when the call raises: the
   * temp scan skips such a file, and a listed duplicate is a readable file,
   * for which the call succeeds.
   */
  function SizeOrSkip(nodes: Nodes, p: Path): nat
  {
    match GetSize(nodes, p)
    case Success(n) => n
    case Failure(_) => 0
  }

  /** The total scan_temp_files adds up over `paths`. */
  function TempTotal(nodes: Nodes, paths: seq<Path>): nat
  {
    if paths == [] then 0 else TempTotal(nodes, paths[..|paths| - 1]) + SizeOrSkip(nodes, paths[|paths| - 1])
  }

  /** The total over two listings is the sum of their totals. */
  lemma {:induction false} TempTotalAppend(nodes: Nodes, a: seq<Path>, b: seq<Path>)
    ensures TempTotal(nodes, a + b) == TempTotal(nodes, a) + TempTotal(nodes, b)
    decreases |b|
  {
    if b != [] {
      var b' := b[..|b| - 1];
      assert (a + b)[..|a + b| - 1] == a + b' && (a + b)[|a + b| - 1] == b[|b| - 1];
      TempTotalAppend(nodes, a, b');
    } else {
      assert a + b == a;
    }
  }

  /** Every listed file that exists counts with its full size, and only existing files count. */
  lemma {:induction false} TempTotalCounts(nodes: Nodes, paths: seq<Path>)
    ensures forall k :: 0 <= k < |paths| && paths[k] in nodes ==> SizeOf(nodes[paths[k]]) <= TempTotal(nodes, paths)
    ensures (forall k :: 0 <= k < |paths| ==> paths[k] !in nodes) ==> TempTotal(nodes, paths) == 0
  {
    if paths != [] {
      var front := paths[..|paths| - 1];
      TempTotalCounts(nodes, front);
      forall k | 0 <= k < |paths| && paths[k] in nodes
        ensures SizeOf(nodes[paths[k]]) <= TempTotal(nodes, paths)
      {
        if k < |front| {
          assert front[k] == paths[k];
        }
      }
      if forall k :: 0 <= k < |paths| ==> paths[k] !in nodes {
        assert forall k :: 0 <= k < |front| ==> front[k] == paths[k];
      }
    }
  }

  /** The files listed before the `j`-th file of step `i`. */
  function Seen(walk: seq<WalkStep>, i: nat, j: nat): seq<Path>
    requires i < |walk| && j <= |walk[i].files|
  {
    Listing(walk[..i]) + StepPaths(walk[i])[..j]
  }

  /** The walk's listing grows one step at a time, file by file. */
  lemma SeenGrows(walk: seq<WalkStep>, i: nat, j: nat)
    requires i < |walk| && j < |walk[i].files|
    ensures Seen(walk, i, j + 1) == Seen(walk, i, j) + [Join(walk[i].root, walk[i].files[j])]
  {
    assert StepPaths(walk[i])[..j + 1] == StepPaths(walk[i])[..j] + [StepPaths(walk[i])[j]];
  }

  /** A step starts from the listing of the steps before it. */
  lemma SeenStarts(walk: seq<WalkStep>, i: nat)
    requires i < |walk|
    ensures Seen(walk, i, 0) == Listing(walk[..i])
  {
    assert StepPaths(walk[i])[..0] == [];
  }

  /** A step ends at the listing of the steps up to it. */
  lemma SeenEnds(walk: seq<WalkStep>, i: nat)
    requires i < |walk|
    ensures Seen(walk, i, |walk[i].files|) == Listing(walk[..i + 1])
  {
    assert walk[..i + 1][..i] == walk[..i];
    assert StepPaths(walk[i])[..|walk[i].files|] == StepPaths(walk[i]);
  }

  /** One more listed file adds what getsize reports for it. */
  lemma TempTotalGrows(nodes: Nodes, paths: seq<Path>, p: Path)
    ensures TempTotal(nodes, paths + [p]) == TempTotal(nodes, paths) + SizeOrSkip(nodes, p)
  {
    assert (paths + [p])[..|paths|] == paths;
  }

  /**
   * scan_temp_files: nothing when the temporary directory is missing, else
   * the sum of os.path.getsize over every file the walk lists, skipping the
   * files whose call raises.
   */
  method ScanTempFiles(disk: Disk, onWindows: bool, tempVariable: Option<Path>, walk: seq<WalkStep>) returns (total: nat)
    ensures total == if TempDirectory(onWindows, tempVariable) in disk.nodes then TempTotal(disk.nodes, Listing(walk)) else 0
  {
    var tempDir := TempDirectory(onWindows, tempVariable);
    total := 0;
    if tempDir !in disk.nodes {
      return;
    }
    assert walk[..0] == [];
    for i := 0 to |walk|
      invariant total == TempTotal(disk.nodes, Listing(walk[..i]))
    {
      var step := walk[i];
      SeenStarts(walk, i);
      for j := 0 to |step.files|
        invariant total == TempTotal(disk.nodes, Seen(walk, i, j))
      {
        var path := Join(step.root, step.files[j]);
        SeenGrows(walk, i, j);
        TempTotalGrows(disk.nodes, Seen(walk, i, j), path);
        match GetSize(disk.nodes, path) {
          case Success(size) => total := total + size;
          case Failure(_) =>
        }
      }
      SeenEnds(walk, i);
    }
    assert walk[..|walk|] == walk;
  }

  /**
   * The objects gone after sending `paths` to the trash one by one: a call
   * that raises (a missing path, a refused one) is skipped and the loop
   * continues.
   */
  function TrashBatch(nodes: Nodes, paths: seq<Path>, refused: set<Path>): Nodes
  {
    if paths == [] then nodes
    else
      var before := TrashBatch(nodes, paths[..|paths| - 1], refused);
      match Trashed(before, paths[|paths| - 1], refused)
      case Success(after) => after
      case Failure(_) => before
  }

  /** One more path either is trashed, taking its subtree, or raises and changes nothing. */
  lemma TrashBatchGrows(nodes: Nodes, paths: seq<Path>, p: Path, refused: set<Path>)
    ensures TrashBatch(nodes, paths + [p], refused) ==
      match Trashed(TrashBatch(nodes, paths, refused), p, refused)
      case Success(after) => after
      case Failure(_) => TrashBatch(nodes, paths, refused)
  {
    assert (paths + [p])[..|paths|] == paths;
  }

  /** Some trashable path of `paths` lies at or above `q`. */
  predicate Swept(paths: seq<Path>, refused: set<Path>, q: Path)
  {
    exists k :: 0 <= k < |paths| && Trashable(paths[k], refused) && paths[k] <= q
  }

  /**
   * What a batch leaves: exactly the objects under no trashable path of the
   * batch, untouched. A failing call has no effect on what the others do, and
   * the order of the batch does not matter.
   */
  lemma {:induction false} TrashBatchSpec(nodes: Nodes, paths: seq<Path>, refused: set<Path>)
    requires Tree(nodes)
    ensures var r := TrashBatch(nodes, paths, refused);
      && Tree(r)
      && (forall q :: q in r <==> q in nodes && !Swept(paths, refused, q))
      && (forall q :: q in r ==> r[q] == nodes[q])
  {
    if paths != [] {
      var front, p := paths[..|paths| - 1], paths[|paths| - 1];
      TrashBatchSpec(nodes, front, refused);
      var before := TrashBatch(nodes, front, refused);
      var r := TrashBatch(nodes, paths, refused);
      forall q ensures Swept(paths, refused, q) <==> Swept(front, refused, q) || (Trashable(p, refused) && p <= q) {
        if Swept(paths, refused, q) {
          var k :| 0 <= k < |paths| && Trashable(paths[k], refused) && paths[k] <= q;
          if k < |front| {
            assert front[k] == paths[k];
          }
        }
        if Swept(front, refused, q) {
          var k :| 0 <= k < |front| && Trashable(front[k], refused) && front[k] <= q;
          assert paths[k] == front[k];
        }
        if Trashable(p, refused) && p <= q {
          assert paths[|paths| - 1] == p;
        }
      }
      if p in before && Trashable(p, refused) {
        PrunedPreservesTree(before, p);
      } else if Trashable(p, refused) {
        AbsentHasNoEntries(before, p);
      }
    }
  }

  /**
   * Trashing a listing in which every path is trashable and then adding up
   * the same listing again gives nothing: each listed object is gone.
   */
  lemma TrashBatchEmptiesListing(nodes: Nodes, paths: seq<Path>, refused: set<Path>)
    requires Tree(nodes)
    requires forall k :: 0 <= k < |paths| ==> Trashable(paths[k], refused)
    ensures TempTotal(TrashBatch(nodes, paths, refused), paths) == 0
  {
    TrashBatchSpec(nodes, paths, refused);
    var r := TrashBatch(nodes, paths, refused);
    forall k | 0 <= k < |paths| ensures paths[k] !in r {
      assert Swept(paths, refused, paths[k]);
    }
    TempTotalCounts(r, paths);
  }

  /**
   * Leaving out a path that was not trashable, or already absent or swept
   * by an earlier path, sweeps no less.
   */
  lemma SweptWithout(nodes: Nodes, paths: seq<Path>, refused: set<Path>, k: nat, q: Path)
    requires Tree(nodes) && k < |paths| && q in nodes
    requires !Trashable(paths[k], refused) || paths[k] !in nodes || Swept(paths[..k], refused, paths[k])
    requires Swept(paths, refused, q)
    ensures Swept(paths[..k] + paths[k + 1..], refused, q)
  {
    var rest := paths[..k] + paths[k + 1..];
    var i :| 0 <= i < |paths| && Trashable(paths[i], refused) && paths[i] <= q;
    if i < k {
      assert rest[i] == paths[i];
    } else if i > k {
      assert rest[i - 1] == paths[i];
    } else {
      PresentAbove(nodes, paths[k], q);
      SweptThroughEarlier(paths, refused, k, q);
    }
  }

  /** In a tree whatever lies at or above a present path is present. */
  lemma PresentAbove(nodes: Nodes, a: Path, q: Path)
    requires Tree(nodes) && q in nodes && a <= q
    ensures a in nodes
  {
    if a != q {
      AncestorIsDir(nodes, q, a);
    }
  }

  /** What lies under a path an earlier path swept is swept by that earlier path. */
  lemma SweptThroughEarlier(paths: seq<Path>, refused: set<Path>, k: nat, q: Path)
    requires k < |paths| && Swept(paths[..k], refused, paths[k]) && paths[k] <= q
    ensures Swept(paths[..k] + paths[k + 1..], refused, q)
  {
    var j :| 0 <= j < k && Trashable(paths[..k][j], refused) && paths[..k][j] <= paths[k];
    var rest := paths[..k] + paths[k + 1..];
    assert rest[j] == paths[j] && paths[j] <= q;
  }

  /** Leaving out a path sweeps no more. */
  lemma SweptWithoutOnly(paths: seq<Path>, refused: set<Path>, k: nat, q: Path)
    requires k < |paths| && Swept(paths[..k] + paths[k + 1..], refused, q)
    ensures Swept(paths, refused, q)
  {
    var rest := paths[..k] + paths[k + 1..];
    var i :| 0 <= i < |rest| && Trashable(rest[i], refused) && rest[i] <= q;
    if i < k {
      assert rest[i] == paths[i];
    } else {
      assert rest[i] == paths[i + 1];
    }
  }

  /**
   * A call of the batch that raises changes nothing: the batch without that
   * path leaves the same filesystem, so one failure does not affect the
   * other paths.
   */
  lemma FailedCallIsNoOp(nodes: Nodes, paths: seq<Path>, refused: set<Path>, k: nat)
    requires Tree(nodes) && k < |paths|
    requires Trashed(TrashBatch(nodes, paths[..k], refused), paths[k], refused).Failure?
    ensures TrashBatch(nodes, paths, refused) == TrashBatch(nodes, paths[..k] + paths[k + 1..], refused)
  {
    var rest := paths[..k] + paths[k + 1..];
    TrashBatchSpec(nodes, paths, refused);
    TrashBatchSpec(nodes, rest, refused);
    TrashBatchSpec(nodes, paths[..k], refused);
    forall q | q in nodes ensures Swept(paths, refused, q) <==> Swept(rest, refused, q) {
      if Swept(paths, refused, q) {
        SweptWithout(nodes, paths, refused, k, q);
      }
      if Swept(rest, refused, q) {
        SweptWithoutOnly(paths, refused, k, q);
      }
    }
    assert TrashBatch(nodes, paths, refused) == TrashBatch(nodes, rest, refused);
  }

  /**
   * delete_temp_files: when the temporary directory exists, every listed
   * file is sent to the trash, failures skipped; then the directory is
   * measured again with a fresh walk.
   */
  method DeleteTempFiles(disk: Disk, onWindows: bool, tempVariable: Option<Path>, walk: seq<WalkStep>, refused: set<Path>,
                         rewalk: seq<WalkStep>)
    returns (total: nat)
    requires disk.Valid()
    modifies disk
    ensures disk.Valid()
    ensures disk.nodes == if TempDirectory(onWindows, tempVariable) in old(disk.nodes)
                          then TrashBatch(old(disk.nodes), Listing(walk), refused)
                          else old(disk.nodes)
    ensures total == if TempDirectory(onWindows, tempVariable) in disk.nodes then TempTotal(disk.nodes, Listing(rewalk)) else 0
  {
    var tempDir := TempDirectory(onWindows, tempVariable);
    if tempDir in disk.nodes {
      ghost var start := disk.nodes;
      assert walk[..0] == [];
      for i := 0 to |walk|
        invariant disk.nodes == TrashBatch(start, Listing(walk[..i]), refused)
      {
        var step := walk[i];
        SeenStarts(walk, i);
        for j := 0 to |step.files|
          invariant disk.nodes == TrashBatch(start, Seen(walk, i, j), refused)
        {
          var path := Join(step.root, step.files[j]);
          SeenGrows(walk, i, j);
          TrashBatchGrows(start, Seen(walk, i, j), path, refused);
          match Trashed(disk.nodes, path, refused) {
            case Success(after) => disk.nodes := after;
            case Failure(_) =>
          }
        }
        SeenEnds(walk, i);
      }
      assert walk[..|walk|] == walk;
      TrashBatchSpec(start, Listing(walk), refused);
    }
    total := ScanTempFiles(disk, onWindows, tempVariable, rewalk);
  }

  // ---------------------------------------------------------------------------
  // Duplicate files

  /** hashlib.md5(...).hexdigest(). */
  type Digest = string

  /** open(path, 'rb') and f.read() succeed: a present file the process may read. */
  predicate Readable(nodes: Nodes, unreadable: set<Path>, p: Path)
  {
    p in nodes && nodes[p].File? && p !in unreadable
  }

  /** The dictionary file_hashes: its keys in insertion order, and each key's path list. */
  datatype Hashes = Hashes(order: seq<Digest>, groups: map<Digest, seq<Path>>)

  /**
   * file_hashes after visiting `paths`: a readable file's path is appended
   * to its digest's list, a new digest is added at the end, and a file whose
   * opening or reading raises is skipped.
   */
  function Grouped(nodes: Nodes, unreadable: set<Path>, digest: seq<Byte> -> Digest, paths: seq<Path>): Hashes
  {
    if paths == [] then Hashes([], map[])
    else
      var h := Grouped(nodes, unreadable, digest, paths[..|paths| - 1]);
      var p := paths[|paths| - 1];
      if !Readable(nodes, unreadable, p) then h
      else
        var d := digest(nodes[p].data);
        if d in h.groups then Hashes(h.order, h.groups[d := h.groups[d] + [p]])
        else Hashes(h.order + [d], h.groups[d := [p]])
  }

  /** One more path leaves the dictionary alone when it cannot be read, else joins its digest's group. */
  lemma GroupedGrows(nodes: Nodes, unreadable: set<Path>, digest: seq<Byte> -> Digest, paths: seq<Path>, p: Path)
    ensures var h := Grouped(nodes, unreadable, digest, paths);
      Grouped(nodes, unreadable, digest, paths + [p]) ==
        if !Readable(nodes, unreadable, p) then h
        else if digest(nodes[p].data) in h.groups
        then Hashes(h.order, h.groups[digest(nodes[p].data) := h.groups[digest(nodes[p].data)] + [p]])
        else Hashes(h.order + [digest(nodes[p].data)], h.groups[digest(nodes[p].data) := [p]])
  {
    assert (paths + [p])[..|paths|] == paths;
  }

  /** The readable files of `paths` whose digest is `d`, in order. */
  function Matching(nodes: Nodes, unreadable: set<Path>, digest: seq<Byte> -> Digest, paths: seq<Path>, d: Digest): seq<Path>
  {
    if paths == [] then []
    else
      var p := paths[|paths| - 1];
      Matching(nodes, unreadable, digest, paths[..|paths| - 1], d)
        + if Readable(nodes, unreadable, p) && digest(nodes[p].data) == d then [p] else []
  }

  /** A path is among the matches exactly when it is listed, readable and has that digest. */
  lemma {:induction false} MatchingMembers(nodes: Nodes, unreadable: set<Path>, digest: seq<Byte> -> Digest, paths: seq<Path>, d: Digest)
    ensures forall p :: p in Matching(nodes, unreadable, digest, paths, d) <==>
      p in paths && Readable(nodes, unreadable, p) && digest(nodes[p].data) == d
  {
    if paths != [] {
      var front := paths[..|paths| - 1];
      MatchingMembers(nodes, unreadable, digest, front, d);
      assert paths == front + [paths[|paths| - 1]];
    }
  }

  /** The index of the first readable file of `paths` with digest `d`, or |paths| when there is none. */
  function FirstIndex(nodes: Nodes, unreadable: set<Path>, digest: seq<Byte> -> Digest, paths: seq<Path>, d: Digest): (k: nat)
    ensures k <= |paths|
  {
    if paths == [] then 0
    else
      var n := |paths| - 1;
      var k := FirstIndex(nodes, unreadable, digest, paths[..n], d);
      if k < n then k
      else if Readable(nodes, unreadable, paths[n]) && digest(nodes[paths[n]].data) == d then n
      else |paths|
  }

  /** The first index of a digest found so far stays where it is; otherwise it is the new path or none. */
  lemma FirstIndexGrows(nodes: Nodes, unreadable: set<Path>, digest: seq<Byte> -> Digest, paths: seq<Path>, p: Path, d: Digest)
    ensures var k := FirstIndex(nodes, unreadable, digest, paths, d);
      FirstIndex(nodes, unreadable, digest, paths + [p], d) ==
        if k < |paths| then k
        else if Readable(nodes, unreadable, p) && digest(nodes[p].data) == d then |paths|
        else |paths| + 1
  {
    assert (paths + [p])[..|paths|] == paths;
  }

  /** A digest has a first file exactly when it has matching files. */
  lemma {:induction false} FirstIndexMatching(nodes: Nodes, unreadable: set<Path>, digest: seq<Byte> -> Digest, paths: seq<Path>, d: Digest)
    ensures FirstIndex(nodes, unreadable, digest, paths, d) < |paths| <==> Matching(nodes, unreadable, digest, paths, d) != []
  {
    if paths != [] {
      FirstIndexMatching(nodes, unreadable, digest, paths[..|paths| - 1], d);
    }
  }

  /**
   * `g` holds each digest of `paths` once, with exactly its matching files,
   * and `order` lists the digests by the position of their first file.
   */
  ghost predicate GroupsMatch(g: Hashes, nodes: Nodes, unreadable: set<Path>, digest: seq<Byte> -> Digest, paths: seq<Path>)
  {
    && (forall d :: d in g.groups <==> d in g.order)
    && (forall i, j :: 0 <= i < j < |g.order| ==> g.order[i] != g.order[j])
    && (forall d :: d in g.groups ==> g.groups[d] == Matching(nodes, unreadable, digest, paths, d))
    && (forall d :: d !in g.groups ==> Matching(nodes, unreadable, digest, paths, d) == [])
    && (forall i :: 0 <= i < |g.order| ==> FirstIndex(nodes, unreadable, digest, paths, g.order[i]) < |paths|)
    && (forall i, j :: 0 <= i < j < |g.order| ==>
          FirstIndex(nodes, unreadable, digest, paths, g.order[i]) < FirstIndex(nodes, unreadable, digest, paths, g.order[j]))
  }

  /**
   * file_hashes groups every readable listed file under its digest: the keys
   * are exactly the digests that occur, each once in the order they first
   * occur, and each digest's list holds exactly the matching files in walk
   * order.
   */
  lemma {:induction false} GroupedSpec(nodes: Nodes, unreadable: set<Path>, digest: seq<Byte> -> Digest, paths: seq<Path>)
    ensures GroupsMatch(Grouped(nodes, unreadable, digest, paths), nodes, unreadable, digest, paths)
  {
    if paths != [] {
      var front, p := paths[..|paths| - 1], paths[|paths| - 1];
      assert paths == front + [p];
      GroupedSpec(nodes, unreadable, digest, front);
      GroupedGrows(nodes, unreadable, digest, front, p);
      var h := Grouped(nodes, unreadable, digest, front);
      if !Readable(nodes, unreadable, p) {
        GroupsMatchSkip(h, nodes, unreadable, digest, front, p);
      } else if digest(nodes[p].data) in h.groups {
        GroupsMatchJoin(h, nodes, unreadable, digest, front, p);
      } else {
        GroupsMatchOpen(h, nodes, unreadable, digest, front, p);
      }
    } else {
      assert GroupsMatch(Hashes([], map[]), nodes, unreadable, digest, paths);
    }
  }

  /** One more path adds itself to the matches of its own digest only. */
  lemma MatchingGrows(nodes: Nodes, unreadable: set<Path>, digest: seq<Byte> -> Digest, paths: seq<Path>, p: Path, d: Digest)
    ensures Matching(nodes, unreadable, digest, paths + [p], d) == Matching(nodes, unreadable, digest, paths, d)
      + if Readable(nodes, unreadable, p) && digest(nodes[p].data) == d then [p] else []
  {
    assert (paths + [p])[..|paths|] == paths;
  }

  /** An unreadable path changes no group. */
  lemma GroupsMatchSkip(h: Hashes, nodes: Nodes, unreadable: set<Path>, digest: seq<Byte> -> Digest, paths: seq<Path>, p: Path)
    requires GroupsMatch(h, nodes, unreadable, digest, paths) && !Readable(nodes, unreadable, p)
    ensures GroupsMatch(h, nodes, unreadable, digest, paths + [p])
  {
    forall d ensures Matching(nodes, unreadable, digest, paths + [p], d) == Matching(nodes, unreadable, digest, paths, d) {
      MatchingGrows(nodes, unreadable, digest, paths, p, d);
    }
    FirstsStay(h, nodes, unreadable, digest, paths, p);
  }

  /** A readable path whose digest has a group joins the end of that group. */
  lemma GroupsMatchJoin(h: Hashes, nodes: Nodes, unreadable: set<Path>, digest: seq<Byte> -> Digest, paths: seq<Path>, p: Path)
    requires GroupsMatch(h, nodes, unreadable, digest, paths) && Readable(nodes, unreadable, p)
    requires digest(nodes[p].data) in h.groups
    ensures var d := digest(nodes[p].data);
      GroupsMatch(Hashes(h.order, h.groups[d := h.groups[d] + [p]]), nodes, unreadable, digest, paths + [p])
  {
    var d := digest(nodes[p].data);
    forall e ensures Matching(nodes, unreadable, digest, paths + [p], e)
      == Matching(nodes, unreadable, digest, paths, e) + if e == d then [p] else [] {
      MatchingGrows(nodes, unreadable, digest, paths, p, e);
    }
    FirstsStay(h, nodes, unreadable, digest, paths, p);
  }

  /** A readable path whose digest has no group yet opens one, last in the order. */
  lemma GroupsMatchOpen(h: Hashes, nodes: Nodes, unreadable: set<Path>, digest: seq<Byte> -> Digest, paths: seq<Path>, p: Path)
    requires GroupsMatch(h, nodes, unreadable, digest, paths) && Readable(nodes, unreadable, p)
    requires digest(nodes[p].data) !in h.groups
    ensures var d := digest(nodes[p].data);
      GroupsMatch(Hashes(h.order + [d], h.groups[d := [p]]), nodes, unreadable, digest, paths + [p])
  {
    var d := digest(nodes[p].data);
    GroupsOpenMatching(h, nodes, unreadable, digest, paths, p);
    DistinctGrows(h.order, d);
    FirstsStay(h, nodes, unreadable, digest, paths, p);
    FirstIndexMatching(nodes, unreadable, digest, paths, d);
    FirstIndexGrows(nodes, unreadable, digest, paths, p, d);
    FirstsExtend(h.order, nodes, unreadable, digest, paths, p, d);
  }

  /** Opening a group for the new digest keeps keys, order and lists in step with the walk. */
  lemma GroupsOpenMatching(h: Hashes, nodes: Nodes, unreadable: set<Path>, digest: seq<Byte> -> Digest, paths: seq<Path>, p: Path)
    requires GroupsMatch(h, nodes, unreadable, digest, paths) && Readable(nodes, unreadable, p)
    requires digest(nodes[p].data) !in h.groups
    ensures var d := digest(nodes[p].data); var g := h.groups[d := [p]];
      && (forall e :: e in g <==> e in h.order + [d])
      && (forall e :: e in g ==> g[e] == Matching(nodes, unreadable, digest, paths + [p], e))
      && (forall e :: e !in g ==> Matching(nodes, unreadable, digest, paths + [p], e) == [])
  {
    var d := digest(nodes[p].data);
    forall e ensures Matching(nodes, unreadable, digest, paths + [p], e)
      == Matching(nodes, unreadable, digest, paths, e) + if e == d then [p] else [] {
      MatchingGrows(nodes, unreadable, digest, paths, p, e);
    }
  }

  /** The digests already in the order keep their first positions when a path is added. */
  lemma FirstsStay(h: Hashes, nodes: Nodes, unreadable: set<Path>, digest: seq<Byte> -> Digest, paths: seq<Path>, p: Path)
    requires forall i :: 0 <= i < |h.order| ==> FirstIndex(nodes, unreadable, digest, paths, h.order[i]) < |paths|
    ensures forall i :: 0 <= i < |h.order| ==>
      FirstIndex(nodes, unreadable, digest, paths + [p], h.order[i]) == FirstIndex(nodes, unreadable, digest, paths, h.order[i])
  {
    forall i | 0 <= i < |h.order| ensures
      FirstIndex(nodes, unreadable, digest, paths + [p], h.order[i]) == FirstIndex(nodes, unreadable, digest, paths, h.order[i])
    {
      FirstIndexGrows(nodes, unreadable, digest, paths, p, h.order[i]);
    }
  }

  /** A digest first seen at the new, last path goes after all the others. */
  lemma FirstsExtend(order: seq<Digest>, nodes: Nodes, unreadable: set<Path>, digest: seq<Byte> -> Digest, paths: seq<Path>, p: Path, d: Digest)
    requires forall i :: 0 <= i < |order| ==> FirstIndex(nodes, unreadable, digest, paths, order[i]) < |paths|
    requires forall i, j :: 0 <= i < j < |order| ==>
      FirstIndex(nodes, unreadable, digest, paths, order[i]) < FirstIndex(nodes, unreadable, digest, paths, order[j])
    requires forall i :: 0 <= i < |order| ==>
      FirstIndex(nodes, unreadable, digest, paths + [p], order[i]) == FirstIndex(nodes, unreadable, digest, paths, order[i])
    requires FirstIndex(nodes, unreadable, digest, paths + [p], d) == |paths|
    ensures forall i :: 0 <= i < |order + [d]| ==> FirstIndex(nodes, unreadable, digest, paths + [p], (order + [d])[i]) < |paths + [p]|
    ensures forall i, j :: 0 <= i < j < |order + [d]| ==>
      FirstIndex(nodes, unreadable, digest, paths + [p], (order + [d])[i]) < FirstIndex(nodes, unreadable, digest, paths + [p], (order + [d])[j])
  {
    var longer := order + [d];
    forall i | 0 <= i < |longer| ensures FirstIndex(nodes, unreadable, digest, paths + [p], longer[i]) < |paths + [p]| {
      if i < |order| {
        assert longer[i] == order[i];
      }
    }
    forall i, j | 0 <= i < j < |longer| ensures
      FirstIndex(nodes, unreadable, digest, paths + [p], longer[i]) < FirstIndex(nodes, unreadable, digest, paths + [p], longer[j])
    {
      assert longer[i] == order[i];
      if j < |order| {
        assert longer[j] == order[j];
      }
    }
  }

  /** A sequence without repeats stays so when a new element is added at its end. */
  lemma DistinctGrows(order: seq<Digest>, d: Digest)
    requires forall i, j :: 0 <= i < j < |order| ==> order[i] != order[j]
    requires d !in order
    ensures forall e :: e in order + [d] <==> e in order || e == d
    ensures forall i, j :: 0 <= i < j < |order + [d]| ==> (order + [d])[i] != (order + [d])[j]
  {
    var longer := order + [d];
    forall i, j | 0 <= i < j < |longer| ensures longer[i] != longer[j] {
      if j == |order| {
        assert longer[i] in order;
      }
    }
  }

  /** One line of the duplicates list: the path and the size os.path.getsize reports. */
  datatype Listed = Listed(path: Path, size: nat)

  /** The lines inserted for one digest's paths. */
  function Rows(nodes: Nodes, paths: seq<Path>): (rows: seq<Listed>)
    ensures |rows| == |paths|
    ensures forall k :: 0 <= k < |rows| ==> rows[k] == Listed(paths[k], SizeOrSkip(nodes, paths[k]))
  {
    seq(|paths|, k requires 0 <= k < |paths| => Listed(paths[k], SizeOrSkip(nodes, paths[k])))
  }

  /** The duplicates list: the digests in dictionary order, and for each with more than one path, its paths. */
  function Report(nodes: Nodes, order: seq<Digest>, groups: map<Digest, seq<Path>>): seq<Listed>
  {
    if order == [] then []
    else
      var d := order[|order| - 1];
      Report(nodes, order[..|order| - 1], groups)
        + if d in groups && |groups[d]| > 1 then Rows(nodes, groups[d]) else []
  }

  /** `p` is in a group of more than one path whose digest is among `order`. */
  predicate InSharedGroup(order: seq<Digest>, groups: map<Digest, seq<Path>>, p: Path)
  {
    exists d :: d in order && d in groups && |groups[d]| > 1 && p in groups[d]
  }

  /** A line is in the list exactly when its path is in a group of more than one path, with its size. */
  lemma {:induction false} ReportMembers(nodes: Nodes, order: seq<Digest>, groups: map<Digest, seq<Path>>, row: Listed)
    ensures row in Report(nodes, order, groups) <==>
      row.size == SizeOrSkip(nodes, row.path) && InSharedGroup(order, groups, row.path)
  {
    if order != [] {
      var front, d := order[..|order| - 1], order[|order| - 1];
      ReportMembers(nodes, front, groups, row);
      assert forall e :: e in order <==> e in front || e == d by {
        assert order == front + [d];
      }
      if d in groups && |groups[d]| > 1 {
        var rows := Rows(nodes, groups[d]);
        if row in rows {
          var i :| 0 <= i < |rows| && rows[i] == row;
          assert row.path == groups[d][i];
        }
        if row.size == SizeOrSkip(nodes, row.path) && row.path in groups[d] {
          var i :| 0 <= i < |groups[d]| && groups[d][i] == row.path;
          assert rows[i] == row;
        }
      }
    }
  }

  /**
   * What scan_dup_files lists: every readable listed file whose digest it
   * shares with at least one other listed entry, each with its size in
   * bytes, and nothing else.
   */
  lemma DuplicatesReported(nodes: Nodes, unreadable: set<Path>, digest: seq<Byte> -> Digest, paths: seq<Path>)
    ensures var g := Grouped(nodes, unreadable, digest, paths);
      forall row :: row in Report(nodes, g.order, g.groups) <==>
        && row.path in paths && Readable(nodes, unreadable, row.path)
        && |Matching(nodes, unreadable, digest, paths, digest(nodes[row.path].data))| > 1
        && row.size == |nodes[row.path].data|
  {
    var g := Grouped(nodes, unreadable, digest, paths);
    GroupedSpec(nodes, unreadable, digest, paths);
    forall row ensures row in Report(nodes, g.order, g.groups) <==>
        && row.path in paths && Readable(nodes, unreadable, row.path)
        && |Matching(nodes, unreadable, digest, paths, digest(nodes[row.path].data))| > 1
        && row.size == |nodes[row.path].data|
    {
      ReportMembers(nodes, g.order, g.groups, row);
      if InSharedGroup(g.order, g.groups, row.path) {
        var d :| d in g.order && d in g.groups && |g.groups[d]| > 1 && row.path in g.groups[d];
        MatchingMembers(nodes, unreadable, digest, paths, d);
      }
      if row.path in paths && Readable(nodes, unreadable, row.path) {
        var d := digest(nodes[row.path].data);
        MatchingMembers(nodes, unreadable, digest, paths, d);
        if |Matching(nodes, unreadable, digest, paths, d)| > 1 {
          assert d in g.groups;
        }
      }
    }
  }

  /** The hashing loop of scan_dup_files: file_hashes built over the walk's listing. */
  method HashFiles(nodes: Nodes, walk: seq<WalkStep>, unreadable: set<Path>, digest: seq<Byte> -> Digest)
    returns (order: seq<Digest>, fileHashes: map<Digest, seq<Path>>)
    ensures Hashes(order, fileHashes) == Grouped(nodes, unreadable, digest, Listing(walk))
  {
    order, fileHashes := [], map[];
    assert walk[..0] == [];
    for i := 0 to |walk|
      invariant Hashes(order, fileHashes) == Grouped(nodes, unreadable, digest, Listing(walk[..i]))
    {
      var step := walk[i];
      SeenStarts(walk, i);
      for j := 0 to |step.files|
        invariant Hashes(order, fileHashes) == Grouped(nodes, unreadable, digest, Seen(walk, i, j))
      {
        var filePath := Join(step.root, step.files[j]);
        SeenGrows(walk, i, j);
        GroupedGrows(nodes, unreadable, digest, Seen(walk, i, j), filePath);
        if Readable(nodes, unreadable, filePath) {
          var fileHash := digest(nodes[filePath].data);
          if fileHash in fileHashes {
            fileHashes := fileHashes[fileHash := fileHashes[fileHash] + [filePath]];
          } else {
            order := order + [fileHash];
            fileHashes := fileHashes[fileHash := [filePath]];
          }
        }
      }
      SeenEnds(walk, i);
    }
    assert walk[..|walk|] == walk;
  }

  /** The list grows one digest at a time. */
  lemma ReportExtends(nodes: Nodes, order: seq<Digest>, groups: map<Digest, seq<Path>>, k: nat)
    requires k < |order| && order[k] in groups
    ensures Report(nodes, order[..k + 1], groups) == Report(nodes, order[..k], groups)
      + if |groups[order[k]]| > 1 then Rows(nodes, groups[order[k]]) else []
  {
    assert order[..k + 1][..k] == order[..k];
  }

  /** The lines for one digest go in one path at a time. */
  lemma RowsGrow(nodes: Nodes, paths: seq<Path>, m: nat, shown: seq<Listed>)
    requires m <= |paths|
    ensures m == 0 ==> shown + Rows(nodes, paths)[..m] == shown
    ensures m > 0 ==> shown + Rows(nodes, paths)[..m] == shown + Rows(nodes, paths)[..m - 1] + [Listed(paths[m - 1], SizeOrSkip(nodes, paths[m - 1]))]
    ensures m == |paths| ==> shown + Rows(nodes, paths)[..m] == shown + Rows(nodes, paths)
  {
    var rows := Rows(nodes, paths);
    if m > 0 {
      assert rows[..m] == rows[..m - 1] + [rows[m - 1]];
    }
    assert rows[..|paths|] == rows;
  }

  /** The listing loop of scan_dup_files: every group of more than one path, in dictionary order. */
  method ListDuplicates(nodes: Nodes, order: seq<Digest>, fileHashes: map<Digest, seq<Path>>) returns (rows: seq<Listed>)
    requires forall d :: d in order ==> d in fileHashes
    ensures rows == Report(nodes, order, fileHashes)
  {
    rows := [];
    for k := 0 to |order|
      invariant rows == Report(nodes, order[..k], fileHashes)
    {
      var paths := fileHashes[order[k]];
      ReportExtends(nodes, order, fileHashes, k);
      if |paths| > 1 {
        ghost var shown := rows;
        RowsGrow(nodes, paths, 0, shown);
        for m := 0 to |paths|
          invariant rows == shown + Rows(nodes, paths)[..m]
        {
          RowsGrow(nodes, paths, m + 1, shown);
          rows := rows + [Listed(paths[m], SizeOrSkip(nodes, paths[m]))];
        }
        RowsGrow(nodes, paths, |paths|, shown);
      }
    }
    assert order[..|order|] == order;
  }

  /** Why scan_dup_files shows its error dialog. */
  datatype ScanError = InvalidDirectory

  /**
   * scan_dup_files: a blank entry or a path that does not exist is an error
   * and leaves the list alone; otherwise the list is replaced by the groups
   * of files with equal digests, in dictionary order, each group in walk order.
   */
  method ScanDupFiles(disk: Disk, entry: Option<Path>, walk: seq<WalkStep>, unreadable: set<Path>, digest: seq<Byte> -> Digest)
    returns (r: Result<seq<Listed>, ScanError>)
    ensures (entry.None? || entry.value !in disk.nodes) ==> r == Failure(InvalidDirectory)
    ensures entry.Some? && entry.value in disk.nodes ==>
      var g := Grouped(disk.nodes, unreadable, digest, Listing(walk));
      r == Success(Report(disk.nodes, g.order, g.groups))
  {
    if entry.None? || entry.value !in disk.nodes {
      return Failure(InvalidDirectory);
    }
    var order, fileHashes := HashFiles(disk.nodes, walk, unreadable, digest);
    GroupedSpec(disk.nodes, unreadable, digest, Listing(walk));
    var rows := ListDuplicates(disk.nodes, order, fileHashes);
    r := Success(rows);
  }

  // ---------------------------------------------------------------------------
  // Deleting selected duplicates

  /** The identifier Treeview gives an inserted line. */
  type ItemId = nat

  /** A line of the duplicates list: its item and its text, the path. */
  datatype Row = Row(id: ItemId, path: Path)

  /** The list with the lines of the `gone` items deleted, in order. */
  function Keep(rows: seq<Row>, gone: set<ItemId>): seq<Row>
  {
    if rows == [] then []
    else
      var r := rows[|rows| - 1];
      Keep(rows[..|rows| - 1], gone) + if r.id in gone then [] else [r]
  }

  /** A line stays exactly when it was there and its item is not deleted. */
  lemma {:induction false} KeepMembers(rows: seq<Row>, gone: set<ItemId>, r: Row)
    ensures r in Keep(rows, gone) <==> r in rows && r.id !in gone
  {
    if rows != [] {
      var front := rows[..|rows| - 1];
      KeepMembers(front, gone, r);
      assert rows == front + [rows[|rows| - 1]];
    }
  }

  /** Deleting no lines keeps the list. */
  lemma {:induction false} KeepNone(rows: seq<Row>)
    ensures Keep(rows, {}) == rows
  {
    if rows != [] {
      var front := rows[..|rows| - 1];
      KeepNone(front);
      assert rows == front + [rows[|rows| - 1]];
    }
  }

  /** Deleting lines in two rounds is deleting them all at once. */
  lemma {:induction false} KeepTwice(rows: seq<Row>, a: set<ItemId>, b: set<ItemId>)
    ensures Keep(Keep(rows, a), b) == Keep(rows, a + b)
  {
    if rows != [] {
      var front, r := rows[..|rows| - 1], rows[|rows| - 1];
      KeepTwice(front, a, b);
      var once := Keep(front, a);
      if r.id in a {
        assert Keep(rows, a) == once + [];
        assert once + [] == once;
      } else {
        assert Keep(rows, a) == once + [r];
        assert (once + [r])[..|once|] == once;
      }
    }
  }

  /** The texts of the selected items, in selection order. */
  function SelectedPaths(selection: seq<Row>): (paths: seq<Path>)
    ensures |paths| == |selection|
    ensures forall k :: 0 <= k < |paths| ==> paths[k] == selection[k].path
  {
    seq(|selection|, k requires 0 <= k < |selection| => selection[k].path)
  }

  /** The state delete_selected_dup builds: the disk, the deleted items, the paths whose trashing raised. */
  datatype Sweep = Sweep(nodes: Nodes, trashed: set<ItemId>, failed: seq<Path>)

  /**
   * The confirmed loop of delete_selected_dup: each selected item's path is
   * sent to the trash; when that succeeds the item is deleted from the list,
   * and when it raises the error is shown and the item stays.
   */
  function SweepSelection(nodes: Nodes, selection: seq<Row>, refused: set<Path>): Sweep
  {
    if selection == [] then Sweep(nodes, {}, [])
    else
      var s := SweepSelection(nodes, selection[..|selection| - 1], refused);
      var item := selection[|selection| - 1];
      match Trashed(s.nodes, item.path, refused)
      case Success(after) => Sweep(after, s.trashed + {item.id}, s.failed)
      case Failure(_) => Sweep(s.nodes, s.trashed, s.failed + [item.path])
  }

  /** The `k`-th selected item's send2trash call succeeds, after the ones before it. */
  predicate CallSucceeds(nodes: Nodes, selection: seq<Row>, refused: set<Path>, k: nat)
    requires k < |selection|
  {
    selection[k].path in TrashBatch(nodes, SelectedPaths(selection[..k]), refused) && Trashable(selection[k].path, refused)
  }

  /** The sweep leaves the disk as the batch of the selected paths does. */
  lemma {:induction false} SweepNodes(nodes: Nodes, selection: seq<Row>, refused: set<Path>)
    ensures SweepSelection(nodes, selection, refused).nodes == TrashBatch(nodes, SelectedPaths(selection), refused)
  {
    if selection != [] {
      var n := |selection| - 1;
      SweepNodes(nodes, selection[..n], refused);
      assert SelectedPaths(selection)[..n] == SelectedPaths(selection[..n]);
    }
  }

  /** Whether an earlier item's call succeeds does not depend on the items after it. */
  lemma CallSucceedsPrefix(nodes: Nodes, selection: seq<Row>, refused: set<Path>, n: nat, k: nat)
    requires k < n <= |selection|
    ensures CallSucceeds(nodes, selection, refused, k) == CallSucceeds(nodes, selection[..n], refused, k)
  {
    assert selection[..k] == selection[..n][..k];
  }

  /** The last item's call succeeds exactly when the sweep of the items before it lets it. */
  lemma CallSucceedsLast(nodes: Nodes, selection: seq<Row>, refused: set<Path>)
    requires selection != []
    ensures var n := |selection| - 1;
      CallSucceeds(nodes, selection, refused, n) <==>
      Trashed(SweepSelection(nodes, selection[..n], refused).nodes, selection[n].path, refused).Success?
  {
    SweepNodes(nodes, selection[..|selection| - 1], refused);
  }

  /** What the last item adds: its id when its call succeeds, else its path to the errors. */
  lemma SweepLast(nodes: Nodes, selection: seq<Row>, refused: set<Path>)
    requires selection != []
    ensures var n := |selection| - 1;
      var s, f := SweepSelection(nodes, selection, refused), SweepSelection(nodes, selection[..n], refused);
      && s.trashed == (if CallSucceeds(nodes, selection, refused, n) then f.trashed + {selection[n].id} else f.trashed)
      && s.failed == (if CallSucceeds(nodes, selection, refused, n) then f.failed else f.failed + [selection[n].path])
  {
    CallSucceedsLast(nodes, selection, refused);
  }

  /** Some item with this id had its call succeed. */
  predicate IdTrashed(nodes: Nodes, selection: seq<Row>, refused: set<Path>, id: ItemId)
  {
    exists k :: 0 <= k < |selection| && selection[k].id == id && CallSucceeds(nodes, selection, refused, k)
  }

  /** Some item with this path had its call raise. */
  predicate PathFailed(nodes: Nodes, selection: seq<Row>, refused: set<Path>, p: Path)
  {
    exists k :: 0 <= k < |selection| && selection[k].path == p && !CallSucceeds(nodes, selection, refused, k)
  }

  /** An item of the front keeps its outcome when more items follow. */
  lemma IdTrashedFront(nodes: Nodes, selection: seq<Row>, refused: set<Path>, id: ItemId)
    requires selection != []
    ensures IdTrashed(nodes, selection[..|selection| - 1], refused, id) ==> IdTrashed(nodes, selection, refused, id)
  {
    var n := |selection| - 1;
    if IdTrashed(nodes, selection[..n], refused, id) {
      var k :| 0 <= k < n && selection[..n][k].id == id && CallSucceeds(nodes, selection[..n], refused, k);
      CallSucceedsPrefix(nodes, selection, refused, n, k);
    }
  }

  /** A succeeding item is the last one or one of the front. */
  lemma IdTrashedSplit(nodes: Nodes, selection: seq<Row>, refused: set<Path>, id: ItemId)
    requires selection != []
    ensures var n := |selection| - 1;
      IdTrashed(nodes, selection, refused, id) ==>
        IdTrashed(nodes, selection[..n], refused, id) || (selection[n].id == id && CallSucceeds(nodes, selection, refused, n))
  {
    var n := |selection| - 1;
    if IdTrashed(nodes, selection, refused, id) {
      var k :| 0 <= k < |selection| && selection[k].id == id && CallSucceeds(nodes, selection, refused, k);
      if k < n {
        CallSucceedsPrefix(nodes, selection, refused, n, k);
        assert selection[..n][k] == selection[k];
      }
    }
  }

  /** The same two facts for raising calls. */
  lemma PathFailedFront(nodes: Nodes, selection: seq<Row>, refused: set<Path>, p: Path)
    requires selection != []
    ensures PathFailed(nodes, selection[..|selection| - 1], refused, p) ==> PathFailed(nodes, selection, refused, p)
  {
    var n := |selection| - 1;
    if PathFailed(nodes, selection[..n], refused, p) {
      var k :| 0 <= k < n && selection[..n][k].path == p && !CallSucceeds(nodes, selection[..n], refused, k);
      CallSucceedsPrefix(nodes, selection, refused, n, k);
    }
  }

  lemma PathFailedSplit(nodes: Nodes, selection: seq<Row>, refused: set<Path>, p: Path)
    requires selection != []
    ensures var n := |selection| - 1;
      PathFailed(nodes, selection, refused, p) ==>
        PathFailed(nodes, selection[..n], refused, p) || (selection[n].path == p && !CallSucceeds(nodes, selection, refused, n))
  {
    var n := |selection| - 1;
    if PathFailed(nodes, selection, refused, p) {
      var k :| 0 <= k < |selection| && selection[k].path == p && !CallSucceeds(nodes, selection, refused, k);
      if k < n {
        CallSucceedsPrefix(nodes, selection, refused, n, k);
        assert selection[..n][k] == selection[k];
      }
    }
  }

  /**
   * An item is deleted from the list exactly when its own send2trash call
   * succeeded.
   */
  lemma {:induction false} SweepTrashed(nodes: Nodes, selection: seq<Row>, refused: set<Path>, id: ItemId)
    ensures id in SweepSelection(nodes, selection, refused).trashed <==>
      exists k :: 0 <= k < |selection| && selection[k].id == id && CallSucceeds(nodes, selection, refused, k)
  {
    if selection != [] {
      SweepTrashed(nodes, selection[..|selection| - 1], refused, id);
      SweepLast(nodes, selection, refused);
      IdTrashedFront(nodes, selection, refused, id);
      IdTrashedSplit(nodes, selection, refused, id);
    }
  }

  /** An error is shown for a path exactly when the call for an item with that path raised. */
  lemma {:induction false} SweepFailed(nodes: Nodes, selection: seq<Row>, refused: set<Path>, p: Path)
    ensures p in SweepSelection(nodes, selection, refused).failed <==>
      exists k :: 0 <= k < |selection| && selection[k].path == p && !CallSucceeds(nodes, selection, refused, k)
  {
    if selection != [] {
      var n := |selection| - 1;
      SweepFailed(nodes, selection[..n], refused, p);
      SweepLast(nodes, selection, refused);
      PathFailedFront(nodes, selection, refused, p);
      PathFailedSplit(nodes, selection, refused, p);
    }
  }


  /** What delete_selected_dup ends with. */
  datatype DupOutcome =
    | NoneSelected        // the "No duplicates selected." warning
    | Declined            // the confirmation was answered no
    | Processed(failed: seq<Path>)  // one error dialog per path, in order

  /**
   * delete_selected_dup: an empty selection only warns, a declined
   * confirmation does nothing, and a confirmed one runs the sweep over the
   * selection (`confirmed` is the answer to the dialog).
   */
  method DeleteSelectedDup(disk: Disk, rows: seq<Row>, selection: seq<Row>, confirmed: bool, refused: set<Path>)
    returns (outcome: DupOutcome, remaining: seq<Row>)
    requires disk.Valid()
    modifies disk
    ensures disk.Valid()
    ensures selection == [] ==> outcome == NoneSelected && remaining == rows && disk.nodes == old(disk.nodes)
    ensures selection != [] && !confirmed ==> outcome == Declined && remaining == rows && disk.nodes == old(disk.nodes)
    ensures selection != [] && confirmed ==>
      && outcome == Processed(SweepSelection(old(disk.nodes), selection, refused).failed)
      && remaining == Keep(rows, SweepSelection(old(disk.nodes), selection, refused).trashed)
      && disk.nodes == SweepSelection(old(disk.nodes), selection, refused).nodes
  {
    if selection == [] {
      return NoneSelected, rows;
    }
    if !confirmed {
      return Declined, rows;
    }
    ghost var start := disk.nodes;
    var failed: seq<Path> := [];
    ghost var trashed: set<ItemId> := {};
    remaining := rows;
    KeepNone(rows);
    for i := 0 to |selection|
      invariant SweepSelection(start, selection[..i], refused) == Sweep(disk.nodes, trashed, failed)
      invariant remaining == Keep(rows, trashed)
    {
      var item := selection[i];
      assert selection[..i + 1][..i] == selection[..i];
      match Trashed(disk.nodes, item.path, refused) {
        case Success(after) =>
          disk.nodes := after;
          KeepTwice(rows, trashed, {item.id});
          remaining := Keep(remaining, {item.id});
          trashed := trashed + {item.id};
        case Failure(_) =>
          failed := failed + [item.path];
      }
    }
    assert selection[..|selection|] == selection;
    SweepNodes(start, selection, refused);
    TrashBatchSpec(start, SelectedPaths(selection), refused);
    outcome := Processed(failed);
  }

}
