/**
 * The host filesystem as the cleaner sees it: a map from absolute path to node,
 * and the few operating-system calls the engine makes on it (os.path.exists,
 * os.path.getsize, os.remove, os.rmdir, os.makedirs, shutil.move), each as a
 * function from the old map to the new map or to the error the call raises.
 */
module FileSystem {
  import opened Wrappers

  newtype Byte = b: int | 0 <= b < 256

  /** An absolute path as its list of components, outermost first; `[]` is "/". */
  type Path = seq<string>

  datatype Node = File(data: seq<Byte>) | Dir

  type Nodes = map<Path, Node>

  /** The exceptions the modelled calls raise. */
  datatype OsError =
    | FileNotFound       // FileNotFoundError (ENOENT)
    | FileExists         // FileExistsError, and shutil.Error "Destination path already exists"
    | IsADirectory       // IsADirectoryError (EISDIR)
    | NotADirectory      // NotADirectoryError (ENOTDIR)
    | DirectoryNotEmpty  // OSError (ENOTEMPTY)
    | InvalidMove        // shutil.Error "Cannot move a directory into itself", OSError (EINVAL)
    | Busy               // OSError (EBUSY): the root directory cannot be removed
    | PermissionDenied   // PermissionError (EACCES), and send2trash's TrashPermissionError

  /** The st_size a directory reports (4096 on ext4): os.path.getsize does not add up a directory's contents. */
  const DirectorySize: nat := 4096

  /** os.path.basename: the last component ("" for the root). */
  function Basename(p: Path): string
  {
    if p == [] then "" else p[|p| - 1]
  }

  /** os.path.dirname: the path without its last component (the root is its own dirname). */
  function Dirname(p: Path): Path
  {
    if p == [] then [] else p[..|p| - 1]
  }

  /** os.path.join of a directory and one name. */
  function Join(dir: Path, name: string): Path
  {
    dir + [name]
  }

  /** A well-formed tree: the root is a directory and every other node sits in a directory. */
  ghost predicate Tree(nodes: Nodes)
  {
    && [] in nodes && nodes[[]].Dir?
    && forall p :: p in nodes && p != [] ==> Dirname(p) in nodes && nodes[Dirname(p)].Dir?
  }

  /** The filesystem of the host, shared by every component of the cleaner. */
  class Disk {
    var nodes: Nodes

    ghost predicate Valid()
      reads this
    {
      Tree(nodes)
    }

    constructor (initial: Nodes)
      requires Tree(initial)
      ensures Valid() && nodes == initial
    {
      nodes := initial;
    }
  }

  /** One triple (dirpath, dirnames, filenames) yielded by os.walk. */
  datatype WalkStep = WalkStep(root: Path, dirs: seq<string>, files: seq<string>)

  /** The paths of the files one walk step lists, in order: os.path.join(root, file). */
  function StepPaths(step: WalkStep): (ps: seq<Path>)
    ensures |ps| == |step.files|
    ensures forall k :: 0 <= k < |ps| ==> ps[k] == Join(step.root, step.files[k])
  {
    seq(|step.files|, k requires 0 <= k < |step.files| => Join(step.root, step.files[k]))
  }

  /** Every file path a walk lists, in the order `for root, _, files in walk: for file in files` visits them. */
  function Listing(walk: seq<WalkStep>): seq<Path>
  {
    if walk == [] then [] else Listing(walk[..|walk| - 1]) + StepPaths(walk[|walk| - 1])
  }

  /** A path is listed exactly when some step joins its root with one of its file names. */
  lemma {:induction false} ListingMembers(walk: seq<WalkStep>)
    ensures forall p :: p in Listing(walk) <==>
      exists i, k :: 0 <= i < |walk| && 0 <= k < |walk[i].files| && p == Join(walk[i].root, walk[i].files[k])
  {
    if walk != [] {
      var n := |walk| - 1;
      var front := walk[..n];
      ListingMembers(front);
      forall p ensures p in Listing(walk) <==>
        exists i, k :: 0 <= i < |walk| && 0 <= k < |walk[i].files| && p == Join(walk[i].root, walk[i].files[k])
      {
        if p in Listing(front) {
          var i, k :| 0 <= i < |front| && 0 <= k < |front[i].files| && p == Join(front[i].root, front[i].files[k]);
          assert walk[i] == front[i];
        } else if p in StepPaths(walk[n]) {
          var k :| 0 <= k < |walk[n].files| && StepPaths(walk[n])[k] == p;
        }
        if exists i, k :: 0 <= i < |walk| && 0 <= k < |walk[i].files| && p == Join(walk[i].root, walk[i].files[k]) {
          var i, k :| 0 <= i < |walk| && 0 <= k < |walk[i].files| && p == Join(walk[i].root, walk[i].files[k]);
          if i < n {
            assert front[i] == walk[i];
          } else {
            assert StepPaths(walk[n])[k] == p;
          }
        }
      }
    }
  }

  /** What os.path.getsize reports for a node. */
  function SizeOf(n: Node): nat
  {
    match n
    case File(data) => |data|
    case Dir => DirectorySize
  }

  /** os.path.getsize. */
  function GetSize(nodes: Nodes, p: Path): (r: Result<nat, OsError>)
    ensures r.Success? <==> p in nodes
    ensures r.Success? ==> r.value == SizeOf(nodes[p])
  {
    if p in nodes then Success(SizeOf(nodes[p])) else Failure(FileNotFound)
  }

  /** The nodes that remain when everything at or under `root` is taken away. */
  function Pruned(nodes: Nodes, root: Path): (r: Nodes)
    ensures forall q :: q in r <==> q in nodes && !(root <= q)
    ensures forall q :: q in r ==> r[q] == nodes[q]
  {
    map q | q in nodes && !(root <= q) :: nodes[q]
  }

  lemma Rebased(src: Path, dst: Path, q: Path)
    requires src <= q
    ensures dst <= dst + q[|src|..] && src + (dst + q[|src|..])[|dst|..] == q
  {
    assert (dst + q[|src|..])[|dst|..] == q[|src|..];
  }

  /**
   * The subtree at `src` renamed to `dst`: whatever was at or under `dst`
   * is replaced, and everything else stays where it was.
   */
  function Relocated(nodes: Nodes, src: Path, dst: Path): Nodes
  {
    var moved := set q | q in nodes && src <= q :: dst + q[|src|..];
    var kept := set q | q in nodes && !(src <= q) && !(dst <= q);
    assert forall q :: q in nodes && src <= q ==> src + (dst + q[|src|..])[|dst|..] in nodes by {
      forall q | q in nodes && src <= q ensures src + (dst + q[|src|..])[|dst|..] in nodes {
        Rebased(src, dst, q);
      }
    }
    map q | q in kept + moved :: if dst <= q then nodes[src + q[|dst|..]] else nodes[q]
  }

  /** Membership in, and the content of, a relocated tree, path by path. */
  lemma RelocatedAt(nodes: Nodes, src: Path, dst: Path, q: Path)
    ensures q in Relocated(nodes, src, dst) <==>
      (q in nodes && !(src <= q) && !(dst <= q)) || (dst <= q && src + q[|dst|..] in nodes)
    ensures q in Relocated(nodes, src, dst) ==>
      Relocated(nodes, src, dst)[q] == if dst <= q then nodes[src + q[|dst|..]] else nodes[q]
  {
    if dst <= q && src + q[|dst|..] in nodes {
      var q' := src + q[|dst|..];
      assert dst + q'[|src|..] == q;
    }
    var moved := set q | q in nodes && src <= q :: dst + q[|src|..];
    if q in moved {
      var q' :| q' in nodes && src <= q' && q == dst + q'[|src|..];
      Rebased(src, dst, q');
    }
  }

  /** Where shutil.move puts `src`: inside `dst`, under its own name, when `dst` is an existing directory, else at `dst`. */
  function MoveTarget(nodes: Nodes, src: Path, dst: Path): (t: Path)
    ensures t == dst || (t != [] && Dirname(t) == dst && Basename(t) == Basename(src))
    ensures t != dst <==> dst in nodes && nodes[dst].Dir?
  {
    if dst in nodes && nodes[dst].Dir? then Join(dst, Basename(src)) else dst
  }

  /**
   * shutil.move(src, dst) as a rename within one filesystem. A source moved
   * onto itself stays put. An existing name inside a destination directory
   * raises first (shutil.Error, before src is even looked at); then a
   * missing source raises, and so do a move into the object itself, a
   * directory over a file (copytree's makedirs finds the name taken), and a
   * target whose parent is missing or is not a directory; a file over a
   * file replaces it. (For a directory source with a missing parent, the
   * real shutil.move falls back to copytree, which creates the parent; that
   * fallback is not modelled.)
   */
  function Moved(nodes: Nodes, src: Path, dst: Path): (r: Result<Nodes, OsError>)
    ensures src in nodes && src == dst ==> r == Success(nodes)
    ensures src != dst && MoveTarget(nodes, src, dst) != dst && MoveTarget(nodes, src, dst) in nodes ==>
      r == Failure(FileExists)
    ensures src !in nodes && !(MoveTarget(nodes, src, dst) != dst && MoveTarget(nodes, src, dst) in nodes) ==>
      r == Failure(FileNotFound)
    ensures src in nodes && dst in nodes && nodes[src].Dir? && nodes[dst].File? && !(src <= dst) && !(dst <= src) ==>
      r == Failure(FileExists)
    ensures src in nodes && src != dst ==>
      var t := MoveTarget(nodes, src, dst);
      (r.Success? <==>
        && (t in nodes ==> t == dst && nodes[src].File? && nodes[t].File?)
        && !(src <= t) && !(t <= src)
        && Dirname(t) in nodes && nodes[Dirname(t)].Dir?)
    ensures r.Success? && src != dst ==> r.value == Relocated(nodes, src, MoveTarget(nodes, src, dst))
  {
    if src in nodes && src == dst then Success(nodes)
    else
      var target := MoveTarget(nodes, src, dst);
      if target != dst && target in nodes then Failure(FileExists)
      else if src !in nodes then Failure(FileNotFound)
      else if src <= target || target <= src then Failure(InvalidMove)
      else if target in nodes && nodes[src].Dir? then Failure(FileExists)
      else if Dirname(target) !in nodes then Failure(FileNotFound)
      else if nodes[Dirname(target)].File? then Failure(NotADirectory)
      else Success(Relocated(nodes, src, target))
  }

  /** os.remove: files only. */
  function Removed(nodes: Nodes, p: Path): (r: Result<Nodes, OsError>)
    ensures r.Success? <==> p in nodes && nodes[p].File?
    ensures r.Success? ==> r.value == nodes - {p}
    ensures p !in nodes ==> r == Failure(FileNotFound)
  {
    if p !in nodes then Failure(FileNotFound)
    else if nodes[p].Dir? then Failure(IsADirectory)
    else Success(nodes - {p})
  }

  /** Some node sits strictly under `p`. */
  predicate HasEntries(nodes: Nodes, p: Path)
  {
    exists q :: q in nodes && p < q
  }

  /** os.rmdir: empty directories only. */
  function RemovedDir(nodes: Nodes, p: Path): (r: Result<Nodes, OsError>)
    ensures r.Success? <==> p in nodes && nodes[p].Dir? && p != [] && !HasEntries(nodes, p)
    ensures r.Success? ==> r.value == nodes - {p}
  {
    if p !in nodes then Failure(FileNotFound)
    else if nodes[p].File? then Failure(NotADirectory)
    else if p == [] then Failure(Busy)
    else if HasEntries(nodes, p) then Failure(DirectoryNotEmpty)
    else Success(nodes - {p})
  }

  /** Objects send2trash accepts: anything but the root and the objects it may not touch. */
  predicate Trashable(p: Path, refused: set<Path>)
  {
    p != [] && p !in refused
  }

  /**
   * send2trash.send2trash: the object and everything under it leave the
   * visible tree; a missing path raises, and so does one in `refused` (no
   * permission, no trash can on that device) or the root.
   */
  function Trashed(nodes: Nodes, p: Path, refused: set<Path>): (r: Result<Nodes, OsError>)
    ensures r.Success? <==> p in nodes && Trashable(p, refused)
    ensures r.Success? ==> r.value == Pruned(nodes, p)
  {
    if p !in nodes then Failure(FileNotFound)
    else if !Trashable(p, refused) then Failure(PermissionDenied)
    else Success(Pruned(nodes, p))
  }

  /** os.mkdir: one new directory inside an existing one. */
  function Mkdir(nodes: Nodes, d: Path): (r: Result<Nodes, OsError>)
    ensures r.Success? <==> d !in nodes && d != [] && Dirname(d) in nodes && nodes[Dirname(d)].Dir?
    ensures r.Success? ==> r.value == nodes[d := Dir]
  {
    if d in nodes then Failure(FileExists)
    else if d == [] then Failure(FileNotFound)
    else if Dirname(d) !in nodes then Failure(FileNotFound)
    else if nodes[Dirname(d)].File? then Failure(NotADirectory)
    else Success(nodes[d := Dir])
  }

  /**
   * os.makedirs: create the missing ancestors first, outermost first, then
   * `d` itself. It succeeds only on a new `d`, keeps every node and adds
   * `d` as a directory.
   */
  function MakeDirs(nodes: Nodes, d: Path): (r: Result<Nodes, OsError>)
    ensures r.Success? ==> d !in nodes && d in r.value && r.value[d] == Dir
    ensures r.Success? ==> forall q :: q in nodes ==> q in r.value && r.value[q] == nodes[q]
    decreases |d|
  {
    if d != [] && Dirname(d) !in nodes then
      match MakeDirs(nodes, Dirname(d))
      case Failure(e) => Failure(e)
      case Success(made) => Mkdir(made, d)
    else
      Mkdir(nodes, d)
  }

  // ---------------------------------------------------------------------------
  // Properties of the primitives

  /** In a tree every proper prefix of a present path is a present directory. */
  lemma {:induction false} AncestorIsDir(nodes: Nodes, q: Path, a: Path)
    requires Tree(nodes) && q in nodes && a < q
    ensures a in nodes && nodes[a].Dir?
    decreases |q|
  {
    var parent := Dirname(q);
    assert parent in nodes && nodes[parent].Dir?;
    if a != parent {
      assert |a| < |parent| && a == parent[..|a|];
      AncestorIsDir(nodes, parent, a);
    }
  }

  /** What lies at or above a child of `dir` and is not that child lies at or above `dir`. */
  lemma PrefixOfChild(p: Path, dir: Path, name: string)
    ensures p <= Join(dir, name) <==> p == Join(dir, name) || p <= dir
  {
    if p <= Join(dir, name) && p != Join(dir, name) {
      assert p == dir[..|p|];
    }
  }

  /** In a tree nothing sits under a path that is absent. */
  lemma AbsentHasNoEntries(nodes: Nodes, p: Path)
    requires Tree(nodes) && p !in nodes
    ensures forall q :: q in nodes ==> !(p <= q)
  {
    forall q | q in nodes && p <= q ensures false {
      assert p != q;
      AncestorIsDir(nodes, q, p);
    }
  }

  /**
   * A successful shutil.move relocates exactly the subtree at `src` to the
   * target: the source is gone, the target holds the source object, every
   * node under the source reappears under the target, and every node outside
   * both subtrees is untouched.
   */
  lemma MovedRelocates(nodes: Nodes, src: Path, dst: Path)
    requires Moved(nodes, src, dst).Success? && src != dst
    ensures var r := Moved(nodes, src, dst).value;
      var t := MoveTarget(nodes, src, dst);
      && src !in r && t in r && r[t] == nodes[src]
      && !(src <= t) && !(t <= src)
      && r == Relocated(nodes, src, t)
      && (forall q :: q in nodes && !(src <= q) && !(t <= q) ==> q in r && r[q] == nodes[q])
      && (forall q :: q in r && !(t <= q) ==> q in nodes && !(src <= q) && r[q] == nodes[q])
  {
    var r := Moved(nodes, src, dst).value;
    var t := MoveTarget(nodes, src, dst);
    RelocatedAt(nodes, src, t, src);
    RelocatedAt(nodes, src, t, t);
    assert t[|t|..] == [] && src + [] == src;
    forall q | q in nodes && !(src <= q) && !(t <= q) ensures q in r && r[q] == nodes[q] {
      RelocatedAt(nodes, src, t, q);
    }
    forall q | q in r && !(t <= q) ensures q in nodes && !(src <= q) && r[q] == nodes[q] {
      RelocatedAt(nodes, src, t, q);
    }
  }

  /** A relocated node's parent is a directory when the target's parent is one. */
  lemma RelocatedParentAt(nodes: Nodes, src: Path, t: Path, q: Path)
    requires Tree(nodes) && !(src <= t) && !(t <= src)
    requires t != [] && Dirname(t) in nodes && nodes[Dirname(t)].Dir?
    requires q in Relocated(nodes, src, t) && q != []
    ensures Dirname(q) in Relocated(nodes, src, t) && Relocated(nodes, src, t)[Dirname(q)].Dir?
  {
    if q == t {
      RelocatedTargetParent(nodes, src, t);
    } else if t <= q {
      RelocatedInsideParent(nodes, src, t, q);
    } else {
      RelocatedOutsideParent(nodes, src, t, q);
    }
  }

  /** The moved object's new parent is the target's parent, which stays. */
  lemma RelocatedTargetParent(nodes: Nodes, src: Path, t: Path)
    requires !(src <= t) && !(t <= src)
    requires t != [] && Dirname(t) in nodes && nodes[Dirname(t)].Dir?
    ensures Dirname(t) in Relocated(nodes, src, t) && Relocated(nodes, src, t)[Dirname(t)].Dir?
  {
    var p := Dirname(t);
    assert p <= t;
    RelocatedAt(nodes, src, t, p);
  }

  /** Inside the moved subtree, a node's parent is the moved copy of its old parent. */
  lemma RelocatedInsideParent(nodes: Nodes, src: Path, t: Path, q: Path)
    requires Tree(nodes) && t <= q && q != t
    requires q in Relocated(nodes, src, t)
    ensures Dirname(q) in Relocated(nodes, src, t) && Relocated(nodes, src, t)[Dirname(q)].Dir?
  {
    RelocatedAt(nodes, src, t, q);
    var p := Dirname(q);
    var s := q[|t|..];
    assert src + s in nodes;
    assert Dirname(src + s) == src + s[..|s| - 1];
    assert p == t + s[..|s| - 1];
    assert p[|t|..] == s[..|s| - 1];
    RelocatedAt(nodes, src, t, p);
  }

  /** Outside the moved subtree, a node and its parent stay where they were. */
  lemma RelocatedOutsideParent(nodes: Nodes, src: Path, t: Path, q: Path)
    requires Tree(nodes) && !(t <= q) && q != []
    requires q in Relocated(nodes, src, t)
    ensures Dirname(q) in Relocated(nodes, src, t) && Relocated(nodes, src, t)[Dirname(q)].Dir?
  {
    RelocatedAt(nodes, src, t, q);
    var p := Dirname(q);
    assert p <= q;
    assert !(src <= p) && !(t <= p);
    RelocatedAt(nodes, src, t, p);
  }

  /** shutil.move keeps the filesystem a tree. */
  lemma MovedPreservesTree(nodes: Nodes, src: Path, dst: Path)
    requires Tree(nodes) && Moved(nodes, src, dst).Success?
    ensures Tree(Moved(nodes, src, dst).value)
  {
    if src != dst {
      var t := MoveTarget(nodes, src, dst);
      var r := Relocated(nodes, src, t);
      assert Moved(nodes, src, dst) == Success(r);
      RelocatedAt(nodes, src, t, []);
      forall q | q in r && q != [] ensures Dirname(q) in r && r[Dirname(q)].Dir? {
        RelocatedParentAt(nodes, src, t, q);
      }
    }
  }

  /** Relocating a subtree to a free place and back, path by path. */
  lemma RelocateBackAt(nodes: Nodes, p: Path, b: Path, q: Path)
    requires forall k :: k in nodes ==> !(b <= k)
    requires !(p <= b) && !(b <= p)
    ensures var back := Relocated(Relocated(nodes, p, b), b, p);
      (q in back <==> q in nodes) && (q in back ==> back[q] == nodes[q])
  {
    var r1 := Relocated(nodes, p, b);
    RelocatedAt(r1, b, p, q);
    RelocatedAt(nodes, p, b, q);
    if p <= q {
      var s := q[|p|..];
      assert p + s == q;
      RelocatedAt(nodes, p, b, b + s);
      assert (b + s)[|b|..] == s;
    }
  }

  /** Relocating a subtree to a free place and back gives the same tree. */
  lemma RelocateBack(nodes: Nodes, p: Path, b: Path)
    requires forall k :: k in nodes ==> !(b <= k)
    requires !(p <= b) && !(b <= p)
    ensures Relocated(Relocated(nodes, p, b), b, p) == nodes
  {
    var back := Relocated(Relocated(nodes, p, b), b, p);
    forall q ensures (q in back <==> q in nodes) && (q in back ==> back[q] == nodes[q]) {
      RelocateBackAt(nodes, p, b, q);
    }
  }

  /**
   * Moving an object to a free name and moving it back restores the tree
   * exactly: the round trip behind trashing and restoring.
   */
  lemma MoveRoundTrip(nodes: Nodes, p: Path, b: Path)
    requires Tree(nodes)
    requires p in nodes && b !in nodes
    requires Dirname(b) in nodes && nodes[Dirname(b)].Dir?
    requires !(p <= b)
    ensures Moved(nodes, p, b).Success?
    ensures Dirname(p) in Moved(nodes, p, b).value
    ensures Moved(Moved(nodes, p, b).value, b, p) == Success(nodes)
  {
    AbsentHasNoEntries(nodes, b);
    assert !(b <= p);
    assert p != [];
    var r1 := Relocated(nodes, p, b);
    assert Moved(nodes, p, b) == Success(r1);
    RelocatedAt(nodes, p, b, b);
    assert b[|b|..] == [] && p + [] == p;
    RelocatedAt(nodes, p, b, p);
    RelocatedAt(nodes, p, b, Dirname(p));
    assert Dirname(p) <= p;
    assert MoveTarget(r1, b, p) == p;
    assert Moved(r1, b, p) == Success(Relocated(r1, b, p));
    RelocateBack(nodes, p, b);
  }

  /** Relocating a file onto another file, path by path. */
  lemma RelocatedOverFileAt(nodes: Nodes, src: Path, dst: Path, q: Path)
    requires Tree(nodes) && !(src <= dst) && !(dst <= src)
    requires src in nodes && nodes[src].File? && dst in nodes && nodes[dst].File?
    ensures var r, e := Relocated(nodes, src, dst), (nodes - {src})[dst := nodes[src]];
      (q in r <==> q in e) && (q in r ==> r[q] == e[q])
  {
    RelocatedAt(nodes, src, dst, q);
    if q == dst {
      assert q[|dst|..] == [] && src + [] == src;
    } else if dst <= q {
      var s := q[|dst|..];
      assert src < src + s;
      if src + s in nodes { AncestorIsDir(nodes, src + s, src); }
      if q in nodes { AncestorIsDir(nodes, q, dst); }
    } else if src <= q {
      if q != src && q in nodes { AncestorIsDir(nodes, q, src); }
    }
  }

  /**
   * Moving a file onto another file replaces it: the destination's old
   * content is gone and nothing else changes but the source's disappearance.
   */
  lemma MovedOverFile(nodes: Nodes, src: Path, dst: Path)
    requires Tree(nodes) && src != dst
    requires src in nodes && nodes[src].File? && dst in nodes && nodes[dst].File?
    ensures Moved(nodes, src, dst) == Success((nodes - {src})[dst := nodes[src]])
  {
    assert !(src <= dst) by {
      if src <= dst { AncestorIsDir(nodes, dst, src); }
    }
    assert !(dst <= src) by {
      if dst <= src { AncestorIsDir(nodes, src, dst); }
    }
    var r := Relocated(nodes, src, dst);
    var e := (nodes - {src})[dst := nodes[src]];
    forall q ensures (q in r <==> q in e) && (q in r ==> r[q] == e[q]) {
      RelocatedOverFileAt(nodes, src, dst, q);
    }
    assert r == e;
    assert dst != [];
  }

  /** os.remove keeps the filesystem a tree: a file has nothing under it. */
  lemma RemovedPreservesTree(nodes: Nodes, p: Path)
    requires Tree(nodes) && Removed(nodes, p).Success?
    ensures Tree(Removed(nodes, p).value)
  {
    var r := nodes - {p};
    forall q | q in r && q != [] ensures Dirname(q) in r && r[Dirname(q)].Dir? {
      assert Dirname(q) != p;
    }
  }

  /** os.rmdir keeps the filesystem a tree: the directory was empty. */
  lemma RemovedDirPreservesTree(nodes: Nodes, p: Path)
    requires Tree(nodes) && RemovedDir(nodes, p).Success?
    ensures Tree(RemovedDir(nodes, p).value)
  {
    var r := nodes - {p};
    forall q | q in r && q != [] ensures Dirname(q) in r && r[Dirname(q)].Dir? {
      assert Dirname(q) < q;
    }
  }

  /** Taking away a whole subtree other than the root keeps the filesystem a tree. */
  lemma PrunedPreservesTree(nodes: Nodes, root: Path)
    requires Tree(nodes) && root != []
    ensures Tree(Pruned(nodes, root))
  {
    var r := Pruned(nodes, root);
    forall q | q in r && q != [] ensures Dirname(q) in r && r[Dirname(q)].Dir? {
      assert Dirname(q) <= q;
    }
  }

  /**
   * A successful os.makedirs adds `d` and only missing ancestors of it, all
   * as directories, keeps every existing node, and keeps the filesystem a tree.
   */
  lemma {:induction false} MakeDirsAdds(nodes: Nodes, d: Path)
    requires Tree(nodes) && MakeDirs(nodes, d).Success?
    ensures var r := MakeDirs(nodes, d).value;
      && Tree(r) && d !in nodes && d in r && r[d].Dir?
      && (forall q :: q in nodes ==> q in r && r[q] == nodes[q])
      && (forall q :: q in r && q !in nodes ==> q <= d && r[q].Dir?)
    decreases |d|
  {
    var r := MakeDirs(nodes, d).value;
    if d != [] && Dirname(d) !in nodes {
      MakeDirsAdds(nodes, Dirname(d));
      var made := MakeDirs(nodes, Dirname(d)).value;
      assert r == made[d := Dir];
      assert Dirname(d) <= d;
      forall q | q in r && q !in nodes ensures q <= d {
        if q != d {
          assert q <= Dirname(d);
        }
      }
    } else {
      assert r == nodes[d := Dir];
    }
  }
}
