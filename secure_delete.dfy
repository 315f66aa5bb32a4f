/**
 * secure_delete: a file gets random bytes written to it a number of times
 * (appended, since the handle is opened with "ba+") and is then removed; a
 * directory is emptied bottom-up, file by file and subdirectory by
 * subdirectory, and then removed itself.
 */
module SecureErase {
  import opened Wrappers
  import opened FileSystem

  /** os.urandom: the byte a call of pass `pass` yields at offset `offset`. */
  type Noise = (nat, nat) -> Byte

  /** os.urandom(length), read in pass `pass`. */
  function Burst(noise: Noise, pass: nat, length: nat): (b: seq<Byte>)
    ensures |b| == length
  {
    seq(length, i requires 0 <= i < length => noise(pass, i))
  }

  /**
   * f.write(buf) with the position at `pos`: a handle opened for appending
   * ("a" in the mode) writes at the end wherever it was positioned; any
   * other handle writes over the bytes from `pos` on and extends the file
   * past its end.
   */
  function Written(data: seq<Byte>, pos: nat, buf: seq<Byte>, appending: bool): (r: seq<Byte>)
    requires pos <= |data|
    ensures appending ==> |r| == |data| + |buf| && r[..|data|] == data && r[|data|..] == buf
    ensures !appending ==> |r| == (if pos + |buf| < |data| then |data| else pos + |buf|)
    ensures !appending ==> r[..pos] == data[..pos] && r[pos..pos + |buf|] == buf
    ensures !appending && pos + |buf| < |data| ==> r[pos + |buf|..] == data[pos + |buf|..]
  {
    if appending then data + buf
    else if pos + |buf| < |data| then data[..pos] + buf + data[pos + |buf|..]
    else data[..pos] + buf
  }

  // ---------------------------------------------------------------------------
  // The write loop as written: the handle is opened with "ba+"

  /** The content after `passes` bursts appended to `data`, one per pass. */
  function Appended(data: seq<Byte>, noise: Noise, passes: nat, length: nat): seq<Byte>
  {
    if passes == 0 then data else Appended(data, noise, passes - 1, length) + Burst(noise, passes - 1, length)
  }

  /** Appending adds `length` bytes per pass. */
  lemma {:induction false} AppendedLength(data: seq<Byte>, noise: Noise, passes: nat, length: nat)
    ensures |Appended(data, noise, passes, length)| == |data| + passes * length
  {
    if passes > 0 {
      AppendedLength(data, noise, passes - 1, length);
    }
  }

  /** Appending keeps the original bytes in front. */
  lemma {:induction false} AppendedKeepsData(data: seq<Byte>, noise: Noise, passes: nat, length: nat)
    ensures |data| <= |Appended(data, noise, passes, length)|
    ensures Appended(data, noise, passes, length)[..|data|] == data
  {
    if passes > 0 {
      AppendedKeepsData(data, noise, passes - 1, length);
      var front := Appended(data, noise, passes - 1, length);
      assert (front + Burst(noise, passes - 1, length))[..|data|] == front[..|data|];
    }
  }

  /**
   * The loop of secure_delete as written: the handle is opened with "ba+",
   * so every f.seek(0); f.write(os.urandom(length)) appends.
   */
  method AppendPasses(disk: Disk, path: Path, passes: int, noise: Noise)
    requires disk.Valid() && path in disk.nodes && disk.nodes[path].File?
    modifies disk
    ensures disk.Valid()
    ensures disk.nodes == old(disk.nodes)[path := File(Appended(old(disk.nodes)[path].data, noise,
                            if passes < 0 then 0 else passes, |old(disk.nodes)[path].data|))]
  {
    var length := |disk.nodes[path].data|;
    ghost var original := disk.nodes[path].data;
    var pass := 0;
    while pass < passes
      invariant 0 <= pass && (passes >= 0 ==> pass <= passes) && (passes < 0 ==> pass == 0)
      invariant disk.nodes == old(disk.nodes)[path := File(Appended(original, noise, pass, length))]
      invariant disk.Valid()
    {
      var data := disk.nodes[path].data;
      disk.nodes := disk.nodes[path := File(Written(data, 0, Burst(noise, pass, length), true))];
      pass := pass + 1;
    }
  }

  /**
   * What the loop as written leaves: the file's original bytes untouched at
   * its start, and the file (passes + 1) times as long as before.
   */
  lemma AppendLeavesOriginal(data: seq<Byte>, noise: Noise, passes: nat)
    ensures |Appended(data, noise, passes, |data|)| == |data| * (passes + 1)
    ensures Appended(data, noise, passes, |data|)[..|data|] == data
  {
    AppendedLength(data, noise, passes, |data|);
    AppendedKeepsData(data, noise, passes, |data|);
  }

  /** A concrete file whose content survives three passes of the loop as written. */
  lemma AppendLeavesOriginalExample(noise: Noise)
    ensures var data: seq<Byte> := [7, 7, 7];
      Appended(data, noise, 3, 3)[..3] == data && |Appended(data, noise, 3, 3)| == 12
  {
    AppendLeavesOriginal([7, 7, 7], noise, 3);
  }

  // ---------------------------------------------------------------------------
  // The write loop as intended: the handle writes in place

  /** The content after `passes` bursts written over `data` from its start. */
  function Overwritten(data: seq<Byte>, noise: Noise, passes: nat): (r: seq<Byte>)
    ensures |r| == |data|
  {
    if passes == 0 then data else Burst(noise, passes - 1, |data|)
  }

  /**
   * The loop as intended, with a handle that writes where it is positioned
   * (mode "rb+"): each pass writes os.urandom(length) over the whole file.
   */
  method OverwritePasses(disk: Disk, path: Path, passes: int, noise: Noise)
    requires disk.Valid() && path in disk.nodes && disk.nodes[path].File?
    modifies disk
    ensures disk.Valid()
    ensures disk.nodes == old(disk.nodes)[path := File(Overwritten(old(disk.nodes)[path].data, noise,
                            if passes < 0 then 0 else passes))]
  {
    var length := |disk.nodes[path].data|;
    ghost var original := disk.nodes[path].data;
    var pass := 0;
    while pass < passes
      invariant 0 <= pass && (passes >= 0 ==> pass <= passes) && (passes < 0 ==> pass == 0)
      invariant disk.nodes == old(disk.nodes)[path := File(Overwritten(original, noise, pass))]
      invariant disk.Valid()
    {
      var data := disk.nodes[path].data;
      assert |data| == length;
      assert Written(data, 0, Burst(noise, pass, length), false) == Burst(noise, pass, length);
      disk.nodes := disk.nodes[path := File(Written(data, 0, Burst(noise, pass, length), false))];
      pass := pass + 1;
    }
  }

  /**
   * After at least one pass in place, the file keeps its length and nothing
   * of its original bytes: any two files of one length end up with the same
   * content, the last pass's random bytes.
   */
  lemma OverwriteHidesOriginal(a: seq<Byte>, b: seq<Byte>, noise: Noise, passes: nat)
    requires passes > 0 && |a| == |b|
    ensures |Overwritten(a, noise, passes)| == |a|
    ensures Overwritten(a, noise, passes) == Overwritten(b, noise, passes) == Burst(noise, passes - 1, |a|)
  {
  }

  // ---------------------------------------------------------------------------
  // Directories: os.walk(path, topdown=False)

  /** Exactly the children of `step.root` are listed, files as files and directories as directories, once each. */
  ghost predicate ListsChildren(nodes: Nodes, step: WalkStep)
  {
    && (forall q :: q in nodes && q != [] && Dirname(q) == step.root ==>
          (nodes[q].File? ==> Basename(q) in step.files) && (nodes[q].Dir? ==> Basename(q) in step.dirs))
    && (forall k :: 0 <= k < |step.files| ==> Join(step.root, step.files[k]) in nodes && nodes[Join(step.root, step.files[k])].File?)
    && (forall k :: 0 <= k < |step.dirs| ==> Join(step.root, step.dirs[k]) in nodes && nodes[Join(step.root, step.dirs[k])].Dir?)
    && (forall k, m :: 0 <= k < m < |step.files| ==> step.files[k] != step.files[m])
    && (forall k, m :: 0 <= k < m < |step.dirs| ==> step.dirs[k] != step.dirs[m])
  }

  /**
   * What os.walk(path, topdown=False) yields for an unchanging tree: one step
   * per directory at or under `path`, each listing its children, every
   * directory after all the directories under it.
   */
  ghost predicate BottomUpWalk(nodes: Nodes, path: Path, walk: seq<WalkStep>)
  {
    && (forall i :: 0 <= i < |walk| ==> path <= walk[i].root && walk[i].root in nodes && nodes[walk[i].root].Dir?)
    && (forall i :: 0 <= i < |walk| ==> ListsChildren(nodes, walk[i]))
    && (forall i, j :: 0 <= i < j < |walk| ==> walk[i].root != walk[j].root)
    && (forall i, j :: 0 <= i < |walk| && 0 <= j < |walk| && walk[i].root < walk[j].root ==> j < i)
    && (forall q :: q in nodes && path <= q && nodes[q].Dir? ==> exists i :: 0 <= i < |walk| && walk[i].root == q)
  }

  /** `q` is one of the children a step lists. */
  ghost predicate ListedIn(step: WalkStep, q: Path)
  {
    q != [] && Dirname(q) == step.root && (Basename(q) in step.files || Basename(q) in step.dirs)
  }

  /** Some step of `done` lists `q`. */
  ghost predicate ErasedBy(done: seq<WalkStep>, q: Path)
  {
    exists i :: 0 <= i < |done| && ListedIn(done[i], q)
  }

  /** The tree once the steps `done` and the listed part of `current` have been dealt with. */
  ghost function Remaining(start: Nodes, done: seq<WalkStep>, current: WalkStep): Nodes
  {
    map q | q in start && !ErasedBy(done, q) && !ListedIn(current, q) :: start[q]
  }

  /** A path is its parent joined with its base name. */
  lemma JoinParts(q: Path)
    requires q != []
    ensures q == Join(Dirname(q), Basename(q)) && Dirname(q) < q
  {
  }

  /**
   * A node whose parent lies strictly under the root of step `i` is a child
   * of a step before `i`: its parent's own step comes first.
   */
  lemma ChildErasedEarlier(start: Nodes, path: Path, walk: seq<WalkStep>, i: nat, q: Path)
    requires Tree(start) && BottomUpWalk(start, path, walk) && i < |walk|
    requires q in start && q != [] && walk[i].root < Dirname(q)
    ensures ErasedBy(walk[..i], q)
  {
    var p := Dirname(q);
    assert path <= p;
    var i3 :| 0 <= i3 < |walk| && walk[i3].root == p;
    assert ListsChildren(start, walk[i3]);
    assert ListedIn(walk[i3], q);
    assert walk[..i][i3] == walk[i3];
  }

  /** A node strictly under `path` is a child some step lists. */
  lemma UnderPathErased(start: Nodes, path: Path, walk: seq<WalkStep>, q: Path)
    requires Tree(start) && BottomUpWalk(start, path, walk)
    requires q in start && path < q
    ensures ErasedBy(walk, q)
  {
    JoinParts(q);
    var p := Dirname(q);
    assert path <= p;
    var i3 :| 0 <= i3 < |walk| && walk[i3].root == p;
    assert ListsChildren(start, walk[i3]);
    assert ListedIn(walk[i3], q);
  }

  /** Erased by a prefix of the walk is erased by a longer prefix. */
  lemma ErasedByLonger(walk: seq<WalkStep>, i: nat, j: nat, q: Path)
    requires i <= j <= |walk| && ErasedBy(walk[..i], q)
    ensures ErasedBy(walk[..j], q)
  {
    var k :| 0 <= k < i && ListedIn(walk[..i][k], q);
    assert walk[..j][k] == walk[..i][k];
  }

  /** The part of step `i` dealt with: its first `jf` files and its first `jd` directories. */
  function Partial(step: WalkStep, jf: nat, jd: nat): WalkStep
    requires jf <= |step.files| && jd <= |step.dirs|
  {
    WalkStep(step.root, step.dirs[..jd], step.files[..jf])
  }

  /** What remains halfway through the walk is still a tree: a directory goes only after its contents. */
  lemma RemainingTree(start: Nodes, path: Path, walk: seq<WalkStep>, i: nat, jf: nat, jd: nat)
    requires Tree(start) && BottomUpWalk(start, path, walk) && i < |walk|
    requires jf <= |walk[i].files| && jd <= |walk[i].dirs|
    ensures Tree(Remaining(start, walk[..i], Partial(walk[i], jf, jd)))
  {
    forall q | q in Remaining(start, walk[..i], Partial(walk[i], jf, jd)) && q != []
      ensures Dirname(q) in Remaining(start, walk[..i], Partial(walk[i], jf, jd))
    {
      ParentRemains(start, path, walk, i, jf, jd, q);
    }
  }

  /** The parent of a node that remains halfway through the walk remains too. */
  lemma ParentRemains(start: Nodes, path: Path, walk: seq<WalkStep>, i: nat, jf: nat, jd: nat, q: Path)
    requires Tree(start) && BottomUpWalk(start, path, walk) && i < |walk|
    requires jf <= |walk[i].files| && jd <= |walk[i].dirs|
    requires q in Remaining(start, walk[..i], Partial(walk[i], jf, jd)) && q != []
    ensures Dirname(q) in Remaining(start, walk[..i], Partial(walk[i], jf, jd))
  {
    if ErasedBy(walk[..i], Dirname(q)) {
      ParentErasedChildErased(start, path, walk, i, q);
    }
    ParentNotListed(start, path, walk, i, jf, jd, q);
  }

  /** A node whose parent an earlier step lists is listed by an earlier step too. */
  lemma ParentErasedChildErased(start: Nodes, path: Path, walk: seq<WalkStep>, i: nat, q: Path)
    requires Tree(start) && BottomUpWalk(start, path, walk) && i < |walk|
    requires q in start && q != [] && ErasedBy(walk[..i], Dirname(q))
    ensures ErasedBy(walk[..i], q)
  {
    var p := Dirname(q);
    var k :| 0 <= k < i && ListedIn(walk[..i][k], p);
    JoinParts(p);
    ChildErasedEarlier(start, path, walk, k, q);
    ErasedByLonger(walk, k, i, q);
  }

  /** The current step has not yet dealt with the parent of a node no earlier step lists. */
  lemma ParentNotListed(start: Nodes, path: Path, walk: seq<WalkStep>, i: nat, jf: nat, jd: nat, q: Path)
    requires Tree(start) && BottomUpWalk(start, path, walk) && i < |walk|
    requires jf <= |walk[i].files| && jd <= |walk[i].dirs|
    requires q in start && q != [] && !ErasedBy(walk[..i], q)
    ensures !ListedIn(Partial(walk[i], jf, jd), Dirname(q))
  {
    var p := Dirname(q);
    if ListedIn(Partial(walk[i], jf, jd), p) {
      JoinParts(p);
      ChildErasedEarlier(start, path, walk, i, q);
    }
  }

  /** A step of which nothing is dealt with yet removes nothing, whatever its root. */
  lemma RemainingNoneListed(start: Nodes, done: seq<WalkStep>, a: WalkStep, b: WalkStep)
    requires a.files == [] && a.dirs == [] && b.files == [] && b.dirs == []
    ensures Remaining(start, done, a) == Remaining(start, done, b)
  {
  }

  /** Before the walk, the whole tree remains. */
  lemma RemainingAtStart(start: Nodes, step: WalkStep)
    requires step.files == [] && step.dirs == []
    ensures Remaining(start, [], step) == start
  {
  }

  /** A child of step `i`'s root is listed by no earlier step: the roots are distinct. */
  lemma NotErasedBefore(start: Nodes, path: Path, walk: seq<WalkStep>, i: nat, x: Path)
    requires BottomUpWalk(start, path, walk) && i < |walk|
    requires x != [] && Dirname(x) == walk[i].root
    ensures !ErasedBy(walk[..i], x)
  {
    forall k | 0 <= k < i ensures !ListedIn(walk[..i][k], x) {
      assert walk[..i][k] == walk[k];
    }
  }

  /** Dealing with one more listed child `p` of the current step removes exactly `p`. */
  lemma RemainingLess(start: Nodes, done: seq<WalkStep>, cur: WalkStep, next: WalkStep, p: Path)
    requires p != [] && Dirname(p) == cur.root && next.root == cur.root
    requires (next.files == cur.files + [Basename(p)] && next.dirs == cur.dirs)
          || (next.dirs == cur.dirs + [Basename(p)] && next.files == cur.files)
    ensures Remaining(start, done, next) == Remaining(start, done, cur) - {p}
  {
    forall q ensures ListedIn(next, q) <==> ListedIn(cur, q) || q == p {
      if q != [] && Dirname(q) == cur.root && Basename(q) == Basename(p) {
        JoinParts(q);
        JoinParts(p);
      }
    }
  }

  /** Taking one more element of a sequence. */
  lemma PrefixGrows(s: seq<string>, j: nat)
    requires j < |s|
    ensures s[..j + 1] == s[..j] + [s[j]]
  {
  }

  /** Removing a file takes nothing else with it. */
  lemma PrunedFile(nodes: Nodes, p: Path)
    requires Tree(nodes) && p in nodes && nodes[p].File?
    ensures Pruned(nodes, p) == nodes - {p}
  {
    forall q ensures q in Pruned(nodes, p) <==> q in nodes - {p} {
      if q in nodes && p <= q && q != p {
        AncestorIsDir(nodes, q, p);
      }
    }
  }

  /** The `j`-th file of step `i` is still there, as a file, when its turn comes. */
  lemma FileAt(start: Nodes, path: Path, walk: seq<WalkStep>, i: nat, j: nat)
    requires BottomUpWalk(start, path, walk) && i < |walk| && j < |walk[i].files|
    ensures Join(walk[i].root, walk[i].files[j]) in Remaining(start, walk[..i], Partial(walk[i], j, 0))
    ensures start[Join(walk[i].root, walk[i].files[j])].File?
  {
    var step := walk[i];
    var p := Join(step.root, step.files[j]);
    assert ListsChildren(start, step);
    NotErasedBefore(start, path, walk, i, p);
    assert step.files[j] !in step.files[..j];
  }

  /**
   * The `j`-th file of step `i` is still there, as a file, when its turn
   * comes, and secure-deleting it leaves what remains after it.
   */
  lemma FileStep(start: Nodes, path: Path, walk: seq<WalkStep>, i: nat, j: nat)
    requires Tree(start) && BottomUpWalk(start, path, walk) && i < |walk| && j < |walk[i].files|
    ensures Tree(Remaining(start, walk[..i], Partial(walk[i], j, 0)))
    ensures Join(walk[i].root, walk[i].files[j]) in Remaining(start, walk[..i], Partial(walk[i], j, 0))
    ensures Remaining(start, walk[..i], Partial(walk[i], j, 0))[Join(walk[i].root, walk[i].files[j])].File?
    ensures Pruned(Remaining(start, walk[..i], Partial(walk[i], j, 0)), Join(walk[i].root, walk[i].files[j]))
         == Remaining(start, walk[..i], Partial(walk[i], j + 1, 0))
  {
    var step := walk[i];
    var p := Join(step.root, step.files[j]);
    RemainingTree(start, path, walk, i, j, 0);
    FileAt(start, path, walk, i, j);
    PrunedFile(Remaining(start, walk[..i], Partial(step, j, 0)), p);
    PrefixGrows(step.files, j);
    RemainingLess(start, walk[..i], Partial(step, j, 0), Partial(step, j + 1, 0), p);
  }

  /** The `j`-th directory of step `i` is still there when its turn comes. */
  lemma DirAt(start: Nodes, path: Path, walk: seq<WalkStep>, i: nat, j: nat)
    requires BottomUpWalk(start, path, walk) && i < |walk| && j < |walk[i].dirs|
    ensures Join(walk[i].root, walk[i].dirs[j]) in Remaining(start, walk[..i], Partial(walk[i], |walk[i].files|, j))
    ensures start[Join(walk[i].root, walk[i].dirs[j])].Dir?
  {
    var step := walk[i];
    var c := Join(step.root, step.dirs[j]);
    assert ListsChildren(start, step);
    assert step.files[..|step.files|] == step.files;
    NotErasedBefore(start, path, walk, i, c);
    forall m | 0 <= m < |step.files| ensures step.files[m] != step.dirs[j] {
      assert start[Join(step.root, step.files[m])].File?;
    }
    assert step.dirs[j] !in step.dirs[..j];
  }

  /** By its turn, the `j`-th directory of step `i` has nothing left under it. */
  lemma DirEmptied(start: Nodes, path: Path, walk: seq<WalkStep>, i: nat, j: nat)
    requires Tree(start) && BottomUpWalk(start, path, walk) && i < |walk| && j < |walk[i].dirs|
    ensures !HasEntries(Remaining(start, walk[..i], Partial(walk[i], |walk[i].files|, j)), Join(walk[i].root, walk[i].dirs[j]))
  {
    var step := walk[i];
    var c := Join(step.root, step.dirs[j]);
    var cur := Remaining(start, walk[..i], Partial(step, |step.files|, j));
    if HasEntries(cur, c) {
      var q :| q in cur && c < q;
      JoinParts(q);
      assert step.root < c <= Dirname(q);
      ChildErasedEarlier(start, path, walk, i, q);
      assert false;
    }
  }

  /**
   * The `j`-th directory of step `i` is still there when its turn comes and
   * is empty by then, so os.rmdir succeeds and leaves what remains after it.
   */
  lemma DirStep(start: Nodes, path: Path, walk: seq<WalkStep>, i: nat, j: nat)
    requires Tree(start) && BottomUpWalk(start, path, walk) && i < |walk| && j < |walk[i].dirs|
    ensures Tree(Remaining(start, walk[..i], Partial(walk[i], |walk[i].files|, j)))
    ensures RemovedDir(Remaining(start, walk[..i], Partial(walk[i], |walk[i].files|, j)), Join(walk[i].root, walk[i].dirs[j]))
         == Success(Remaining(start, walk[..i], Partial(walk[i], |walk[i].files|, j + 1)))
  {
    var step := walk[i];
    var c := Join(step.root, step.dirs[j]);
    RemainingTree(start, path, walk, i, |step.files|, j);
    DirAt(start, path, walk, i, j);
    DirEmptied(start, path, walk, i, j);
    PrefixGrows(step.dirs, j);
    RemainingLess(start, walk[..i], Partial(step, |step.files|, j), Partial(step, |step.files|, j + 1), c);
  }

  /** Once a step's files and directories are all dealt with, the walk moves on to the next step. */
  lemma StepDone(start: Nodes, walk: seq<WalkStep>, i: nat, next: WalkStep)
    requires i < |walk| && next.files == [] && next.dirs == []
    ensures Remaining(start, walk[..i], Partial(walk[i], |walk[i].files|, |walk[i].dirs|)) == Remaining(start, walk[..i + 1], next)
  {
    var step := walk[i];
    assert Partial(step, |step.files|, |step.dirs|) == step;
    forall q ensures ErasedBy(walk[..i + 1], q) <==> ErasedBy(walk[..i], q) || ListedIn(step, q) {
      if ErasedBy(walk[..i + 1], q) {
        var k :| 0 <= k < i + 1 && ListedIn(walk[..i + 1][k], q);
        if k < i {
          assert walk[..i][k] == walk[k];
        }
      }
      if ErasedBy(walk[..i], q) {
        ErasedByLonger(walk, i, i + 1, q);
      }
      if ListedIn(step, q) {
        assert walk[..i + 1][i] == step;
      }
    }
  }

  /** What the walk erases is exactly what lies strictly under `path`. */
  lemma ErasedExactly(start: Nodes, path: Path, walk: seq<WalkStep>, q: Path)
    requires Tree(start) && BottomUpWalk(start, path, walk) && q in start
    ensures ErasedBy(walk, q) <==> path < q
  {
    if path < q {
      UnderPathErased(start, path, walk, q);
    }
    if ErasedBy(walk, q) {
      var k :| 0 <= k < |walk| && ListedIn(walk[k], q);
      JoinParts(q);
    }
  }

  /** A proper prefix is a prefix other than the sequence itself. */
  lemma ProperPrefix(a: Path, b: Path)
    ensures a < b <==> a <= b && a != b
  {
    if a <= b && |a| == |b| {
      assert a == b[..|a|];
    }
  }

  /** After the walk `path` itself is still there, empty. */
  lemma WalkLeavesRoot(start: Nodes, path: Path, walk: seq<WalkStep>, last: WalkStep)
    requires Tree(start) && BottomUpWalk(start, path, walk)
    requires path in start && last.files == [] && last.dirs == []
    ensures path in Remaining(start, walk, last)
    ensures !HasEntries(Remaining(start, walk, last), path)
  {
    ErasedExactly(start, path, walk, path);
    forall q | q in Remaining(start, walk, last) ensures !(path < q) {
      ErasedExactly(start, path, walk, q);
    }
  }

  /** After the walk a node other than `path` remains exactly when it lies outside `path`. */
  lemma WalkLeavesAt(start: Nodes, path: Path, walk: seq<WalkStep>, last: WalkStep, q: Path)
    requires Tree(start) && BottomUpWalk(start, path, walk)
    requires last.files == [] && last.dirs == []
    ensures q in Remaining(start, walk, last) && q != path <==> q in start && !(path <= q)
  {
    ProperPrefix(path, q);
    if q in start {
      ErasedExactly(start, path, walk, q);
    }
  }

  /** After the walk, apart from `path` itself, what remains is what lies outside it. */
  lemma WalkLeavesRest(start: Nodes, path: Path, walk: seq<WalkStep>, last: WalkStep)
    requires Tree(start) && BottomUpWalk(start, path, walk)
    requires last.files == [] && last.dirs == []
    ensures Remaining(start, walk, last) - {path} == Pruned(start, path)
  {
    forall q ensures q in Remaining(start, walk, last) - {path} <==> q in Pruned(start, path) {
      WalkLeavesAt(start, path, walk, last, q);
    }
  }

  /** After the walk only `path` itself is left of its subtree, empty, and os.rmdir takes it. */
  lemma WalkDone(start: Nodes, path: Path, walk: seq<WalkStep>, last: WalkStep)
    requires Tree(start) && BottomUpWalk(start, path, walk)
    requires path in start && start[path].Dir? && path != [] && last.files == [] && last.dirs == []
    ensures RemovedDir(Remaining(start, walk, last), path) == Success(Pruned(start, path))
  {
    WalkLeavesRoot(start, path, walk, last);
    WalkLeavesRest(start, path, walk, last);
  }

  /**
   * secure_delete(path, passes): afterwards nothing at or under `path`
   * exists and nothing else has changed. A file gets `passes` bursts of
   * random bytes appended and is removed, and `written` is what it held
   * just before os.remove; a directory is walked bottom-up (`walk` is what
   * os.walk yields) and erased; anything else is left as it is.
   */
  method SecureDelete(disk: Disk, path: Path, passes: int, walk: seq<WalkStep>, noise: Noise)
    returns (ghost written: seq<Byte>)
    requires disk.Valid()
    requires path in disk.nodes && disk.nodes[path].Dir? ==> path != [] && BottomUpWalk(disk.nodes, path, walk)
    modifies disk
    ensures disk.Valid()
    ensures disk.nodes == Pruned(old(disk.nodes), path)
    ensures path in old(disk.nodes) && old(disk.nodes)[path].File? ==>
      written == Appended(old(disk.nodes)[path].data, noise, if passes < 0 then 0 else passes, |old(disk.nodes)[path].data|)
    decreases if path in disk.nodes && disk.nodes[path].Dir? then 3 else 0
  {
    written := [];
    if path in disk.nodes && disk.nodes[path].File? {
      written := EraseFile(disk, path, passes, noise);
    } else if path in disk.nodes {
      EraseTree(disk, path, passes, walk, noise);
    } else {
      AbsentHasNoEntries(disk.nodes, path);
    }
  }

  /**
   * The file branch: the write passes as the code runs them, appending to
   * the file, then os.remove; a file takes nothing else with it. `written`
   * is the content os.remove discards: the original bytes, still in front,
   * followed by one burst per pass.
   */
  method EraseFile(disk: Disk, path: Path, passes: int, noise: Noise) returns (ghost written: seq<Byte>)
    requires disk.Valid() && path in disk.nodes && disk.nodes[path].File?
    modifies disk
    ensures disk.Valid()
    ensures disk.nodes == Pruned(old(disk.nodes), path)
    ensures written == Appended(old(disk.nodes)[path].data, noise, if passes < 0 then 0 else passes, |old(disk.nodes)[path].data|)
    ensures var data := old(disk.nodes)[path].data;
      |written| == |data| * ((if passes < 0 then 0 else passes) + 1) && written[..|data|] == data
  {
    PrunedFile(disk.nodes, path);
    PrunedPreservesTree(disk.nodes, path);
    ghost var before := disk.nodes;
    AppendPasses(disk, path, passes, noise);
    AppendLeavesOriginal(before[path].data, noise, if passes < 0 then 0 else passes);
    assert disk.nodes - {path} == before - {path};
    written := disk.nodes[path].data;
    disk.nodes := Removed(disk.nodes, path).value;
  }

  /**
   * The directory branch: every step of the bottom-up walk in turn, then
   * os.rmdir(path) once the walk has emptied it.
   */
  method EraseTree(disk: Disk, path: Path, passes: int, walk: seq<WalkStep>, noise: Noise)
    requires disk.Valid() && path in disk.nodes && disk.nodes[path].Dir?
    requires path != [] && BottomUpWalk(disk.nodes, path, walk)
    modifies disk
    ensures disk.Valid()
    ensures disk.nodes == Pruned(old(disk.nodes), path)
    decreases 2
  {
    ghost var start := disk.nodes;
    var empty := WalkStep(path, [], []);
    RemainingAtStart(start, empty);
    assert walk[..0] == [];
    for i := 0 to |walk|
      invariant disk.nodes == Remaining(start, walk[..i], empty)
    {
      EraseStep(disk, start, path, passes, walk, i, noise);
    }
    assert walk[..|walk|] == walk;
    WalkDone(start, path, walk, empty);
    PrunedPreservesTree(start, path);
    disk.nodes := RemovedDir(disk.nodes, path).value;
  }

  /**
   * One step of the walk: secure_delete on each listed file, then os.rmdir
   * on each listed subdirectory, which the earlier steps have emptied.
   */
  method EraseStep(disk: Disk, ghost start: Nodes, path: Path, passes: int, walk: seq<WalkStep>, i: nat, noise: Noise)
    requires Tree(start) && BottomUpWalk(start, path, walk) && i < |walk|
    requires disk.nodes == Remaining(start, walk[..i], WalkStep(path, [], []))
    modifies disk
    ensures disk.Valid()
    ensures disk.nodes == Remaining(start, walk[..i + 1], WalkStep(path, [], []))
    decreases 1
  {
    var step := walk[i];
    RemainingNoneListed(start, walk[..i], WalkStep(path, [], []), Partial(step, 0, 0));
    for j := 0 to |step.files|
      invariant disk.nodes == Remaining(start, walk[..i], Partial(step, j, 0))
    {
      FileStep(start, path, walk, i, j);
      ghost var discarded := SecureDelete(disk, Join(step.root, step.files[j]), passes, [], noise);
    }
    for j := 0 to |step.dirs|
      invariant disk.nodes == Remaining(start, walk[..i], Partial(step, |step.files|, j))
    {
      DirStep(start, path, walk, i, j);
      disk.nodes := RemovedDir(disk.nodes, Join(step.root, step.dirs[j])).value;
    }
    RemainingTree(start, path, walk, i, |step.files|, |step.dirs|);
    StepDone(start, walk, i, WalkStep(path, [], []));
  }
}
