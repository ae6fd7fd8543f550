/**
 * An in-memory file system: what os.makedirs, os.remove, os.rmdir, shutil.rmtree,
 * shutil.copytree and shutil.move do to a tree of files and directories.
 * A path is the sequence of its components, the root is [] and is always a directory.
 */
module FileSystem {

  type Path = seq<string>

  newtype byte = x: int | 0 <= x < 256

  datatype Node = File(content: seq<byte>) | Dir

  type Tree = map<Path, Node>

  /** The outcome of one file-system call: whether it succeeded, and the tree afterwards. */
  datatype FsResult = FsResult(ok: bool, tree: Tree)

  /** os.path.dirname; the root is its own parent. */
  function Dirname(p: Path): (r: Path)
    ensures p != [] ==> r + [p[|p| - 1]] == p
    ensures p == [] ==> r == []
  {
    if p == [] then [] else p[..|p| - 1]
  }

  /** os.path.basename; "" for the root. */
  function Basename(p: Path): string
  {
    if p == [] then "" else p[|p| - 1]
  }

  /** The tree invariant: the root is a directory and every other node sits in a directory. */
  ghost predicate WellFormed(t: Tree)
  {
    && [] in t && t[[]].Dir?
    && forall p {:trigger InDir(t, p)} :: p in t && p != [] ==> InDir(t, p)
  }

  /** The parent of p is a directory of t. */
  predicate InDir(t: Tree, p: Path)
  {
    Dirname(p) in t && t[Dirname(p)].Dir?
  }

  /** os.listdir(d) is non-empty. */
  predicate HasChild(t: Tree, d: Path)
  {
    exists c :: c in t && c != [] && Dirname(c) == d
  }

  lemma {:induction false} AncestorClosed(t: Tree, p: Path, q: Path)
    requires WellFormed(t) && p in t && q <= p
    ensures q in t
    ensures q != p ==> t[q].Dir?
    decreases |p|
  {
    if q != p {
      assert InDir(t, p);
      assert q <= Dirname(p);
      AncestorClosed(t, Dirname(p), q);
    }
  }

  /** Nothing lives under a path that does not exist. */
  lemma NothingUnder(t: Tree, p: Path)
    requires WellFormed(t) && p !in t
    ensures forall q :: q in t ==> !(p <= q)
  {
    forall q | q in t && p <= q
      ensures false
    {
      AncestorClosed(t, q, p);
    }
  }

  /** A file has no children in a well-formed tree. */
  lemma FileIsLeaf(t: Tree, p: Path)
    requires WellFormed(t) && p in t && t[p].File?
    ensures !HasChild(t, p)
  {
    forall c | c in t && c != []
      ensures Dirname(c) != p
    {
      assert InDir(t, c);
    }
  }

  // ---------------------------------------------------------------- os.makedirs

  /** os.makedirs(p) with exist_ok=False succeeds: p is new and every prefix of it that exists is a directory. */
  predicate CanMakeDirs(t: Tree, p: Path)
  {
    p !in t && forall i :: 0 <= i < |p| && p[..i] in t ==> t[p[..i]].Dir?
  }

  function Prefixes(p: Path): (r: set<Path>)
    ensures forall q :: q in r <==> q <= p
  {
    var r := set i | 0 <= i <= |p| :: p[..i];
    assert forall q :: q <= p ==> q == p[..|q|];
    r
  }

  /** The tree with every missing prefix of p added as a directory. */
  function AddDirs(t: Tree, p: Path): (r: Tree)
    ensures forall q :: q in r <==> q in t || q <= p
    ensures forall q :: q in t ==> r[q] == t[q]
    ensures forall q :: q in r && q !in t ==> r[q] == Dir
  {
    t + map q | q in Prefixes(p) && q !in t :: Dir
  }

  lemma AddDirsWellFormed(t: Tree, p: Path)
    requires forall i :: 0 <= i <= |p| && p[..i] in t ==> t[p[..i]].Dir?
    ensures WellFormed(t) ==> WellFormed(AddDirs(t, p))
  {
    if !WellFormed(t) { return; }
    var r := AddDirs(t, p);
    forall q | q in r && q != []
      ensures InDir(r, q)
    {
      var d := Dirname(q);
      if q in t {
        assert InDir(t, q);
      } else {
        assert q <= p;
        assert d <= q;
        assert d <= p && d == p[..|d|];
        if d in t {
          assert t[p[..|d|]].Dir?;
        }
      }
    }
  }

  function MakeDirsFs(t: Tree, p: Path): (r: FsResult)
    ensures r.ok == CanMakeDirs(t, p)
    ensures r.ok ==> p in r.tree && r.tree[p].Dir?
    ensures forall q :: q in t ==> q in r.tree && r.tree[q] == t[q]
    ensures forall q :: q in r.tree ==> q in t || q <= p
    ensures !r.ok ==> r.tree == t
    ensures WellFormed(t) ==> WellFormed(r.tree)
  {
    if CanMakeDirs(t, p) then
      assert p[..|p|] == p;
      AddDirsWellFormed(t, p);
      FsResult(true, AddDirs(t, p))
    else
      FsResult(false, t)
  }

  // ---------------------------------------------------------------- os.remove, os.rmdir

  /** os.remove(p): only a file can be removed. */
  function RemoveFileFs(t: Tree, p: Path): (r: FsResult)
    ensures r.ok <==> p in t && t[p].File?
    ensures r.ok ==> r.tree == t - {p}
    ensures !r.ok ==> r.tree == t
    ensures WellFormed(t) ==> WellFormed(r.tree)
  {
    if p in t && t[p].File? then
      RemoveLeafWellFormed(t, p);
      FsResult(true, t - {p})
    else
      FsResult(false, t)
  }

  /** Removing a node without children (a file, or an empty directory) keeps the tree well formed. */
  lemma RemoveLeafWellFormed(t: Tree, p: Path)
    requires p in t && (t[p].File? || (p != [] && !HasChild(t, p)))
    ensures WellFormed(t) ==> WellFormed(t - {p})
  {
    if !WellFormed(t) { return; }
    if t[p].File? { FileIsLeaf(t, p); }
    var r := t - {p};
    forall q | q in r && q != []
      ensures InDir(r, q)
    {
      assert InDir(t, q);
    }
  }

  /** os.rmdir(d): only an empty directory other than the root can be removed. */
  function RemoveDirFs(t: Tree, d: Path): (r: FsResult)
    ensures r.ok <==> d != [] && d in t && t[d].Dir? && !HasChild(t, d)
    ensures r.ok ==> r.tree == t - {d}
    ensures !r.ok ==> r.tree == t
    ensures WellFormed(t) ==> WellFormed(r.tree)
  {
    if d != [] && d in t && t[d].Dir? && !HasChild(t, d) then
      RemoveLeafWellFormed(t, d);
      FsResult(true, t - {d})
    else
      FsResult(false, t)
  }

  // ---------------------------------------------------------------- subtrees

  /** The tree without p and everything under it. */
  function Prune(t: Tree, p: Path): (r: Tree)
    ensures forall q :: q in r <==> q in t && !(p <= q)
    ensures forall q :: q in r ==> r[q] == t[q]
  {
    map q | q in t && !(p <= q) :: t[q]
  }

  lemma PruneWellFormed(t: Tree, p: Path)
    requires p != []
    ensures WellFormed(t) ==> WellFormed(Prune(t, p))
  {
    if !WellFormed(t) { return; }
    var r := Prune(t, p);
    forall q | q in r && q != []
      ensures InDir(r, q)
    {
      assert InDir(t, q);
    }
  }

  lemma RebaseKey(src: Path, dst: Path, rel: Path)
    ensures (dst + rel)[|dst|..] == rel
    ensures src + (dst + rel)[|dst|..] == src + rel
    ensures src <= src + rel && (src + rel)[|src|..] == rel
  {
    assert (dst + rel)[|dst|..] == rel;
    assert (src + rel)[|src|..] == rel;
  }

  /** The subtree of t under src, moved so that it sits under dst. */
  function Rebase(t: Tree, src: Path, dst: Path): (r: Tree)
    ensures forall q :: q in r <==> dst <= q && src + q[|dst|..] in t
    ensures forall q :: q in r ==> r[q] == t[src + q[|dst|..]]
  {
    var keys := set p | p in t && src <= p :: dst + p[|src|..];
    var r := map q | q in keys :: if dst <= q && src + q[|dst|..] in t then t[src + q[|dst|..]] else Dir;
    forall q | q in keys
      ensures dst <= q && src + q[|dst|..] in t
    {
      var p :| p in t && src <= p && q == dst + p[|src|..];
      RebaseKey(src, dst, p[|src|..]);
      assert src + p[|src|..] == p;
    }
    forall q | dst <= q && src + q[|dst|..] in t
      ensures q in keys
    {
      var p := src + q[|dst|..];
      RebaseKey(src, dst, q[|dst|..]);
      assert dst + q[|dst|..] == q;
      assert p in t && src <= p && q == dst + p[|src|..];
    }
    r
  }

  lemma DirnameAppend(a: Path, b: Path)
    requires b != []
    ensures Dirname(a + b) == a + Dirname(b)
  {
    assert (a + b)[..|a + b| - 1] == a + b[..|b| - 1];
  }

  /** Grafting a copy of a directory subtree onto a fresh path inside an existing directory keeps the tree well formed. */
  lemma GraftWellFormed(base: Tree, t: Tree, src: Path, dst: Path)
    requires WellFormed(base) && WellFormed(t)
    requires src in t && t[src].Dir?
    requires dst != [] && Dirname(dst) in base && base[Dirname(dst)].Dir?
    requires forall q :: q in base ==> !(dst <= q)
    ensures WellFormed(base + Rebase(t, src, dst))
  {
    var R := Rebase(t, src, dst);
    var r := base + R;
    assert [] !in R;
    forall q | q in r && q != []
      ensures InDir(r, q)
    {
      if q in R {
        var rel := q[|dst|..];
        RebaseKey(src, dst, rel);
        assert dst + rel == q;
        if rel == [] {
          assert Dirname(q) == Dirname(dst);
          assert Dirname(dst) !in R;
        } else {
          DirnameAppend(dst, rel);
          DirnameAppend(src, rel);
          RebaseKey(src, dst, Dirname(rel));
          assert src + rel in t;
          assert InDir(t, src + rel);
          assert Dirname(q) in R;
        }
      } else {
        assert InDir(base, q);
        assert Dirname(q) <= q;
      }
    }
  }

  // ---------------------------------------------------------------- shutil.rmtree, shutil.copytree

  /** shutil.rmtree(p): p must be a directory; the root is never removed by this model. */
  function RemoveTreeFs(t: Tree, p: Path): (r: FsResult)
    ensures r.ok <==> p != [] && p in t && t[p].Dir?
    ensures r.ok ==> forall q :: q in r.tree <==> q in t && !(p <= q)
    ensures forall q :: q in r.tree ==> q in t && r.tree[q] == t[q]
    ensures !r.ok ==> r.tree == t
    ensures WellFormed(t) ==> WellFormed(r.tree)
  {
    if p != [] && p in t && t[p].Dir? then
      PruneWellFormed(t, p);
      FsResult(true, Prune(t, p))
    else
      FsResult(false, t)
  }

  /**
   * dst lies inside an entry that src already has. copytree lists src's entries before it creates
   * dst, so a dst inside src under a new name receives a copy of src as it was; under an existing
   * entry, the walk meets its own copy again and again until a call fails.
   */
  predicate CopiesIntoItself(t: Tree, src: Path, dst: Path)
  {
    |src| < |dst| && src <= dst && src + [dst[|src|]] in t
  }

  /** When shutil.copytree(src, dst) succeeds: src is a directory, dst is new and can be created, and does not copy into itself. */
  predicate CanCopyTree(t: Tree, src: Path, dst: Path)
  {
    src in t && t[src].Dir? && CanMakeDirs(t, dst) && !CopiesIntoItself(t, src, dst)
  }

  /** shutil.copytree(src, dst): creates the missing parents of dst, then copies the subtree src had before the call. */
  function CopyTreeFs(t: Tree, src: Path, dst: Path): (r: FsResult)
    ensures r.ok == CanCopyTree(t, src, dst)
    ensures !r.ok ==> r.tree == t
    ensures WellFormed(t) && r.ok ==>
      && (forall q :: q in t ==> q in r.tree && r.tree[q] == t[q])
      && (forall rel :: src + rel in t ==> dst + rel in r.tree && r.tree[dst + rel] == t[src + rel])
      && (forall q :: q in r.tree && dst <= q ==> src + q[|dst|..] in t && r.tree[q] == t[src + q[|dst|..]])
    ensures WellFormed(t) && r.ok ==> forall q :: q in r.tree && q !in t ==> q <= dst || dst <= q
    ensures WellFormed(t) ==> WellFormed(r.tree)
  {
    if CanCopyTree(t, src, dst) then
      var base := AddDirs(t, Dirname(dst));
      var r := base + Rebase(t, src, dst);
      CopyTreeWellFormed(t, src, dst);
      FsResult(true, r)
    else
      FsResult(false, t)
  }

  lemma CopyTreeWellFormed(t: Tree, src: Path, dst: Path)
    requires CanCopyTree(t, src, dst)
    ensures WellFormed(t) ==>
      var r := AddDirs(t, Dirname(dst)) + Rebase(t, src, dst);
      && WellFormed(r)
      && (forall q :: q in t ==> q in r && r[q] == t[q])
      && (forall rel :: src + rel in t ==> dst + rel in r && r[dst + rel] == t[src + rel])
      && (forall q :: q in r && dst <= q ==> src + q[|dst|..] in t && r[q] == t[src + q[|dst|..]])
  {
    if !WellFormed(t) { return; }
    var d := Dirname(dst);
    assert dst != [];
    assert forall i :: 0 <= i <= |d| ==> d[..i] == dst[..i];
    AddDirsWellFormed(t, d);
    var base := AddDirs(t, d);
    NothingUnder(t, dst);
    forall q | q in base
      ensures !(dst <= q)
    {
      if q !in t {
        assert q <= d;
      }
    }
    GraftWellFormed(base, t, src, dst);
    var r := base + Rebase(t, src, dst);
    forall rel | src + rel in t
      ensures dst + rel in r && r[dst + rel] == t[src + rel]
    {
      RebaseKey(src, dst, rel);
    }
  }

  // ---------------------------------------------------------------- shutil.move

  /** Where shutil.move(src, dst) puts src: inside dst when dst is an existing directory, else at dst. */
  function MoveDestination(t: Tree, src: Path, dst: Path): Path
  {
    if dst in t && t[dst].Dir? then dst + [Basename(src)] else dst
  }

  /**
   * When shutil.move(src, dst) succeeds. src must exist and must not be the root. Moving src onto
   * itself is a rename that changes nothing. Otherwise, when dst is an existing directory, nothing may
   * exist yet at dst/basename(src) ("Destination path already exists"). A file then needs the
   * destination's parent to be a directory and may replace a file there. A directory must not be moved
   * into itself, and the destination must be creatable.
   */
  predicate CanMove(t: Tree, src: Path, dst: Path)
  {
    var dest := MoveDestination(t, src, dst);
    && src in t && src != []
    && (|| src == dst
        || (&& !(dst in t && t[dst].Dir? && dest in t)
            && if t[src].File? then dest != [] && InDir(t, dest)
               else !(src <= dest) && CanMakeDirs(t, dest)))
  }

  /**
   * shutil.move(src, dst). When dst is an existing directory, src goes inside it, and the move is refused
   * when that name is taken. A file is renamed (replacing a file already at a destination that is not a
   * directory) when the destination's parent is a directory. A directory is renamed when the destination
   * is new and is not inside it; when the destination's parent is missing, the copytree fallback creates
   * it first.
   */
  function MoveFs(t: Tree, src: Path, dst: Path): (r: FsResult)
    ensures r.ok <==> CanMove(t, src, dst)
    ensures !r.ok ==> r.tree == t
    ensures WellFormed(t) && r.ok && src != dst ==>
      (var dest := MoveDestination(t, src, dst);
       src in t && dest in r.tree && r.tree[dest] == t[src] && src !in r.tree)
    ensures r.ok ==> forall q :: q in t && !(src <= q) && !(MoveDestination(t, src, dst) <= q) ==>
      q in r.tree && r.tree[q] == t[q]
    ensures WellFormed(t) && r.ok && src != dst && src in t && t[src].Dir? ==>
      var dest := MoveDestination(t, src, dst);
      && (forall rel :: src + rel in t ==> dest + rel in r.tree && r.tree[dest + rel] == t[src + rel])
      && (forall q :: q in r.tree && dest <= q ==> src + q[|dest|..] in t && r.tree[q] == t[src + q[|dest|..]])
    ensures WellFormed(t) && r.ok ==>
      forall q :: q in r.tree && q !in t ==> q <= MoveDestination(t, src, dst) || MoveDestination(t, src, dst) <= q
    ensures WellFormed(t) ==> WellFormed(r.tree)
  {
    if src !in t || src == [] then FsResult(false, t)
    else if src == dst then FsResult(true, t)
    else if dst in t && t[dst].Dir? && dst + [Basename(src)] in t then FsResult(false, t)
    else
      var dest := MoveDestination(t, src, dst);
      if t[src].File? then MoveFileFs(t, src, dest)
      else MoveDirFs(t, src, dest)
  }

  /** shutil.move into a directory that already holds the name is refused, and the tree is kept. */
  lemma MoveIntoTakenName(t: Tree, src: Path, dst: Path)
    requires src != dst && dst in t && t[dst].Dir? && dst + [Basename(src)] in t
    ensures MoveFs(t, src, dst) == FsResult(false, t)
  {
  }

  /** In particular, moving a path into its own parent directory is refused. */
  lemma MoveIntoOwnParent(t: Tree, src: Path)
    requires WellFormed(t) && src in t && src != []
    ensures MoveFs(t, src, Dirname(src)) == FsResult(false, t)
  {
    assert InDir(t, src);
    MoveIntoTakenName(t, src, Dirname(src));
  }

  /** os.rename of a file to dest, which is not a directory. */
  function MoveFileFs(t: Tree, src: Path, dest: Path): (r: FsResult)
    requires src in t && t[src].File? && src != dest
    requires dest !in t || t[dest].File?
    ensures r.ok <==> dest != [] && Dirname(dest) in t && t[Dirname(dest)].Dir?
    ensures r.ok ==> r.tree == (t - {src})[dest := t[src]]
    ensures !r.ok ==> r.tree == t
    ensures WellFormed(t) ==> WellFormed(r.tree)
  {
    if dest != [] && Dirname(dest) in t && t[Dirname(dest)].Dir? then
      MoveFileWellFormed(t, src, dest);
      FsResult(true, (t - {src})[dest := t[src]])
    else
      FsResult(false, t)
  }

  lemma MoveFileWellFormed(t: Tree, src: Path, dest: Path)
    requires src in t && t[src].File? && src != dest
    requires dest !in t || t[dest].File?
    requires dest != [] && Dirname(dest) in t && t[Dirname(dest)].Dir?
    ensures WellFormed(t) ==> WellFormed((t - {src})[dest := t[src]])
  {
    if !WellFormed(t) { return; }
    var r := (t - {src})[dest := t[src]];
    forall q | q in r && q != []
      ensures InDir(r, q)
    {
      if q == dest {
        assert Dirname(dest) != src && Dirname(dest) != dest;
      } else {
        assert q in t && InDir(t, q);
        assert Dirname(q) != src;
        assert Dirname(q) != dest;
      }
    }
  }

  /** Moving a directory to dest, which does not exist (os.rename, or copytree then rmtree). */
  function MoveDirFs(t: Tree, src: Path, dest: Path): (r: FsResult)
    requires src in t && t[src].Dir? && src != [] && src != dest
    requires dest !in t || t[dest].File?
    ensures r.ok <==> !(src <= dest) && CanMakeDirs(t, dest)
    ensures !r.ok ==> r.tree == t
    ensures r.ok ==> dest in r.tree && r.tree[dest] == t[src]
    ensures WellFormed(t) && r.ok ==> src !in r.tree
    ensures r.ok ==> forall q :: q in t && !(src <= q) && !(dest <= q) ==> q in r.tree && r.tree[q] == t[q]
    ensures WellFormed(t) && r.ok ==>
      && (forall rel :: src + rel in t ==> dest + rel in r.tree && r.tree[dest + rel] == t[src + rel])
      && (forall q :: q in r.tree && dest <= q ==> src + q[|dest|..] in t && r.tree[q] == t[src + q[|dest|..]])
    ensures WellFormed(t) && r.ok ==> forall q :: q in r.tree && q !in t ==> q <= dest || dest <= q
    ensures WellFormed(t) ==> WellFormed(r.tree)
  {
    if !(src <= dest) && CanMakeDirs(t, dest) then
      var added := AddDirs(t, Dirname(dest));
      var base := Prune(added, src);
      var R := Rebase(t, src, dest);
      MoveDirWellFormed(t, src, dest);
      MoveDirContents(t, src, dest);
      FsResult(true, base + R)
    else
      FsResult(false, t)
  }

  /** A folder move carries src's whole subtree to dest, node for node, and puts nothing else under dest. */
  lemma MoveDirContents(t: Tree, src: Path, dest: Path)
    requires src in t && t[src].Dir? && src != [] && src != dest
    requires !(src <= dest) && CanMakeDirs(t, dest)
    ensures var r := Prune(AddDirs(t, Dirname(dest)), src) + Rebase(t, src, dest);
      WellFormed(t) ==>
      && (forall rel :: src + rel in t ==> dest + rel in r && r[dest + rel] == t[src + rel])
      && (forall q :: q in r && dest <= q ==> src + q[|dest|..] in t && r[q] == t[src + q[|dest|..]])
  {
    if !WellFormed(t) { return; }
    var base := Prune(AddDirs(t, Dirname(dest)), src);
    var R := Rebase(t, src, dest);
    forall rel | src + rel in t
      ensures dest + rel in R
    {
      RebaseKey(src, dest, rel);
    }
    NothingUnder(t, dest);
    assert dest != [];
    forall q | q in base
      ensures !(dest <= q)
    {
      if q !in t {
        assert q <= Dirname(dest);
      }
    }
  }

  lemma MoveDirWellFormed(t: Tree, src: Path, dest: Path)
    requires src in t && t[src].Dir? && src != [] && src != dest
    requires !(src <= dest) && CanMakeDirs(t, dest)
    ensures var r := Prune(AddDirs(t, Dirname(dest)), src) + Rebase(t, src, dest);
      && dest in r && r[dest] == t[src]
      && (WellFormed(t) ==> WellFormed(r) && src !in r)
  {
    var R := Rebase(t, src, dest);
    RebaseKey(src, dest, []);
    assert dest + [] == dest && src + [] == src;
    assert dest in R;
    if !WellFormed(t) { return; }
    NothingUnder(t, dest);
    assert src !in R;
    var d := Dirname(dest);
    assert dest != [];
    assert forall i :: 0 <= i <= |d| ==> d[..i] == dest[..i];
    AddDirsWellFormed(t, d);
    var added := AddDirs(t, d);
    PruneWellFormed(added, src);
    var base := Prune(added, src);
    NothingUnder(t, dest);
    forall q | q in base
      ensures !(dest <= q)
    {
      if q !in t {
        assert q <= d;
      }
    }
    assert d in base;
    GraftWellFormed(base, t, src, dest);
  }

  // ---------------------------------------------------------------- the disk

  /** The machine's file system, changed in place by the os and shutil calls. */
  class Disk {
    var tree: Tree

    ghost predicate Valid()
      reads this
    {
      WellFormed(tree)
    }

    constructor (t: Tree)
      requires WellFormed(t)
      ensures Valid() && tree == t
    {
      tree := t;
    }

    /** os.path.exists */
    function Exists(p: Path): bool
      reads this
    {
      p in tree
    }

    /** os.path.isdir */
    function IsDir(p: Path): bool
      reads this
    {
      p in tree && tree[p].Dir?
    }

    /** os.makedirs(p) */
    method MakeDirs(p: Path) returns (ok: bool)
      requires Valid()
      modifies this
      ensures Valid()
      ensures ok == MakeDirsFs(old(tree), p).ok && tree == MakeDirsFs(old(tree), p).tree
    {
      var r := MakeDirsFs(tree, p);
      ok, tree := r.ok, r.tree;
    }

    /** os.remove(p) */
    method Remove(p: Path) returns (ok: bool)
      requires Valid()
      modifies this
      ensures Valid()
      ensures ok == RemoveFileFs(old(tree), p).ok && tree == RemoveFileFs(old(tree), p).tree
    {
      var r := RemoveFileFs(tree, p);
      ok, tree := r.ok, r.tree;
    }

    /** os.listdir(d) == [] and os.rmdir(d) */
    method RemoveDir(d: Path) returns (ok: bool)
      requires Valid()
      modifies this
      ensures Valid()
      ensures ok == RemoveDirFs(old(tree), d).ok && tree == RemoveDirFs(old(tree), d).tree
    {
      var r := RemoveDirFs(tree, d);
      ok, tree := r.ok, r.tree;
    }

    /** shutil.rmtree(p) */
    method RemoveTree(p: Path) returns (ok: bool)
      requires Valid()
      modifies this
      ensures Valid()
      ensures ok == RemoveTreeFs(old(tree), p).ok && tree == RemoveTreeFs(old(tree), p).tree
    {
      var r := RemoveTreeFs(tree, p);
      ok, tree := r.ok, r.tree;
    }

    /** shutil.copytree(src, dst) */
    method CopyTree(src: Path, dst: Path) returns (ok: bool)
      requires Valid()
      modifies this
      ensures Valid()
      ensures ok == CopyTreeFs(old(tree), src, dst).ok && tree == CopyTreeFs(old(tree), src, dst).tree
    {
      var r := CopyTreeFs(tree, src, dst);
      ok, tree := r.ok, r.tree;
    }

    /** shutil.move(src, dst) */
    method Move(src: Path, dst: Path) returns (ok: bool)
      requires Valid()
      modifies this
      ensures Valid()
      ensures ok == MoveFs(old(tree), src, dst).ok && tree == MoveFs(old(tree), src, dst).tree
    {
      var r := MoveFs(tree, src, dst);
      ok, tree := r.ok, r.tree;
    }
  }
}
