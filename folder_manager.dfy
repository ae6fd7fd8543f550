/**
 * FolderManager: moving classified files into category folders, undoing moves,
 * removing empty folders, folder skeletons and directory backups, all on the Disk
 * of FileSystem. Each method is proved equal to a specification function over
 * trees; the lemmas state what those functions guarantee.
 */
module FolderManager {
  import opened Wrappers
  import opened Text
  import opened Dicts
  import opened FileSystem
  import opened Descriptors

  // ================================================================ organize_files

  /** Where organize_files sends a file called name: dir/name, or the timestamped name when dir/name exists. */
  function ConflictTarget(t: Tree, dir: Path, name: string, ts: string): (r: Path)
    ensures Dirname(r) == dir
    ensures r == dir + [name] <==> dir + [name] !in t
    ensures dir + [name] in t ==> r == dir + [SuffixName(name, ts)]
  {
    if dir + [name] in t then dir + [SuffixName(name, ts)] else dir + [name]
  }

  /** The first loop of organize_files: each missing category folder is created; the first failure ends it. */
  function EnsureFolders(t: Tree, base: Path, keys: seq<string>): FsResult
  {
    if keys == [] then FsResult(true, t)
    else
      var prev := EnsureFolders(t, base, keys[..|keys| - 1]);
      var p := base + [keys[|keys| - 1]];
      if !prev.ok || p in prev.tree then prev else MakeDirsFs(prev.tree, p)
  }

  /** After the first loop succeeds, every category folder exists. */
  lemma {:induction false} EnsureFoldersExist(t: Tree, base: Path, keys: seq<string>)
    ensures EnsureFolders(t, base, keys).ok ==>
      forall k :: k in keys ==> base + [k] in EnsureFolders(t, base, keys).tree
  {
    if keys != [] {
      var init := keys[..|keys| - 1];
      EnsureFoldersExist(t, base, init);
      EnsureFoldersKeep(t, base, init);
      assert forall k :: k in keys ==> k in init || k == keys[|keys| - 1];
    }
  }

  /**
   * The first loop keeps every existing node and the tree invariant, and adds only
   * category folders and their missing parents.
   */
  lemma {:induction false} EnsureFoldersKeep(t: Tree, base: Path, keys: seq<string>)
    ensures var r := EnsureFolders(t, base, keys);
      && (forall q :: q in t ==> q in r.tree && r.tree[q] == t[q])
      && (forall q :: q in r.tree && q !in t ==> exists k :: k in keys && q <= base + [k])
      && (WellFormed(t) ==> WellFormed(r.tree))
  {
    if keys != [] {
      var init := keys[..|keys| - 1];
      EnsureFoldersKeep(t, base, init);
      assert forall k :: k in init ==> k in keys;
    }
  }

  /** Once the first loop has failed, the later keys change nothing. */
  lemma {:induction false} EnsureFoldersStop(t: Tree, base: Path, keys: seq<string>, n: nat)
    requires n <= |keys| && !EnsureFolders(t, base, keys[..n]).ok
    ensures EnsureFolders(t, base, keys) == EnsureFolders(t, base, keys[..n])
    decreases |keys| - n
  {
    if n < |keys| {
      assert keys[..n + 1][..n] == keys[..n];
      EnsureFoldersStop(t, base, keys, n + 1);
    } else {
      assert keys[..n] == keys;
    }
  }

  /** One more key: its folder is made unless it is already there. */
  lemma EnsureFoldersSnoc(t: Tree, base: Path, keys: seq<string>, i: nat)
    requires i < |keys| && EnsureFolders(t, base, keys[..i]).ok
    ensures var prev := EnsureFolders(t, base, keys[..i]);
      EnsureFolders(t, base, keys[..i + 1])
      == if base + [keys[i]] in prev.tree then prev else MakeDirsFs(prev.tree, base + [keys[i]])
  {
    assert keys[..i + 1][..i] == keys[..i];
  }

  /** Running the first loop again after it succeeded changes nothing. */
  lemma {:induction false} EnsureFoldersIdempotent(t: Tree, base: Path, keys: seq<string>)
    requires EnsureFolders(t, base, keys).ok
    ensures var r := EnsureFolders(t, base, keys).tree;
      EnsureFolders(r, base, keys) == FsResult(true, r)
  {
    EnsureFoldersExist(t, base, keys);
    AlreadyPresent(EnsureFolders(t, base, keys).tree, base, keys);
  }

  lemma {:induction false} AlreadyPresent(r: Tree, base: Path, keys: seq<string>)
    requires forall k :: k in keys ==> base + [k] in r
    ensures EnsureFolders(r, base, keys) == FsResult(true, r)
  {
    if keys != [] {
      AlreadyPresent(r, base, keys[..|keys| - 1]);
    }
  }

  /** The state the second loop of organize_files carries: the disk, the two result lists, and `source_path`. */
  datatype Progress = Progress(
    tree: Tree,
    success: seq<Path>,
    error: seq<Path>,
    last: Option<Path>,
    stopped: bool)

  /**
   * One descriptor of the second loop. A descriptor without a path appends the previous
   * `source_path` to the errors; when there is none, the NameError escapes both loops.
   */
  function MoveOne(s: Progress, dir: Path, ts: string, f: FileInfo): Progress
  {
    if s.stopped then s
    else match f.path
      case None =>
        if s.last.None? then s.(stopped := true) else s.(error := s.error + [s.last.value])
      case Some(src) =>
        var r := MoveFs(s.tree, src, ConflictTarget(s.tree, dir, Basename(src), ts));
        if r.ok then Progress(r.tree, s.success + [src], s.error, Some(src), false)
        else Progress(r.tree, s.success, s.error + [src], Some(src), false)
  }

  /** The descriptors of one category, each tagged with the category. */
  function Tagged(category: string, files: seq<FileInfo>): (r: seq<(string, FileInfo)>)
    ensures |r| == |files|
    ensures forall i :: 0 <= i < |files| ==> r[i] == (category, files[i])
  {
    if files == [] then [] else Tagged(category, files[..|files| - 1]) + [(category, files[|files| - 1])]
  }

  /** Every descriptor in the order the second loop visits them. */
  function Entries(b: Buckets): seq<(string, FileInfo)>
  {
    if b == [] then [] else Entries(b[..|b| - 1]) + Tagged(b[|b| - 1].0, b[|b| - 1].1)
  }

  /** The number of descriptors over all categories. */
  function Total(b: Buckets): nat
  {
    if b == [] then 0 else Total(b[..|b| - 1]) + |b[|b| - 1].1|
  }

  /** The inner loop of organize_files: the descriptors of one category, moved into dir. */
  function MoveFiles(s: Progress, dir: Path, ts: string, files: seq<FileInfo>): Progress
  {
    if files == [] then s
    else MoveOne(MoveFiles(s, dir, ts, files[..|files| - 1]), dir, ts, files[|files| - 1])
  }

  /** The outer loop of organize_files, category by category. */
  function MoveCategories(s: Progress, base: Path, ts: string, b: Buckets): Progress
  {
    if b == [] then s
    else
      var last := b[|b| - 1];
      MoveFiles(MoveCategories(s, base, ts, b[..|b| - 1]), base + [last.0], ts, last.1)
  }

  /** organize_files(base_path, categorized_files), with one timestamp for every renamed conflict. */
  function Organize(t: Tree, base: Path, b: Buckets, ts: string): Progress
  {
    var made := EnsureFolders(t, base, Keys(b));
    if !made.ok then Progress(made.tree, [], [], None, true)
    else MoveCategories(Progress(made.tree, [], [], None, false), base, ts, b)
  }

  /** The same loop over the flat list of tagged descriptors. */
  function MoveAll(s: Progress, base: Path, ts: string, es: seq<(string, FileInfo)>): Progress
  {
    if es == [] then s
    else
      var e := es[|es| - 1];
      MoveOne(MoveAll(s, base, ts, es[..|es| - 1]), base + [e.0], ts, e.1)
  }

  lemma MoveAllSnoc(s: Progress, base: Path, ts: string, es: seq<(string, FileInfo)>, e: (string, FileInfo))
    ensures MoveAll(s, base, ts, es + [e]) == MoveOne(MoveAll(s, base, ts, es), base + [e.0], ts, e.1)
  {
    assert (es + [e])[..|es|] == es;
  }

  lemma {:induction false} MoveAllTagged(s: Progress, base: Path, ts: string, es: seq<(string, FileInfo)>,
                                         category: string, files: seq<FileInfo>)
    ensures MoveAll(s, base, ts, es + Tagged(category, files))
            == MoveFiles(MoveAll(s, base, ts, es), base + [category], ts, files)
  {
    if files != [] {
      var init := files[..|files| - 1];
      var f := files[|files| - 1];
      MoveAllTagged(s, base, ts, es, category, init);
      var whole := es + Tagged(category, files);
      assert Tagged(category, files) == Tagged(category, init) + [(category, f)];
      assert whole == (es + Tagged(category, init)) + [(category, f)];
      MoveAllSnoc(s, base, ts, es + Tagged(category, init), (category, f));
      var dir := base + [category];
      assert MoveAll(s, base, ts, whole) == MoveOne(MoveFiles(MoveAll(s, base, ts, es), dir, ts, init), dir, ts, f);
      assert MoveFiles(MoveAll(s, base, ts, es), dir, ts, files) == MoveOne(MoveFiles(MoveAll(s, base, ts, es), dir, ts, init), dir, ts, f);
    } else {
      assert es + Tagged(category, files) == es;
    }
  }

  /** The nested loops visit the descriptors in the order of Entries. */
  lemma {:induction false} MoveCategoriesFlat(s: Progress, base: Path, ts: string, b: Buckets)
    ensures MoveCategories(s, base, ts, b) == MoveAll(s, base, ts, Entries(b))
  {
    if b != [] {
      var init := b[..|b| - 1];
      MoveCategoriesFlat(s, base, ts, init);
      MoveAllTagged(s, base, ts, Entries(init), b[|b| - 1].0, b[|b| - 1].1);
    }
  }

  lemma {:induction false} EntriesTotal(b: Buckets)
    ensures |Entries(b)| == Total(b)
  {
    if b != [] {
      EntriesTotal(b[..|b| - 1]);
    }
  }

  /** A stopped run stays stopped. */
  lemma {:induction false} MoveFilesStopped(s: Progress, dir: Path, ts: string, files: seq<FileInfo>)
    requires s.stopped
    ensures MoveFiles(s, dir, ts, files) == s
  {
    if files != [] {
      MoveFilesStopped(s, dir, ts, files[..|files| - 1]);
    }
  }

  /** Once the first n descriptors of a category have stopped the run, the rest change nothing. */
  lemma {:induction false} MoveFilesStopAt(s: Progress, dir: Path, ts: string, files: seq<FileInfo>, n: nat)
    requires n <= |files| && MoveFiles(s, dir, ts, files[..n]).stopped
    ensures MoveFiles(s, dir, ts, files) == MoveFiles(s, dir, ts, files[..n])
    decreases |files| - n
  {
    if n < |files| {
      assert files[..n + 1][..n] == files[..n];
      MoveFilesStopAt(s, dir, ts, files, n + 1);
    } else {
      assert files[..n] == files;
    }
  }

  /** Once the first c categories have stopped the run, the rest change nothing. */
  lemma {:induction false} MoveCategoriesStopAt(s: Progress, base: Path, ts: string, b: Buckets, c: nat)
    requires c <= |b| && MoveCategories(s, base, ts, b[..c]).stopped
    ensures MoveCategories(s, base, ts, b) == MoveCategories(s, base, ts, b[..c])
    decreases |b| - c
  {
    if c < |b| {
      assert b[..c + 1][..c] == b[..c];
      MoveFilesStopped(MoveCategories(s, base, ts, b[..c]), base + [b[c].0], ts, b[c].1);
      MoveCategoriesStopAt(s, base, ts, b, c + 1);
    } else {
      assert b[..c] == b;
    }
  }

  /** The paths of the descriptors that carry one. */
  function Sources(es: seq<(string, FileInfo)>): seq<Path>
  {
    if es == [] then []
    else Sources(es[..|es| - 1]) + (if es[|es| - 1].1.path.Some? then [es[|es| - 1].1.path.value] else [])
  }

  /** What one descriptor adds to the results. */
  lemma MoveOneEffect(s: Progress, dir: Path, ts: string, f: FileInfo)
    requires !s.stopped
    ensures var r := MoveOne(s, dir, ts, f);
      && (f.path.None? && s.last.None? ==> r.stopped && r.success == s.success && r.error == s.error)
      && (f.path.None? && s.last.Some? ==> !r.stopped && r.success == s.success && r.error == s.error + [s.last.value] && r.last == s.last)
      && (f.path.Some? ==>
            && !r.stopped && r.last == f.path
            && ((r.success == s.success + [f.path.value] && r.error == s.error) ||
                (r.success == s.success && r.error == s.error + [f.path.value])))
  {
  }

  /**
   * The second loop from empty results: it stops exactly when the very first descriptor
   * has no path, and then nothing was recorded; otherwise every descriptor adds one path
   * to the success or the error list.
   */
  lemma {:induction false} MoveAllAccounting(t: Tree, base: Path, ts: string, es: seq<(string, FileInfo)>)
    ensures var s := MoveAll(Progress(t, [], [], None, false), base, ts, es);
      && (s.stopped <==> es != [] && es[0].1.path.None?)
      && (s.stopped ==> s.success == [] && s.error == [])
      && (!s.stopped ==> |s.success| + |s.error| == |es|)
      && (es != [] && !s.stopped ==> s.last.Some?)
  {
    if es != [] {
      var init := es[..|es| - 1];
      MoveAllAccounting(t, base, ts, init);
      if init != [] {
        assert init[0] == es[0];
      }
      var p := MoveAll(Progress(t, [], [], None, false), base, ts, init);
      var e := es[|es| - 1];
      if !p.stopped {
        MoveOneEffect(p, base + [e.0], ts, e.1);
      }
    }
  }

  /** When every descriptor carries a path, the results report each descriptor's path once. */
  lemma {:induction false} MoveAllReportsSources(t: Tree, base: Path, ts: string, es: seq<(string, FileInfo)>)
    requires forall i :: 0 <= i < |es| ==> es[i].1.path.Some?
    ensures var s := MoveAll(Progress(t, [], [], None, false), base, ts, es);
      !s.stopped && multiset(s.success + s.error) == multiset(Sources(es))
  {
    if es != [] {
      var init := es[..|es| - 1];
      assert forall i :: 0 <= i < |init| ==> init[i] == es[i];
      MoveAllReportsSources(t, base, ts, init);
      var p := MoveAll(Progress(t, [], [], None, false), base, ts, init);
      var e := es[|es| - 1];
      assert e.1.path.Some?;
      MoveOneEffect(p, base + [e.0], ts, e.1);
      var s := MoveAll(Progress(t, [], [], None, false), base, ts, es);
      var src := e.1.path.value;
      assert Sources(es) == Sources(init) + [src];
      ReportOne(p.success, p.error, s.success, s.error, src);
    }
  }

  lemma ReportOne(success: seq<Path>, error: seq<Path>, success': seq<Path>, error': seq<Path>, src: Path)
    requires (success' == success + [src] && error' == error) || (success' == success && error' == error + [src])
    ensures multiset(success' + error') == multiset(success + error) + multiset{src}
  {
    assert multiset(success' + error') == multiset(success') + multiset(error');
  }

  /**
   * organize_files's results: both lists stay empty when a category folder cannot be
   * created or the first descriptor has no path; otherwise there is one entry per
   * descriptor, and for descriptors that all carry a path, each path is reported once.
   */
  lemma OrganizeAccounting(t: Tree, base: Path, b: Buckets, ts: string)
    ensures var o := Organize(t, base, b, ts);
      && (o.stopped <==> !EnsureFolders(t, base, Keys(b)).ok || (Entries(b) != [] && Entries(b)[0].1.path.None?))
      && (o.stopped ==> o.success == [] && o.error == [])
      && (!EnsureFolders(t, base, Keys(b)).ok ==> o.tree == EnsureFolders(t, base, Keys(b)).tree)
      && (!o.stopped ==> |o.success| + |o.error| == Total(b))
      && ((forall i :: 0 <= i < |Entries(b)| ==> Entries(b)[i].1.path.Some?) && !o.stopped ==>
            multiset(o.success + o.error) == multiset(Sources(Entries(b))))
  {
    EntriesTotal(b);
    var made := EnsureFolders(t, base, Keys(b));
    if made.ok {
      MoveCategoriesFlat(Progress(made.tree, [], [], None, false), base, ts, b);
      MoveAllAccounting(made.tree, base, ts, Entries(b));
      if forall i :: 0 <= i < |Entries(b)| ==> Entries(b)[i].1.path.Some? {
        MoveAllReportsSources(made.tree, base, ts, Entries(b));
      }
    }
  }

  /** organize_files keeps the tree invariant. */
  lemma {:induction false} MoveAllWellFormed(s: Progress, base: Path, ts: string, es: seq<(string, FileInfo)>)
    requires WellFormed(s.tree)
    ensures WellFormed(MoveAll(s, base, ts, es).tree)
  {
    if es != [] {
      MoveAllWellFormed(s, base, ts, es[..|es| - 1]);
    }
  }

  lemma OrganizeWellFormed(t: Tree, base: Path, b: Buckets, ts: string)
    requires WellFormed(t)
    ensures WellFormed(Organize(t, base, b, ts).tree)
  {
    EnsureFoldersKeep(t, base, Keys(b));
    var made := EnsureFolders(t, base, Keys(b));
    if made.ok {
      MoveCategoriesFlat(Progress(made.tree, [], [], None, false), base, ts, b);
      MoveAllWellFormed(Progress(made.tree, [], [], None, false), base, ts, Entries(b));
    }
  }

  /** A path that ends in another name than dir/name, or lies one level below it, is not a prefix of dir/name. */
  lemma RenamedNotPrefix(dir: Path, name: string, other: string, q: Path)
    requires other != name
    requires q == dir + [other] || (|q| == |dir| + 2 && q[..|dir| + 1] == dir + [other])
    ensures !(q <= dir + [name])
  {
    if q == dir + [other] {
      assert q[|dir|] != (dir + [name])[|dir|];
    } else {
      assert |q| > |dir| + 1;
    }
  }

  /**
   * A file already in the category folder is never overwritten by a conflicting name:
   * the moved file goes to the timestamped name instead, and the existing node is kept.
   */
  lemma MoveOneKeepsExisting(s: Progress, dir: Path, ts: string, f: FileInfo)
    requires !s.stopped && f.path.Some?
    requires dir + [Basename(f.path.value)] in s.tree
    requires !(f.path.value <= dir + [Basename(f.path.value)])
    ensures var q := dir + [Basename(f.path.value)];
      q in MoveOne(s, dir, ts, f).tree && MoveOne(s, dir, ts, f).tree[q] == s.tree[q]
  {
    var src := f.path.value;
    var name := Basename(src);
    var target := ConflictTarget(s.tree, dir, name, ts);
    assert target == dir + [SuffixName(name, ts)];
    var dest := MoveDestination(s.tree, src, target);
    if dest != target {
      assert dest[..|dir| + 1] == target;
    }
    RenamedNotPrefix(dir, name, SuffixName(name, ts), dest);
  }

  /** The first loop of organize_files on the disk. */
  method MakeCategoryFolders(disk: Disk, base: Path, categorized: Buckets) returns (ok: bool)
    requires disk.Valid()
    modifies disk
    ensures disk.Valid()
    ensures EnsureFolders(old(disk.tree), base, Keys(categorized)) == FsResult(ok, disk.tree)
  {
    ghost var t0 := disk.tree;
    ghost var keys := Keys(categorized);
    var i := 0;
    while i < |categorized|
      invariant disk.Valid() && 0 <= i <= |categorized|
      invariant EnsureFolders(t0, base, keys[..i]) == FsResult(true, disk.tree)
    {
      ok := MakeCategoryFolder(disk, base, categorized, i, t0);
      if !ok {
        EnsureFoldersStop(t0, base, keys, i + 1);
        return;
      }
      i := i + 1;
    }
    assert keys[..i] == keys;
    ok := true;
  }

  /** The folder of the i-th category: os.makedirs unless the path already exists. */
  method MakeCategoryFolder(disk: Disk, base: Path, categorized: Buckets, i: nat, ghost t0: Tree) returns (ok: bool)
    requires disk.Valid() && i < |categorized|
    requires EnsureFolders(t0, base, Keys(categorized)[..i]) == FsResult(true, disk.tree)
    modifies disk
    ensures disk.Valid()
    ensures EnsureFolders(t0, base, Keys(categorized)[..i + 1]) == FsResult(ok, disk.tree)
  {
    EnsureFoldersSnoc(t0, base, Keys(categorized), i);
    var categoryPath := base + [categorized[i].0];
    ok := true;
    if !disk.Exists(categoryPath) {
      ok := disk.MakeDirs(categoryPath);
    }
  }

  /** The body of the inner try block of organize_files, for one descriptor. */
  method MoveEntry(disk: Disk, categoryPath: Path, ts: string, fileInfo: FileInfo,
                   success: seq<Path>, error: seq<Path>, last: Option<Path>)
    returns (success': seq<Path>, error': seq<Path>, last': Option<Path>, stopped: bool)
    requires disk.Valid()
    modifies disk
    ensures disk.Valid()
    ensures MoveOne(Progress(old(disk.tree), success, error, last, false), categoryPath, ts, fileInfo)
            == Progress(disk.tree, success', error', last', stopped)
  {
    success', error', last', stopped := success, error, last, false;
    if fileInfo.path.None? {
      if last.None? {
        stopped := true;
      } else {
        error' := error + [last.value];
      }
    } else {
      var sourcePath := fileInfo.path.value;
      var filename := Basename(sourcePath);
      var targetPath := categoryPath + [filename];
      if disk.Exists(targetPath) {
        targetPath := categoryPath + [SuffixName(filename, ts)];
      }
      var ok := disk.Move(sourcePath, targetPath);
      if ok {
        success' := success + [sourcePath];
      } else {
        error' := error + [sourcePath];
      }
      last' := Some(sourcePath);
    }
  }

  /** organize_files(base_path, categorized_files) on the disk; ts is the timestamp used for renamed conflicts. */
  method OrganizeFiles(disk: Disk, base: Path, categorized: Buckets, ts: string)
    returns (success: seq<Path>, error: seq<Path>)
    requires disk.Valid()
    modifies disk
    ensures disk.Valid()
    ensures var o := Organize(old(disk.tree), base, categorized, ts);
      success == o.success && error == o.error && disk.tree == o.tree
  {
    success, error := [], [];
    var ok := MakeCategoryFolders(disk, base, categorized);
    if ok {
      success, error := MoveCategoriesOnDisk(disk, base, categorized, ts);
    }
  }

  /** The outer loop of organize_files, after every category folder was made. */
  method MoveCategoriesOnDisk(disk: Disk, base: Path, categorized: Buckets, ts: string)
    returns (success: seq<Path>, error: seq<Path>)
    requires disk.Valid()
    modifies disk
    ensures disk.Valid()
    ensures var o := MoveCategories(Progress(old(disk.tree), [], [], None, false), base, ts, categorized);
      success == o.success && error == o.error && disk.tree == o.tree
  {
    success, error := [], [];
    ghost var init := Progress(disk.tree, [], [], None, false);
    var last: Option<Path> := None;
    var c := 0;
    while c < |categorized|
      invariant disk.Valid() && 0 <= c <= |categorized|
      invariant MoveCategories(init, base, ts, categorized[..c]) == Progress(disk.tree, success, error, last, false)
    {
      MoveCategoriesSnoc(init, base, ts, categorized, c);
      var stopped;
      success, error, last, stopped := MoveCategoryFiles(disk, base + [categorized[c].0], ts, categorized[c].1, success, error, last);
      if stopped {
        MoveCategoriesStopAt(init, base, ts, categorized, c + 1);
        return;
      }
      c := c + 1;
    }
    assert categorized[..c] == categorized;
  }

  lemma MoveCategoriesSnoc(s: Progress, base: Path, ts: string, b: Buckets, c: nat)
    requires c < |b|
    ensures MoveCategories(s, base, ts, b[..c + 1]) == MoveFiles(MoveCategories(s, base, ts, b[..c]), base + [b[c].0], ts, b[c].1)
  {
    assert b[..c + 1][..c] == b[..c];
  }

  /** The inner loop of organize_files: the descriptors of one category, moved into categoryPath. */
  method MoveCategoryFiles(disk: Disk, categoryPath: Path, ts: string, files: seq<FileInfo>,
                           success: seq<Path>, error: seq<Path>, last: Option<Path>)
    returns (success': seq<Path>, error': seq<Path>, last': Option<Path>, stopped: bool)
    requires disk.Valid()
    modifies disk
    ensures disk.Valid()
    ensures MoveFiles(Progress(old(disk.tree), success, error, last, false), categoryPath, ts, files)
            == Progress(disk.tree, success', error', last', stopped)
  {
    ghost var start := Progress(disk.tree, success, error, last, false);
    success', error', last', stopped := success, error, last, false;
    var j := 0;
    while j < |files|
      invariant disk.Valid() && 0 <= j <= |files|
      invariant MoveFiles(start, categoryPath, ts, files[..j]) == Progress(disk.tree, success', error', last', false)
    {
      assert files[..j + 1][..j] == files[..j];
      success', error', last', stopped := MoveEntry(disk, categoryPath, ts, files[j], success', error', last');
      if stopped {
        MoveFilesStopAt(start, categoryPath, ts, files, j + 1);
        return;
      }
      j := j + 1;
    }
    assert files[..j] == files;
  }

  // ================================================================ move_file

  /** The name move_file falls back to when target exists and overwrite is off. */
  function Timestamped(target: Path, ts: string): Path
  {
    Dirname(target) + [SuffixName(Basename(target), ts)]
  }

  /**
   * move_file(source, target, overwrite): the missing parent of target is created; an existing
   * target is removed with os.remove when overwrite is set, else the file goes to the timestamped
   * name; then shutil.move. Any failing step makes the result false.
   */
  function MoveFileFsSpec(t: Tree, source: Path, target: Path, overwrite: bool, ts: string): FsResult
  {
    var dir := Dirname(target);
    var made := if dir in t then FsResult(true, t) else MakeDirsFs(t, dir);
    if !made.ok then made
    else if target in made.tree && overwrite then
      var removed := RemoveFileFs(made.tree, target);
      if !removed.ok then removed else MoveFs(removed.tree, source, target)
    else if target in made.tree then MoveFs(made.tree, source, Timestamped(target, ts))
    else MoveFs(made.tree, source, target)
  }

  /** Into a new name whose folder exists, a file is renamed: it has left source and sits at target. */
  lemma MoveFileFresh(t: Tree, source: Path, target: Path, overwrite: bool, ts: string)
    requires WellFormed(t)
    requires source in t && t[source].File? && target !in t
    requires Dirname(target) in t && t[Dirname(target)].Dir?
    ensures var r := MoveFileFsSpec(t, source, target, overwrite, ts);
      r.ok && r.tree == (t - {source})[target := t[source]]
  {
  }

  /** Without overwrite, an existing target keeps its node: the moved file takes the timestamped name. */
  lemma MoveFileKeepsTarget(t: Tree, source: Path, target: Path, ts: string)
    requires WellFormed(t) && target in t && !(source <= target)
    ensures var r := MoveFileFsSpec(t, source, target, false, ts);
      target in r.tree && r.tree[target] == t[target]
  {
    if target != [] {
      AncestorClosed(t, target, Dirname(target));
    }
    var other := Timestamped(target, ts);
    var dest := MoveDestination(t, source, other);
    if dest != other {
      assert dest[..|Dirname(target)| + 1] == other;
    }
    if target == [] {
      assert |dest| >= 1;
    } else {
      RenamedNotPrefix(Dirname(target), Basename(target), SuffixName(Basename(target), ts), dest);
    }
  }

  /** With overwrite, a file at target is replaced by the source file. */
  lemma MoveFileOverwrites(t: Tree, source: Path, target: Path, ts: string)
    requires WellFormed(t)
    requires source in t && t[source].File? && target in t && t[target].File? && source != target
    ensures var r := MoveFileFsSpec(t, source, target, true, ts);
      r.ok && source !in r.tree && target in r.tree && r.tree[target] == t[source]
  {
    AncestorClosed(t, target, Dirname(target));
  }

  /** move_file on the disk. */
  method MoveFile(disk: Disk, source: Path, target: Path, overwrite: bool, ts: string) returns (ok: bool)
    requires disk.Valid()
    modifies disk
    ensures disk.Valid()
    ensures FsResult(ok, disk.tree) == MoveFileFsSpec(old(disk.tree), source, target, overwrite, ts)
  {
    var targetDir := Dirname(target);
    if !disk.Exists(targetDir) {
      ok := disk.MakeDirs(targetDir);
      if !ok {
        return;
      }
    }
    var dest := target;
    if disk.Exists(target) {
      if overwrite {
        ok := disk.Remove(target);
        if !ok {
          return;
        }
      } else {
        dest := Timestamped(target, ts);
      }
    }
    ok := disk.Move(source, dest);
  }

  // ================================================================ cleanup_empty_folders

  /** The disk and the removed folders after cleanup_empty_folders has visited the folders of walk, in order. */
  datatype Cleaned = Cleaned(tree: Tree, removed: seq<Path>)

  /** Each visited folder is removed when it is empty; one that cannot be removed is skipped. */
  function Cleanup(t: Tree, walk: seq<Path>): Cleaned
  {
    if walk == [] then Cleaned(t, [])
    else
      var prev := Cleanup(t, walk[..|walk| - 1]);
      var d := walk[|walk| - 1];
      var r := RemoveDirFs(prev.tree, d);
      if r.ok then Cleaned(r.tree, prev.removed + [d]) else prev
  }

  /**
   * Cleanup removes exactly the folders it reports, each once and each an empty
   * folder visited by the walk; nothing else changes, files included.
   */
  lemma {:induction false} CleanupRemoves(t: Tree, walk: seq<Path>)
    ensures var c := Cleanup(t, walk);
      && (forall q :: q in c.tree <==> q in t && q !in c.removed)
      && (forall q :: q in c.tree ==> c.tree[q] == t[q])
      && (forall q :: q in c.removed ==> q in walk && q in t && t[q].Dir? && q != [])
      && (forall i, j :: 0 <= i < j < |c.removed| ==> c.removed[i] != c.removed[j])
      && (WellFormed(t) ==> WellFormed(c.tree))
  {
    if walk != [] {
      CleanupRemoves(t, walk[..|walk| - 1]);
    }
  }

  /** Some file lies strictly inside d. */
  ghost predicate FileBelow(t: Tree, d: Path)
  {
    exists f :: f in t && t[f].File? && d < f
  }

  /** os.walk(root, topdown=False): no folder is visited before a folder inside it. */
  predicate BottomUp(walk: seq<Path>)
  {
    forall i, j :: 0 <= i < j < |walk| ==> !(walk[i] < walk[j])
  }

  /** The walk visits every folder strictly inside root, and nothing outside root. */
  ghost predicate Covers(t: Tree, root: Path, walk: seq<Path>)
  {
    && (forall d :: d in t && t[d].Dir? && root < d ==> d in walk)
    && (forall i :: 0 <= i < |walk| ==> root < walk[i])
  }

  /** The child of d on the way down to q. */
  lemma ChildOnPath(t: Tree, d: Path, q: Path)
    requires WellFormed(t) && q in t && d < q
    ensures var c := q[..|d| + 1];
      c in t && c != [] && Dirname(c) == d && c <= q && (c != q ==> t[c].Dir?)
  {
    var c := q[..|d| + 1];
    AncestorClosed(t, q, c);
    assert c[..|d|] == d;
  }

  /**
   * After the first n folders of a bottom-up walk, each visited folder is still there
   * exactly when a file lies inside it, and no unvisited folder has been touched.
   */
  lemma {:induction false} CleanupPrefix(t: Tree, root: Path, walk: seq<Path>, n: nat)
    requires WellFormed(t) && BottomUp(walk) && Covers(t, root, walk) && n <= |walk|
    ensures var c := Cleanup(t, walk[..n]).tree;
      forall d :: d in t && t[d].Dir? && root < d ==>
        (d in walk[..n] ==> (d in c <==> FileBelow(t, d))) && (d !in walk[..n] ==> d in c)
    decreases n
  {
    if n > 0 {
      CleanupPrefix(t, root, walk, n - 1);
      var w := walk[..n];
      assert w[..n - 1] == walk[..n - 1];
      CleanupRemoves(t, walk[..n - 1]);
      var prev := Cleanup(t, walk[..n - 1]).tree;
      var d := walk[n - 1];
      assert forall x :: x in w <==> x in walk[..n - 1] || x == d;
      ChildrenIffFiles(t, root, walk, n - 1);
    }
  }

  /**
   * When the walk reaches its n-th folder d, d has a child left exactly
   * when a file lies inside it.
   */
  lemma ChildrenIffFiles(t: Tree, root: Path, walk: seq<Path>, n: nat)
    requires WellFormed(t) && BottomUp(walk) && Covers(t, root, walk) && n < |walk|
    requires var c := Cleanup(t, walk[..n]).tree;
      forall d :: d in t && t[d].Dir? && root < d ==>
        (d in walk[..n] ==> (d in c <==> FileBelow(t, d))) && (d !in walk[..n] ==> d in c)
    ensures var c := Cleanup(t, walk[..n]).tree;
      walk[n] in t ==> (HasChild(c, walk[n]) <==> FileBelow(t, walk[n]))
  {
    var c := Cleanup(t, walk[..n]).tree;
    var d := walk[n];
    CleanupRemoves(t, walk[..n]);
    if d in t {
      if FileBelow(t, d) {
        var f :| f in t && t[f].File? && d < f;
        ChildOnPath(t, d, f);
        var ch := f[..|d| + 1];
        if ch != f {
          assert root < ch;
          assert FileBelow(t, ch);
        }
        assert ch in c;
      }
      if HasChild(c, d) {
        var ch :| ch in c && ch != [] && Dirname(ch) == d;
        assert ch in t;
        assert d < ch by {
          assert Dirname(ch) + [ch[|ch| - 1]] == ch;
        }
        if t[ch].Dir? {
          assert root < ch;
          var j :| 0 <= j < |walk| && walk[j] == ch;
          assert !(j > n);
          assert j != n;
          assert ch in walk[..n];
          var f :| f in t && t[f].File? && ch < f;
          assert d < f;
        }
      }
    }
  }

  /**
   * cleanup_empty_folders(root) over a bottom-up walk that visits every folder inside root:
   * it removes exactly the folders of root's tree that hold no file, however deeply nested,
   * and keeps root itself.
   */
  lemma CleanupCollapses(t: Tree, root: Path, walk: seq<Path>)
    requires WellFormed(t) && BottomUp(walk) && Covers(t, root, walk)
    ensures var c := Cleanup(t, walk).tree;
      && (forall d :: d in t && t[d].Dir? && root < d ==> (d in c <==> FileBelow(t, d)))
      && (root in t ==> root in c)
  {
    CleanupPrefix(t, root, walk, |walk|);
    assert walk[..|walk|] == walk;
    CleanupRemoves(t, walk);
  }

  /** cleanup_empty_folders on the disk; walk is the folders os.walk(path, topdown=False) lists, in its order. */
  method CleanupEmptyFolders(disk: Disk, walk: seq<Path>) returns (removed: seq<Path>)
    requires disk.Valid()
    modifies disk
    ensures disk.Valid()
    ensures Cleanup(old(disk.tree), walk) == Cleaned(disk.tree, removed)
  {
    removed := [];
    ghost var t0 := disk.tree;
    var i := 0;
    while i < |walk|
      invariant disk.Valid() && 0 <= i <= |walk|
      invariant Cleanup(t0, walk[..i]) == Cleaned(disk.tree, removed)
    {
      assert walk[..i + 1][..i] == walk[..i];
      var dirPath := walk[i];
      var ok := disk.RemoveDir(dirPath);
      if ok {
        removed := removed + [dirPath];
      }
      i := i + 1;
    }
    assert walk[..i] == walk;
  }

  // ================================================================ undo_move

  /** One entry of a move history: the 'source' and 'target' keys, either of which may be missing. */
  datatype MoveRecord = MoveRecord(source: Option<Path>, target: Option<Path>)

  /** The state undo_move carries: the disk, the two result lists, and the variable `source`. */
  datatype Undo = Undo(tree: Tree, success: seq<Path>, error: seq<Path>, last: Option<Path>)

  /**
   * One history entry: the file at its target is moved back to its source, creating the
   * source's folder first when it is missing. A missing 'target' key reports the `source`
   * of an earlier entry, if there was one; a missing 'source' key reports the target.
   */
  function UndoOne(s: Undo, m: MoveRecord): Undo
  {
    match m.target
      case None => if s.last.Some? then s.(error := s.error + [s.last.value]) else s
      case Some(from) =>
        if m.source.None? || from !in s.tree then Undo(s.tree, s.success, s.error + [from], Some(from))
        else
          var back := m.source.value;
          var dir := Dirname(back);
          var made := if dir in s.tree then FsResult(true, s.tree) else MakeDirsFs(s.tree, dir);
          var r := if made.ok then MoveFs(made.tree, from, back) else made;
          if r.ok then Undo(r.tree, s.success + [from], s.error, Some(from))
          else Undo(r.tree, s.success, s.error + [from], Some(from))
  }

  /** undo_move(move_history): the entries in the order they are listed. */
  function UndoAll(s: Undo, history: seq<MoveRecord>): Undo
  {
    if history == [] then s else UndoOne(UndoAll(s, history[..|history| - 1]), history[|history| - 1])
  }

  /** The number of leading entries without a 'target' key, which report nothing. */
  function LeadingUntargeted(history: seq<MoveRecord>): nat
  {
    if history == [] || history[0].target.Some? then 0 else 1 + LeadingUntargeted(history[1..])
  }

  /**
   * undo_move reports one path per entry, except for the entries before the first one
   * that has a 'target' key.
   */
  lemma {:induction false} UndoAccounting(t: Tree, history: seq<MoveRecord>)
    ensures var u := UndoAll(Undo(t, [], [], None), history);
      && (u.last.None? <==> LeadingUntargeted(history) == |history|)
      && |u.success| + |u.error| == |history| - LeadingUntargeted(history)
  {
    if history != [] {
      var init := history[..|history| - 1];
      UndoAccounting(t, init);
      LeadingSnoc(init, history[|history| - 1]);
      assert init + [history[|history| - 1]] == history;
    }
  }

  lemma {:induction false} LeadingSnoc(h: seq<MoveRecord>, m: MoveRecord)
    ensures LeadingUntargeted(h + [m]) ==
      if LeadingUntargeted(h) < |h| then LeadingUntargeted(h)
      else if m.target.None? then |h| + 1 else |h|
    ensures LeadingUntargeted(h) <= |h|
  {
    if h != [] {
      assert (h + [m])[1..] == h[1..] + [m];
      LeadingSnoc(h[1..], m);
    }
  }

  /**
   * A file moved to a fresh name, with undo_move given that move's record, is back at
   * its source and the disk is as before.
   */
  lemma UndoRestoresMove(t: Tree, a: Path, b: Path, s: Undo)
    requires WellFormed(t) && a in t && t[a].File? && b !in t && a != b
    requires Dirname(b) in t && t[Dirname(b)].Dir?
    requires s.tree == MoveFs(t, a, b).tree
    ensures MoveFs(t, a, b).ok
    ensures var u := UndoOne(s, MoveRecord(Some(a), Some(b)));
      u.tree == t && u.success == s.success + [b] && u.error == s.error
  {
    var t1 := MoveFs(t, a, b).tree;
    assert t1 == (t - {a})[b := t[a]];
    AncestorClosed(t, a, Dirname(a));
    assert Dirname(a) in t1;
    assert (t1 - {b})[a := t1[b]] == t;
  }

  /**
   * When the recorded source is now a folder that holds a node named like the file, shutil.move
   * refuses, so undo_move reports the file as an error and leaves the disk as it was.
   */
  lemma UndoIntoTakenFolder(s: Undo, a: Path, b: Path)
    requires WellFormed(s.tree) && b in s.tree && a in s.tree && s.tree[a].Dir? && a != b
    requires a + [Basename(b)] in s.tree
    ensures UndoOne(s, MoveRecord(Some(a), Some(b))) == Undo(s.tree, s.success, s.error + [b], Some(b))
  {
    AncestorClosed(s.tree, a, Dirname(a));
    MoveIntoTakenName(s.tree, b, a);
  }

  /** undo_move on the disk. */
  method UndoMove(disk: Disk, history: seq<MoveRecord>) returns (success: seq<Path>, error: seq<Path>)
    requires disk.Valid()
    modifies disk
    ensures disk.Valid()
    ensures var u := UndoAll(Undo(old(disk.tree), [], [], None), history);
      success == u.success && error == u.error && disk.tree == u.tree
  {
    success, error := [], [];
    ghost var t0 := disk.tree;
    var last: Option<Path> := None;
    var i := 0;
    while i < |history|
      invariant disk.Valid() && 0 <= i <= |history|
      invariant UndoAll(Undo(t0, [], [], None), history[..i]) == Undo(disk.tree, success, error, last)
    {
      assert history[..i + 1][..i] == history[..i];
      var move := history[i];
      if move.target.None? {
        if last.Some? {
          error := error + [last.value];
        }
      } else {
        var source := move.target.value;
        last := Some(source);
        if move.source.None? || !disk.Exists(source) {
          error := error + [source];
        } else {
          var target := move.source.value;
          var targetDir := Dirname(target);
          var ok := true;
          if !disk.Exists(targetDir) {
            ok := disk.MakeDirs(targetDir);
          }
          if ok {
            ok := disk.Move(source, target);
          }
          if ok {
            success := success + [source];
          } else {
            error := error + [source];
          }
        }
      }
      i := i + 1;
    }
    assert history[..i] == history;
  }

  /** A clean file move: a file renamed to a fresh name in an existing folder. */
  ghost predicate CleanMove(t: Tree, m: MoveRecord)
  {
    && m.source.Some? && m.target.Some?
    && m.source.value in t && t[m.source.value].File?
    && m.target.value !in t && m.source.value != m.target.value
    && Dirname(m.target.value) in t && t[Dirname(m.target.value)].Dir?
  }

  /** The disk after performing the moves of history one after another, when each is a clean file move. */
  ghost function Replay(t: Tree, history: seq<MoveRecord>): Option<Tree>
  {
    if history == [] then Some(t)
    else match Replay(t, history[..|history| - 1])
      case None => None
      case Some(t') =>
        var m := history[|history| - 1];
        if CleanMove(t', m) then Some(MoveFs(t', m.source.value, m.target.value).tree) else None
  }

  lemma {:induction false} ReplayWellFormed(t: Tree, history: seq<MoveRecord>)
    requires WellFormed(t) && Replay(t, history).Some?
    ensures WellFormed(Replay(t, history).value)
  {
    if history != [] {
      ReplayWellFormed(t, history[..|history| - 1]);
    }
  }

  /** undo_move with the history consumed newest entry first. */
  function UndoReversed(s: Undo, history: seq<MoveRecord>): Undo
    decreases |history|
  {
    if history == [] then s else UndoReversed(UndoOne(s, history[|history| - 1]), history[..|history| - 1])
  }

  /**
   * Undoing newest first restores the disk as it was before a history of clean file moves,
   * with every move reported as undone and no error.
   */
  lemma {:induction false} UndoReversedRestores(t: Tree, history: seq<MoveRecord>, s: Undo)
    requires WellFormed(t) && Replay(t, history) == Some(s.tree)
    ensures var u := UndoReversed(s, history);
      u.tree == t && u.error == s.error && |u.success| == |s.success| + |history|
  {
    if history != [] {
      var init := history[..|history| - 1];
      var m := history[|history| - 1];
      var t' := Replay(t, init).value;
      ReplayWellFormed(t, init);
      UndoRestoresMove(t', m.source.value, m.target.value, s);
      UndoReversedRestores(t, init, UndoOne(s, m));
    }
  }

  /** A clean file move renames the file. */
  lemma CleanMoveRenames(t: Tree, m: MoveRecord)
    requires WellFormed(t) && CleanMove(t, m)
    ensures MoveFs(t, m.source.value, m.target.value) == FsResult(true, (t - {m.source.value})[m.target.value := t[m.source.value]])
  {
  }

  /**
   * undo_move as written, on a file moved from a to b and then from b to c: the entries
   * are undone oldest first, so the first finds nothing at b, the second brings the file
   * back to b only, and the file never returns to a. Newest first restores the disk.
   */
  lemma ChainedMovesNotUndone()
    ensures var t0 := map[[] := Dir, ["a"] := File([])];
      var h := [MoveRecord(Some(["a"]), Some(["b"])), MoveRecord(Some(["b"]), Some(["c"]))];
      var t2 := map[[] := Dir, ["c"] := File([])];
      && Replay(t0, h) == Some(t2)
      && UndoAll(Undo(t2, [], [], None), h) == Undo(map[[] := Dir, ["b"] := File([])], [["c"]], [["b"]], Some(["c"]))
      && UndoReversed(Undo(t2, [], [], None), h).tree == t0
  {
    var t0 := map[[] := Dir, ["a"] := File([])];
    var t1 := map[[] := Dir, ["b"] := File([])];
    var t2 := map[[] := Dir, ["c"] := File([])];
    var m1 := MoveRecord(Some(["a"]), Some(["b"]));
    var m2 := MoveRecord(Some(["b"]), Some(["c"]));
    var h := [m1, m2];
    SmallTree(t0, ["a"]);
    SmallTree(t1, ["b"]);
    SmallTree(t2, ["c"]);
    CleanMoveRenames(t0, m1);
    assert (t0 - {["a"]})[["b"] := File([])] == t1;
    CleanMoveRenames(t1, m2);
    assert (t1 - {["b"]})[["c"] := File([])] == t2;
    assert h[..1] == [m1] && [m1][..0] == [];
    assert Replay(t0, [m1]) == Some(t1);
    assert Replay(t0, h) == Some(t2);
    var u1 := UndoOne(Undo(t2, [], [], None), m1);
    assert u1 == Undo(t2, [], [["b"]], Some(["b"]));
    CleanMoveRenames(t2, MoveRecord(Some(["c"]), Some(["b"])));
    assert (t2 - {["c"]})[["b"] := File([])] == t1;
    assert UndoAll(Undo(t2, [], [], None), [m1]) == u1;
    assert UndoAll(Undo(t2, [], [], None), h) == UndoOne(u1, m2);
    UndoReversedRestores(t0, h, Undo(t2, [], [], None));
  }

  /** A tree of the root folder and one file just below it is well-formed. */
  lemma SmallTree(t: Tree, f: Path)
    requires |f| == 1 && t == map[[] := Dir, f := File([])]
    ensures WellFormed(t)
  {
    assert Dirname(f) == [];
  }

  // ================================================================ create_folder_structure

  /** A folder skeleton: a dictionary from folder names to nested skeletons, or any other value. */
  datatype Layout = Folders(entries: seq<(string, Layout)>) | Other

  /**
   * create_folder_structure(base_path, structure). Each missing folder is created in dictionary
   * order and a nested dictionary is handled by a recursive call; the first failing os.makedirs,
   * or a structure that is not a dictionary, makes the result false. As written (propagate false)
   * the result of a recursive call is dropped; with propagate set it becomes the result.
   */
  function CreateLayout(t: Tree, base: Path, l: Layout, propagate: bool): FsResult
    decreases l, 1, 0
  {
    match l
      case Other => FsResult(false, t)
      case Folders(es) => CreateEntries(t, base, l, |es|, propagate)
  }

  /** The loop of create_folder_structure over the first n entries of l. */
  function CreateEntries(t: Tree, base: Path, l: Layout, n: nat, propagate: bool): FsResult
    requires l.Folders? && n <= |l.entries|
    decreases l, 0, n
  {
    if n == 0 then FsResult(true, t)
    else
      var prev := CreateEntries(t, base, l, n - 1, propagate);
      var e := l.entries[n - 1];
      var p := base + [e.0];
      var made := if !prev.ok || p in prev.tree then prev else MakeDirsFs(prev.tree, p);
      if !made.ok || e.1.Other? then made
      else
        var sub := CreateLayout(made.tree, p, e.1, propagate);
        FsResult(sub.ok || !propagate, sub.tree)
  }

  /** The paths a skeleton names below base. */
  ghost predicate InLayout(base: Path, l: Layout, p: Path)
    decreases l
  {
    l.Folders? && exists i :: 0 <= i < |l.entries| && InEntry(base, l, i, p)
  }

  /** p is the folder of entry i of l, or lies in that entry's nested skeleton. */
  ghost predicate InEntry(base: Path, l: Layout, i: int, p: Path)
    requires l.Folders? && 0 <= i < |l.entries|
    decreases l, 0
  {
    var e := l.entries[i];
    p == base + [e.0] || InLayout(base + [e.0], e.1, p)
  }

  /** Creating a skeleton keeps every existing node and the tree invariant. */
  lemma {:induction false} LayoutKeeps(t: Tree, base: Path, l: Layout, propagate: bool)
    ensures var r := CreateLayout(t, base, l, propagate);
      && (forall q :: q in t ==> q in r.tree && r.tree[q] == t[q])
      && (WellFormed(t) ==> WellFormed(r.tree))
    decreases l, 1, 0
  {
    if l.Folders? {
      EntriesKeep(t, base, l, |l.entries|, propagate);
    }
  }

  lemma {:induction false} EntriesKeep(t: Tree, base: Path, l: Layout, n: nat, propagate: bool)
    requires l.Folders? && n <= |l.entries|
    ensures var r := CreateEntries(t, base, l, n, propagate);
      && (forall q :: q in t ==> q in r.tree && r.tree[q] == t[q])
      && (WellFormed(t) ==> WellFormed(r.tree))
    decreases l, 0, n
  {
    if n > 0 {
      EntriesKeep(t, base, l, n - 1, propagate);
      var prev := CreateEntries(t, base, l, n - 1, propagate);
      var e := l.entries[n - 1];
      var p := base + [e.0];
      var made := if !prev.ok || p in prev.tree then prev else MakeDirsFs(prev.tree, p);
      if made.ok && e.1.Folders? {
        LayoutKeeps(made.tree, p, e.1, propagate);
      }
    }
  }

  /** A failed entry ends the loop: later entries change nothing. */
  lemma {:induction false} EntriesStop(t: Tree, base: Path, l: Layout, n: nat, m: nat, propagate: bool)
    requires l.Folders? && n <= m <= |l.entries| && !CreateEntries(t, base, l, n, propagate).ok
    ensures CreateEntries(t, base, l, m, propagate) == CreateEntries(t, base, l, n, propagate)
    decreases m
  {
    if m > n {
      EntriesStop(t, base, l, n, m - 1, propagate);
    }
  }

  /** With the nested result propagated, success means every folder the skeleton names exists. */
  lemma {:induction false} LayoutComplete(t: Tree, base: Path, l: Layout)
    ensures var r := CreateLayout(t, base, l, true);
      r.ok ==> forall p :: InLayout(base, l, p) ==> p in r.tree
    decreases l, 1, 0
  {
    if l.Folders? {
      EntriesComplete(t, base, l, |l.entries|);
    }
  }

  lemma {:induction false} EntriesComplete(t: Tree, base: Path, l: Layout, n: nat)
    requires l.Folders? && n <= |l.entries|
    ensures var r := CreateEntries(t, base, l, n, true);
      r.ok ==> forall i, p :: 0 <= i < n && InEntry(base, l, i, p) ==> p in r.tree
    decreases l, 0, n
  {
    var r := CreateEntries(t, base, l, n, true);
    if n > 0 && r.ok {
      var prev := CreateEntries(t, base, l, n - 1, true);
      EntriesComplete(t, base, l, n - 1);
      var e := l.entries[n - 1];
      var p0 := base + [e.0];
      var made := if p0 in prev.tree then prev else MakeDirsFs(prev.tree, p0);
      assert made.ok && p0 in made.tree;
      if e.1.Folders? {
        LayoutKeeps(made.tree, p0, e.1, true);
        LayoutComplete(made.tree, p0, e.1);
      }
      assert forall q :: q in made.tree ==> q in r.tree;
      forall i, p | 0 <= i < n && InEntry(base, l, i, p)
        ensures p in r.tree
      {
        if i < n - 1 {
          assert p in prev.tree;
          assert p in made.tree;
        } else if p != p0 {
          assert InLayout(p0, e.1, p);
          assert r == CreateLayout(made.tree, p0, e.1, true);
        }
      }
    }
  }

  /**
   * create_folder_structure as written reports success although a nested folder could not
   * be created: with a file at a, the skeleton {a: {c: ...}} yields true and no a/c.
   * Propagating the nested result reports the failure.
   */
  lemma NestedFailureReported()
    ensures var t := map[[] := Dir, ["a"] := File([])];
      var l := Folders([("a", Folders([("c", Other)]))]);
      && InLayout([], l, ["a", "c"])
      && CreateLayout(t, [], l, false).ok
      && ["a", "c"] !in CreateLayout(t, [], l, false).tree
      && !CreateLayout(t, [], l, true).ok
  {
    var t := map[[] := Dir, ["a"] := File([])];
    var inner := Folders([("c", Other)]);
    var l := Folders([("a", inner)]);
    assert ["a"] + ["c"] == ["a", "c"];
    assert InEntry(["a"], inner, 0, ["a", "c"]);
    assert InLayout(["a"], inner, ["a", "c"]);
    assert [] + ["a"] == ["a"];
    assert InEntry([], l, 0, ["a", "c"]);
    assert ["a", "c"][..1] == ["a"];
    assert !CanMakeDirs(t, ["a", "c"]);
    assert CreateEntries(t, ["a"], inner, 1, false) == FsResult(false, t);
    assert CreateEntries(t, ["a"], inner, 1, true) == FsResult(false, t);
    assert CreateEntries(t, [], l, 1, false) == FsResult(true, t);
  }

  /** create_folder_structure on the disk. */
  method CreateFolderStructure(disk: Disk, base: Path, structure: Layout) returns (ok: bool)
    requires disk.Valid()
    modifies disk
    ensures disk.Valid()
    ensures CreateLayout(old(disk.tree), base, structure, false) == FsResult(ok, disk.tree)
    decreases structure
  {
    if structure.Other? {
      return false;
    }
    ghost var t0 := disk.tree;
    var i := 0;
    while i < |structure.entries|
      invariant disk.Valid() && 0 <= i <= |structure.entries|
      invariant CreateEntries(t0, base, structure, i, false) == FsResult(true, disk.tree)
    {
      var folder := structure.entries[i].0;
      var subfolders := structure.entries[i].1;
      var folderPath := base + [folder];
      if !disk.Exists(folderPath) {
        ok := disk.MakeDirs(folderPath);
        if !ok {
          EntriesStop(t0, base, structure, i + 1, |structure.entries|, false);
          return;
        }
      }
      if subfolders.Folders? {
        var _ := CreateFolderStructure(disk, folderPath, subfolders);
      }
      i := i + 1;
    }
    ok := true;
  }

  // ================================================================ create_backup / restore_backup

  /** f"{path}_backup_{timestamp}": a sibling of path whose last name is extended. */
  function BackupPath(p: Path, ts: string): Path
  {
    Dirname(p) + [Basename(p) + "_backup_" + ts]
  }

  /** The backup sits beside path, in the same folder, and neither lies inside the other. */
  lemma BackupSibling(p: Path, ts: string)
    requires p != []
    ensures var b := BackupPath(p, ts);
      Dirname(b) == Dirname(p) && |b| == |p| && b != p && !(p <= b) && !(b <= p)
  {
    var b := BackupPath(p, ts);
    assert p == Dirname(p) + [Basename(p)];
    assert b[|p| - 1] != p[|p| - 1];
  }

  /** create_backup(path): shutil.copytree(path, backup_path); the backup's path on success. */
  function BackupFs(t: Tree, p: Path, ts: string): (Option<Path>, Tree)
  {
    var r := CopyTreeFs(t, p, BackupPath(p, ts));
    (if r.ok then Some(BackupPath(p, ts)) else None, r.tree)
  }

  /**
   * A backup is made exactly when path is a folder and the backup name is free; the backup then
   * holds a copy of path's subtree, node for node, and nothing else on the disk changes. A backup
   * of the root lies inside the root under a new name, so it copies the root as it was.
   */
  lemma BackupCopies(t: Tree, p: Path, ts: string)
    requires WellFormed(t)
    ensures var (b, r) := BackupFs(t, p, ts);
      && (b.Some? <==> p in t && t[p].Dir? && BackupPath(p, ts) !in t)
      && (b.Some? ==> forall rel :: b.value + rel in r <==> p + rel in t)
      && (b.Some? ==> forall rel :: p + rel in t ==> r[b.value + rel] == t[p + rel])
      && (forall q :: q in t ==> q in r && r[q] == t[q])
      && (b.Some? ==> forall q :: q in r ==> q in t || b.value <= q)
  {
    var bp := BackupPath(p, ts);
    if p in t && t[p].Dir? && bp !in t {
      BackupCreatable(t, p, ts);
      var r := CopyTreeFs(t, p, bp).tree;
      forall rel | bp + rel in r
        ensures p + rel in t
      {
        RebaseKey(p, bp, rel);
      }
      forall q | q in r && q !in t
        ensures bp <= q
      {
        if q < bp && p != [] {
          BackupSibling(p, ts);
          assert q <= Dirname(p);
          AncestorClosed(t, p, q);
        }
      }
    }
  }

  /** A free backup name can be created, and it does not lie under an entry of path. */
  lemma BackupCreatable(t: Tree, p: Path, ts: string)
    requires WellFormed(t) && p in t && BackupPath(p, ts) !in t
    ensures CanMakeDirs(t, BackupPath(p, ts)) && !CopiesIntoItself(t, p, BackupPath(p, ts))
  {
    var bp := BackupPath(p, ts);
    if p == [] {
      assert [] + [bp[0]] == bp;
    } else {
      BackupSibling(p, ts);
      AncestorClosed(t, p, Dirname(p));
      assert forall i :: 0 <= i < |bp| ==> bp[..i] <= Dirname(p);
      forall i | 0 <= i < |bp| && bp[..i] in t
        ensures t[bp[..i]].Dir?
      {
        AncestorClosed(t, Dirname(p), bp[..i]);
      }
    }
  }

  /** create_backup on the disk; ts is the timestamp of the call. */
  method CreateBackup(disk: Disk, path: Path, ts: string) returns (backup: Option<Path>)
    requires disk.Valid()
    modifies disk
    ensures disk.Valid()
    ensures (backup, disk.tree) == BackupFs(old(disk.tree), path, ts)
  {
    var backupPath := BackupPath(path, ts);
    var ok := disk.CopyTree(path, backupPath);
    backup := if ok then Some(backupPath) else None;
  }

  /** restore_backup(backup_path, original_path): shutil.rmtree on an existing original, then shutil.copytree. */
  function RestoreFs(t: Tree, backup: Path, original: Path): FsResult
  {
    var cleared := if original in t then RemoveTreeFs(t, original) else FsResult(true, t);
    if !cleared.ok then cleared else CopyTreeFs(cleared.tree, backup, original)
  }

  /**
   * Restoring a backup into a folder apart from it (an existing folder other than the root,
   * or a new path that can be created) succeeds, and the original then holds exactly
   * the backup's subtree.
   */
  lemma RestoreReplaces(t: Tree, backup: Path, original: Path)
    requires WellFormed(t) && backup in t && t[backup].Dir?
    requires !(backup <= original) && !(original <= backup)
    requires (original in t && t[original].Dir? && original != []) || CanMakeDirs(t, original)
    ensures var r := RestoreFs(t, backup, original);
      && r.ok
      && (forall rel :: original + rel in r.tree <==> backup + rel in t)
      && (forall rel :: backup + rel in t ==> r.tree[original + rel] == t[backup + rel])
      && (forall q :: q in t && !(original <= q) ==> q in r.tree && r.tree[q] == t[q])
      && (forall q :: q in r.tree && q !in t ==> q <= original || original <= q)
  {
    var cleared := if original in t then RemoveTreeFs(t, original) else FsResult(true, t);
    var c := cleared.tree;
    assert backup in c;
    if original in t {
      forall i | 0 <= i < |original| && original[..i] in c
        ensures c[original[..i]].Dir?
      {
        AncestorClosed(t, original, original[..i]);
      }
      assert CanMakeDirs(c, original);
    }
    assert forall rel :: backup + rel in c <==> backup + rel in t by {
      forall rel | backup + rel in t
        ensures backup + rel in c
      {
        PrefixesComparable(original, backup, backup + rel);
      }
    }
    var r := CopyTreeFs(c, backup, original).tree;
    forall rel | original + rel in r
      ensures backup + rel in t
    {
      RebaseKey(backup, original, rel);
    }
  }

  /** Two prefixes of one path are prefixes of each other, one way or the other. */
  lemma PrefixesComparable(a: Path, b: Path, c: Path)
    ensures a <= c && b <= c ==> a <= b || b <= a
  {
    if a <= c && b <= c && |a| <= |b| {
      assert a == c[..|a|] && b[..|a|] == c[..|a|];
    }
  }

  /**
   * Backup then restore: whatever happens to the original in between, as long as the
   * backup is left alone, restoring it brings back the original's subtree as it was
   * when the backup was made.
   */
  lemma BackupRestoreRoundTrip(t0: Tree, p: Path, ts: string, t2: Tree)
    requires WellFormed(t0) && p != [] && BackupFs(t0, p, ts).0.Some?
    requires WellFormed(t2)
    requires var b := BackupFs(t0, p, ts).0.value; var t1 := BackupFs(t0, p, ts).1;
      forall rel :: (b + rel in t2 <==> b + rel in t1) && (b + rel in t1 ==> t2[b + rel] == t1[b + rel])
    requires (p in t2 && t2[p].Dir?) || CanMakeDirs(t2, p)
    ensures var r := RestoreFs(t2, BackupFs(t0, p, ts).0.value, p);
      && r.ok
      && (forall rel :: p + rel in r.tree <==> p + rel in t0)
      && (forall rel :: p + rel in t0 ==> r.tree[p + rel] == t0[p + rel])
  {
    BackupCopies(t0, p, ts);
    BackupSibling(p, ts);
    RestoreCopy(t0, p, BackupPath(p, ts), BackupFs(t0, p, ts).1, t2);
  }

  /**
   * Restoring from b, where b holds in t2 what it held in t1 and t1 held at b a copy of p's
   * subtree in t0, brings back p's subtree as it was in t0.
   */
  lemma RestoreCopy(t0: Tree, p: Path, b: Path, t1: Tree, t2: Tree)
    requires WellFormed(t2) && p != [] && !(b <= p) && !(p <= b) && p in t0 && t0[p].Dir?
    requires forall rel :: b + rel in t1 <==> p + rel in t0
    requires forall rel :: p + rel in t0 ==> t1[b + rel] == t0[p + rel]
    requires forall rel :: (b + rel in t2 <==> b + rel in t1) && (b + rel in t1 ==> t2[b + rel] == t1[b + rel])
    requires (p in t2 && t2[p].Dir?) || CanMakeDirs(t2, p)
    ensures var r := RestoreFs(t2, b, p);
      && r.ok
      && (forall rel :: p + rel in r.tree <==> p + rel in t0)
      && (forall rel :: p + rel in t0 ==> r.tree[p + rel] == t0[p + rel])
  {
    assert b + [] == b && p + [] == p;
    assert b in t1 && t1[b] == t0[p];
    assert b in t2 && t2[b] == t1[b];
    RestoreReplaces(t2, b, p);
    forall rel | p + rel in t0
      ensures RestoreFs(t2, b, p).tree[p + rel] == t0[p + rel]
    {
      assert b + rel in t1 && t1[b + rel] == t0[p + rel];
    }
  }

  /** restore_backup on the disk. */
  method RestoreBackup(disk: Disk, backupPath: Path, originalPath: Path) returns (ok: bool)
    requires disk.Valid()
    modifies disk
    ensures disk.Valid()
    ensures RestoreFs(old(disk.tree), backupPath, originalPath) == FsResult(ok, disk.tree)
  {
    if disk.Exists(originalPath) {
      ok := disk.RemoveTree(originalPath);
      if !ok {
        return;
      }
    }
    ok := disk.CopyTree(backupPath, originalPath);
  }
}
