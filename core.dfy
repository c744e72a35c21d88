/**
 * The directory view of the gallery (pc/core/core.go): a file system rooted at a directory
 * path, queried by subpaths relative to that root. Listing a directory, finding the first
 * child a predicate accepts, and the breadth-first search for the first file whose name a
 * predicate accepts all read the disk `t` as it is at the time of the call.
 */
module Core {
  import opened Wrappers
  import opened Strings
  import opened Paths
  import opened FileSystem
  import opened Search

  /** What a query answers about one entry: its full path, its path relative to the root, and its kind. */
  datatype FileInfo = FileInfo(fullpath: Path, subpath: Path, isDir: bool)

  /** Why a root is refused. */
  datatype FsError = NotFound(path: Path) | NotADirectory(path: Path)

  /** The extensions a file name must end with, in any letter case, to be shown as an image. */
  const ImageExtensions: seq<string> := [".jpeg", ".jpg", ".png", ".gif", ".bmp", ".tiff", ".tif", ".webp", ".svg", ".ico"]

  /** Whether `s` ends with one of `exts`, tried in order. */
  predicate EndsWithAny(s: string, exts: seq<string>)
    decreases |exts|
  {
    exts != [] && (HasSuffix(s, exts[0]) || EndsWithAny(s, exts[1..]))
  }

  /** A path names an image when its lower-cased form ends with one of the image extensions. */
  predicate IsImageName(path: string) {
    EndsWithAny(ToLower(path), ImageExtensions)
  }

  /** Trying the extensions in order finds one exactly when one of them is a suffix. */
  lemma {:induction false} EndsWithAnyIff(s: string, exts: seq<string>)
    ensures EndsWithAny(s, exts) <==> exists e :: e in exts && HasSuffix(s, e)
    decreases |exts|
  {
    if exts != [] {
      EndsWithAnyIff(s, exts[1..]);
      assert forall e :: e in exts <==> e == exts[0] || e in exts[1..];
    }
  }

  /** Checks the extensions one by one, stopping at the first that matches. */
  method IsImage(path: string) returns (b: bool)
    ensures b <==> IsImageName(path)
  {
    var s := ToLower(path);
    var i := 0;
    while i < |ImageExtensions|
      invariant 0 <= i <= |ImageExtensions|
      invariant EndsWithAny(s, ImageExtensions) == EndsWithAny(s, ImageExtensions[i..])
    {
      if HasSuffix(s, ImageExtensions[i]) {
        return true;
      }
      assert ImageExtensions[i..][1..] == ImageExtensions[i + 1..];
      i := i + 1;
    }
    return false;
  }

  /** A path is an image exactly when its lower-cased form ends with one of the image extensions. */
  lemma IsImageNameIff(path: string)
    ensures IsImageName(path) <==> exists e :: e in ImageExtensions && HasSuffix(ToLower(path), e)
  {
    EndsWithAnyIff(ToLower(path), ImageExtensions);
  }

  /** Letter case does not matter: a name and its lower-cased form are images alike. */
  lemma IsImageIgnoresCase(path: string)
    ensures IsImageName(path) <==> IsImageName(ToLower(path))
  {
    assert ToLower(ToLower(path)) == ToLower(path);
  }

  /** An upper-case extension is recognised. */
  lemma IsImageUpperCase()
    ensures IsImageName("A.JPG")
  {
    assert ToLower("A.JPG") == "a.jpg";
    assert !HasSuffix("a.jpg", ".jpeg");
    assert HasSuffix("a.jpg", ".jpg");
  }

  /** An extension followed by more letters is not recognised: no image extension ends in 'x'. */
  lemma IsImageLongerExtension()
    ensures !IsImageName("a.jpgx")
  {
    var s := "a.jpgx";
    assert ToLower(s) == s;
    NoneEndsWithLast(s, ImageExtensions);
  }

  /** A string ends with none of `exts` when none of them is empty or ends with its last character. */
  lemma {:induction false} NoneEndsWithLast(s: string, exts: seq<string>)
    requires s != []
    requires forall i :: 0 <= i < |exts| ==> exts[i] != [] && exts[i][|exts[i]| - 1] != s[|s| - 1]
    ensures !EndsWithAny(s, exts)
    decreases |exts|
  {
    if exts != [] {
      var e := exts[0];
      assert e != [] && e[|e| - 1] != s[|s| - 1];
      if |e| <= |s| {
        assert s[|s| - |e|..][|e| - 1] == s[|s| - 1];
      }
      NoneEndsWithLast(s, exts[1..]);
    }
  }

  /** Accepts `path` as a root when the disk holds a directory there, and says why not otherwise. */
  function CheckPathDirExist(t: Tree, path: Path): (r: Option<FsError>)
    ensures r.None? <==> path in t && t[path].Dir?
    ensures r == Some(NotFound(path)) <==> path !in t
    ensures r == Some(NotADirectory(path)) <==> path in t && t[path].File?
  {
    if path !in t then Some(NotFound(path))
    else if t[path].Dir? then None
    else Some(NotADirectory(path))
  }

  /** Opens a file system rooted at `path`. */
  function NewDirFileSystem(t: Tree, path: Path): (r: Result<DirFileSystem, FsError>)
    ensures r.Ok? <==> path in t && t[path].Dir?
    ensures r.Ok? ==> r.value.dirPath == path
    ensures r.Err? ==> Some(r.error) == CheckPathDirExist(t, path)
  {
    match CheckPathDirExist(t, path)
    case None => Ok(DirFileSystem(path))
    case Some(e) => Err(e)
  }

  /** The entry for the child `c` of the directory at `dirFull`, reached by the subpath `dirSub`. */
  function Entry(t: Tree, dirFull: Path, dirSub: Path, c: Name): FileInfo {
    var p := dirFull + [c];
    FileInfo(p, dirSub + [c], p in t && t[p].Dir?)
  }

  /** One entry per listed name, in listing order. */
  function Entries(t: Tree, dirFull: Path, dirSub: Path, names: seq<Name>): seq<FileInfo> {
    seq(|names|, i requires 0 <= i < |names| => Entry(t, dirFull, dirSub, names[i]))
  }

  /** The position of the first entry whose full path `pred` accepts, or |es| when none does. */
  function FirstAcceptedIndex(es: seq<FileInfo>, pred: string -> bool): (i: nat)
    ensures i <= |es|
    ensures i < |es| ==> pred(Rooted(es[i].fullpath))
    ensures forall j :: 0 <= j < i ==> !pred(Rooted(es[j].fullpath))
  {
    if es == [] then 0
    else if pred(Rooted(es[0].fullpath)) then 0
    else 1 + FirstAcceptedIndex(es[1..], pred)
  }

  /** The file system rooted at `dirPath`; the root never changes once opened. */
  datatype DirFileSystem = DirFileSystem(dirPath: Path)
  {
    /** The path on disk of the subpath `sub`: the root followed by `sub`. */
    function FullPath(sub: Path): (p: Path)
      ensures |p| == |dirPath| + |sub| && p[..|dirPath|] == dirPath && p[|dirPath|..] == sub
    {
      dirPath + sub
    }

    /** Stats `sub`: nothing when the disk has no node there, otherwise its entry. */
    function Exists(t: Tree, sub: Path): (r: Option<FileInfo>)
      ensures r.Some? <==> FullPath(sub) in t
      ensures r.Some? ==> r.value.fullpath == FullPath(sub) && r.value.subpath == sub
      ensures r.Some? ==> (r.value.isDir <==> t[FullPath(sub)].Dir?)
    {
      var full := FullPath(sub);
      if full in t then Some(FileInfo(full, sub, t[full].Dir?)) else None
    }

    /** What a listing of `sub` returns: nothing, the file itself, or the directory's children. */
    function DirContents(t: Tree, sub: Path): seq<FileInfo> {
      match Exists(t, sub)
      case None => []
      case Some(fi) =>
        if !fi.isDir then [fi] else Entries(t, fi.fullpath, sub, t[fi.fullpath].children)
    }

    /** Lists `sub`, appending one entry per child of a directory. */
    method GetDirContents(t: Tree, sub: Path) returns (fis: seq<FileInfo>)
      ensures fis == DirContents(t, sub)
      ensures FullPath(sub) !in t ==> fis == []
      ensures FullPath(sub) in t && t[FullPath(sub)].File? ==> fis == [FileInfo(FullPath(sub), sub, false)]
      ensures FullPath(sub) in t && t[FullPath(sub)].Dir? ==>
        var names := t[FullPath(sub)].children;
        && |fis| == |names|
        && forall i :: 0 <= i < |fis| ==>
          && fis[i].subpath == sub + [names[i]]
          && fis[i].fullpath == FullPath(fis[i].subpath)
          && (fis[i].isDir <==> fis[i].fullpath in t && t[fis[i].fullpath].Dir?)
    {
      var fi := Exists(t, sub);
      if fi.None? {
        return [];
      }
      if !fi.value.isDir {
        return [fi.value];
      }
      var full := fi.value.fullpath;
      var names := t[full].children;
      fis := [];
      var j := 0;
      while j < |names|
        invariant 0 <= j <= |names|
        invariant fis == Entries(t, full, sub, names[..j])
      {
        fis := fis + [Entry(t, full, sub, names[j])];
        j := j + 1;
      }
      assert names[..j] == names;
    }

    /** The first child of `sub` whose full path `pred` accepts (a directory or a file), or `sub` itself when it is a file. */
    function FindSpec(t: Tree, sub: Path, pred: string -> bool): Option<FileInfo> {
      match Exists(t, sub)
      case None => None
      case Some(fi) =>
        if !fi.isDir then Some(fi)
        else
          var es := Entries(t, fi.fullpath, sub, t[fi.fullpath].children);
          var i := FirstAcceptedIndex(es, pred);
          if i < |es| then Some(es[i]) else None
    }

    /** Tests the children of `sub` in listing order and returns the first one `pred` accepts. */
    method Find(t: Tree, sub: Path, pred: string -> bool) returns (r: Option<FileInfo>)
      ensures r == FindSpec(t, sub, pred)
      ensures FullPath(sub) in t && t[FullPath(sub)].Dir? ==>
        && (r.None? <==> forall e :: e in DirContents(t, sub) ==> !pred(Rooted(e.fullpath)))
        && (r.Some? ==> exists i :: 0 <= i < |DirContents(t, sub)| && DirContents(t, sub)[i] == r.value
                          && pred(Rooted(r.value.fullpath))
                          && forall j :: 0 <= j < i ==> !pred(Rooted(DirContents(t, sub)[j].fullpath)))
    {
      var fi := Exists(t, sub);
      if fi.None? {
        return None;
      }
      if !fi.value.isDir {
        return fi;
      }
      var full := fi.value.fullpath;
      var names := t[full].children;
      ghost var es := Entries(t, full, sub, names);
      var j := 0;
      while j < |names|
        invariant 0 <= j <= |names|
        invariant forall m :: 0 <= m < j ==> !pred(Rooted(es[m].fullpath))
      {
        var e := Entry(t, full, sub, names[j]);
        if pred(Rooted(e.fullpath)) {
          assert es[j] == e;
          FirstAcceptedIndexAt(es, pred, j);
          return Some(e);
        }
        j := j + 1;
      }
      FirstAcceptedIndexNone(es, pred);
      r := None;
    }

    /**
     * What the recursive finder returns: nothing for a missing `sub`, `sub` itself when it is a
     * file, and otherwise the first file of the breadth-first walk from `sub` whose name `pred`
     * accepts, with its path relative to the root.
     */
    function FindRecursiveSpec(t: Tree, sub: Path, pred: string -> bool): Option<FileInfo> {
      match Exists(t, sub)
      case None => None
      case Some(fi) =>
        if !fi.isDir then Some(fi)
        else
          var full := fi.fullpath;
          BfsSound(t, [full], |full|, full);
          match FirstMatch(BfsFiles(t, [full], |full|), pred)
          case None => None
          case Some(f) => Some(FileInfo(f, f[|dirPath|..], false))
    }

    /**
     * Breadth-first search with a FIFO queue of directories: each directory popped is listed,
     * its subdirectories are queued, and its files are offered by name in listing order.
     */
    method FindRecursive(t: Tree, sub: Path, pred: string -> bool) returns (r: Option<FileInfo>)
      requires ChildrenExist(t)
      ensures r == FindRecursiveSpec(t, sub, pred)
    {
      var fi := Exists(t, sub);
      if fi.None? {
        return None;
      }
      if !fi.value.isDir {
        return fi;
      }
      var full := fi.value.fullpath;
      WalkFixpoint(t, full);
      BfsFilesOfDirs(t, [full], |full|);
      var found := WalkFirstMatch(t, full, pred, BfsDirs(t, [full], |full|));
      assert Exists(t, sub) == Some(FileInfo(full, sub, true));
      if found.None? {
        return None;
      }
      var p := found.value;
      var walk := BfsFiles(t, [full], |full|);
      var i := FirstMatchIndex(walk, pred);
      assert walk[i] == p && walk[i] in walk;
      BfsSound(t, [full], |full|, full);
      r := Some(FileInfo(p, p[|dirPath|..], false));
      assert r == FindRecursiveSpec(t, sub, pred);
    }
  }

  /**
   * Below a directory, the recursive finder finds nothing exactly when no file of the subtree
   * has a name `pred` accepts; directories are never offered to it.
   */
  lemma {:induction false} FindRecursiveNoneIff(fs: DirFileSystem, t: Tree, sub: Path, pred: string -> bool)
    requires WellFormed(t)
    requires fs.FullPath(sub) in t && t[fs.FullPath(sub)].Dir?
    ensures fs.FindRecursiveSpec(t, sub, pred).None? <==>
      forall f :: f in t && t[f].File? && fs.FullPath(sub) <= f ==> !pred(Last(f))
  {
    var full := fs.FullPath(sub);
    LevelDepths(t, [full], |full|);
    var walk := BfsFiles(t, [full], |full|);
    if fs.FindRecursiveSpec(t, sub, pred).None? {
      assert FirstMatch(walk, pred).None?;
      forall f | f in t && t[f].File? && full <= f
        ensures !pred(Last(f))
      {
        if pred(Last(f)) {
          BfsComplete(t, full, f);
          NoMatchExcludes(walk, pred, f);
        }
      }
    } else {
      var f := FirstMatch(walk, pred).value;
      var i := FirstMatchIndex(walk, pred);
      assert walk[i] == f && walk[i] in walk;
      BfsSound(t, [full], |full|, full);
      assert f in t && t[f].File? && full <= f && pred(Last(f));
    }
  }

  /**
   * Below a directory, a match of the recursive finder is a file of the subtree strictly below
   * it, whose name `pred` accepts, and whose subpath leads back to it from the root.
   */
  lemma FindRecursiveFound(fs: DirFileSystem, t: Tree, sub: Path, pred: string -> bool)
    requires ChildrenExist(t)
    requires fs.FullPath(sub) in t && t[fs.FullPath(sub)].Dir?
    requires fs.FindRecursiveSpec(t, sub, pred).Some?
    ensures var r := fs.FindRecursiveSpec(t, sub, pred).value;
      && !r.isDir && r.fullpath in t && t[r.fullpath].File?
      && fs.FullPath(sub) < r.fullpath && pred(Last(r.fullpath))
      && r.fullpath == fs.FullPath(r.subpath) && sub < r.subpath
  {
    var full := fs.FullPath(sub);
    LevelDepths(t, [full], |full|);
    var walk := BfsFiles(t, [full], |full|);
    var f := FirstMatch(walk, pred).value;
    var i := FirstMatchIndex(walk, pred);
    assert walk[i] == f && walk[i] in walk;
    BfsSound(t, [full], |full|, full);
    assert fs.Exists(t, sub) == Some(FileInfo(full, sub, true));
    var r := FileInfo(f, f[|fs.dirPath|..], false);
    assert fs.FindRecursiveSpec(t, sub, pred) == Some(r);
    SubpathBelow(fs.dirPath, sub, f);
  }

  /** A path below `dirPath + sub` is `dirPath` followed by a path strictly below `sub`. */
  lemma SubpathBelow(dirPath: Path, sub: Path, f: Path)
    requires dirPath + sub < f
    ensures dirPath <= f && dirPath + f[|dirPath|..] == f && sub < f[|dirPath|..]
  {
    assert f[..|dirPath|] == (dirPath + sub)[..|dirPath|] == dirPath;
    assert f == f[..|dirPath|] + f[|dirPath|..];
    assert f[|dirPath|..][..|sub|] == (dirPath + sub)[|dirPath|..];
  }

  /** No file of the subtree whose name `pred` accepts lies above the recursive finder's match. */
  lemma FindRecursiveShallowest(fs: DirFileSystem, t: Tree, sub: Path, pred: string -> bool, g: Path)
    requires WellFormed(t)
    requires fs.FullPath(sub) in t && t[fs.FullPath(sub)].Dir?
    requires g in t && t[g].File? && fs.FullPath(sub) <= g && pred(Last(g))
    ensures fs.FindRecursiveSpec(t, sub, pred).Some?
    ensures |fs.FindRecursiveSpec(t, sub, pred).value.fullpath| <= |g|
  {
    var full := fs.FullPath(sub);
    LevelDepths(t, [full], |full|);
    BfsComplete(t, full, g);
    BfsShallowest(t, [full], |full|, pred, g);
  }

  /**
   * The queue loop of the recursive finder: starting from the directory `full`, directories are
   * served in FIFO order and each is scanned. `dirs` is the order the walk serves directories in
   * (`full`, then the subdirectories of every served directory in turn), and the match found is
   * the first matching file of those directories.
   */
  method WalkFirstMatch(t: Tree, full: Path, pred: string -> bool, ghost dirs: seq<Path>) returns (found: Option<Path>)
    requires ChildrenExist(t) && full in t && t[full].Dir?
    requires dirs == [full] + NextLevel(t, dirs)
    ensures found == FirstMatch(LevelFiles(t, dirs), pred)
  {
    var queue := [full];
    ghost var m := 0;
    QueueStart(t, full, dirs);
    while queue != []
      invariant QueueAt(t, full, dirs, m, queue)
      invariant FirstMatch(LevelFiles(t, dirs[..m]), pred).None?
      decreases |dirs| - m
    {
      WalkStep(t, full, dirs, m, queue, pred);
      var dir := queue[0];
      queue, found := ScanDirectory(t, dir, pred, queue[1..]);
      if found.Some? {
        return;
      }
      m := m + 1;
    }
    QueueDone(t, full, dirs, m);
    found := None;
  }

  /**
   * Serving the head of the queue: it is the next directory of the walk, its subdirectories join
   * the queue, and a match among its files is the walk's first.
   */
  lemma WalkStep(t: Tree, full: Path, dirs: seq<Path>, m: nat, queue: seq<Path>, pred: string -> bool)
    requires ChildrenExist(t) && full in t && t[full].Dir?
    requires dirs == [full] + NextLevel(t, dirs)
    requires QueueAt(t, full, dirs, m, queue) && queue != []
    requires FirstMatch(LevelFiles(t, dirs[..m]), pred).None?
    ensures m < |dirs| && queue[0] == dirs[m] && dirs[m] in t && t[dirs[m]].Dir? && ListedExist(t, dirs[m])
    ensures QueueAt(t, full, dirs, m + 1, queue[1..] + DirChildren(t, dirs[m]))
    ensures FirstMatch(LevelFiles(t, dirs[..m + 1]), pred) == FirstMatch(FileChildren(t, dirs[m]), pred)
    ensures FirstMatch(FileChildren(t, dirs[m]), pred).Some? ==>
      FirstMatch(LevelFiles(t, dirs), pred) == FirstMatch(FileChildren(t, dirs[m]), pred)
  {
    QueueStep(t, full, dirs, m, queue);
    ServedAreDirs(t, full, dirs, m);
    FirstMatchAt(t, dirs, m, pred);
    ChildrenExistAt(t, dirs[m]);
  }

  /**
   * One pass of the recursive finder over the listing of `dir`: subdirectories join the queue
   * and the first file whose name `pred` accepts ends the pass.
   */
  method ScanDirectory(t: Tree, dir: Path, pred: string -> bool, queue: seq<Path>) returns (queue': seq<Path>, found: Option<Path>)
    requires dir in t && t[dir].Dir? && ListedExist(t, dir)
    ensures found == FirstMatch(FileChildren(t, dir), pred)
    ensures found.Some? ==> found.value != [] && Parent(found.value) == dir
    ensures found.None? ==> queue' == queue + DirChildren(t, dir)
  {
    var names := t[dir].children;
    queue' := queue;
    var j := 0;
    while j < |names|
      invariant 0 <= j <= |names|
      invariant queue' == queue + DirsIn(t, dir, names[..j])
      invariant FirstMatch(FilesIn(t, dir, names[..j]), pred).None?
    {
      var c := names[j];
      var p := dir + [c];
      DirsInStep(t, dir, names, j);
      if t[p].Dir? {
        AppendAssoc(queue, DirsIn(t, dir, names[..j]), [p]);
        queue' := queue' + [p];
        FilesInStep(t, dir, names, j, pred);
      } else if pred(c) {
        FoundInDir(t, dir, j, pred);
        assert Parent(p) == dir;
        return queue', Some(p);
      } else {
        assert DirsIn(t, dir, names[..j + 1]) == DirsIn(t, dir, names[..j]) + [];
        FilesInStep(t, dir, names, j, pred);
      }
      j := j + 1;
    }
    assert names[..j] == names;
    assert DirChildren(t, dir) == DirsIn(t, dir, names);
    found := None;
  }

  lemma FirstAcceptedIndexAt(es: seq<FileInfo>, pred: string -> bool, j: nat)
    requires j < |es| && pred(Rooted(es[j].fullpath))
    requires forall m :: 0 <= m < j ==> !pred(Rooted(es[m].fullpath))
    ensures FirstAcceptedIndex(es, pred) == j
  {
    var i := FirstAcceptedIndex(es, pred);
    assert !(i < j) && !(j < i);
  }

  lemma FirstAcceptedIndexNone(es: seq<FileInfo>, pred: string -> bool)
    requires forall m :: 0 <= m < |es| ==> !pred(Rooted(es[m].fullpath))
    ensures FirstAcceptedIndex(es, pred) == |es|
  {
  }
}
