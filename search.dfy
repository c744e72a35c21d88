/**
 * The order in which a breadth-first walk of a directory visits files, level by level:
 * each level is the list of directories at one depth, in the order a FIFO queue serves
 * them, and within a directory the files come in listing order. The recursive finder of
 * the core is proved to return the first file of this order whose name matches.
 */
module Search {
  import opened Wrappers
  import opened Paths
  import opened FileSystem

  /** The directories among the children `names` of `d`, as paths, in listing order. */
  function DirsIn(t: Tree, d: Path, names: seq<Name>): seq<Path>
    decreases |names|
  {
    if names == [] then []
    else
      var c := names[|names| - 1];
      DirsIn(t, d, names[..|names| - 1]) + (if d + [c] in t && t[d + [c]].Dir? then [d + [c]] else [])
  }

  /** The files among the children `names` of `d`, as paths, in listing order. */
  function FilesIn(t: Tree, d: Path, names: seq<Name>): seq<Path>
    decreases |names|
  {
    if names == [] then []
    else
      var c := names[|names| - 1];
      FilesIn(t, d, names[..|names| - 1]) + (if d + [c] in t && t[d + [c]].File? then [d + [c]] else [])
  }

  function DirChildren(t: Tree, d: Path): seq<Path> {
    if d in t && t[d].Dir? then DirsIn(t, d, t[d].children) else []
  }

  function FileChildren(t: Tree, d: Path): seq<Path> {
    if d in t && t[d].Dir? then FilesIn(t, d, t[d].children) else []
  }

  /** The directories one level below the level `level`, in the order a FIFO queue receives them. */
  function NextLevel(t: Tree, level: seq<Path>): seq<Path>
    decreases |level|
  {
    if level == [] then []
    else NextLevel(t, level[..|level| - 1]) + DirChildren(t, level[|level| - 1])
  }

  /** The files of the directories of `level`, directory by directory, each in listing order. */
  function LevelFiles(t: Tree, level: seq<Path>): seq<Path>
    decreases |level|
  {
    if level == [] then []
    else FileChildren(t, level[0]) + LevelFiles(t, level[1..])
  }

  /** The length of the longest path of a finite set. */
  ghost function MaxDepth(paths: set<Path>): (m: nat)
    ensures forall p :: p in paths ==> |p| <= m
  {
    if paths == {} then 0
    else
      var p :| p in paths;
      var m := MaxDepth(paths - {p});
      if |p| > m then |p| else m
  }

  /** A level of directories at depth `k`. */
  ghost predicate IsLevel(t: Tree, level: seq<Path>, k: nat) {
    forall i :: 0 <= i < |level| ==> level[i] in t && t[level[i]].Dir? && |level[i]| == k
  }

  /** Every file a breadth-first walk starting from the level `level` (at depth `k`) visits, in visiting order. */
  function BfsFiles(t: Tree, level: seq<Path>, k: nat): seq<Path>
    requires IsLevel(t, level, k)
    decreases MaxDepth(t.Keys) + 1 - k
  {
    if level == [] then []
    else
      assert |level[0]| == k <= MaxDepth(t.Keys);
      LevelDepths(t, level, k);
      LevelFiles(t, level) + BfsFiles(t, NextLevel(t, level), k + 1)
  }

  /** Every directory a breadth-first walk starting from the level `level` (at depth `k`) serves, in serving order. */
  function BfsDirs(t: Tree, level: seq<Path>, k: nat): seq<Path>
    requires IsLevel(t, level, k)
    decreases MaxDepth(t.Keys) + 1 - k
  {
    if level == [] then []
    else
      assert |level[0]| == k <= MaxDepth(t.Keys);
      LevelDepths(t, level, k);
      level + BfsDirs(t, NextLevel(t, level), k + 1)
  }

  /**
   * The position of the first path in `s` whose last element satisfies `pred`, or |s| when
   * none does.
   */
  function FirstMatchIndex(s: seq<Path>, pred: string -> bool): (i: nat)
    ensures i <= |s|
    ensures i < |s| ==> pred(Last(s[i]))
    ensures forall j :: 0 <= j < i ==> !pred(Last(s[j]))
  {
    if s == [] then 0
    else if pred(Last(s[0])) then 0
    else 1 + FirstMatchIndex(s[1..], pred)
  }

  /** The first path in `s` whose last element satisfies `pred`. */
  function FirstMatch(s: seq<Path>, pred: string -> bool): Option<Path> {
    var i := FirstMatchIndex(s, pred);
    if i < |s| then Some(s[i]) else None
  }

  // ---- Properties of the pieces -------------------------------------------------------

  lemma {:induction false} DirsInProps(t: Tree, d: Path, names: seq<Name>)
    ensures forall x :: x in DirsIn(t, d, names) ==> x in t && t[x].Dir? && x != [] && Parent(x) == d
    decreases |names|
  {
    if names != [] {
      DirsInProps(t, d, names[..|names| - 1]);
      assert Parent(d + [names[|names| - 1]]) == d;
    }
  }

  lemma {:induction false} FilesInProps(t: Tree, d: Path, names: seq<Name>)
    ensures forall x :: x in FilesIn(t, d, names) ==> x in t && t[x].File? && x != [] && Parent(x) == d
    decreases |names|
  {
    if names != [] {
      FilesInProps(t, d, names[..|names| - 1]);
      assert Parent(d + [names[|names| - 1]]) == d;
    }
  }

  /** The next level holds only directories, each a child of a directory of the level. */
  lemma {:induction false} NextLevelProps(t: Tree, level: seq<Path>)
    ensures forall x :: x in NextLevel(t, level) ==> x in t && t[x].Dir? && x != [] && Parent(x) in level
    decreases |level|
  {
    if level != [] {
      var init := level[..|level| - 1];
      var last := level[|level| - 1];
      NextLevelProps(t, init);
      if last in t && t[last].Dir? {
        DirsInProps(t, last, t[last].children);
      }
      forall x | x in NextLevel(t, level) ensures Parent(x) in level {
        if x in NextLevel(t, init) {
          var j :| 0 <= j < |init| && init[j] == Parent(x);
          assert level[j] == init[j];
        }
      }
    }
  }

  /** The files of a level are files, each a child of a directory of the level. */
  lemma {:induction false} LevelFilesProps(t: Tree, level: seq<Path>)
    ensures forall x :: x in LevelFiles(t, level) ==> x in t && t[x].File? && x != [] && Parent(x) in level
    decreases |level|
  {
    if level != [] {
      LevelFilesProps(t, level[1..]);
      if level[0] in t && t[level[0]].Dir? {
        FilesInProps(t, level[0], t[level[0]].children);
      }
      forall x | x in LevelFiles(t, level) ensures Parent(x) in level {
        if x in LevelFiles(t, level[1..]) {
          var j :| 0 <= j < |level[1..]| && level[1..][j] == Parent(x);
          assert level[j + 1] == level[1..][j];
        }
      }
    }
  }

  /** A path is one element longer than its parent and extends every prefix of it. */
  lemma ParentPrefix(x: Path, d: Path)
    requires x != []
    ensures |x| == |Parent(x)| + 1
    ensures d <= Parent(x) ==> d <= x
  {
  }

  /** Without a first match, no path of `s` has a matching last element. */
  lemma NoMatchExcludes(s: seq<Path>, pred: string -> bool, g: Path)
    requires FirstMatch(s, pred).None? && pred(Last(g))
    ensures g !in s
  {
  }

  /** A match in a prefix wins; otherwise the first match of the rest. */
  lemma {:induction false} FirstMatchAppend(a: seq<Path>, b: seq<Path>, pred: string -> bool)
    ensures FirstMatch(a + b, pred) == if FirstMatch(a, pred).Some? then FirstMatch(a, pred) else FirstMatch(b, pred)
  {
    if a != [] {
      FirstMatchAppend(a[1..], b, pred);
      assert (a + b)[1..] == a[1..] + b;
    } else {
      assert a + b == b;
    }
  }

  lemma {:induction false} DirsInAppend(t: Tree, d: Path, a: seq<Name>, b: seq<Name>)
    ensures DirsIn(t, d, a + b) == DirsIn(t, d, a) + DirsIn(t, d, b)
    decreases |b|
  {
    if b == [] {
      assert a + b == a;
    } else {
      var b' := b[..|b| - 1];
      var c := b[|b| - 1];
      DirsInAppend(t, d, a, b');
      assert (a + b)[..|a + b| - 1] == a + b' && (a + b)[|a + b| - 1] == c;
      var last := if d + [c] in t && t[d + [c]].Dir? then [d + [c]] else [];
      assert DirsIn(t, d, a + b) == DirsIn(t, d, a + b') + last;
      assert DirsIn(t, d, b) == DirsIn(t, d, b') + last;
      AppendAssoc(DirsIn(t, d, a), DirsIn(t, d, b'), last);
    }
  }

  lemma {:induction false} FilesInAppend(t: Tree, d: Path, a: seq<Name>, b: seq<Name>)
    ensures FilesIn(t, d, a + b) == FilesIn(t, d, a) + FilesIn(t, d, b)
    decreases |b|
  {
    if b == [] {
      assert a + b == a;
    } else {
      var b' := b[..|b| - 1];
      var c := b[|b| - 1];
      FilesInAppend(t, d, a, b');
      assert (a + b)[..|a + b| - 1] == a + b' && (a + b)[|a + b| - 1] == c;
      var last := if d + [c] in t && t[d + [c]].File? then [d + [c]] else [];
      assert FilesIn(t, d, a + b) == FilesIn(t, d, a + b') + last;
      assert FilesIn(t, d, b) == FilesIn(t, d, b') + last;
      AppendAssoc(FilesIn(t, d, a), FilesIn(t, d, b'), last);
    }
  }

  lemma {:induction false} DirsInContains(t: Tree, d: Path, names: seq<Name>, c: Name)
    requires c in names && d + [c] in t && t[d + [c]].Dir?
    ensures d + [c] in DirsIn(t, d, names)
    decreases |names|
  {
    if names[|names| - 1] != c {
      assert c in names[..|names| - 1];
      DirsInContains(t, d, names[..|names| - 1], c);
    }
  }

  lemma {:induction false} FilesInContains(t: Tree, d: Path, names: seq<Name>, c: Name)
    requires c in names && d + [c] in t && t[d + [c]].File?
    ensures d + [c] in FilesIn(t, d, names)
    decreases |names|
  {
    if names[|names| - 1] != c {
      assert c in names[..|names| - 1];
      FilesInContains(t, d, names[..|names| - 1], c);
    }
  }

  lemma {:induction false} NextLevelContains(t: Tree, level: seq<Path>, q: Path, x: Path)
    requires q in level && x in DirChildren(t, q)
    ensures x in NextLevel(t, level)
    decreases |level|
  {
    if level[|level| - 1] != q {
      assert q in level[..|level| - 1];
      NextLevelContains(t, level[..|level| - 1], q, x);
    }
  }

  lemma {:induction false} LevelFilesContains(t: Tree, level: seq<Path>, q: Path, x: Path)
    requires q in level && x in FileChildren(t, q)
    ensures x in LevelFiles(t, level)
    decreases |level|
  {
    if level[0] != q {
      assert q in level[1..];
      LevelFilesContains(t, level[1..], q, x);
    }
  }

  /** Every directory of the subtree of `d` is served by the walk from `d`. */
  lemma {:induction false} DirServed(t: Tree, d: Path, dirs: seq<Path>, p: Path)
    requires ParentsList(t)
    requires dirs == [d] + NextLevel(t, dirs)
    requires d <= p && p in t && t[p].Dir?
    ensures p in dirs
    decreases |p|
  {
    if p != d {
      assert ListedByParent(t, p);
      var q := Parent(p);
      ParentLast(p);
      assert d <= q;
      DirServed(t, d, dirs, q);
      DirsInContains(t, q, t[q].children, p[|p| - 1]);
      NextLevelContains(t, dirs, q, p);
      assert p in NextLevel(t, dirs);
    }
  }

  // ---- What the walk visits -------------------------------------------------------------

  /** The walk visits only files, each under a directory of the starting level, deeper than it. */
  lemma {:induction false} BfsSound(t: Tree, level: seq<Path>, k: nat, d: Path)
    requires IsLevel(t, level, k)
    requires forall i :: 0 <= i < |level| ==> d <= level[i]
    ensures forall x :: x in BfsFiles(t, level, k) ==> x in t && t[x].File? && d <= x && |x| > k
    decreases MaxDepth(t.Keys) + 1 - k
  {
    if level != [] {
      assert |level[0]| == k <= MaxDepth(t.Keys);
      var next := NextLevel(t, level);
      LevelStep(t, level, k, d);
      BfsSound(t, next, k + 1, d);
      var here := LevelFiles(t, level);
      var rest := BfsFiles(t, next, k + 1);
      assert BfsFiles(t, level, k) == here + rest;
      forall x | x in here + rest ensures x in t && t[x].File? && d <= x && |x| > k {
        if x !in here {
          assert x in rest;
        }
      }
    }
  }

  /** One level down from a level at depth `k` under `d`: the next level is a level under `d`, and the files are files under `d`. */
  lemma LevelStep(t: Tree, level: seq<Path>, k: nat, d: Path)
    requires IsLevel(t, level, k)
    requires forall i :: 0 <= i < |level| ==> d <= level[i]
    ensures IsLevel(t, NextLevel(t, level), k + 1)
    ensures forall i :: 0 <= i < |NextLevel(t, level)| ==> d <= NextLevel(t, level)[i]
    ensures forall x :: x in LevelFiles(t, level) ==> x in t && t[x].File? && d <= x && |x| > k
  {
    var next := NextLevel(t, level);
    LevelDepths(t, level, k);
    LevelFilesProps(t, level);
    ChildrenUnder(t, level, d);
    forall i | 0 <= i < |next| ensures d <= next[i] {
      assert next[i] in next;
    }
  }

  /** The subdirectories and files of a level of paths under `d` are under `d`. */
  lemma ChildrenUnder(t: Tree, level: seq<Path>, d: Path)
    requires forall i :: 0 <= i < |level| ==> d <= level[i]
    ensures forall x :: x in NextLevel(t, level) ==> d <= x
    ensures forall x :: x in LevelFiles(t, level) ==> d <= x
  {
    NextLevelProps(t, level);
    LevelFilesProps(t, level);
    forall x | x in NextLevel(t, level) ensures d <= x {
      var j :| 0 <= j < |level| && level[j] == Parent(x);
      ParentPrefix(x, d);
    }
    forall x | x in LevelFiles(t, level) ensures d <= x {
      var j :| 0 <= j < |level| && level[j] == Parent(x);
      ParentPrefix(x, d);
    }
  }

  /** The walk from a directory visits every file of its subtree. */
  lemma BfsComplete(t: Tree, d: Path, f: Path)
    requires WellFormed(t)
    requires d in t && t[d].Dir?
    requires f in t && t[f].File? && d <= f
    ensures f in BfsFiles(t, [d], |d|)
  {
    assert f != d;
    assert ListedByParent(t, f);
    var q := Parent(f);
    ParentLast(f);
    assert d <= q;
    WalkFixpoint(t, d);
    var dirs := BfsDirs(t, [d], |d|);
    DirServed(t, d, dirs, q);
    FilesInContains(t, q, t[q].children, f[|f| - 1]);
    LevelFilesContains(t, dirs, q, f);
    BfsFilesOfDirs(t, [d], |d|);
  }

  /** The files and subdirectories of a level at depth `k` are at depth `k + 1`. */
  lemma LevelDepths(t: Tree, level: seq<Path>, k: nat)
    requires IsLevel(t, level, k)
    ensures IsLevel(t, NextLevel(t, level), k + 1)
    ensures forall x :: x in LevelFiles(t, level) ==> |x| == k + 1
  {
    var next := NextLevel(t, level);
    NextLevelProps(t, level);
    LevelFilesProps(t, level);
    forall i | 0 <= i < |next| ensures |next[i]| == k + 1 {
      assert next[i] in next;
      var j :| 0 <= j < |level| && level[j] == Parent(next[i]);
      ParentPrefix(next[i], []);
    }
    forall x | x in LevelFiles(t, level) ensures |x| == k + 1 {
      var j :| 0 <= j < |level| && level[j] == Parent(x);
      ParentPrefix(x, []);
    }
  }

  /** No matching file the walk visits is shallower than the first one it meets. */
  lemma {:induction false} BfsShallowest(t: Tree, level: seq<Path>, k: nat, pred: string -> bool, g: Path)
    requires IsLevel(t, level, k)
    requires g in BfsFiles(t, level, k) && pred(Last(g))
    ensures FirstMatch(BfsFiles(t, level, k), pred).Some?
    ensures |FirstMatch(BfsFiles(t, level, k), pred).value| <= |g|
    decreases MaxDepth(t.Keys) + 1 - k
  {
    assert |level[0]| == k <= MaxDepth(t.Keys);
    var here := LevelFiles(t, level);
    var next := NextLevel(t, level);
    LevelDepths(t, level, k);
    var rest := BfsFiles(t, next, k + 1);
    assert BfsFiles(t, level, k) == here + rest;
    FirstMatchAppend(here, rest, pred);
    if FirstMatch(here, pred).Some? {
      MatchHereShallower(t, level, k, pred, g);
    } else {
      NoMatchExcludes(here, pred, g);
      BfsShallowest(t, next, k + 1, pred, g);
    }
  }

  /** A match among the files of the first level is no deeper than any file the walk visits. */
  lemma MatchHereShallower(t: Tree, level: seq<Path>, k: nat, pred: string -> bool, g: Path)
    requires IsLevel(t, level, k)
    requires g in BfsFiles(t, level, k)
    requires FirstMatch(LevelFiles(t, level), pred).Some?
    ensures |FirstMatch(LevelFiles(t, level), pred).value| <= |g|
  {
    var here := LevelFiles(t, level);
    LevelDepths(t, level, k);
    var i := FirstMatchIndex(here, pred);
    assert here[i] in here;
    BfsSound(t, level, k, []);
  }

  // ---- One step of the queue-based walk -------------------------------------------------

  /**
   * When the files listed before position `j` of the directory `d` do not match and the
   * file at `j` does, that file is the first match among the files of `d`.
   */
  lemma FoundInDir(t: Tree, d: Path, j: nat, pred: string -> bool)
    requires d in t && t[d].Dir? && j < |t[d].children|
    requires var p := d + [t[d].children[j]];
      p in t && t[p].File? && pred(Last(p))
    requires FirstMatch(FilesIn(t, d, t[d].children[..j]), pred).None?
    ensures FirstMatch(FileChildren(t, d), pred) == Some(d + [t[d].children[j]])
  {
    var names := t[d].children;
    var p := d + [names[j]];
    var before := FilesIn(t, d, names[..j]);
    assert names[..j + 1][..j] == names[..j];
    assert FilesIn(t, d, names[..j + 1]) == before + [p];
    FirstMatchAppend(before, [p], pred);
    assert names[..j + 1] + names[j + 1..] == names;
    FilesInAppend(t, d, names[..j + 1], names[j + 1..]);
    FirstMatchAppend(before + [p], FilesIn(t, d, names[j + 1..]), pred);
  }

  /** One more listed name that is not a matching file keeps the listed files without a match. */
  lemma FilesInStep(t: Tree, d: Path, names: seq<Name>, j: nat, pred: string -> bool)
    requires j < |names|
    requires FirstMatch(FilesIn(t, d, names[..j]), pred).None?
    requires var p := d + [names[j]]; !(p in t && t[p].File? && pred(names[j]))
    ensures FirstMatch(FilesIn(t, d, names[..j + 1]), pred).None?
  {
    var p := d + [names[j]];
    var before := FilesIn(t, d, names[..j]);
    var last := if p in t && t[p].File? then [p] else [];
    assert names[..j + 1][..j] == names[..j] && names[..j + 1][j] == names[j];
    assert FilesIn(t, d, names[..j + 1]) == before + last;
    assert Last(p) == names[j];
    assert FirstMatch(last, pred).None?;
    FirstMatchAppend(before, last, pred);
  }

  /** One more listed name adds its path to the listed directories when it is a directory. */
  lemma DirsInStep(t: Tree, d: Path, names: seq<Name>, j: nat)
    requires j < |names|
    ensures var p := d + [names[j]];
      DirsIn(t, d, names[..j + 1]) == DirsIn(t, d, names[..j]) + (if p in t && t[p].Dir? then [p] else [])
  {
    assert names[..j + 1][..j] == names[..j];
  }

  // ---- The walk as one sequence of directories ------------------------------------------

  lemma {:induction false} NextLevelAppend(t: Tree, a: seq<Path>, b: seq<Path>)
    ensures NextLevel(t, a + b) == NextLevel(t, a) + NextLevel(t, b)
    decreases |b|
  {
    if b == [] {
      assert a + b == a;
    } else {
      var b' := b[..|b| - 1];
      var x := b[|b| - 1];
      NextLevelAppend(t, a, b');
      assert (a + b)[..|a + b| - 1] == a + b';
      assert (a + b)[|a + b| - 1] == x;
      var children := DirChildren(t, x);
      assert NextLevel(t, a + b) == NextLevel(t, a + b') + children;
      assert NextLevel(t, b) == NextLevel(t, b') + children;
      AppendAssoc(NextLevel(t, a), NextLevel(t, b'), children);
    }
  }

  lemma {:induction false} LevelFilesAppend(t: Tree, a: seq<Path>, b: seq<Path>)
    ensures LevelFiles(t, a + b) == LevelFiles(t, a) + LevelFiles(t, b)
    decreases |a|
  {
    if a == [] {
      assert a + b == b;
    } else {
      var a' := a[1..];
      var here := FileChildren(t, a[0]);
      LevelFilesAppend(t, a', b);
      assert (a + b)[0] == a[0] && (a + b)[1..] == a' + b;
      assert LevelFiles(t, a + b) == here + LevelFiles(t, a' + b);
      assert LevelFiles(t, a) == here + LevelFiles(t, a');
      AppendAssoc(here, LevelFiles(t, a'), LevelFiles(t, b));
    }
  }

  /** The files the walk visits are the files of the directories it serves, in order. */
  lemma {:induction false} BfsFilesOfDirs(t: Tree, level: seq<Path>, k: nat)
    requires IsLevel(t, level, k)
    ensures BfsFiles(t, level, k) == LevelFiles(t, BfsDirs(t, level, k))
    decreases MaxDepth(t.Keys) + 1 - k
  {
    if level != [] {
      assert |level[0]| == k <= MaxDepth(t.Keys);
      LevelDepths(t, level, k);
      var next := NextLevel(t, level);
      BfsFilesOfDirs(t, next, k + 1);
      LevelFilesAppend(t, level, BfsDirs(t, next, k + 1));
    }
  }

  /** The subdirectories of the directories the walk serves are what it serves after the first level. */
  lemma {:induction false} BfsDirsChildren(t: Tree, level: seq<Path>, k: nat)
    requires IsLevel(t, level, k)
    ensures IsLevel(t, NextLevel(t, level), k + 1)
    ensures NextLevel(t, BfsDirs(t, level, k)) == BfsDirs(t, NextLevel(t, level), k + 1)
    decreases MaxDepth(t.Keys) + 1 - k
  {
    if level != [] {
      assert |level[0]| == k <= MaxDepth(t.Keys);
      LevelDepths(t, level, k);
      var next := NextLevel(t, level);
      BfsDirsChildren(t, next, k + 1);
      NextLevelAppend(t, level, BfsDirs(t, next, k + 1));
    } else {
      LevelDepths(t, level, k);
      assert NextLevel(t, level) == [];
    }
  }

  /** The walk from `d` serves `d` and then the subdirectories of everything it serves: the FIFO queue's order. */
  lemma WalkFixpoint(t: Tree, d: Path)
    requires d in t && t[d].Dir?
    ensures IsLevel(t, [d], |d|)
    ensures BfsDirs(t, [d], |d|) == [d] + NextLevel(t, BfsDirs(t, [d], |d|))
  {
    LevelDepths(t, [d], |d|);
    BfsDirsChildren(t, [d], |d|);
  }

  /** Every path of a sequence that lists all the subdirectories of its own paths is at least `n` long. */
  lemma {:induction false} SelfChildrenDeep(t: Tree, s: seq<Path>, n: nat)
    requires s == NextLevel(t, s)
    ensures forall x :: x in s ==> |x| >= n
  {
    if n > 0 {
      SelfChildrenDeep(t, s, n - 1);
      NextLevelProps(t, s);
      forall x | x in s ensures |x| >= n {
        assert x in NextLevel(t, s);
        ParentPrefix(x, []);
      }
    }
  }

  /** Only the empty sequence lists all the subdirectories of its own paths. */
  lemma SelfChildrenEmpty(t: Tree, s: seq<Path>)
    requires s == NextLevel(t, s)
    ensures s == []
  {
    if s != [] {
      SelfChildrenDeep(t, s, |s[0]| + 1);
      assert false;
    }
  }

  /**
   * The served directories `dirs` satisfy `dirs == [d] + NextLevel(dirs)`; after serving
   * `m` of them, the queue holds the rest of those enqueued so far, which come next in `dirs`.
   */
  ghost predicate QueueAt(t: Tree, d: Path, dirs: seq<Path>, m: nat, queue: seq<Path>) {
    m <= |dirs| && dirs[..m] + queue == [d] + NextLevel(t, dirs[..m]) && dirs[..m] + queue <= dirs
  }

  lemma QueueStart(t: Tree, d: Path, dirs: seq<Path>)
    requires dirs == [d] + NextLevel(t, dirs)
    ensures QueueAt(t, d, dirs, 0, [d])
  {
    assert dirs[..0] == [];
  }

  /** Serving the head of the queue appends its subdirectories; the queue still runs along `dirs`. */
  lemma QueueStep(t: Tree, d: Path, dirs: seq<Path>, m: nat, queue: seq<Path>)
    requires dirs == [d] + NextLevel(t, dirs)
    requires QueueAt(t, d, dirs, m, queue) && queue != []
    ensures m < |dirs| && queue[0] == dirs[m]
    ensures QueueAt(t, d, dirs, m + 1, queue[1..] + DirChildren(t, dirs[m]))
  {
    var done := dirs[..m];
    QueueHead(done, queue, dirs);
    var x := dirs[m];
    var children := DirChildren(t, x);
    var served := dirs[..m + 1];
    var queue' := queue[1..] + children;
    NextLevelSnoc(t, done, x);
    Requeue(done, queue, children, [d], NextLevel(t, done));
    assert served + queue' == [d] + NextLevel(t, served);
    EnqueuedPrefix(t, d, dirs, m + 1);
  }

  lemma QueueHead<T>(done: seq<T>, queue: seq<T>, s: seq<T>)
    requires done + queue <= s && queue != []
    ensures |done| < |s| && queue[0] == s[|done|] && s[..|done| + 1] == done + [queue[0]]
  {
    assert (done + queue)[|done|] == queue[0];
    assert (done + queue)[..|done| + 1] == done + [queue[0]];
  }

  lemma NextLevelSnoc(t: Tree, level: seq<Path>, x: Path)
    ensures NextLevel(t, level + [x]) == NextLevel(t, level) + DirChildren(t, x)
  {
    assert (level + [x])[..|level|] == level;
  }

  /** What the walk enqueues by the time it has served a prefix of `dirs` is a prefix of `dirs`. */
  lemma EnqueuedPrefix(t: Tree, d: Path, dirs: seq<Path>, n: nat)
    requires dirs == [d] + NextLevel(t, dirs) && n <= |dirs|
    ensures [d] + NextLevel(t, dirs[..n]) <= dirs
  {
    var rest := dirs[n..];
    assert dirs == dirs[..n] + rest;
    NextLevelAppend(t, dirs[..n], rest);
  }

  /** Taking the head off a non-empty queue and appending `extra` extends both sides by `extra`. */
  lemma Requeue<T>(done: seq<T>, queue: seq<T>, extra: seq<T>, head: seq<T>, tail: seq<T>)
    requires queue != [] && done + queue == head + tail
    ensures (done + [queue[0]]) + (queue[1..] + extra) == head + (tail + extra)
  {
    assert queue == [queue[0]] + queue[1..];
    assert (done + [queue[0]]) + (queue[1..] + extra) == (done + queue) + extra;
  }

  /** An empty queue means every directory has been served. */
  lemma QueueDone(t: Tree, d: Path, dirs: seq<Path>, m: nat)
    requires dirs == [d] + NextLevel(t, dirs)
    requires QueueAt(t, d, dirs, m, [])
    ensures dirs[..m] == dirs
  {
    var done := dirs[..m];
    var rest := dirs[m..];
    assert dirs == done + rest;
    NextLevelAppend(t, done, rest);
    assert done + [] == done;
    assert done == [d] + NextLevel(t, done);
    AppendAssocCons(d, NextLevel(t, done), NextLevel(t, rest));
    AppendCancel(done, rest, NextLevel(t, rest));
    SelfChildrenEmpty(t, rest);
  }

  lemma AppendAssoc<T>(a: seq<T>, b: seq<T>, c: seq<T>)
    ensures (a + b) + c == a + (b + c)
  {
  }

  lemma AppendAssocCons<T>(x: T, a: seq<T>, b: seq<T>)
    ensures [x] + (a + b) == ([x] + a) + b
  {
  }

  lemma AppendCancel<T>(a: seq<T>, b: seq<T>, c: seq<T>)
    requires a + b == a + c
    ensures b == c
  {
    assert b == (a + b)[|a|..];
    assert c == (a + c)[|a|..];
  }

  /** The served directories are directories of the tree. */
  lemma ServedAreDirs(t: Tree, d: Path, dirs: seq<Path>, m: nat)
    requires d in t && t[d].Dir?
    requires dirs == [d] + NextLevel(t, dirs) && m < |dirs|
    ensures dirs[m] in t && t[dirs[m]].Dir?
  {
    if m > 0 {
      NextLevelProps(t, dirs);
      assert dirs[m] == NextLevel(t, dirs)[m - 1];
      assert dirs[m] in NextLevel(t, dirs);
    }
  }

  /** Without a match in the first `m` directories, a match among the files of the next one is the walk's first. */
  lemma FirstMatchAt(t: Tree, dirs: seq<Path>, m: nat, pred: string -> bool)
    requires m < |dirs|
    requires FirstMatch(LevelFiles(t, dirs[..m]), pred).None?
    ensures FirstMatch(LevelFiles(t, dirs[..m + 1]), pred) == FirstMatch(FileChildren(t, dirs[m]), pred)
    ensures FirstMatch(FileChildren(t, dirs[m]), pred).Some? ==>
      FirstMatch(LevelFiles(t, dirs), pred) == FirstMatch(FileChildren(t, dirs[m]), pred)
  {
    var done := dirs[..m];
    var upto := dirs[..m + 1];
    var here := FileChildren(t, dirs[m]);
    assert upto == done + [dirs[m]];
    LevelFilesSnoc(t, done, dirs[m]);
    FirstMatchAppend(LevelFiles(t, done), here, pred);
    assert FirstMatch(LevelFiles(t, upto), pred) == FirstMatch(here, pred);
    if FirstMatch(here, pred).Some? {
      FirstMatchPrefix(t, dirs, m + 1, pred);
    }
  }

  /** A match among the files of the first `n` directories is the first match among the files of all. */
  lemma FirstMatchPrefix(t: Tree, dirs: seq<Path>, n: nat, pred: string -> bool)
    requires n <= |dirs| && FirstMatch(LevelFiles(t, dirs[..n]), pred).Some?
    ensures FirstMatch(LevelFiles(t, dirs), pred) == FirstMatch(LevelFiles(t, dirs[..n]), pred)
  {
    var upto := dirs[..n];
    var rest := dirs[n..];
    assert dirs == upto + rest;
    LevelFilesAppend(t, upto, rest);
    FirstMatchAppend(LevelFiles(t, upto), LevelFiles(t, rest), pred);
  }

  lemma LevelFilesSnoc(t: Tree, level: seq<Path>, x: Path)
    ensures LevelFiles(t, level + [x]) == LevelFiles(t, level) + FileChildren(t, x)
  {
    LevelFilesAppend(t, level, [x]);
    assert LevelFiles(t, [x]) == FileChildren(t, x) + LevelFiles(t, []);
  }
}
