/**
 * What the gallery's pages are built from (getWebData and the /fs handler in pc/main.go):
 * one record per entry of a directory listing, sorted stably by the number-first order of
 * the entries' file names, then split into directory buttons and image URLs.
 */
module Listing {
  import opened Wrappers
  import opened Strings
  import opened Paths
  import opened FileSystem
  import opened Search
  import opened Core
  import opened Ordering

  /** One entry as a page shows it. */
  datatype WebData = WebData(isDir: bool, imageUrl: string, title: string, subpath: string, fileName: string)

  /**
   * The record for the entry `fi`: its cleaned rooted subpath as title (the page label) and subpath, the last
   * element as file name; a directory shows the first image the recursive finder reaches
   * below it, relative to the root, and a file shows itself under "/file".
   */
  function WebDataOf(fs: DirFileSystem, t: Tree, fi: FileInfo, randStr: string): WebData {
    var sub := Rooted(fi.subpath);
    var url :=
      if fi.isDir then
        match fs.FindRecursiveSpec(t, fi.subpath, IsImageName)
        case None => ""
        case Some(img) => Joined(img.subpath) + "?" + randStr
      else Rooted(["file"] + fi.subpath) + "?" + randStr;
    WebData(fi.isDir, url, sub, sub, Last(fi.subpath))
  }

  /** The record of each entry, in listing order. */
  function WebDatas(fs: DirFileSystem, t: Tree, fis: seq<FileInfo>, randStr: string): (r: seq<WebData>)
    ensures |r| == |fis|
    decreases |fis|
  {
    if fis == [] then []
    else WebDatas(fs, t, fis[..|fis| - 1], randStr) + [WebDataOf(fs, t, fis[|fis| - 1], randStr)]
  }

  /** The comparison the stable sort is given. */
  predicate Less(a: WebData, b: WebData) {
    NumberFirstLess(a.fileName, b.fileName)
  }

  predicate Sorted(s: seq<WebData>) {
    forall i, j :: 0 <= i < j < |s| ==> !Less(s[j], s[i])
  }

  /** The entries of `s` whose file names have the key `k`, in order. */
  function WithKey(s: seq<WebData>, k: SortKey): seq<WebData> {
    if s == [] then []
    else (if KeyOf(s[0].fileName) == k then [s[0]] else []) + WithKey(s[1..], k)
  }

  /** Places `x` in front of the first entry of `s` that does not precede it. */
  function Insert(x: WebData, s: seq<WebData>): seq<WebData> {
    if s == [] || !Less(s[0], x) then [x] + s
    else [s[0]] + Insert(x, s[1..])
  }

  /** sort.SliceStable with Less, as an insertion sort. */
  function SortStable(s: seq<WebData>): seq<WebData> {
    if s == [] then [] else Insert(s[0], SortStable(s[1..]))
  }

  lemma {:induction false} InsertPermutes(x: WebData, s: seq<WebData>)
    ensures multiset(Insert(x, s)) == multiset{x} + multiset(s)
  {
    if s != [] && Less(s[0], x) {
      InsertPermutes(x, s[1..]);
      assert s == [s[0]] + s[1..];
    }
  }

  lemma {:induction false} InsertSorted(x: WebData, s: seq<WebData>)
    requires Sorted(s)
    ensures Sorted(Insert(x, s))
  {
    if s == [] {
    } else if !Less(s[0], x) {
      forall j | 0 < j < |s|
        ensures !Less(s[j], x)
      {
        NumberFirstNotLessTransitive(s[j].fileName, s[0].fileName, x.fileName);
      }
      ConsSorted(x, s);
    } else {
      var rest := Insert(x, s[1..]);
      InsertSorted(x, s[1..]);
      InsertPermutes(x, s[1..]);
      InsertedAfter(x, s, rest);
      ConsSorted(s[0], rest);
    }
  }

  /** An entry that no entry of a sorted sequence precedes can go in front of it. */
  lemma ConsSorted(y: WebData, s: seq<WebData>)
    requires Sorted(s)
    requires forall j :: 0 <= j < |s| ==> !Less(s[j], y)
    ensures Sorted([y] + s)
  {
    var r := [y] + s;
    assert forall j :: 0 < j < |r| ==> r[j] == s[j - 1];
    assert r[0] == y;
  }

  /** When the head of a sorted `s` precedes `x`, nothing of `x` and the rest of `s` precedes the head. */
  lemma InsertedAfter(x: WebData, s: seq<WebData>, rest: seq<WebData>)
    requires Sorted(s) && s != [] && Less(s[0], x)
    requires multiset(rest) == multiset{x} + multiset(s[1..])
    ensures forall j :: 0 <= j < |rest| ==> !Less(rest[j], s[0])
  {
    forall j | 0 <= j < |rest|
      ensures !Less(rest[j], s[0])
    {
      assert rest[j] in multiset(rest);
      if rest[j] == x {
        if Less(x, s[0]) {
          NumberFirstTransitive(x.fileName, s[0].fileName, x.fileName);
          NumberFirstIrreflexive(x.fileName);
        }
      } else {
        assert rest[j] in multiset(s[1..]);
        var m :| 0 <= m < |s[1..]| && s[1..][m] == rest[j];
        assert s[m + 1] == rest[j];
      }
    }
  }

  /** Inserting `x` adds it in front of the entries of its key and leaves the other keys' entries alone. */
  lemma {:induction false} InsertWithKey(x: WebData, s: seq<WebData>, k: SortKey)
    ensures WithKey(Insert(x, s), k) == if KeyOf(x.fileName) == k then [x] + WithKey(s, k) else WithKey(s, k)
  {
    if s == [] || !Less(s[0], x) {
      InsertFrontWithKey(x, s, k);
    } else {
      var rest := Insert(x, s[1..]);
      InsertWithKey(x, s[1..], k);
      NumberFirstEquivalent(s[0].fileName, x.fileName);
      assert KeyOf(s[0].fileName) != KeyOf(x.fileName);
      assert ([s[0]] + rest)[1..] == rest;
      assert WithKey(Insert(x, s), k) == (if KeyOf(s[0].fileName) == k then [s[0]] else []) + WithKey(rest, k);
    }
  }

  lemma InsertFrontWithKey(x: WebData, s: seq<WebData>, k: SortKey)
    requires s == [] || !Less(s[0], x)
    ensures WithKey(Insert(x, s), k) == if KeyOf(x.fileName) == k then [x] + WithKey(s, k) else WithKey(s, k)
  {
    assert Insert(x, s) == [x] + s;
    assert ([x] + s)[1..] == s;
  }

  /** The sort returns the same entries, sorted, with the entries of every key in their original order. */
  lemma SortStableCorrect(s: seq<WebData>)
    ensures multiset(SortStable(s)) == multiset(s)
    ensures Sorted(SortStable(s))
    ensures forall k :: WithKey(SortStable(s), k) == WithKey(s, k)
  {
    SortStablePermutes(s);
    SortStableSorted(s);
    forall k ensures WithKey(SortStable(s), k) == WithKey(s, k) {
      SortStableWithKey(s, k);
    }
  }

  lemma {:induction false} SortStablePermutes(s: seq<WebData>)
    ensures multiset(SortStable(s)) == multiset(s)
  {
    if s != [] {
      SortStablePermutes(s[1..]);
      InsertPermutes(s[0], SortStable(s[1..]));
      assert s == [s[0]] + s[1..];
    }
  }

  lemma {:induction false} SortStableSorted(s: seq<WebData>)
    ensures Sorted(SortStable(s))
  {
    if s != [] {
      SortStableSorted(s[1..]);
      InsertSorted(s[0], SortStable(s[1..]));
    }
  }

  lemma {:induction false} SortStableWithKey(s: seq<WebData>, k: SortKey)
    ensures WithKey(SortStable(s), k) == WithKey(s, k)
  {
    if s != [] {
      SortStableWithKey(s[1..], k);
      InsertWithKey(s[0], SortStable(s[1..]), k);
    }
  }

  lemma SortStableLength(s: seq<WebData>)
    ensures |SortStable(s)| == |s|
  {
    SortStableCorrect(s);
    assert |SortStable(s)| == |multiset(SortStable(s))| == |multiset(s)| == |s|;
  }

  /**
   * getWebData: one record per entry of the listing of `sub`, appended in listing order,
   * then sorted stably.
   */
  method GetWebData(fs: DirFileSystem, t: Tree, sub: Path, randStr: string) returns (wds: seq<WebData>)
    ensures wds == SortStable(WebDatas(fs, t, fs.DirContents(t, sub), randStr))
    ensures multiset(wds) == multiset(WebDatas(fs, t, fs.DirContents(t, sub), randStr))
    ensures |wds| == |fs.DirContents(t, sub)|
    ensures Sorted(wds)
    ensures forall k :: WithKey(wds, k) == WithKey(WebDatas(fs, t, fs.DirContents(t, sub), randStr), k)
  {
    var fis := fs.GetDirContents(t, sub);
    var records := RecordsOf(fs, t, fis, randStr);
    wds := SortStable(records);
    SortStableCorrect(records);
    SortStableLength(records);
  }

  /** The loop of getWebData that turns each entry into its record, in listing order. */
  method RecordsOf(fs: DirFileSystem, t: Tree, fis: seq<FileInfo>, randStr: string) returns (records: seq<WebData>)
    ensures records == WebDatas(fs, t, fis, randStr)
  {
    records := [];
    var i := 0;
    while i < |fis|
      invariant 0 <= i <= |fis|
      invariant records == WebDatas(fs, t, fis[..i], randStr)
    {
      WebDatasSnoc(fs, t, fis, i, randStr);
      records := records + [WebDataOf(fs, t, fis[i], randStr)];
      i := i + 1;
    }
    assert fis[..i] == fis;
  }

  lemma WebDatasSnoc(fs: DirFileSystem, t: Tree, fis: seq<FileInfo>, i: nat, randStr: string)
    requires i < |fis|
    ensures WebDatas(fs, t, fis[..i + 1], randStr) == WebDatas(fs, t, fis[..i], randStr) + [WebDataOf(fs, t, fis[i], randStr)]
  {
    assert fis[..i + 1][..i] == fis[..i];
  }

  /** The directory records, in order. */
  function Buttons(wds: seq<WebData>): seq<WebData> {
    if wds == [] then []
    else (if wds[0].isDir then [wds[0]] else []) + Buttons(wds[1..])
  }

  /** One "/file/" URL per file record, in order. */
  function ImageUrls(wds: seq<WebData>): seq<string> {
    if wds == [] then []
    else (if wds[0].isDir then [] else ["/file/" + wds[0].subpath]) + ImageUrls(wds[1..])
  }

  /** The /fs handler's partition of the sorted records into buttons and image URLs. */
  method SplitButtons(wds: seq<WebData>) returns (buttons: seq<WebData>, imageUrls: seq<string>)
    ensures buttons == Buttons(wds) && imageUrls == ImageUrls(wds)
    ensures |buttons| + |imageUrls| == |wds|
    ensures forall w :: w in buttons <==> w in wds && w.isDir
    ensures Sorted(wds) ==> Sorted(buttons)
  {
    buttons := [];
    imageUrls := [];
    var i := 0;
    while i < |wds|
      invariant 0 <= i <= |wds|
      invariant buttons == Buttons(wds[..i]) && imageUrls == ImageUrls(wds[..i])
    {
      ButtonsSnoc(wds[..i], wds[i]);
      ImageUrlsSnoc(wds[..i], wds[i]);
      assert wds[..i + 1] == wds[..i] + [wds[i]];
      if wds[i].isDir {
        buttons := buttons + [wds[i]];
      } else {
        imageUrls := imageUrls + ["/file/" + wds[i].subpath];
      }
      i := i + 1;
    }
    assert wds[..i] == wds;
    ButtonsCount(wds);
    ButtonsMembers(wds);
    if Sorted(wds) {
      ButtonsSorted(wds);
    }
  }

  lemma {:induction false} ButtonsSnoc(s: seq<WebData>, w: WebData)
    ensures Buttons(s + [w]) == Buttons(s) + (if w.isDir then [w] else [])
  {
    if s == [] {
      assert [w][1..] == [];
    } else {
      var sw := s + [w];
      assert sw[0] == s[0] && sw[1..] == s[1..] + [w];
      ButtonsSnoc(s[1..], w);
      var head := if s[0].isDir then [s[0]] else [];
      assert Buttons(sw) == head + Buttons(s[1..] + [w]);
      AppendAssoc(head, Buttons(s[1..]), if w.isDir then [w] else []);
    }
  }

  lemma {:induction false} ImageUrlsSnoc(s: seq<WebData>, w: WebData)
    ensures ImageUrls(s + [w]) == ImageUrls(s) + (if w.isDir then [] else ["/file/" + w.subpath])
  {
    if s == [] {
      assert [w][1..] == [];
    } else {
      var sw := s + [w];
      assert sw[0] == s[0] && sw[1..] == s[1..] + [w];
      ImageUrlsSnoc(s[1..], w);
      var head := if s[0].isDir then [] else ["/file/" + s[0].subpath];
      assert ImageUrls(sw) == head + ImageUrls(s[1..] + [w]);
      AppendAssoc(head, ImageUrls(s[1..]), if w.isDir then [] else ["/file/" + w.subpath]);
    }
  }

  lemma {:induction false} ButtonsCount(s: seq<WebData>)
    ensures |Buttons(s)| + |ImageUrls(s)| == |s|
  {
    if s != [] {
      ButtonsCount(s[1..]);
    }
  }

  lemma {:induction false} ButtonsMembers(s: seq<WebData>)
    ensures forall w :: w in Buttons(s) <==> w in s && w.isDir
  {
    if s != [] {
      ButtonsMembers(s[1..]);
      assert s == [s[0]] + s[1..];
    }
  }

  /** Keeping the directories of a sorted sequence keeps it sorted. */
  lemma {:induction false} ButtonsSorted(s: seq<WebData>)
    requires Sorted(s)
    ensures Sorted(Buttons(s))
  {
    if s != [] {
      ButtonsSorted(s[1..]);
      ButtonsMembers(s[1..]);
      var rest := Buttons(s[1..]);
      if s[0].isDir {
        forall j | 0 <= j < |rest|
          ensures !Less(rest[j], s[0])
        {
          assert rest[j] in s[1..];
        }
      }
    }
  }

  /** The file name of a record is the last slash-separated element of its subpath. */
  lemma FileNameIsBase(fs: DirFileSystem, t: Tree, fi: FileInfo, randStr: string)
    ensures BaseName(WebDataOf(fs, t, fi, randStr).subpath) == WebDataOf(fs, t, fi, randStr).fileName
  {
    BaseNameRooted(fi.subpath);
  }

  /** A directory record shows no image exactly when no file below the directory has an image name. */
  lemma DirectoryWithoutImage(fs: DirFileSystem, t: Tree, fi: FileInfo, randStr: string)
    requires WellFormed(t) && fi.isDir
    requires fs.FullPath(fi.subpath) in t && t[fs.FullPath(fi.subpath)].Dir?
    ensures WebDataOf(fs, t, fi, randStr).imageUrl == "" <==>
      forall f :: f in t && t[f].File? && fs.FullPath(fi.subpath) <= f ==> !IsImageName(Last(f))
  {
    FindRecursiveNoneIff(fs, t, fi.subpath, IsImageName);
    var r := fs.FindRecursiveSpec(t, fi.subpath, IsImageName);
    if r.Some? {
      var url := Joined(r.value.subpath) + "?" + randStr;
      assert url[|url| - |randStr| - 1] == '?';
    }
  }

  /**
   * Otherwise it shows a file below the directory that has an image name, by its path
   * relative to the root, followed by "?" and the random suffix.
   */
  lemma DirectoryImage(fs: DirFileSystem, t: Tree, fi: FileInfo, randStr: string)
    requires WellFormed(t) && fi.isDir
    requires fs.FullPath(fi.subpath) in t && t[fs.FullPath(fi.subpath)].Dir?
    requires WebDataOf(fs, t, fi, randStr).imageUrl != ""
    ensures exists img: Path ::
      && WebDataOf(fs, t, fi, randStr).imageUrl == Joined(img) + "?" + randStr
      && fs.FullPath(img) in t && t[fs.FullPath(img)].File? && fi.subpath < img && IsImageName(Last(img))
  {
    var r := fs.FindRecursiveSpec(t, fi.subpath, IsImageName);
    assert r.Some?;
    var img := r.value;
    FindRecursiveFound(fs, t, fi.subpath, IsImageName);
    LastAppend(fs.dirPath, img.subpath);
    assert WebDataOf(fs, t, fi, randStr).imageUrl == Joined(img.subpath) + "?" + randStr;
  }

  /** A file record shows the file under "/file", then "?" and the random suffix. */
  lemma FileImage(fs: DirFileSystem, t: Tree, fi: FileInfo, randStr: string)
    requires !fi.isDir && fi.subpath != []
    ensures WebDataOf(fs, t, fi, randStr).imageUrl == "/file" + WebDataOf(fs, t, fi, randStr).subpath + "?" + randStr
  {
    var p := ["file"] + fi.subpath;
    assert p[..1] == ["file"] && p[1..] == fi.subpath;
    JoinedCons("file", fi.subpath);
  }
}
