/**
 * The thumbnail cache (pc/core/thumbnail.go): a thumbnail lives under the root's ".thumbnail"
 * directory at the image's own subpath. A present thumbnail is served as is; otherwise the
 * image is decoded, and when it is wider than 200 pixels it is scaled to that width and
 * written as the thumbnail; in every other case the original is served.
 */
module Thumbnail {
  import opened Wrappers
  import opened Paths
  import opened FileSystem
  import opened Core

  const ThumbnailDirName: Name := ".thumbnail"
  const ThumbnailWidth: nat := 200

  /** What the caller is shown: a path to serve, or nothing because log.Fatal ended the process. */
  datatype Outcome = Shown(path: Path) | Halted

  /** The ifErr callback: log.Fatal, or carrying on. */
  datatype OnError = Fatal | Continue

  /** The outcome of an operation together with the disk it leaves. */
  datatype Step = Step(outcome: Outcome, disk: Tree)

  /** A raster's size. */
  datatype Size = Size(width: nat, height: nat)

  /** Where the thumbnail of `sub` lives: the root, then ".thumbnail", then `sub`. */
  function ThumbnailPath(fs: DirFileSystem, sub: Path): Path {
    fs.dirPath + [ThumbnailDirName] + sub
  }

  /** Different subpaths have different thumbnails. */
  lemma ThumbnailPathInjective(fs: DirFileSystem, a: Path, b: Path)
    requires ThumbnailPath(fs, a) == ThumbnailPath(fs, b)
    ensures a == b
  {
    var n := |fs.dirPath| + 1;
    assert a == ThumbnailPath(fs, a)[n..];
    assert b == ThumbnailPath(fs, b)[n..];
  }

  /** readAsImage: the size of a file that decodes as a raster, or nothing. */
  function Decode(t: Tree, p: Path): (r: Option<Size>)
    ensures r.Some? <==> p in t && t[p].File? && t[p].content.Raster?
  {
    if p in t && t[p].File? && t[p].content.Raster? then
      Some(Size(t[p].content.width, t[p].content.height))
    else None
  }

  /** resizeImage: the raster scaled to `newWidth`; the height is computed in floating point and given. */
  function ResizeImage(newWidth: nat, newHeight: nat): (c: Content)
    ensures c.Raster? && c.width == newWidth
  {
    Raster(newWidth, newHeight)
  }

  /** What ifErr leaves the caller with: the process ends, or the original is shown. */
  function Fail(onError: OnError, src: Path): Outcome {
    if onError == Fatal then Halted else Shown(src)
  }

  /** createThumbnailFile: whether both steps succeeded, and the disk after them. */
  function CreateThumbnailFileSpec(t: Tree, dest: Path): (r: (bool, Tree))
    requires WellFormed(t)
    ensures WellFormed(r.1)
  {
    match MkdirAll(t, Parent(dest))
    case None => (false, t)
    case Some(u) =>
      match Create(u, dest)
      case None => (false, u)
      case Some(v) => (true, v)
  }

  /** toJpeg with the decoder's answer read from the disk, and the encoder's success and the scaled height given. */
  function ToJpegSpec(t: Tree, src: Path, dest: Path, onError: OnError, encodeOk: bool, newHeight: nat): (r: Step)
    requires WellFormed(t)
    ensures WellFormed(r.disk)
  {
    match Decode(t, src)
    case None => Step(Fail(onError, src), t)
    case Some(size) =>
      if size.width <= ThumbnailWidth then Step(Shown(src), t)
      else
        var (created, u) := CreateThumbnailFileSpec(t, dest);
        if !created then Step(Fail(onError, src), u)
        else if encodeOk then Step(Shown(dest), WriteFile(u, dest, ResizeImage(ThumbnailWidth, newHeight)))
        else Step(Fail(onError, src), u)
  }

  /** createThumbnailFile: makes the parent directories of `dest`, then creates `dest` empty. */
  method CreateThumbnailFile(h: Host, dest: Path) returns (ok: bool)
    requires h.Valid()
    modifies h
    ensures h.Valid()
    ensures (ok, h.disk) == CreateThumbnailFileSpec(old(h.disk), dest)
    ensures h.inputCwebpFlags == old(h.inputCwebpFlags) && h.decoded == old(h.decoded) && h.transcoded == old(h.transcoded)
  {
    var dirs := MkdirAll(h.disk, Parent(dest));
    if dirs.None? {
      return false;
    }
    h.disk := dirs.value;
    var created := Create(h.disk, dest);
    if created.None? {
      return false;
    }
    h.disk := created.value;
    return true;
  }

  /** toJpeg: serves `src` or writes its thumbnail to `dest` and serves that. */
  method ToJpeg(h: Host, src: Path, dest: Path, onError: OnError, encodeOk: bool, newHeight: nat) returns (o: Outcome)
    requires h.Valid()
    modifies h
    ensures h.Valid()
    ensures Step(o, h.disk) == ToJpegSpec(old(h.disk), src, dest, onError, encodeOk, newHeight)
    ensures h.decoded == old(h.decoded) + [src]
    ensures h.inputCwebpFlags == old(h.inputCwebpFlags) && h.transcoded == old(h.transcoded)
  {
    var size := Decode(h.disk, src);
    h.decoded := h.decoded + [src];
    if size.None? {
      return Fail(onError, src);
    }
    if size.value.width <= ThumbnailWidth {
      return Shown(src);
    }
    var created := CreateThumbnailFile(h, dest);
    if !created {
      return Fail(onError, src);
    }
    var img := ResizeImage(ThumbnailWidth, newHeight);
    if !encodeOk {
      return Fail(onError, src);
    }
    h.disk := WriteFile(h.disk, dest, img);
    return Shown(dest);
  }

  /**
   * FindThumbnail: a node already at the thumbnail path is served without decoding anything;
   * otherwise toJpeg runs with log.Fatal as its error handler.
   */
  method FindThumbnail(h: Host, fs: DirFileSystem, full: Path, sub: Path, encodeOk: bool, newHeight: nat) returns (o: Outcome)
    requires h.Valid()
    modifies h
    ensures h.Valid()
    ensures var dest := ThumbnailPath(fs, sub);
      if dest in old(h.disk) then
        o == Shown(dest) && h.disk == old(h.disk) && h.decoded == old(h.decoded)
      else
        Step(o, h.disk) == ToJpegSpec(old(h.disk), full, dest, Fatal, encodeOk, newHeight)
        && h.decoded == old(h.decoded) + [full]
    ensures h.inputCwebpFlags == old(h.inputCwebpFlags) && h.transcoded == old(h.transcoded)
  {
    var dest := ThumbnailPath(fs, sub);
    if dest in h.disk {
      return Shown(dest);
    }
    o := ToJpeg(h, full, dest, Fatal, encodeOk, newHeight);
  }

  /**
   * Two lookups of the same subpath: once the first has shown the thumbnail, the second shows it
   * too, from the cache, without decoding the image again.
   */
  method FindThumbnailTwice(h: Host, fs: DirFileSystem, full: Path, sub: Path, encodeOk: bool, newHeight: nat)
    returns (first: Outcome, second: Outcome)
    requires h.Valid()
    modifies h
    ensures h.Valid()
    ensures first == Shown(ThumbnailPath(fs, sub)) ==> second == first
    ensures first == Shown(ThumbnailPath(fs, sub)) ==> |h.decoded| <= |old(h.decoded)| + 1
  {
    var dest := ThumbnailPath(fs, sub);
    ghost var t := h.disk;
    first := FindThumbnail(h, fs, full, sub, encodeOk, newHeight);
    if first == Shown(dest) && dest !in t && full != dest {
      ToJpegWritten(t, full, dest, Fatal, encodeOk, newHeight);
    }
    second := FindThumbnail(h, fs, full, sub, encodeOk, newHeight);
  }

  /** toJpeg shows the original or the thumbnail, and ends the process only under log.Fatal. */
  lemma ToJpegShows(t: Tree, src: Path, dest: Path, onError: OnError, encodeOk: bool, newHeight: nat)
    requires WellFormed(t)
    ensures var o := ToJpegSpec(t, src, dest, onError, encodeOk, newHeight).outcome;
      (o == Shown(src) || o == Shown(dest) || o == Halted) && (o == Halted ==> onError == Fatal)
  {
  }

  /**
   * Under log.Fatal, toJpeg ends the process exactly on its error paths: the source does not
   * decode, or it is wider than 200 pixels and the file cannot be made or the encode fails.
   */
  lemma ToJpegHaltsIff(t: Tree, src: Path, dest: Path, encodeOk: bool, newHeight: nat)
    requires WellFormed(t)
    ensures ToJpegSpec(t, src, dest, Fatal, encodeOk, newHeight).outcome == Halted <==>
      Decode(t, src).None? ||
      (Decode(t, src).value.width > ThumbnailWidth && !(CreateThumbnailFileSpec(t, dest).0 && encodeOk))
  {
  }

  /** An image at most 200 pixels wide is shown as it is, and the disk is left alone. */
  lemma ToJpegNarrow(t: Tree, src: Path, dest: Path, onError: OnError, encodeOk: bool, newHeight: nat)
    requires WellFormed(t)
    requires Decode(t, src).Some? && Decode(t, src).value.width <= ThumbnailWidth
    ensures ToJpegSpec(t, src, dest, onError, encodeOk, newHeight) == Step(Shown(src), t)
  {
  }

  /**
   * When the thumbnail is shown it is a 200-pixel-wide raster at `dest`, written after its parent
   * directory was made; so a second lookup of the same subpath takes the cache-hit branch.
   */
  lemma ToJpegWritten(t: Tree, src: Path, dest: Path, onError: OnError, encodeOk: bool, newHeight: nat)
    requires WellFormed(t)
    requires ToJpegSpec(t, src, dest, onError, encodeOk, newHeight).outcome == Shown(dest)
    requires dest != src
    ensures var u := ToJpegSpec(t, src, dest, onError, encodeOk, newHeight).disk;
      && dest in u && u[dest] == File(Raster(ThumbnailWidth, newHeight))
      && dest != [] && Parent(dest) in u && u[Parent(dest)].Dir?
      && Decode(t, src).Some? && Decode(t, src).value.width > ThumbnailWidth && encodeOk
  {
    var u := ToJpegSpec(t, src, dest, onError, encodeOk, newHeight).disk;
    assert WellFormed(u) && dest in u;
    assert dest != [] by {
      var (created, v) := CreateThumbnailFileSpec(t, dest);
      assert created;
    }
    assert ListedByParent(u, dest);
  }

  /**
   * A source wider than 200 pixels whose thumbnail file can be made and encoded is shown as
   * its thumbnail, a 200-pixel-wide raster written at `dest`.
   */
  lemma ToJpegGenerates(t: Tree, src: Path, dest: Path, onError: OnError, newHeight: nat)
    requires WellFormed(t)
    requires Decode(t, src).Some? && Decode(t, src).value.width > ThumbnailWidth
    requires CreateThumbnailFileSpec(t, dest).0
    ensures var r := ToJpegSpec(t, src, dest, onError, true, newHeight);
      r.outcome == Shown(dest) && dest in r.disk && r.disk[dest] == File(Raster(ThumbnailWidth, newHeight))
  {
  }

  /**
   * For a thumbnail path other than the source, the thumbnail is shown exactly when the source
   * decodes, is wider than 200 pixels, and the thumbnail file is made and encoded.
   */
  lemma ToJpegShowsThumbnailIff(t: Tree, src: Path, dest: Path, onError: OnError, encodeOk: bool, newHeight: nat)
    requires WellFormed(t) && src != dest
    ensures ToJpegSpec(t, src, dest, onError, encodeOk, newHeight).outcome == Shown(dest) <==>
      && Decode(t, src).Some? && Decode(t, src).value.width > ThumbnailWidth
      && CreateThumbnailFileSpec(t, dest).0 && encodeOk
  {
  }

  /**
   * A failed encode leaves the empty file it was writing to at `dest`, and the original is
   * shown (or the process ends).
   */
  lemma ToJpegEncodeFails(t: Tree, src: Path, dest: Path, onError: OnError, newHeight: nat)
    requires WellFormed(t)
    requires Decode(t, src).Some? && Decode(t, src).value.width > ThumbnailWidth
    requires CreateThumbnailFileSpec(t, dest).0
    ensures var r := ToJpegSpec(t, src, dest, onError, false, newHeight);
      r.outcome == Fail(onError, src) && dest in r.disk && r.disk[dest] == File(Bytes)
  {
  }

  /** The cache only adds: every file but `dest` keeps its content and every directory its children. */
  lemma ToJpegOnlyAdds(t: Tree, src: Path, dest: Path, onError: OnError, encodeOk: bool, newHeight: nat)
    requires WellFormed(t)
    ensures var u := ToJpegSpec(t, src, dest, onError, encodeOk, newHeight).disk;
      && t.Keys <= u.Keys
      && (forall p :: p in t && p != dest && t[p].File? ==> u[p] == t[p])
      && (forall p :: p in t && t[p].Dir? ==> u[p].Dir? && multiset(t[p].children) <= multiset(u[p].children))
  {
    var u := ToJpegSpec(t, src, dest, onError, encodeOk, newHeight).disk;
    var d := Decode(t, src);
    if d.Some? && d.value.width > ThumbnailWidth {
      var dirs := MkdirAll(t, Parent(dest));
      if dirs.Some? {
        var made := dirs.value;
        assert ExtendsBut(t, made, dest);
        var v := Create(made, dest);
        if v.Some? {
          ExtendsButTrans(t, made, v.value, dest);
          if encodeOk {
            var w := WriteFile(v.value, dest, ResizeImage(ThumbnailWidth, newHeight));
            assert ExtendsBut(v.value, w, dest);
            ExtendsButTrans(t, v.value, w, dest);
          }
        }
      }
    }
    assert ExtendsBut(t, u, dest);
  }

  /** Making the directories fails exactly when a prefix of the parent of `dest` is a file. */
  lemma CreateThumbnailFileFails(t: Tree, dest: Path)
    requires WellFormed(t)
    ensures MkdirAll(t, Parent(dest)).None? ==> !CreateThumbnailFileSpec(t, dest).0
    ensures HasFilePrefix(t, Parent(dest)) <==> MkdirAll(t, Parent(dest)).None?
  {
    MkdirAllFails(t, Parent(dest));
  }
}
