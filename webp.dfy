/**
 * The WebP cache (pc/core/webp.go): an image's WebP copy lives under the root's ".thumbnail"
 * directory at the image's subpath with its final extension replaced by ".webp". A present
 * copy is served as is; otherwise the cwebp transcoder is run with the user's flags, or with
 * "-q 50" when there are none, and its output is served when it succeeds.
 */
module Webp {
  import opened Wrappers
  import opened Strings
  import opened Paths
  import opened FileSystem
  import opened Core
  import opened Thumbnail

  /** A name's stem followed by ".webp". */
  function WebpName(name: string): (n: Name)
    requires '/' !in name
  {
    var stem := StripExt(name);
    assert stem == name[..|stem|];
    stem + ".webp"
  }

  /** Where the WebP copy of `sub` lives: under ".thumbnail", at `sub` with its last element renamed. */
  function WebpPath(fs: DirFileSystem, sub: Path): Path {
    fs.dirPath + [ThumbnailDirName] + Parent(sub) + [WebpName(Last(sub))]
  }

  /** The copy's name has the extension ".webp" and keeps the stem of the original. */
  lemma WebpNameExt(name: string)
    requires '/' !in name
    ensures Ext(WebpName(name)) == ".webp" && StripExt(WebpName(name)) == StripExt(name)
  {
    ExtOfDotted(StripExt(name), "webp");
    assert StripExt(name) + "." + "webp" == WebpName(name);
  }

  /** A name without an extension just gains ".webp"; renaming a copy again changes nothing. */
  lemma WebpNameCases(name: string)
    requires '/' !in name
    ensures '.' !in name ==> WebpName(name) == name + ".webp"
    ensures WebpName(WebpName(name)) == WebpName(name)
  {
    if '.' !in name {
      ExtNone(name);
    }
    WebpNameExt(name);
  }

  /** Images `stem.e1` and `stem.e2` that differ only in their final extension share one WebP copy, `stem.webp`. */
  lemma WebpPathShared(fs: DirFileSystem, dir: Path, stem: string, e1: string, e2: string, n1: Name, n2: Name)
    requires '/' !in stem && '.' !in e1 && '/' !in e1 && '.' !in e2 && '/' !in e2
    requires n1 == stem + "." + e1 && n2 == stem + "." + e2
    ensures WebpPath(fs, dir + [n1]) == WebpPath(fs, dir + [n2]) == fs.dirPath + [ThumbnailDirName] + dir + [stem + ".webp"]
  {
    WebpNameDotted(stem, e1);
    WebpNameDotted(stem, e2);
    WebpPathIn(fs, dir, n1);
    WebpPathIn(fs, dir, n2);
  }

  /** The copy of `stem.e` is named `stem.webp`. */
  lemma WebpNameDotted(stem: string, e: string)
    requires '.' !in e && '/' !in e && '/' !in stem
    ensures '/' !in stem + "." + e
    ensures WebpName(stem + "." + e) == stem + ".webp"
  {
    ExtOfDotted(stem, e);
  }

  /** The copy of the entry `name` of `dir` lives at `dir` under ".thumbnail", renamed. */
  lemma WebpPathIn(fs: DirFileSystem, dir: Path, name: Name)
    ensures WebpPath(fs, dir + [name]) == fs.dirPath + [ThumbnailDirName] + dir + [WebpName(name)]
  {
    assert Parent(dir + [name]) == dir && Last(dir + [name]) == name;
  }

  /**
   * The WebP copy of an image is where the thumbnail cache keeps the thumbnail of an image
   * named like the copy: the two caches share the ".thumbnail" directory.
   */
  lemma WebpMeetsThumbnail(fs: DirFileSystem, dir: Path, name: Name)
    ensures WebpPath(fs, dir + [name]) == ThumbnailPath(fs, dir + [WebpName(name)])
  {
    WebpPathIn(fs, dir, name);
  }

  /** The transcoder's argument vector from the stored (already trimmed) flags: "-q 50" when there are none, else the flags split on ' '; then the input, "-o" and the output. */
  function CwebpArgs(stored: string, src: string, dest: string): seq<string> {
    if stored == "" then ["-q", "50", src, "-o", dest]
    else Split(stored, ' ') + [src, "-o", dest]
  }

  /**
   * The vector built from the trimmed user flags always ends with the input, "-o" and the
   * output; without flags it is exactly the default; with flags, what precedes the last three
   * holds no space and, joined by ' ', is the trimmed flags: it is the flags split at each space.
   */
  lemma CwebpArgsShape(flags: string, src: string, dest: string)
    ensures var args := CwebpArgs(TrimSpace(flags), src, dest);
      && |args| >= 4
      && args[|args| - 3..] == [src, "-o", dest]
      && (TrimSpace(flags) == "" ==> args == ["-q", "50", src, "-o", dest])
      && (TrimSpace(flags) != "" ==> JoinWith(args[..|args| - 3], ' ') == TrimSpace(flags))
      && (TrimSpace(flags) != "" ==> forall i :: 0 <= i < |args| - 3 ==> ' ' !in args[i])
  {
    var trimmed := TrimSpace(flags);
    var args := CwebpArgs(trimmed, src, dest);
    if trimmed != "" {
      var parts := Split(trimmed, ' ');
      assert args[..|args| - 3] == parts;
      SplitJoin(trimmed, ' ');
      SplitPartsFree(trimmed, ' ');
    }
  }

  /** The flags are stored trimmed, so trimming them again on a later run builds the same vector. */
  lemma CwebpArgsStable(flags: string, src: string, dest: string)
    ensures CwebpArgs(TrimSpace(TrimSpace(flags)), src, dest) == CwebpArgs(TrimSpace(flags), src, dest)
  {
    TrimSpaceTrims(flags);
  }

  /** What toWebp leaves: the outcome, the disk, the stored flags and the vector the transcoder was run with, if it was. */
  datatype WebpStep = WebpStep(outcome: Outcome, disk: Tree, flags: string, run: Option<seq<string>>)

  /** os.MkdirAll with its error ignored: the directories are made when possible. */
  function MkdirAllIgnoringError(t: Tree, p: Path): (u: Tree)
    requires WellFormed(t)
    ensures WellFormed(u)
  {
    match MkdirAll(t, p)
    case Some(u) => u
    case None => t
  }

  /** The transcoder's run: when it succeeds it writes `dest`, which needs an existing parent directory. */
  function RunTranscoder(t: Tree, dest: Path, transcodeOk: bool): (r: Option<Tree>)
    requires WellFormed(t)
    ensures r.Some? ==> WellFormed(r.value) && dest in r.value && r.value[dest].File?
  {
    if !transcodeOk then None
    else
      match Create(t, dest)
      case Some(v) => Some(WriteFile(v, dest, Bytes))
      case None => None
  }

  /**
   * toWebp with the transcoder's success given: a present `dest` is served as is; otherwise the
   * parent directories of `dest` are made (a failure is ignored), the flags are trimmed and
   * stored, and the transcoder runs; its output is served when it succeeds.
   */
  function ToWebpSpec(t: Tree, flags: string, src: Path, dest: Path, transcodeOk: bool): (r: WebpStep)
    requires WellFormed(t)
    ensures WellFormed(r.disk)
  {
    if dest in t then WebpStep(Shown(dest), t, flags, None)
    else
      var u := MkdirAllIgnoringError(t, Parent(dest));
      var stored := TrimSpace(flags);
      var args := CwebpArgs(stored, Rooted(src), Rooted(dest));
      match RunTranscoder(u, dest, transcodeOk)
      case Some(v) => WebpStep(Shown(dest), v, stored, Some(args))
      case None => WebpStep(Shown(src), u, stored, Some(args))
  }

  /** toWebp: serves `dest` when present, otherwise runs the transcoder and serves its output or `src`. */
  method ToWebp(h: Host, src: Path, dest: Path, transcodeOk: bool) returns (o: Outcome)
    requires h.Valid()
    modifies h
    ensures h.Valid()
    ensures var r := ToWebpSpec(old(h.disk), old(h.inputCwebpFlags), src, dest, transcodeOk);
      && o == r.outcome && h.disk == r.disk && h.inputCwebpFlags == r.flags
      && h.transcoded == old(h.transcoded) + (if r.run.Some? then [r.run.value] else [])
    ensures h.decoded == old(h.decoded)
  {
    if dest in h.disk {
      return Shown(dest);
    }
    var made := MkdirAllIgnoringError(h.disk, Parent(dest));
    var stored := TrimSpace(h.inputCwebpFlags);
    var args := CwebpArgs(stored, Rooted(src), Rooted(dest));
    var written := RunTranscoder(made, dest, transcodeOk);
    h.inputCwebpFlags := stored;
    h.transcoded := h.transcoded + [args];
    if written.None? {
      h.disk := made;
      return Shown(src);
    }
    h.disk := written.value;
    return Shown(dest);
  }

  /**
   * FindWebp: a subpath that does not name an image is served as it is; a present WebP copy is
   * served without running the transcoder; otherwise toWebp runs.
   */
  method FindWebp(h: Host, fs: DirFileSystem, full: Path, sub: Path, transcodeOk: bool) returns (o: Outcome)
    requires h.Valid()
    modifies h
    ensures h.Valid()
    ensures !IsImageName(Rooted(sub)) ==> o == Shown(full) && unchanged(h)
    ensures IsImageName(Rooted(sub)) ==> (
      var r := ToWebpSpec(old(h.disk), old(h.inputCwebpFlags), full, WebpPath(fs, sub), transcodeOk);
      && o == r.outcome && h.disk == r.disk && h.inputCwebpFlags == r.flags
      && h.transcoded == old(h.transcoded) + (if r.run.Some? then [r.run.value] else []))
    ensures h.decoded == old(h.decoded)
  {
    var image := IsImage(Rooted(sub));
    if !image {
      return Shown(full);
    }
    var dest := WebpPath(fs, sub);
    if dest in h.disk {
      return Shown(dest);
    }
    o := ToWebp(h, full, dest, transcodeOk);
  }

  /**
   * Two lookups of the same subpath: once the first has served the WebP copy, the second serves
   * it too, and the transcoder runs at most once over both.
   */
  method FindWebpTwice(h: Host, fs: DirFileSystem, full: Path, sub: Path, transcodeOk: bool)
    returns (first: Outcome, second: Outcome)
    requires h.Valid()
    modifies h
    ensures h.Valid()
    ensures first == Shown(WebpPath(fs, sub)) ==> second == first
    ensures first == Shown(WebpPath(fs, sub)) && full != WebpPath(fs, sub) ==>
      |h.transcoded| <= |old(h.transcoded)| + 1
  {
    var dest := WebpPath(fs, sub);
    ghost var t := h.disk;
    ghost var flags := h.inputCwebpFlags;
    first := FindWebp(h, fs, full, sub, transcodeOk);
    if first == Shown(dest) && dest !in t && full != dest && IsImageName(Rooted(sub)) {
      ToWebpRuns(t, flags, full, dest, transcodeOk);
    }
    second := FindWebp(h, fs, full, sub, transcodeOk);
  }

  /** toWebp shows the original or the copy, and never ends the process. */
  lemma ToWebpShows(t: Tree, flags: string, src: Path, dest: Path, transcodeOk: bool)
    requires WellFormed(t)
    ensures var o := ToWebpSpec(t, flags, src, dest, transcodeOk).outcome;
      o == Shown(src) || o == Shown(dest)
  {
  }

  /** A present copy is served without running the transcoder and without touching the disk or the flags. */
  lemma ToWebpCached(t: Tree, flags: string, src: Path, dest: Path, transcodeOk: bool)
    requires WellFormed(t) && dest in t
    ensures ToWebpSpec(t, flags, src, dest, transcodeOk) == WebpStep(Shown(dest), t, flags, None)
  {
  }

  /**
   * Otherwise the transcoder runs once, with the trimmed flags, and the copy is served only when
   * it ran successfully and wrote `dest`.
   */
  lemma ToWebpRuns(t: Tree, flags: string, src: Path, dest: Path, transcodeOk: bool)
    requires WellFormed(t) && dest !in t
    ensures var r := ToWebpSpec(t, flags, src, dest, transcodeOk);
      && r.run == Some(CwebpArgs(TrimSpace(flags), Rooted(src), Rooted(dest)))
      && r.flags == TrimSpace(flags)
      && (src != dest && r.outcome == Shown(dest) ==> transcodeOk && dest in r.disk && r.disk[dest].File?)
  {
  }

  /** A missing copy whose file can be made is served once the transcoder succeeds, and it is then on disk. */
  lemma ToWebpServesCopy(t: Tree, flags: string, src: Path, dest: Path)
    requires WellFormed(t) && dest !in t
    requires Create(MkdirAllIgnoringError(t, Parent(dest)), dest).Some?
    ensures var r := ToWebpSpec(t, flags, src, dest, true);
      r.outcome == Shown(dest) && dest in r.disk && r.disk[dest].File?
  {
  }

  /**
   * For a copy path other than the source and not yet on disk, the copy is served exactly when
   * the transcoder succeeds and its output file can be made.
   */
  lemma ToWebpServesCopyIff(t: Tree, flags: string, src: Path, dest: Path, transcodeOk: bool)
    requires WellFormed(t) && dest !in t && src != dest
    ensures ToWebpSpec(t, flags, src, dest, transcodeOk).outcome == Shown(dest) <==>
      transcodeOk && Create(MkdirAllIgnoringError(t, Parent(dest)), dest).Some?
  {
  }

  /** The parent directories of `dest` are made before the transcoder runs, unless a file is in the way. */
  lemma ToWebpMakesParent(t: Tree, flags: string, src: Path, dest: Path, transcodeOk: bool)
    requires WellFormed(t) && dest !in t && !HasFilePrefix(t, Parent(dest))
    ensures var r := ToWebpSpec(t, flags, src, dest, transcodeOk);
      Parent(dest) in r.disk && r.disk[Parent(dest)].Dir?
  {
    MkdirAllFails(t, Parent(dest));
    var u := MkdirAllIgnoringError(t, Parent(dest));
    assert Parent(dest) in u && u[Parent(dest)].Dir?;
    if transcodeOk && Create(u, dest).Some? {
      var v := Create(u, dest).value;
      assert v[Parent(dest)].Dir?;
      assert Parent(dest) != dest by {
        if dest != [] {
          assert |Parent(dest)| < |dest|;
        }
      }
    }
  }
}
