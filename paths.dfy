/**
 * Slash-separated paths. A path is kept as the sequence of its elements, so the lexical
 * cleaning that Go's filepath.Join and filepath.Clean perform (dropping empty, "." and ".."
 * elements and doubled slashes) is part of the representation: every element is a clean name.
 */
module Paths {
  import opened Strings

  /** One path element: non-empty, free of '/', and neither "." nor "..". */
  type Name = s: string | s != "" && '/' !in s && s != "." && s != ".." witness "a"

  type Path = seq<Name>

  /** filepath.Dir on an element sequence: the path without its last element. */
  function Parent(p: Path): Path {
    if p == [] then [] else p[..|p| - 1]
  }

  /** The last element, or "" for the root. */
  function Last(p: Path): string {
    if p == [] then "" else p[|p| - 1]
  }

  /** The elements joined by '/', with no leading slash ("a/b"); the root gives "". */
  function Joined(p: Path): string {
    if p == [] then "" else JoinWith(p, '/')
  }

  /** The elements joined by '/' after a leading slash ("/a/b"); the root gives "/". */
  function Rooted(p: Path): string {
    "/" + Joined(p)
  }

  /** The last slash-separated element of a path string. */
  function BaseName(s: string): string {
    var parts := Split(s, '/');
    parts[|parts| - 1]
  }

  /**
   * filepath.Ext: the suffix of the path from the final '.' of its last element on,
   * or "" when the last element has no '.'.
   */
  function Ext(path: string): (e: string)
    ensures |e| <= |path|
  {
    if path == [] then []
    else
      var c := path[|path| - 1];
      if c == '/' then []
      else if c == '.' then ['.']
      else
        var e := Ext(path[..|path| - 1]);
        if e == [] then [] else e + [c]
  }

  /** strings.TrimSuffix(name, filepath.Ext(name)): the name without its final extension. */
  function StripExt(name: string): string {
    name[..|name| - |Ext(name)|]
  }

  /** Rendering a path with one more element in front. */
  lemma {:induction false} JoinedCons(n: Name, p: Path)
    requires p != []
    ensures Joined([n] + p) == n + "/" + Joined(p)
    decreases |p|
  {
    var q := [n] + p;
    if |p| == 1 {
      assert q[..1] == [n] && q[1] == p[0];
      assert JoinWith(q, '/') == JoinWith([n], '/') + "/" + p[0];
    } else {
      var init := p[..|p| - 1];
      var last := p[|p| - 1];
      JoinedCons(n, init);
      assert q[..|q| - 1] == [n] + init && q[|q| - 1] == last;
      assert Joined(q) == Joined([n] + init) + "/" + last;
      assert Joined(p) == Joined(init) + "/" + last;
      assert (n + "/" + Joined(init)) + "/" + last == n + "/" + (Joined(init) + "/" + last);
    }
  }

  /** A non-empty path is its parent extended by its last element. */
  lemma ParentLast(p: Path)
    requires p != []
    ensures Parent(p) + [p[|p| - 1]] == p
  {
  }

  lemma LastAppend(a: Path, b: Path)
    requires b != []
    ensures Last(a + b) == Last(b)
  {
  }

  /**
   * The extension is a suffix of the path that starts with its only '.' and holds no '/';
   * when it is empty, every '.' of the path is followed by a '/'.
   */
  lemma ExtShape(path: string)
    ensures var e := Ext(path);
      && HasSuffix(path, e)
      && (e != [] ==> e[0] == '.' && '.' !in e[1..] && '/' !in e)
      && (e == [] ==> forall k :: 0 <= k < |path| && path[k] == '.' ==> '/' in path[k + 1..])
  {
    ExtSuffix(path);
    ExtEmpty(path);
  }

  lemma {:induction false} ExtSuffix(path: string)
    ensures var e := Ext(path);
      && HasSuffix(path, e)
      && (e != [] ==> e[0] == '.' && '.' !in e[1..] && '/' !in e)
  {
    if path != [] {
      var n := |path|;
      var c := path[n - 1];
      var init := path[..n - 1];
      if c == '.' {
        assert Ext(path) == ['.'] && path[n - 1..] == ['.'];
      } else if c != '/' {
        ExtSuffix(init);
        var e' := Ext(init);
        if e' != [] {
          assert path == init + [c];
          assert Ext(path) == e' + [c];
          ExtSuffixStep(init, e', c);
        }
      }
    }
  }

  /** Extending a path by a character other than '.' and '/' extends its extension by it. */
  lemma ExtSuffixStep(init: string, e': string, c: char)
    requires e' != [] && HasSuffix(init, e') && e'[0] == '.' && '.' !in e'[1..] && '/' !in e'
    requires c != '.' && c != '/'
    ensures var e := e' + [c];
      HasSuffix(init + [c], e) && e[0] == '.' && '.' !in e[1..] && '/' !in e
  {
    var e := e' + [c];
    assert (init + [c])[|init| - |e'|..] == init[|init| - |e'|..] + [c];
    assert e[1..] == e'[1..] + [c];
  }

  lemma {:induction false} ExtEmpty(path: string)
    ensures Ext(path) == [] ==> forall k :: 0 <= k < |path| && path[k] == '.' ==> '/' in path[k + 1..]
  {
    if path != [] {
      var n := |path|;
      var c := path[n - 1];
      var init := path[..n - 1];
      if c == '/' {
        forall k | 0 <= k < n && path[k] == '.'
          ensures '/' in path[k + 1..]
        {
          assert path[k + 1..][n - k - 2] == '/';
        }
      } else if c != '.' && Ext(init) == [] {
        ExtEmpty(init);
        forall k | 0 <= k < n && path[k] == '.'
          ensures '/' in path[k + 1..]
        {
          assert k < n - 1 && init[k] == '.';
          var j :| 0 <= j < |init[k + 1..]| && init[k + 1..][j] == '/';
          assert path[k + 1..][j] == '/';
        }
      }
    }
  }

  /** A name without a '.' has no extension. */
  lemma {:induction false} ExtNone(s: string)
    requires '.' !in s
    ensures Ext(s) == ""
  {
    if s != [] {
      ExtNone(s[..|s| - 1]);
    }
  }

  /** The extension of `stem.e`, for `e` free of '.' and '/', is ".e", and the stem is what remains. */
  lemma {:induction false} ExtOfDotted(stem: string, e: string)
    requires '.' !in e && '/' !in e
    ensures Ext(stem + "." + e) == "." + e && StripExt(stem + "." + e) == stem
    decreases |e|
  {
    var s := stem + "." + e;
    if e == [] {
      assert s[|s| - 1] == '.';
    } else {
      var e' := e[..|e| - 1];
      var c := e[|e| - 1];
      assert e' + [c] == e;
      assert s == (stem + "." + e') + [c];
      ExtOfDotted(stem, e');
      assert c != '.' && c != '/';
      assert Ext(s) == Ext(stem + "." + e') + [c];
    }
  }

  /** The last slash-separated element of a rooted rendering is the path's last element. */
  lemma BaseNameRooted(p: Path)
    ensures BaseName(Rooted(p)) == Last(p)
  {
    if p == [] {
      assert Rooted(p) == "" + ['/'] + "";
      SplitAppend("", "", '/');
    } else {
      var init := p[..|p| - 1];
      assert p == init + [p[|p| - 1]];
      if init == [] {
        assert Rooted(p) == "" + ['/'] + p[0];
        SplitAppend("", p[0], '/');
      } else {
        assert Rooted(p) == Rooted(init) + ['/'] + p[|p| - 1];
        SplitAppend(Rooted(init), p[|p| - 1], '/');
      }
    }
  }
}
