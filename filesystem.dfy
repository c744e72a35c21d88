/**
 * The disk the gallery serves, as a finite tree: a map from element paths to nodes, each
 * directory carrying its children in the order os.ReadDir lists them, sorted by name. MkdirAll
 * and Create are the two writes of Go's os package the caches perform.
 */
module FileSystem {
  import opened Wrappers
  import opened Strings
  import opened Paths

  /** What a file holds, as far as image decoding can tell: a raster of a size, or bytes that do not decode. */
  datatype Content = Raster(width: nat, height: nat) | Bytes

  datatype Node = File(content: Content) | Dir(children: seq<Name>)

  type Tree = map<Path, Node>

  /**
   * The root is a directory, every listed child exists, every other node is listed by its
   * parent directory, and every listing is sorted by name.
   */
  ghost predicate WellFormed(t: Tree) {
    RootIsDir(t) && ChildrenExist(t) && ParentsList(t) && ListingsSorted(t)
  }

  ghost predicate RootIsDir(t: Tree) {
    [] in t && t[[]].Dir?
  }

  ghost predicate ChildrenExist(t: Tree) {
    forall p, c :: p in t && t[p].Dir? && c in t[p].children ==> p + [c] in t
  }

  /** Every name the directory `d` lists names a node. */
  ghost predicate ListedExist(t: Tree, d: Path)
    requires d in t && t[d].Dir?
  {
    forall i :: 0 <= i < |t[d].children| ==> d + [t[d].children[i]] in t
  }

  lemma ChildrenExistAt(t: Tree, d: Path)
    requires ChildrenExist(t) && d in t && t[d].Dir?
    ensures ListedExist(t, d)
  {
    forall i | 0 <= i < |t[d].children|
      ensures d + [t[d].children[i]] in t
    {
      assert t[d].children[i] in t[d].children;
    }
  }

  /** The order os.ReadDir lists a directory in: names strictly increasing in strings.Compare order. */
  predicate SortedNames(names: seq<Name>) {
    forall i, j :: 0 <= i < j < |names| ==> LexLess(names[i], names[j])
  }

  ghost predicate ListingsSorted(t: Tree) {
    forall p :: p in t && t[p].Dir? ==> SortedNames(t[p].children)
  }

  ghost predicate ParentsList(t: Tree) {
    forall p :: ListedByParent(t, p)
  }

  /** A node other than the root is listed by its parent directory. */
  ghost predicate ListedByParent(t: Tree, p: Path) {
    p in t && p != [] ==> Parent(p) in t && t[Parent(p)].Dir? && Last(p) in t[Parent(p)].children
  }

  /** Some prefix of `p` (itself included) is a file. */
  ghost predicate HasFilePrefix(t: Tree, p: Path) {
    exists i :: 0 <= i <= |p| && p[..i] in t && t[p[..i]].File?
  }

  /**
   * `u` extends `t` by new nodes only: files keep their content, and directories keep every
   * child they listed (each listing stays sorted, so new names take their sorted places).
   */
  ghost predicate Extends(t: Tree, u: Tree) {
    && t.Keys <= u.Keys
    && (forall p :: p in t && t[p].File? ==> u[p] == t[p])
    && (forall p :: p in t && t[p].Dir? ==> u[p].Dir? && multiset(t[p].children) <= multiset(u[p].children))
  }

  /** The listing `names` with `name` added at its sorted place. */
  function InsertName(names: seq<Name>, name: Name): seq<Name>
    decreases |names|
  {
    if names == [] || LexLess(name, names[0]) then [name] + names
    else [names[0]] + InsertName(names[1..], name)
  }

  /** A root listing only "a.png" lists ".thumbnail" first once that directory is made. */
  lemma InsertNameExample()
    ensures InsertName(["a.png"], ".thumbnail") == [".thumbnail", "a.png"]
  {
    assert LexLess(".thumbnail", "a.png");
  }

  /** Inserting adds the one name and keeps the others. */
  lemma {:induction false} InsertNameMembers(names: seq<Name>, name: Name)
    ensures multiset(InsertName(names, name)) == multiset(names) + multiset{name}
    decreases |names|
  {
    if names != [] && !LexLess(name, names[0]) {
      InsertNameMembers(names[1..], name);
      assert names == [names[0]] + names[1..];
    }
  }

  /** Inserting a new name into a sorted listing keeps it sorted. */
  lemma {:induction false} InsertNameSorted(names: seq<Name>, name: Name)
    requires SortedNames(names) && name !in names
    ensures SortedNames(InsertName(names, name))
    decreases |names|
  {
    if names == [] {
    } else if LexLess(name, names[0]) {
      forall x | x in names
        ensures LexLess(name, x)
      {
        var k :| 0 <= k < |names| && names[k] == x;
        if k > 0 {
          LexLessTransitive(name, names[0], x);
        }
      }
      SortedCons(name, names);
    } else {
      var rest := InsertName(names[1..], name);
      LexLessTotal(name, names[0]);
      InsertNameSorted(names[1..], name);
      InsertNameMembers(names[1..], name);
      forall x | x in rest
        ensures LexLess(names[0], x)
      {
        assert x in multiset(rest);
        if x != name {
          var k :| 0 <= k < |names[1..]| && names[1..][k] == x;
          assert names[k + 1] == x;
        }
      }
      SortedCons(names[0], rest);
    }
  }

  /**
   * A sorted listing is determined by the names it holds: what os.ReadDir lists does not depend
   * on the order in which the entries were made.
   */
  lemma {:induction false} SortedNamesUnique(a: seq<Name>, b: seq<Name>)
    requires SortedNames(a) && SortedNames(b) && multiset(a) == multiset(b)
    ensures a == b
    decreases |a|
  {
    if a != [] {
      SortedHeads(a, b);
      SortedTail(a);
      SortedTail(b);
      TailMultiset(a, b);
      SortedNamesUnique(a[1..], b[1..]);
      assert a == [a[0]] + a[1..] && b == [b[0]] + b[1..];
    }
  }

  /** Two sorted listings of the same names start with the same name. */
  lemma SortedHeads(a: seq<Name>, b: seq<Name>)
    requires SortedNames(a) && SortedNames(b) && multiset(a) == multiset(b) && a != []
    ensures b != [] && a[0] == b[0]
  {
    assert a[0] in multiset(b);
    assert b[0] in multiset(a);
    if a[0] != b[0] {
      var k :| 0 <= k < |b| && b[k] == a[0];
      var m :| 0 <= m < |a| && a[m] == b[0];
      assert LexLess(a[0], a[m]) && LexLess(b[0], b[k]);
      LexLessTransitive(a[0], b[0], a[0]);
      LexLessIrreflexive(a[0]);
    }
  }

  lemma TailMultiset(a: seq<Name>, b: seq<Name>)
    requires a != [] && b != [] && a[0] == b[0] && multiset(a) == multiset(b)
    ensures multiset(a[1..]) == multiset(b[1..])
  {
    assert a == [a[0]] + a[1..] && b == [b[0]] + b[1..];
    assert multiset(a) == multiset{a[0]} + multiset(a[1..]);
    assert multiset(b) == multiset{a[0]} + multiset(b[1..]);
    forall x: Name
      ensures multiset(a[1..])[x] == multiset(b[1..])[x]
    {
      assert multiset(a)[x] == multiset{a[0]}[x] + multiset(a[1..])[x];
      assert multiset(b)[x] == multiset{a[0]}[x] + multiset(b[1..])[x];
    }
  }

  lemma SortedTail(names: seq<Name>)
    requires SortedNames(names) && names != []
    ensures SortedNames(names[1..])
  {
    assert forall i :: 0 <= i < |names[1..]| ==> names[1..][i] == names[i + 1];
  }

  /** A name before every name of a sorted listing can head it. */
  lemma SortedCons(name: Name, names: seq<Name>)
    requires SortedNames(names)
    requires forall x :: x in names ==> LexLess(name, x)
    ensures SortedNames([name] + names)
  {
    var r := [name] + names;
    assert forall j :: 0 < j < |r| ==> r[j] == names[j - 1];
  }

  /** Adds a new node `node` named `name` under the directory `d`. */
  function AddChild(t: Tree, d: Path, name: Name, node: Node): (u: Tree)
    requires WellFormed(t)
    requires d in t && t[d].Dir? && d + [name] !in t
    requires node.Dir? ==> node.children == []
    ensures WellFormed(u) && Extends(t, u)
    ensures u.Keys == t.Keys + {d + [name]} && u[d + [name]] == node
  {
    var u := t[d := Dir(InsertName(t[d].children, name))][d + [name] := node];
    AddChildWellFormed(t, d, name, node, u);
    u
  }

  lemma AddChildWellFormed(t: Tree, d: Path, name: Name, node: Node, u: Tree)
    requires WellFormed(t)
    requires d in t && t[d].Dir? && d + [name] !in t
    requires node.Dir? ==> node.children == []
    requires u == t[d := Dir(InsertName(t[d].children, name))][d + [name] := node]
    ensures WellFormed(u) && Extends(t, u)
  {
    InsertNameMembers(t[d].children, name);
    AddChildChildrenExist(t, d, name, node, u);
    AddChildParentsList(t, d, name, node, u);
    AddChildSorted(t, d, name, node, u);
  }

  lemma AddChildChildrenExist(t: Tree, d: Path, name: Name, node: Node, u: Tree)
    requires WellFormed(t)
    requires d in t && t[d].Dir? && d + [name] !in t
    requires node.Dir? ==> node.children == []
    requires u == t[d := Dir(InsertName(t[d].children, name))][d + [name] := node]
    ensures ChildrenExist(u)
  {
    var n := d + [name];
    InsertNameMembers(t[d].children, name);
    forall p, c | p in u && u[p].Dir? && c in u[p].children
      ensures p + [c] in u
    {
      if p == d {
        assert c in multiset(u[p].children);
        if c != name {
          assert c in t[d].children;
        }
      } else {
        assert p != n && p in t;
      }
    }
  }

  lemma AddChildParentsList(t: Tree, d: Path, name: Name, node: Node, u: Tree)
    requires WellFormed(t)
    requires d in t && t[d].Dir? && d + [name] !in t
    requires u == t[d := Dir(InsertName(t[d].children, name))][d + [name] := node]
    ensures ParentsList(u)
  {
    var n := d + [name];
    assert Parent(n) == d && Last(n) == name;
    InsertNameMembers(t[d].children, name);
    assert name in multiset(u[d].children);
    forall p
      ensures ListedByParent(u, p)
    {
      if p in u && p != [] && p != n {
        assert p in t && ListedByParent(t, p);
        var q := Parent(p);
        assert q in t && t[q].Dir?;
        assert q != n;
        if q == d {
          assert Last(p) in multiset(t[d].children);
          assert Last(p) in multiset(u[d].children);
        }
      } else if p == n {
        assert d != n && u[d].children == InsertName(t[d].children, name);
      }
    }
  }

  /** The listing that gains the new name stays sorted, and a new directory lists nothing. */
  lemma AddChildSorted(t: Tree, d: Path, name: Name, node: Node, u: Tree)
    requires WellFormed(t)
    requires d in t && t[d].Dir? && d + [name] !in t
    requires node.Dir? ==> node.children == []
    requires u == t[d := Dir(InsertName(t[d].children, name))][d + [name] := node]
    ensures ListingsSorted(u)
  {
    assert name !in t[d].children;
    InsertNameSorted(t[d].children, name);
  }

  /**
   * os.MkdirAll: succeeds when every existing prefix of `p` is a directory, creating the
   * missing ones from the top down; fails, changing nothing, when a prefix is a file.
   */
  function MkdirAll(t: Tree, p: Path): (r: Option<Tree>)
    requires WellFormed(t)
    ensures r.Some? ==> MadeDirs(t, p, r.value)
    decreases |p|
  {
    if p in t then
      if t[p].Dir? then Some(t) else None
    else
      match MkdirAll(t, Parent(p))
      case None => None
      case Some(u) =>
        ParentLast(p);
        if p in u then None
        else
          MkdirAllStep(t, p, u);
          Some(AddChild(u, Parent(p), p[|p| - 1], Dir([])))
  }

  /**
   * What a successful MkdirAll of `p` leaves: a well-formed tree that extends `t`, holds the
   * directory `p`, and whose new nodes are all directories on the way to `p`.
   */
  ghost predicate MadeDirs(t: Tree, p: Path, u: Tree) {
    && WellFormed(u) && Extends(t, u) && p in u && u[p].Dir?
    && forall q :: q in u && q !in t ==> q <= p && u[q].Dir?
  }

  /** Making the last directory of `p` once its parent exists keeps MkdirAll's promises. */
  lemma MkdirAllStep(t: Tree, p: Path, u: Tree)
    requires WellFormed(t) && p != [] && Parent(p) + [p[|p| - 1]] == p && p !in u
    requires MadeDirs(t, Parent(p), u)
    ensures MadeDirs(t, p, AddChild(u, Parent(p), p[|p| - 1], Dir([])))
  {
    var v := AddChild(u, Parent(p), p[|p| - 1], Dir([]));
    ExtendsTrans(t, u, v);
    forall q | q in v && q !in t
      ensures q <= p && v[q].Dir?
    {
      if q != p {
        assert q in u && q <= Parent(p);
      }
    }
  }

  lemma ExtendsTrans(t: Tree, u: Tree, v: Tree)
    requires Extends(t, u) && Extends(u, v)
    ensures Extends(t, v)
  {
    forall p | p in t && t[p].Dir?
      ensures v[p].Dir? && multiset(t[p].children) <= multiset(v[p].children)
    {
      assert u[p].Dir? && multiset(t[p].children) <= multiset(u[p].children) <= multiset(v[p].children);
    }
  }

  /** `u` extends `t` as Extends says, except that the file `p` may have new content. */
  ghost predicate ExtendsBut(t: Tree, u: Tree, p: Path) {
    && t.Keys <= u.Keys
    && (forall q :: q in t && q != p && t[q].File? ==> u[q] == t[q])
    && (forall q :: q in t && t[q].Dir? ==> u[q].Dir? && multiset(t[q].children) <= multiset(u[q].children))
  }

  lemma ExtendsButTrans(t: Tree, u: Tree, v: Tree, p: Path)
    requires ExtendsBut(t, u, p) && ExtendsBut(u, v, p)
    ensures ExtendsBut(t, v, p)
  {
    forall q | q in t && t[q].Dir?
      ensures v[q].Dir? && multiset(t[q].children) <= multiset(v[q].children)
    {
      assert u[q].Dir? && multiset(t[q].children) <= multiset(u[q].children) <= multiset(v[q].children);
    }
  }

  /**
   * os.Create: truncates an existing file to empty bytes, or adds a new empty file under an
   * existing parent directory; fails on a directory or a missing parent.
   */
  function Create(t: Tree, p: Path): (r: Option<Tree>)
    requires WellFormed(t)
    ensures r.Some? <==> if p in t then t[p].File? else p != [] && Parent(p) in t && t[Parent(p)].Dir?
    ensures r.Some? ==> WellFormed(r.value) && r.value.Keys == t.Keys + {p} && r.value[p] == File(Bytes)
    ensures r.Some? ==> ExtendsBut(t, r.value, p)
  {
    if p in t then
      if t[p].File? then Some(WriteFile(t, p, Bytes)) else None
    else if p != [] && Parent(p) in t && t[Parent(p)].Dir? then
      assert Parent(p) + [p[|p| - 1]] == p;
      Some(AddChild(t, Parent(p), p[|p| - 1], File(Bytes)))
    else None
  }

  /** Replaces the content of an existing file. */
  function WriteFile(t: Tree, p: Path, content: Content): (u: Tree)
    requires WellFormed(t) && p in t && t[p].File?
    ensures WellFormed(u) && u.Keys == t.Keys && u[p] == File(content)
    ensures forall q :: q in t && q != p ==> u[q] == t[q]
  {
    var u := t[p := File(content)];
    forall q ensures ListedByParent(u, q) {
      assert ListedByParent(t, q);
    }
    u
  }

  /** MkdirAll fails exactly when some prefix of the path is a file. */
  lemma {:induction false} MkdirAllFails(t: Tree, p: Path)
    requires WellFormed(t)
    ensures MkdirAll(t, p).None? <==> HasFilePrefix(t, p)
    decreases |p|
  {
    if p in t {
      if t[p].Dir? {
        PrefixesOfDir(t, p);
      } else {
        assert p[..|p|] == p;
      }
    } else {
      var q := Parent(p);
      MkdirAllFails(t, q);
      FilePrefixOfMissing(t, p);
      if MkdirAll(t, q).Some? {
        var u := MkdirAll(t, q).value;
        assert p !in u;
      }
    }
  }

  /** A missing path has a file prefix exactly when its parent has one. */
  lemma FilePrefixOfMissing(t: Tree, p: Path)
    requires p != [] && p !in t
    ensures HasFilePrefix(t, p) <==> HasFilePrefix(t, Parent(p))
  {
    var q := Parent(p);
    assert forall i :: 0 <= i <= |q| ==> p[..i] == q[..i];
    if HasFilePrefix(t, p) {
      var i :| 0 <= i <= |p| && p[..i] in t && t[p[..i]].File?;
      assert p[..|p|] == p;
      assert i <= |q|;
    }
  }

  /** Every prefix of an existing directory is an existing directory. */
  lemma {:induction false} PrefixesOfDir(t: Tree, p: Path)
    requires WellFormed(t) && p in t && t[p].Dir?
    ensures !HasFilePrefix(t, p)
    decreases |p|
  {
    if p != [] {
      var q := Parent(p);
      assert ListedByParent(t, p);
      PrefixesOfDir(t, q);
      assert forall i :: 0 <= i <= |q| ==> p[..i] == q[..i];
      assert p[..|p|] == p;
    } else {
      assert forall i :: 0 <= i <= |p| ==> p[..i] == [];
    }
  }

  /**
   * The state the gallery process shares with the outside world: the disk, the `cwebpflags`
   * setting (a package-level variable the WebP cache rewrites), and logs of the calls made to
   * the two collaborators, the image decoder and the cwebp transcoder.
   */
  class Host {
    var disk: Tree
    var inputCwebpFlags: string
    var decoded: seq<Path>
    var transcoded: seq<seq<string>>

    ghost predicate Valid()
      reads this
    {
      WellFormed(disk)
    }

    constructor (disk: Tree, cwebpFlags: string)
      requires WellFormed(disk)
      ensures Valid()
      ensures this.disk == disk && inputCwebpFlags == cwebpFlags && decoded == [] && transcoded == []
    {
      this.disk := disk;
      inputCwebpFlags := cwebpFlags;
      decoded := [];
      transcoded := [];
    }
  }
}
