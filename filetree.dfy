/**
 * An abstract filesystem for the file organizer: every existing path maps to a
 * regular file (with its bytes) or a directory. The empty path is the root
 * directory, which always exists and is never stored.
 */
module FileTree {

  datatype Node = File(data: seq<bv8>) | Dir

  /** A path as its sequence of components, outermost first. */
  type Path = seq<string>

  type Tree = map<Path, Node>

  /** The exceptions the organizer can raise. */
  datatype FsError =
    | FileExists      // `mkdir(exist_ok=True)` over a regular file
    | AttributeError  // `.stem` read on a `str` in the collision branch

  predicate ExistsIn(t: Tree, p: Path) { p == [] || p in t }
  predicate IsDirAt(t: Tree, p: Path) { p == [] || (p in t && t[p].Dir?) }
  predicate IsFileAt(t: Tree, p: Path) { p in t && t[p].File? }

  /** `p` is an entry directly inside directory `d`. */
  predicate IsChild(d: Path, p: Path) { |p| == |d| + 1 && p[..|d|] == d }

  /** Every stored path has a directory as its parent. */
  predicate WellFormed(t: Tree) {
    [] !in t && forall p | p in t :: IsDirAt(t, p[..|p| - 1])
  }

  /** `os.mkdir` of a path that does not exist yet. */
  function WithDir(t: Tree, p: Path): (r: Tree)
    requires !ExistsIn(t, p)
    ensures IsDirAt(r, p) && r.Keys == t.Keys + {p}
    ensures forall q | q in t :: r[q] == t[q]
  {
    t[p := Dir]
  }

  /** `os.rename` of an existing path onto one that does not exist. */
  function Moved(t: Tree, src: Path, dst: Path): (r: Tree)
    requires src in t && !ExistsIn(t, dst)
    ensures src !in r && dst in r && r[dst] == t[src]
    ensures forall q | q != src && q != dst :: (q in r <==> q in t) && (q in t ==> r[q] == t[q])
  {
    (t - {src})[dst := t[src]]
  }

  /** Creating a directory inside an existing directory keeps the tree well formed. */
  lemma WithDirWellFormed(t: Tree, p: Path)
    requires WellFormed(t) && |p| > 0 && !ExistsIn(t, p) && IsDirAt(t, p[..|p| - 1])
    ensures WellFormed(WithDir(t, p))
  {
    var r := WithDir(t, p);
    forall q | q in r ensures IsDirAt(r, q[..|q| - 1]) {
      if q != p {
        assert IsDirAt(t, q[..|q| - 1]);
      }
    }
  }

  /** A regular file of a well-formed tree has nothing inside it. */
  lemma FileHasNoChildren(t: Tree, f: Path, q: Path)
    requires WellFormed(t) && IsFileAt(t, f) && q in t
    ensures q[..|q| - 1] != f
  {
    assert IsDirAt(t, q[..|q| - 1]);
  }

  /** Moving a regular file into an existing directory keeps the tree well formed. */
  lemma MovedWellFormed(t: Tree, src: Path, dst: Path)
    requires WellFormed(t) && IsFileAt(t, src) && |dst| > 0 && !ExistsIn(t, dst)
    requires IsDirAt(t, dst[..|dst| - 1])
    ensures WellFormed(Moved(t, src, dst))
  {
    var r := Moved(t, src, dst);
    assert dst[..|dst| - 1] != src;
    forall q | q in r ensures IsDirAt(r, q[..|q| - 1]) {
      if q != dst {
        FileHasNoChildren(t, src, q);
        assert IsDirAt(t, q[..|q| - 1]);
      }
    }
  }

  /** The disk the organizer works on, changed in place by `mkdir` and `shutil.move`. */
  class Disk {
    var tree: Tree

    constructor(t: Tree)
      ensures tree == t
    {
      tree := t;
    }

    /** `Path.exists()`. */
    predicate Exists(p: Path)
      reads this
    {
      ExistsIn(tree, p)
    }

    /** `Path.is_dir()`. */
    predicate IsDir(p: Path)
      reads this
    {
      IsDirAt(tree, p)
    }

    /** `Path.is_file()`. */
    predicate IsFile(p: Path)
      reads this
    {
      IsFileAt(tree, p)
    }

    /** `os.mkdir(p)` for a path that does not exist yet. */
    method MakeDir(p: Path)
      requires !Exists(p)
      modifies this
      ensures tree == WithDir(old(tree), p)
    {
      tree := tree[p := Dir];
    }

    /** `os.rename(src, dst)` onto a path that does not exist. */
    method Rename(src: Path, dst: Path)
      requires src in tree && !Exists(dst)
      modifies this
      ensures tree == Moved(old(tree), src, dst)
    {
      tree := (tree - {src})[dst := tree[src]];
    }
  }
}
