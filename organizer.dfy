/**
 * `FolderOrganizer` of sorter_manager.py over the abstract filesystem: the
 * tables built by the constructor, the placement of one file (`handle_file`)
 * and the one-level walk over a directory (`organize_folder`, valid-root branch).
 */
module Organizer {
  import opened Wrappers
  import opened Text
  import opened Sorter
  import opened FileTree

  /** The tree after a step, and the exception that ended it, if any. */
  datatype Step = Step(tree: Tree, error: Option<FsError>)

  /**
   * `target_path.exists()` for `folder / name`: pathlib drops an empty or `.`
   * component and keeps `..`, so those three names denote an existing path
   * whenever `folder` exists.
   */
  predicate Occupied(t: Tree, folder: Path, name: string) {
    name == "" || name == "." || name == ".." || folder + [name] in t
  }

  /** Where `handle_file` moves a file called `name` found in `target`, when nothing is in the way. */
  function Destination(target: Path, name: string): Path {
    target + [Subfolder(name), Normalize(name)]
  }

  /**
   * `handle_file(file, target)` (sorter_manager.py:38-53): create the subfolder
   * unless it is already a directory (a regular file there makes `mkdir`
   * raise), then move the file under its normalized name unless that name is
   * taken, in which case the collision branch raises.
   */
  function Place(t: Tree, file: Path, target: Path): Step
    requires |file| > 0 && IsFileAt(t, file) && IsDirAt(t, target)
  {
    var name := file[|file| - 1];
    var sub := target + [Subfolder(name)];
    if sub in t && !t[sub].Dir? then Step(t, Some(FileExists))
    else
      var t1 := if sub in t then t else WithDir(t, sub);
      var n := Normalize(name);
      if Occupied(t1, sub, n) then Step(t1, Some(AttributeError))
      else
        assert file != sub + [n] && file in t1;
        Step(Moved(t1, file, sub + [n]), None)
  }

  /** What placing may add to the tree besides moving the file: the subfolder, as a directory. */
  predicate OnlyAdds(t: Tree, r: Tree, sub: Path) {
    forall q | q in r && q != sub :: q in t && r[q] == t[q]
  }

  /** A placement that succeeds moves the file, byte for byte, to `target/SUBFOLDER/normalized`, and nothing else moves. */
  lemma PlaceMoves(t: Tree, file: Path, target: Path)
    requires |file| > 0 && IsFileAt(t, file) && IsDirAt(t, target)
    requires Place(t, file, target).error.None?
    ensures var r := Place(t, file, target).tree;
      var dst := Destination(target, file[|file| - 1]);
      var sub := target + [Subfolder(file[|file| - 1])];
      dst !in t && file !in r && dst in r && r[dst] == t[file] && IsDirAt(r, sub)
      && forall q | q != file && q != dst && q != sub :: (q in r <==> q in t) && (q in t ==> r[q] == t[q])
  {
    var name := file[|file| - 1];
    var sub := target + [Subfolder(name)];
    assert sub + [Normalize(name)] == Destination(target, name);
  }

  /**
   * A placement that raises moves nothing and overwrites nothing: a regular file
   * in the subfolder's place raises `FileExistsError` with the tree unchanged, a
   * taken name raises `AttributeError` with at most the subfolder created.
   */
  lemma PlaceRaises(t: Tree, file: Path, target: Path)
    requires |file| > 0 && IsFileAt(t, file) && IsDirAt(t, target)
    ensures var name := file[|file| - 1];
      var sub := target + [Subfolder(name)];
      var s := Place(t, file, target);
      (s.error == Some(FileExists) <==> IsFileAt(t, sub))
      && (s.error == Some(FileExists) ==> s.tree == t)
      && (s.error == Some(AttributeError) <==> !IsFileAt(t, sub) && Occupied(t, sub, Normalize(name)))
      && (s.error.Some? ==> IsFileAt(s.tree, file) && OnlyAdds(t, s.tree, sub))
      && (s.error == Some(AttributeError) ==> IsDirAt(s.tree, sub))
  {
    var name := file[|file| - 1];
    var sub := target + [Subfolder(name)];
    var n := Normalize(name);
    if !(sub in t) {
      assert forall q | q in t :: q != sub;
      assert Occupied(WithDir(t, sub), sub, n) <==> Occupied(t, sub, n) by {
        assert sub + [n] != sub;
      }
    }
  }

  /** The subfolder is made only when missing: an existing directory is reused as it is. */
  lemma PlaceReusesFolder(t: Tree, file: Path, target: Path)
    requires |file| > 0 && IsFileAt(t, file) && IsDirAt(t, target)
    requires IsDirAt(t, target + [Subfolder(file[|file| - 1])])
    ensures Place(t, file, target).error != Some(FileExists)
    ensures var r := Place(t, file, target).tree;
      forall q | q in t && q != file :: q in r && r[q] == t[q]
  {
  }

  /** Placing a file of a well-formed tree into a subfolder of a directory keeps the tree well formed. */
  lemma PlaceWellFormed(t: Tree, file: Path, target: Path)
    requires WellFormed(t) && |file| > 0 && IsFileAt(t, file) && IsDirAt(t, target)
    ensures WellFormed(Place(t, file, target).tree)
  {
    var name := file[|file| - 1];
    var sub := target + [Subfolder(name)];
    assert sub[..|sub| - 1] == target;
    if !(sub in t && !t[sub].Dir?) {
      var t1 := if sub in t then t else WithDir(t, sub);
      if sub !in t {
        WithDirWellFormed(t, sub);
      }
      var n := Normalize(name);
      if !Occupied(t1, sub, n) {
        assert (sub + [n])[..|sub + [n]| - 1] == sub;
        MovedWellFormed(t1, file, sub + [n]);
      }
    }
  }

  /**
   * Placement changes no existing entry except the file itself; what it adds or
   * changes is the subfolder, as a directory, and the destination.
   */
  lemma PlaceFrame(t: Tree, file: Path, target: Path)
    requires |file| > 0 && IsFileAt(t, file) && IsDirAt(t, target)
    ensures var r := Place(t, file, target).tree;
      forall q | q in t && q != file :: q in r && r[q] == t[q]
    ensures var r := Place(t, file, target).tree;
      forall q | q in r && !(q in t && r[q] == t[q]) ::
        (q == target + [Subfolder(file[|file| - 1])] && r[q] == Dir) || q == Destination(target, file[|file| - 1])
  {
    var name := file[|file| - 1];
    assert target + [Subfolder(name)] + [Normalize(name)] == Destination(target, name);
  }

  // ---------------------------------------------------------------------------
  // The walk over a directory (sorter_manager.py:58-71)
  // ---------------------------------------------------------------------------

  /** A directory stays a directory while files are placed into its subfolders. */
  lemma PlaceKeepsTarget(t: Tree, file: Path, target: Path)
    requires |file| > 0 && IsFileAt(t, file) && IsDirAt(t, target)
    ensures IsDirAt(Place(t, file, target).tree, target)
  {
    PlaceFrame(t, file, target);
  }

  /**
   * The valid-root branch of `organize_folder` over the entry names `names`
   * (a snapshot of `iterdir`): each entry that is a regular file at its turn is
   * placed; the first exception ends the walk.
   */
  function Walk(t: Tree, root: Path, names: seq<string>): Step
    requires IsDirAt(t, root)
    decreases |names|
  {
    if names == [] then Step(t, None)
    else
      var p := root + [names[0]];
      if IsFileAt(t, p) then
        var s := Place(t, p, root);
        if s.error.Some? then s
        else
          PlaceKeepsTarget(t, p, root);
          Walk(s.tree, root, names[1..])
      else Walk(t, root, names[1..])
  }

  /** A regular file directly inside `d`. */
  predicate IsChildFile(t: Tree, d: Path, q: Path) {
    IsChild(d, q) && IsFileAt(t, q)
  }

  /** Walking the entries of `a` then those of `b` is walking `a + b`, cut short by an exception. */
  lemma {:induction false} WalkConcat(t: Tree, root: Path, a: seq<string>, b: seq<string>)
    requires IsDirAt(t, root)
    ensures var s := Walk(t, root, a);
      IsDirAt(s.tree, root)
      && Walk(t, root, a + b) == if s.error.Some? then s else Walk(s.tree, root, b)
    decreases |a|
  {
    if a == [] {
      assert a + b == b;
    } else {
      assert (a + b)[0] == a[0] && (a + b)[1..] == a[1..] + b;
      var p := root + [a[0]];
      if IsFileAt(t, p) {
        PlaceKeepsTarget(t, p, root);
        var s := Place(t, p, root);
        if s.error.None? {
          WalkConcat(s.tree, root, a[1..], b);
        } else {
          PlaceFrame(t, p, root);
        }
      } else {
        WalkConcat(t, root, a[1..], b);
      }
    }
  }

  /**
   * Everything but the regular files directly in the root stays as it was:
   * subdirectories and their contents, and whatever lies outside the root.
   */
  lemma {:induction false} WalkKeeps(t: Tree, root: Path, names: seq<string>)
    requires IsDirAt(t, root)
    ensures var r := Walk(t, root, names).tree;
      forall q | q in t && !IsChildFile(t, root, q) :: q in r && r[q] == t[q]
    decreases |names|
  {
    if names != [] {
      var p := root + [names[0]];
      if IsFileAt(t, p) {
        PlaceFrame(t, p, root);
        var s := Place(t, p, root);
        if s.error.None? {
          PlaceKeepsTarget(t, p, root);
          WalkKeeps(s.tree, root, names[1..]);
          forall q | q in t && !IsChildFile(t, root, q) ensures !IsChildFile(s.tree, root, q) {
            assert q != p;
          }
        }
      } else {
        WalkKeeps(t, root, names[1..]);
      }
    }
  }

  /** The walk never makes a regular file appear directly in the root, nor changes one it leaves there. */
  lemma {:induction false} WalkNoNewFiles(t: Tree, root: Path, names: seq<string>)
    requires IsDirAt(t, root)
    ensures var r := Walk(t, root, names).tree;
      forall q | IsChildFile(r, root, q) :: q in t && r[q] == t[q]
    decreases |names|
  {
    if names != [] {
      var p := root + [names[0]];
      if IsFileAt(t, p) {
        PlaceFrame(t, p, root);
        var s := Place(t, p, root);
        var name := p[|p| - 1];
        assert |Destination(root, name)| == |root| + 2;
        if s.error.None? {
          PlaceKeepsTarget(t, p, root);
          WalkNoNewFiles(s.tree, root, names[1..]);
        }
      } else {
        WalkNoNewFiles(t, root, names[1..]);
      }
    }
  }

  /** A walk without an exception leaves no regular file under any of the names it went through. */
  lemma {:induction false} WalkEmpties(t: Tree, root: Path, names: seq<string>)
    requires IsDirAt(t, root)
    requires Walk(t, root, names).error.None?
    ensures var r := Walk(t, root, names).tree;
      forall k | 0 <= k < |names| :: !IsFileAt(r, root + [names[k]])
    decreases |names|
  {
    if names != [] {
      var p := root + [names[0]];
      var r := Walk(t, root, names).tree;
      WalkNoNewFiles(t, root, names);
      if IsFileAt(t, p) {
        var s := Place(t, p, root);
        PlaceMoves(t, p, root);
        PlaceKeepsTarget(t, p, root);
        WalkEmpties(s.tree, root, names[1..]);
        WalkNoNewFiles(s.tree, root, names[1..]);
        assert !IsFileAt(r, p) by {
          assert IsChild(root, p);
        }
      } else {
        WalkEmpties(t, root, names[1..]);
        assert IsChild(root, p);
      }
      forall k | 0 <= k < |names| ensures !IsFileAt(r, root + [names[k]]) {
        if k > 0 {
          assert names[k] == names[1..][k - 1];
        }
      }
    }
  }

  /** A regular file of the root that the walk took away now sits, unchanged, at its destination. */
  lemma {:induction false} WalkDestinations(t: Tree, root: Path, names: seq<string>)
    requires IsDirAt(t, root)
    ensures var r := Walk(t, root, names).tree;
      forall n | IsFileAt(t, root + [n]) && !IsFileAt(r, root + [n]) ::
        Destination(root, n) in r && r[Destination(root, n)] == t[root + [n]]
    decreases |names|
  {
    if names != [] {
      var p := root + [names[0]];
      var r := Walk(t, root, names).tree;
      if IsFileAt(t, p) {
        PlaceFrame(t, p, root);
        var s := Place(t, p, root);
        if s.error.None? {
          PlaceMoves(t, p, root);
          PlaceKeepsTarget(t, p, root);
          WalkDestinations(s.tree, root, names[1..]);
          WalkKeeps(s.tree, root, names[1..]);
          var dst := Destination(root, names[0]);
          assert p[|p| - 1] == names[0];
          assert !IsChildFile(s.tree, root, dst);
          forall n | IsFileAt(t, root + [n]) && !IsFileAt(r, root + [n])
            ensures Destination(root, n) in r && r[Destination(root, n)] == t[root + [n]]
          {
            if n != names[0] {
              assert root + [n] != p;
            }
          }
        }
      } else {
        WalkDestinations(t, root, names[1..]);
      }
    }
  }

  /** The walk keeps the tree well formed. */
  lemma {:induction false} WalkWellFormed(t: Tree, root: Path, names: seq<string>)
    requires WellFormed(t) && IsDirAt(t, root)
    ensures WellFormed(Walk(t, root, names).tree)
    decreases |names|
  {
    if names != [] {
      var p := root + [names[0]];
      if IsFileAt(t, p) {
        PlaceWellFormed(t, p, root);
        var s := Place(t, p, root);
        if s.error.None? {
          PlaceKeepsTarget(t, p, root);
          WalkWellFormed(s.tree, root, names[1..]);
        }
      } else {
        WalkWellFormed(t, root, names[1..]);
      }
    }
  }

  /** `names` holds the name of every entry directly inside `root`, as `iterdir` does. */
  ghost predicate Lists(t: Tree, root: Path, names: seq<string>) {
    forall n | root + [n] in t :: n in names
  }

  /**
   * A walk over a full listing that raises nothing leaves no regular file
   * directly in the root: each one now sits, unchanged, at its destination.
   */
  lemma WalkSorted(t: Tree, root: Path, names: seq<string>)
    requires IsDirAt(t, root) && Lists(t, root, names)
    requires Walk(t, root, names).error.None?
    ensures var r := Walk(t, root, names).tree;
      forall q | IsChild(root, q) :: !IsFileAt(r, q)
    ensures var r := Walk(t, root, names).tree;
      forall n | IsFileAt(t, root + [n]) :: Destination(root, n) in r && r[Destination(root, n)] == t[root + [n]]
  {
    var r := Walk(t, root, names).tree;
    WalkEmpties(t, root, names);
    WalkNoNewFiles(t, root, names);
    WalkDestinations(t, root, names);
    forall q | IsChild(root, q) ensures !IsFileAt(r, q) {
      var n := q[|root|];
      assert q == root + [n];
      if n in names {
        var k :| 0 <= k < |names| && names[k] == n;
      }
    }
    forall n | IsFileAt(t, root + [n]) ensures Destination(root, n) in r && r[Destination(root, n)] == t[root + [n]] {
      assert IsChild(root, root + [n]);
    }
  }

  // ---------------------------------------------------------------------------
  // The organizer object (sorter_manager.py:8-71)
  // ---------------------------------------------------------------------------

  /** What `organize_folder` ends with. */
  datatype Outcome =
    | Sorted           // the walk went through every entry
    | NotAFolder       // the path is missing or not a directory
    | Raised(error: FsError)

  /** The loop of `__init__` that builds `TRANS`: each letter, then its upper-case form. */
  method FillTable(symbols: string, translation: seq<string>) returns (table: map<char, string>)
    requires |symbols| <= |translation|
    ensures table == Table(symbols, translation, UpperChar, |symbols|)
  {
    table := map[];
    for i := 0 to |symbols|
      invariant table == Table(symbols, translation, UpperChar, i)
    {
      var cyrillic, latin := symbols[i], translation[i];
      table := table[cyrillic := latin];
      table := table[UpperChar(cyrillic) := Upper(latin)];
    }
  }

  class FolderOrganizer {
    var folderPath: Option<Path>
    var trans: map<char, string>
    var knownExtensions: map<string, set<string>>

    /** The tables hold what the constructor puts in them. */
    ghost predicate Valid()
      reads this
    {
      trans == Trans() && knownExtensions == KnownExtensions
    }

    /** `__init__` (sorter_manager.py:9-28): fills `TRANS` pair by pair, both cases. */
    constructor(folderPath: Option<Path>)
      ensures Valid() && this.folderPath == folderPath
    {
      this.folderPath := folderPath;
      LiteralLengths();
      var table := FillTable(CyrillicSymbols, Translation);
      trans := table;
      knownExtensions := KnownExtensions;
    }

    /** `normalize` through the object's own table. */
    function Normalize(name: string): (r: string)
      reads this
      ensures Valid() ==> r == Sorter.Normalize(name)
    {
      Sanitize(Translate(trans, name))
    }

    /**
     * `handle_file` (sorter_manager.py:38-53), step by step on the disk: the
     * result and the new disk are those of `Place`.
     */
    method HandleFile(disk: Disk, file: Path, target: Path) returns (error: Option<FsError>)
      requires Valid() && |file| > 0 && IsFileAt(disk.tree, file) && IsDirAt(disk.tree, target)
      modifies disk
      ensures Step(disk.tree, error) == Place(old(disk.tree), file, target)
    {
      var name := file[|file| - 1];
      var extension := GetExtension(name);
      var normalized := Normalize(name);
      var folder: Path;
      if extension in AllExtensions(knownExtensions) {
        folder := target + [extension];
      } else {
        folder := target + [OtherFolder];
      }
      if disk.Exists(folder) {
        if !disk.IsDir(folder) {
          return Some(FileExists);
        }
      } else {
        disk.MakeDir(folder);
      }
      if normalized == "" || normalized == "." || normalized == ".." || disk.Exists(folder + [normalized]) {
        return Some(AttributeError);
      }
      disk.Rename(file, folder + [normalized]);
      return None;
    }

    /**
     * `organize_folder` (sorter_manager.py:55-72) with the entry names of the
     * folder given as `listing`: a missing folder or a non-directory changes
     * nothing; otherwise the disk ends as `Walk` says, and an exception from
     * `handle_file` ends the walk.
     */
    method OrganizeFolder(disk: Disk, localPath: Path, listing: seq<string>) returns (outcome: Outcome)
      requires Valid()
      modifies this, disk
      ensures Valid() && folderPath == Some(localPath)
      ensures !IsDirAt(old(disk.tree), localPath) ==> outcome == NotAFolder && disk.tree == old(disk.tree)
      ensures IsDirAt(old(disk.tree), localPath) ==>
        var s := Walk(old(disk.tree), localPath, listing);
        disk.tree == s.tree && outcome == (if s.error.Some? then Raised(s.error.value) else Sorted)
    {
      folderPath := Some(localPath);
      if !disk.Exists(localPath) || !disk.IsDir(localPath) {
        return NotAFolder;
      }
      var error := WalkEntries(disk, localPath, listing);
      return if error.Some? then Raised(error.value) else Sorted;
    }

    /** The loop of `organize_folder`: each regular file among the entries goes to `handle_file`. */
    method WalkEntries(disk: Disk, localPath: Path, listing: seq<string>) returns (error: Option<FsError>)
      requires Valid() && IsDirAt(disk.tree, localPath)
      modifies disk
      ensures Step(disk.tree, error) == Walk(old(disk.tree), localPath, listing)
    {
      ghost var t0 := disk.tree;
      for i := 0 to |listing|
        invariant IsDirAt(disk.tree, localPath)
        invariant Walk(t0, localPath, listing) == Walk(disk.tree, localPath, listing[i..])
      {
        var item := localPath + [listing[i]];
        assert listing[i..][0] == listing[i] && listing[i..][1..] == listing[i + 1..];
        if disk.IsFile(item) {
          ghost var before := disk.tree;
          PlaceKeepsTarget(before, item, localPath);
          error := HandleFile(disk, item, localPath);
          if error.Some? {
            assert Walk(before, localPath, listing[i..]) == Place(before, item, localPath);
            return;
          }
        }
      }
      assert listing[|listing|..] == [];
      return None;
    }
  }
}
