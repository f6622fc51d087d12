/**
 A directory tree and the SecurePath operations of api/secure_path.py that change it.
 Symbolic links are not modelled; a path is its list of components from the root.
 */
module FileSystem {

  type Path = seq<string>

  datatype Entry = File(content: string, mode: nat) | Dir(mode: nat)

  type Tree = map<Path, Entry>

  datatype Error = FileNotFound | FileExists | NotADirectory | IsADirectory | DirectoryNotEmpty

  datatype Outcome = Ok | Err(error: Error)

  function Parent(p: Path): Path
    requires p != []
  {
    p[..|p| - 1]
  }

  /** The final component, "" for the root. */
  function Name(p: Path): string {
    if p == [] then "" else p[|p| - 1]
  }

  /** path / name */
  function Join(p: Path, name: string): Path {
    p + [name]
  }

  predicate IsDir(t: Tree, p: Path) { p in t && t[p].Dir? }

  predicate IsFile(t: Tree, p: Path) { p in t && t[p].File? }

  /** The root is a directory and everything else lies in a directory. */
  ghost predicate WellFormed(t: Tree) {
    && IsDir(t, [])
    && forall p :: p in t && p != [] ==> IsDir(t, Parent(p))
  }

  /** The paths of the subtree at `p`. */
  function Under(t: Tree, p: Path): set<Path> {
    set q | q in t && p <= q
  }

  function ChildNames(t: Tree, p: Path): set<string> {
    set q | q in t && |q| == |p| + 1 && p <= q :: q[|p|]
  }

  lemma ChildNamesExact(t: Tree, p: Path, n: string)
    ensures n in ChildNames(t, p) <==> p + [n] in t
  {
    if p + [n] in t {
      assert p <= p + [n] && (p + [n])[|p|] == n;
    }
    if n in ChildNames(t, p) {
      var q :| q in t && |q| == |p| + 1 && p <= q && q[|p|] == n;
      assert q == p + [n];
    }
  }

  // Permission bits: the owner's are the multiples of 64 below 512.

  function OwnerBits(mode: nat): nat { mode / 64 % 8 * 64 }

  predicate OwnerOnly(mode: nat) { mode % 64 == 0 }

  /** In a well-formed tree every ancestor of an entry is a directory. */
  lemma {:induction false} AncestorsAreDirs(t: Tree, p: Path, a: Path)
    requires WellFormed(t) && p in t && a <= p && a != p
    ensures IsDir(t, a)
    decreases |p|
  {
    if a != Parent(p) {
      AncestorsAreDirs(t, Parent(p), a);
    }
  }

  function Prefixes(p: Path): set<Path> {
    set i | 0 <= i <= |p| :: p[..i]
  }

  /** The tree after creating the missing directories on the way to `p`. */
  function WithDirs(t: Tree, p: Path, mode: nat): Tree {
    map q | q in t.Keys + Prefixes(p) :: if q in t then t[q] else Dir(mode)
  }

  /** No file stands where an ancestor of `p` should be. */
  ghost predicate NoFileOnTheWay(t: Tree, p: Path) {
    forall a :: a in t && a <= p && a != p ==> t[a].Dir?
  }

  class FileSystem {
    var tree: Tree
    const freshFileMode: nat  // what the umask leaves of the mode of a new file
    const freshDirMode: nat   // what the umask leaves of 0o700

    ghost predicate Valid()
      reads this
    {
      WellFormed(tree) && OwnerOnly(freshDirMode)
    }

    constructor (fileMode: nat, dirMode: nat)
      requires OwnerOnly(dirMode)
      ensures Valid() && tree == map[[] := Dir(dirMode)]
      ensures freshFileMode == fileMode && freshDirMode == dirMode
    {
      tree := map[[] := Dir(dirMode)];
      freshFileMode := fileMode;
      freshDirMode := dirMode;
    }

    /** SecurePath.unlink */
    method Unlink(p: Path, missingOk: bool) returns (r: Outcome)
      modifies this
      ensures r == if p !in old(tree) then (if missingOk then Ok else Err(FileNotFound))
                   else if old(tree)[p].Dir? then Err(IsADirectory) else Ok
      ensures tree == if r.Ok? then old(tree) - {p} else old(tree)
    {
      if p !in tree {
        return if missingOk then Ok else Err(FileNotFound);
      }
      if tree[p].Dir? {
        return Err(IsADirectory);
      }
      tree := tree - {p};
      return Ok;
    }

    /** SecurePath.rmdir */
    method Rmdir(p: Path, recursive: bool, missingOk: bool) returns (r: Outcome)
      modifies this
      ensures r == if p !in old(tree) then (if missingOk then Ok else Err(FileNotFound))
                   else if old(tree)[p].File? then Err(NotADirectory)
                   else if !recursive && ChildNames(old(tree), p) != {} then Err(DirectoryNotEmpty) else Ok
      ensures tree == if r.Ok? && p in old(tree) then old(tree) - Under(old(tree), p) else old(tree)
    {
      if p !in tree {
        return if missingOk then Ok else Err(FileNotFound);
      }
      if tree[p].File? {
        return Err(NotADirectory);
      }
      if !recursive && ChildNames(tree, p) != {} {
        return Err(DirectoryNotEmpty);
      }
      tree := tree - Under(tree, p);
      return Ok;
    }

    /** pathlib's mkdir without parents. */
    method OsMkdir(p: Path, existOk: bool) returns (r: Outcome)
      modifies this
      ensures r == if p in old(tree) then (if existOk && old(tree)[p].Dir? then Ok else Err(FileExists))
                   else if p == [] || Parent(p) !in old(tree) then Err(FileNotFound)
                   else if old(tree)[Parent(p)].File? then Err(NotADirectory) else Ok
      ensures tree == if r.Ok? && p !in old(tree) then old(tree)[p := Dir(freshDirMode)] else old(tree)
    {
      if p in tree {
        return if existOk && tree[p].Dir? then Ok else Err(FileExists);
      }
      if p == [] || Parent(p) !in tree {
        return Err(FileNotFound);
      }
      if tree[Parent(p)].File? {
        return Err(NotADirectory);
      }
      tree := tree[p := Dir(freshDirMode)];
      return Ok;
    }

    /** shutil.copyfile */
    method CopyFile(src: Path, dst: Path) returns (r: Outcome)
      modifies this
      ensures r == if src !in old(tree) then Err(FileNotFound)
                   else if old(tree)[src].Dir? then Err(IsADirectory)
                   else if IsDir(old(tree), dst) then Err(IsADirectory)
                   else if dst == [] || Parent(dst) !in old(tree) then Err(FileNotFound)
                   else if old(tree)[Parent(dst)].File? then Err(NotADirectory) else Ok
      ensures r.Ok? ==> tree == old(tree)[dst := File(old(tree)[src].content,
                                                      if dst in old(tree) then old(tree)[dst].mode else freshFileMode)]
      ensures r.Err? ==> tree == old(tree)
    {
      if src !in tree {
        return Err(FileNotFound);
      }
      if tree[src].Dir? || IsDir(tree, dst) {
        return Err(IsADirectory);
      }
      if dst == [] || Parent(dst) !in tree {
        return Err(FileNotFound);
      }
      if tree[Parent(dst)].File? {
        return Err(NotADirectory);
      }
      tree := tree[dst := File(tree[src].content, if dst in tree then tree[dst].mode else freshFileMode)];
      return Ok;
    }

    /** SecurePath.restrict_permissions: keep the owner's bits only. */
    method RestrictPermissions(p: Path)
      requires p in tree
      modifies this
      ensures tree == old(tree)[p := old(tree)[p].(mode := OwnerBits(old(tree)[p].mode))]
    {
      tree := tree[p := tree[p].(mode := OwnerBits(tree[p].mode))];
    }

    /** SecurePath.mkdir with parents=True: all the missing directories are made, or
        none is. */
    method MkdirParents(p: Path, existOk: bool) returns (r: Outcome)
      requires Valid()
      modifies this
      ensures Valid()
      ensures r.Ok? <==> NoFileOnTheWay(old(tree), p)
                         && (p in old(tree) ==> existOk && old(tree)[p].Dir?)
      ensures tree == if r.Ok? then WithDirs(old(tree), p, freshDirMode) else old(tree)
      // the path and all that leads to it are there, and nothing else has changed
      ensures r.Ok? ==> forall q ::
        && (q in tree <==> q in old(tree) || q <= p)
        && (q in tree ==> tree[q] == if q in old(tree) then old(tree)[q] else Dir(freshDirMode))
      decreases |p|
    {
      var t := tree;
      PrefixesAreThose(p);
      if p != [] && Parent(p) !in tree {
        r := MkdirParents(Parent(p), existOk);
        assert p !in t;
        AncestorsOf(t, p);
        if r.Err? { return; }
        assert IsDir(tree, Parent(p)) by { assert Parent(p)[..|p| - 1] == Parent(p); }
        r := OsMkdir(p, existOk);
        MadeDirsExtend(t, p, freshDirMode);
      } else {
        r := OsMkdir(p, existOk);
        if p != [] {
          AncestorsOf(t, p);
          forall a | a in t && a <= Parent(p) && a != Parent(p)
            ensures t[a].Dir?
          {
            AncestorsAreDirs(t, Parent(p), a);
          }
        }
        if r.Ok? {
          PrefixesPresent(t, p);
        }
      }
    }
  }

  lemma PrefixesAreThose(p: Path)
    ensures forall q :: q in Prefixes(p) <==> q <= p
  {
    forall q | q <= p
      ensures q in Prefixes(p)
    {
      assert q == p[..|q|];
    }
  }

  lemma AncestorsOf(t: Tree, p: Path)
    requires p != []
    ensures forall a :: a in t ==> (a <= p && a != p <==> a <= Parent(p))
  {
    forall a | a in t
      ensures a <= p && a != p <==> a <= Parent(p)
    {
      if a <= p && a != p { assert a <= Parent(p); }
    }
  }

  lemma MadeDirsExtend(t: Tree, p: Path, mode: nat)
    requires p != [] && p !in t
    ensures WithDirs(t, Parent(p), mode)[p := Dir(mode)] == WithDirs(t, p, mode)
  {
    var q := Parent(p);
    forall i | 0 <= i < |p|
      ensures p[..i] == q[..i]
    {
    }
    assert Prefixes(p) == Prefixes(q) + {p} by {
      assert p[..|p|] == p;
      forall x | x in Prefixes(q)
        ensures x in Prefixes(p)
      {
        var i :| 0 <= i <= |q| && x == q[..i];
        assert x == p[..i];
      }
    }
  }

  lemma PrefixesPresent(t: Tree, p: Path)
    requires WellFormed(t)
    requires p == [] || Parent(p) in t
    ensures forall mode :: WithDirs(t, p, mode) == if p in t then t else t[p := Dir(mode)]
  {
    forall i | 0 <= i < |p|
      ensures p[..i] in t
    {
      if p[..i] != Parent(p) { AncestorsAreDirs(t, Parent(p), p[..i]); }
    }
    assert p[..|p|] == p;
    assert Prefixes(p) <= t.Keys + {p};
    assert p in Prefixes(p);
  }
}
