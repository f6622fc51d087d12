/**
 SecurePath.copy of api/secure_path.py: a read-only pass that looks for conflicts,
 then a pass that copies. The first is what makes the second safe.
 */
module SecureCopy {
  import opened FileSystem

  // ------------------------------------------------------------ specification

  /** Neither path lies in the other's subtree. */
  predicate Disjoint(a: Path, b: Path) { !(a <= b) && !(b <= a) }

  /** The place in the destination tree that corresponds to `p` in the source tree. */
  function Image(p: Path, src: Path, dst: Path): Path
    requires src <= p
  {
    dst + p[|src|..]
  }

  /** The source path a destination path is the image of. */
  function Preimage(q: Path, src: Path, dst: Path): Path
    requires dst <= q
  {
    src + q[|dst|..]
  }

  /** What copying the entry at `p` puts at its image: files are fresh and owner-only,
      a directory already there keeps its mode. */
  function Copied(t: Tree, p: Path, q: Path, fileMode: nat, dirMode: nat): Entry
    requires p in t
  {
    match t[p]
    case File(content, _) => File(content, OwnerBits(fileMode))
    case Dir(_) => if q in t then t[q] else Dir(dirMode)
  }

  function Images(src: Path, dst: Path, s: set<Path>): set<Path>
    requires forall p :: p in s ==> src <= p
  {
    set p | p in s :: Image(p, src, dst)
  }

  lemma ImagesHavePreimages(src: Path, dst: Path, s: set<Path>)
    requires forall p :: p in s ==> src <= p
    ensures forall q :: q in Images(src, dst, s) <==> dst <= q && Preimage(q, src, dst) in s
  {
    forall q {:trigger Preimage(q, src, dst)}
      ensures q in Images(src, dst, s) <==> dst <= q && Preimage(q, src, dst) in s
    {
      if q in Images(src, dst, s) {
        var p :| p in s && q == Image(p, src, dst);
        PreimageOfImage(p, src, dst);
      }
      if dst <= q && Preimage(q, src, dst) in s {
        ImageOfPreimage(q, src, dst);
      }
    }
  }

  /** The tree with the source entries in `s` laid over the destination. */
  function Overlay(t: Tree, src: Path, dst: Path, s: set<Path>, fileMode: nat, dirMode: nat): Tree
    requires s <= Under(t, src)
  {
    ImagesHavePreimages(src, dst, s);
    map q | q in t.Keys + Images(src, dst, s) ::
      if dst <= q && Preimage(q, src, dst) in s
      then Copied(t, Preimage(q, src, dst), q, fileMode, dirMode)
      else t[q]
  }

  /** Where a copy lands: inside an existing directory of another name, or at the
      destination itself. */
  function Target(t: Tree, src: Path, dst: Path): Path {
    if IsDir(t, dst) && (Name(dst) != Name(src) || IsFile(t, src)) then Join(dst, Name(src)) else dst
  }

  predicate Clash(t: Tree, p: Path, q: Path, dirsExistOk: bool) {
    q in t && (!dirsExistOk || IsFile(t, p) != IsFile(t, q))
  }

  /** No path of the source subtree is in conflict with its image. */
  ghost predicate NoConflict(t: Tree, src: Path, dst: Path, dirsExistOk: bool) {
    forall p :: p in t && src <= p ==> !Clash(t, p, Image(p, src, dst), dirsExistOk)
  }

  /** The condition under which copy succeeds. */
  ghost predicate CanCopy(t: Tree, src: Path, dst: Path, dirsExistOk: bool) {
    var target := Target(t, src, dst);
    && src in t
    && (target in t ==> IsDir(t, target) && IsDir(t, src) && dirsExistOk)
    && NoConflict(t, src, target, dirsExistOk)
    && target != [] && IsDir(t, Parent(target))
  }

  /** Inside the subtree at `src`, entries lie in directories. */
  ghost predicate Closed(t: Tree, src: Path) {
    forall p :: p in t && src <= p && p != src ==> IsDir(t, Parent(p))
  }

  // -------------------------------------------------------- paths and subtrees

  lemma ImageOfPreimage(q: Path, src: Path, dst: Path)
    requires dst <= q
    ensures src <= Preimage(q, src, dst) && Image(Preimage(q, src, dst), src, dst) == q
  {
  }

  lemma PreimageOfImage(p: Path, src: Path, dst: Path)
    requires src <= p
    ensures dst <= Image(p, src, dst) && Preimage(Image(p, src, dst), src, dst) == p
  {
  }

  /** Corresponding paths agree when the two roots move down by the same name. */
  lemma ChildImage(src: Path, dst: Path, n: string)
    ensures forall p {:trigger Image(p, src, dst)} {:trigger Image(p, src + [n], dst + [n])} ::
              src + [n] <= p ==> src <= p && Image(p, src, dst) == Image(p, src + [n], dst + [n])
    ensures forall q {:trigger Preimage(q, src + [n], dst + [n])} ::
              dst + [n] <= q ==> dst <= q && Preimage(q, src, dst) == Preimage(q, src + [n], dst + [n])
  {
    forall p: Path {:trigger Image(p, src, dst)} | src + [n] <= p
      ensures src <= p && Image(p, src, dst) == Image(p, src + [n], dst + [n])
    {
      assert p[|src|..] == [n] + p[|src| + 1..];
      assert dst + p[|src|..] == dst + [n] + p[|src| + 1..];
    }
    forall q: Path {:trigger Preimage(q, src + [n], dst + [n])} | dst + [n] <= q
      ensures dst <= q && Preimage(q, src, dst) == Preimage(q, src + [n], dst + [n])
    {
      assert q[|dst|..] == [n] + q[|dst| + 1..];
      assert src + q[|dst|..] == src + [n] + q[|dst| + 1..];
    }
  }

  /** Everything under a directory is the directory or is under one of its children. */
  lemma {:induction false} UnderSplits(t: Tree, src: Path, p: Path)
    requires Closed(t, src) && p in t && src <= p && p != src
    ensures src + [p[|src|]] in t && src + [p[|src|]] <= p && IsDir(t, src)
    decreases |p|
  {
    var q := Parent(p);
    assert |p| > |src|;
    assert src <= q;
    if q == src {
      assert p == src + [p[|src|]];
    } else {
      UnderSplits(t, src, q);
      assert q[|src|] == p[|src|];
    }
  }

  // --------------------------------------------------- overlays of part of a tree

  datatype Lookup = Absent | Found(entry: Entry)

  function Find(t: Tree, q: Path): Lookup {
    if q in t then Found(t[q]) else Absent
  }

  lemma OverlayFind(t: Tree, src: Path, dst: Path, s: set<Path>, fileMode: nat, dirMode: nat, q: Path)
    requires s <= Under(t, src)
    ensures Find(Overlay(t, src, dst, s, fileMode, dirMode), q)
         == if dst <= q && Preimage(q, src, dst) in s
            then Found(Copied(t, Preimage(q, src, dst), q, fileMode, dirMode)) else Find(t, q)
  {
    ImagesHavePreimages(src, dst, s);
  }

  lemma SameLookups(a: Tree, b: Tree)
    requires forall q :: Find(a, q) == Find(b, q)
    ensures a == b
  {
    forall q {:trigger q in a} {:trigger q in b}
      ensures q in a <==> q in b
    {
      assert Find(a, q) == Find(b, q);
    }
    forall q | q in a
      ensures a[q] == b[q]
    {
      assert Find(a, q) == Find(b, q);
    }
  }

  lemma NotInBoth(p: Path, a: Path, b: Path)
    requires Disjoint(a, b) && a <= p
    ensures !(b <= p)
  {
  }

  /** An overlay leaves the source, and everything outside the destination, alone. */
  lemma OverlayFrame(t: Tree, src: Path, dst: Path, s: set<Path>, fileMode: nat, dirMode: nat)
    requires Disjoint(src, dst) && s <= Under(t, src)
    ensures var t' := Overlay(t, src, dst, s, fileMode, dirMode);
            && (forall q :: !(dst <= q) ==> Find(t', q) == Find(t, q))
            && (forall p :: p in t && src <= p ==> p in t' && t'[p] == t[p])
            && (forall p :: p in t' && src <= p ==> p in t)
  {
    var t' := Overlay(t, src, dst, s, fileMode, dirMode);
    forall q | !(dst <= q)
      ensures Find(t', q) == Find(t, q)
    {
      OverlayFind(t, src, dst, s, fileMode, dirMode, q);
    }
    forall p | (p in t || p in t') && src <= p
      ensures Find(t', p) == Find(t, p)
    {
      NotInBoth(p, src, dst);
    }
  }

  lemma OverlayChildAt(t: Tree, src: Path, dst: Path, n: string, s: set<Path>, fileMode: nat, dirMode: nat, q: Path)
    requires Disjoint(src, dst) && s <= Under(t, src)
    requires forall p :: p in s ==> !(src + [n] <= p)
    requires Under(t, src + [n]) <= Under(Overlay(t, src, dst, s, fileMode, dirMode), src + [n])
    requires s + Under(t, src + [n]) <= Under(t, src)
    ensures var t', c := Overlay(t, src, dst, s, fileMode, dirMode), Under(t, src + [n]);
            Find(Overlay(t', src + [n], dst + [n], c, fileMode, dirMode), q)
            == Find(Overlay(t, src, dst, s + c, fileMode, dirMode), q)
  {
    var t' := Overlay(t, src, dst, s, fileMode, dirMode);
    var c := Under(t, src + [n]);
    OverlayFind(t, src, dst, s, fileMode, dirMode, q);
    OverlayFind(t, src, dst, s + c, fileMode, dirMode, q);
    OverlayFind(t', src + [n], dst + [n], c, fileMode, dirMode, q);
    ChildImage(src, dst, n);
    if dst <= q && Preimage(q, src, dst) in c {
      var p := Preimage(q, src, dst);
      ImageUnderChild(q, src, dst, n);
      OverlayFind(t, src, dst, s, fileMode, dirMode, p);
      NotInBoth(p, src, dst);
    }
  }

  /** Laying a child's subtree over a partial overlay extends the overlay. */
  lemma OverlayChild(t: Tree, src: Path, dst: Path, n: string, s: set<Path>, fileMode: nat, dirMode: nat)
    requires Disjoint(src, dst) && s <= Under(t, src)
    requires forall p :: p in s ==> !(src + [n] <= p)
    ensures var t', c := Overlay(t, src, dst, s, fileMode, dirMode), Under(t, src + [n]);
            && c == Under(t', src + [n])
            && s + c <= Under(t, src)
            && Overlay(t', src + [n], dst + [n], c, fileMode, dirMode) == Overlay(t, src, dst, s + c, fileMode, dirMode)
  {
    var t' := Overlay(t, src, dst, s, fileMode, dirMode);
    var c := Under(t, src + [n]);
    OverlayFrame(t, src, dst, s, fileMode, dirMode);
    forall q
      ensures Find(Overlay(t', src + [n], dst + [n], c, fileMode, dirMode), q)
           == Find(Overlay(t, src, dst, s + c, fileMode, dirMode), q)
    {
      OverlayChildAt(t, src, dst, n, s, fileMode, dirMode, q);
    }
    SameLookups(Overlay(t', src + [n], dst + [n], c, fileMode, dirMode),
                Overlay(t, src, dst, s + c, fileMode, dirMode));
  }

  lemma ImageUnderChild(q: Path, src: Path, dst: Path, n: string)
    requires dst <= q && src + [n] <= Preimage(q, src, dst)
    ensures dst + [n] <= q
  {
    var p := Preimage(q, src, dst);
    assert p[|src|] == n && p[|src|] == q[|dst|];
  }

  // ------------------------------------------------------------- the two passes

  /** Entries in the source subtree at or under one of the named children, or the root
      of the subtree itself. */
  function Visited(t: Tree, src: Path, names: set<string>): set<Path> {
    set p | p in t && src <= p && (p == src || p[|src|] in names)
  }

  /** _recursive_check_for_conflicts */
  method CheckForConflicts(fs: FileSystem, src: Path, dst: Path, dirsExistOk: bool) returns (r: Outcome)
    requires src in fs.tree && Closed(fs.tree, src)
    ensures r.Ok? <==> NoConflict(fs.tree, src, dst, dirsExistOk)
    decreases Under(fs.tree, src)
  {
    var t := fs.tree;
    assert Image(src, src, dst) == dst;
    if dst in t && !dirsExistOk {
      return Err(FileExists);
    }
    if IsFile(t, dst) && !IsFile(t, src) {
      return Err(NotADirectory);
    }
    if IsDir(t, dst) && !IsDir(t, src) {
      return Err(IsADirectory);
    }
    var names: set<string> := if t[src].Dir? then ChildNames(t, src) else {};
    ghost var all := names;
    while names != {}
      invariant names <= all
      invariant forall p :: p in t && src <= p && (p == src || p[|src|] in all - names) ==>
                  !Clash(t, p, Image(p, src, dst), dirsExistOk)
    {
      var n :| n in names;
      ChildNamesExact(t, src, n);
      UnderChild(t, src, n);
      ChildImage(src, dst, n);
      r := CheckForConflicts(fs, src + [n], dst + [n], dirsExistOk);
      if r.Err? {
        assert forall p :: p in t && src + [n] <= p ==>
                 src <= p && Image(p, src, dst) == Image(p, src + [n], dst + [n]);
        return;
      }
      forall p | p in t && src <= p && p != src && p[|src|] == n
        ensures !Clash(t, p, Image(p, src, dst), dirsExistOk)
      {
        UnderSplits(t, src, p);
      }
      names := names - {n};
    }
    forall p | p in t && src <= p && p != src
      ensures p[|src|] in all
    {
      UnderSplits(t, src, p);
      ChildNamesExact(t, src, p[|src|]);
    }
    return Ok;
  }

  lemma UnderChild(t: Tree, src: Path, n: string)
    requires src in t && Closed(t, src)
    ensures Under(t, src + [n]) < Under(t, src)
    ensures Closed(t, src + [n])
  {
    assert src in Under(t, src) && src !in Under(t, src + [n]);
    forall p | p in t && src + [n] <= p
      ensures src <= p && p != src
    {
    }
  }

  /** A file has nothing below it. */
  lemma FileIsAlone(t: Tree, src: Path)
    requires IsFile(t, src) && Closed(t, src)
    ensures Under(t, src) == {src}
  {
    forall p | p in t && src <= p && p != src
      ensures false
    {
      UnderSplits(t, src, p);
    }
  }

  lemma VisitChild(t: Tree, src: Path, names: set<string>, n: string)
    requires Closed(t, src)
    ensures Visited(t, src, names + {n}) == Visited(t, src, names) + Under(t, src + [n])
    ensures n !in names ==> forall p :: p in Visited(t, src, names) ==> !(src + [n] <= p)
  {
    forall p | p in t && src <= p && p != src && p[|src|] == n
      ensures src + [n] <= p
    {
      UnderSplits(t, src, p);
    }
    forall p | p in t && src + [n] <= p
      ensures src <= p && p != src && p[|src|] == n
    {
      assert p[|src|] == (src + [n])[|src|];
    }
  }

  lemma VisitAll(t: Tree, src: Path)
    requires src in t && Closed(t, src)
    ensures Visited(t, src, ChildNames(t, src)) == Under(t, src)
  {
    forall p | p in t && src <= p && p != src
      ensures p[|src|] in ChildNames(t, src)
    {
      UnderSplits(t, src, p);
      ChildNamesExact(t, src, p[|src|]);
    }
  }

  /** What a partial overlay hands to the copy of the next child. */
  lemma ReadyForChild(t: Tree, src: Path, dst: Path, n: string, s: set<Path>, fileMode: nat, dirMode: nat)
    requires src in s && s <= Under(t, src) && IsDir(t, src) && src + [n] in t
    requires Disjoint(src, dst) && Closed(t, src) && NoConflict(t, src, dst, true)
    requires forall p :: p in s ==> !(src + [n] <= p)
    ensures var t' := Overlay(t, src, dst, s, fileMode, dirMode);
            && src + [n] in t' && Closed(t', src + [n])
            && IsDir(t', dst) && NoConflict(t', src + [n], dst + [n], true)
  {
    var t' := Overlay(t, src, dst, s, fileMode, dirMode);
    OverlayFrame(t, src, dst, s, fileMode, dirMode);
    assert Preimage(dst, src, dst) == src && Image(src, src, dst) == dst;
    OverlayFind(t, src, dst, s, fileMode, dirMode, dst);
    forall p | p in t' && src + [n] <= p && p != src + [n]
      ensures IsDir(t', Parent(p))
    {
      assert src <= p && p in t && src <= Parent(p);
    }
    ChildImage(src, dst, n);
    forall p | p in t' && src + [n] <= p
      ensures !Clash(t', p, Image(p, src + [n], dst + [n]), true)
    {
      var q := Image(p, src, dst);
      PreimageOfImage(p, src, dst);
      OverlayFind(t, src, dst, s, fileMode, dirMode, q);
      assert !Clash(t, p, q, true);
    }
  }

  lemma OverlayRoot(t: Tree, src: Path, dst: Path, fileMode: nat, dirMode: nat)
    requires src in t
    ensures Overlay(t, src, dst, {src}, fileMode, dirMode) == t[dst := Copied(t, src, dst, fileMode, dirMode)]
  {
    forall q
      ensures Find(Overlay(t, src, dst, {src}, fileMode, dirMode), q)
           == Find(t[dst := Copied(t, src, dst, fileMode, dirMode)], q)
    {
      OverlayFind(t, src, dst, {src}, fileMode, dirMode, q);
      if dst <= q && Preimage(q, src, dst) == src {
        ImageOfPreimage(q, src, dst);
      }
      assert Preimage(dst, src, dst) == src && Image(src, src, dst) == dst;
    }
    SameLookups(Overlay(t, src, dst, {src}, fileMode, dirMode), t[dst := Copied(t, src, dst, fileMode, dirMode)]);
  }

  /** The overlay reached once the named children have been copied. */
  ghost function CopiedSoFar(t: Tree, src: Path, dst: Path, names: set<string>, fileMode: nat, dirMode: nat): Tree {
    Overlay(t, src, dst, Visited(t, src, names), fileMode, dirMode)
  }

  /** Copying one more child is allowed, and takes the overlay one child further. */
  lemma ChildStep(t: Tree, src: Path, dst: Path, names: set<string>, n: string, fileMode: nat, dirMode: nat)
    requires IsDir(t, src) && src + [n] in t && n !in names
    requires Disjoint(src, dst) && Closed(t, src) && NoConflict(t, src, dst, true)
    ensures var t' := CopiedSoFar(t, src, dst, names, fileMode, dirMode);
            && src + [n] in t' && Closed(t', src + [n]) && Disjoint(src + [n], dst + [n])
            && IsDir(t', Parent(dst + [n])) && NoConflict(t', src + [n], dst + [n], true)
            && Under(t', src + [n]) < Under(t, src)
            && Overlay(t', src + [n], dst + [n], Under(t', src + [n]), fileMode, dirMode)
               == CopiedSoFar(t, src, dst, names + {n}, fileMode, dirMode)
  {
    var s := Visited(t, src, names);
    VisitChild(t, src, names, n);
    ReadyForChild(t, src, dst, n, s, fileMode, dirMode);
    OverlayChild(t, src, dst, n, s, fileMode, dirMode);
    UnderChild(t, src, n);
    assert Parent(dst + [n]) == dst;
    ChildrenDisjoint(src, dst, n);
  }

  lemma ChildrenDisjoint(src: Path, dst: Path, n: string)
    requires Disjoint(src, dst)
    ensures Disjoint(src + [n], dst + [n])
  {
    if src + [n] <= dst + [n] { NotInBoth(dst + [n], dst, src); }
    if dst + [n] <= src + [n] { NotInBoth(src + [n], src, dst); }
  }

  /** The file branch of _recursive_copy. */
  method CopyOneFile(fs: FileSystem, src: Path, dst: Path) returns (r: Outcome)
    requires IsFile(fs.tree, src) && !IsDir(fs.tree, dst) && src != dst
    requires dst in fs.tree ==> dst != [] && IsDir(fs.tree, Parent(dst))
    modifies fs
    ensures r.Ok? <==> dst != [] && IsDir(old(fs.tree), Parent(dst))
    ensures fs.tree == if r.Ok?
                       then old(fs.tree)[dst := Copied(old(fs.tree), src, dst, fs.freshFileMode, fs.freshDirMode)]
                       else old(fs.tree)
  {
    if dst in fs.tree {
      var u := fs.Unlink(dst, false);
    }
    r := fs.CopyFile(src, dst);
    if r.Ok? {
      fs.RestrictPermissions(dst);
    }
  }

  /** _recursive_copy: after the check has passed no step of it fails. */
  method RecursiveCopy(fs: FileSystem, src: Path, dst: Path) returns (r: Outcome)
    requires src in fs.tree && Closed(fs.tree, src) && Disjoint(src, dst)
    requires NoConflict(fs.tree, src, dst, true)
    requires dst in fs.tree ==> dst != [] && IsDir(fs.tree, Parent(dst))
    modifies fs
    ensures r.Ok? <==> dst != [] && IsDir(old(fs.tree), Parent(dst))
    ensures fs.tree == if r.Ok?
                       then Overlay(old(fs.tree), src, dst, Under(old(fs.tree), src), fs.freshFileMode, fs.freshDirMode)
                       else old(fs.tree)
    decreases Under(fs.tree, src), 1
  {
    ghost var t := fs.tree;
    assert Image(src, src, dst) == dst && !Clash(t, src, dst, true);
    OverlayRoot(t, src, dst, fs.freshFileMode, fs.freshDirMode);
    if IsFile(fs.tree, src) {
      FileIsAlone(t, src);
      r := CopyOneFile(fs, src, dst);
      return;
    }
    r := fs.OsMkdir(dst, true);
    if r.Err? { return; }
    ReadyForChildren(t, src, dst, fs.freshFileMode, fs.freshDirMode);
    CopyChildren(fs, src, dst, ChildNames(fs.tree, src), t, {});
    return Ok;
  }

  lemma ReadyForChildren(t: Tree, src: Path, dst: Path, fileMode: nat, dirMode: nat)
    requires src in t && Closed(t, src) && Disjoint(src, dst)
    ensures CopiedSoFar(t, src, dst, {}, fileMode, dirMode) == Overlay(t, src, dst, {src}, fileMode, dirMode)
    ensures ChildNames(Overlay(t, src, dst, {src}, fileMode, dirMode), src) == ChildNames(t, src)
    ensures CopiedSoFar(t, src, dst, ChildNames(t, src), fileMode, dirMode)
         == Overlay(t, src, dst, Under(t, src), fileMode, dirMode)
  {
    assert Visited(t, src, {}) == {src};
    OverlayFrame(t, src, dst, {src}, fileMode, dirMode);
    VisitAll(t, src);
  }

  /** The loop of _recursive_copy over a directory's children, in any order; `t` is the
      tree before the directory itself was made. */
  method CopyChildren(fs: FileSystem, src: Path, dst: Path, names: set<string>, ghost t: Tree, ghost done: set<string>)
    requires IsDir(t, src) && Closed(t, src) && Disjoint(src, dst) && NoConflict(t, src, dst, true)
    requires names !! done && names + done == ChildNames(t, src)
    requires fs.tree == CopiedSoFar(t, src, dst, done, fs.freshFileMode, fs.freshDirMode)
    modifies fs
    ensures fs.tree == CopiedSoFar(t, src, dst, ChildNames(t, src), fs.freshFileMode, fs.freshDirMode)
    decreases Under(t, src), 0
  {
    ghost var all := names + done;
    var rest := names;
    while rest != {}
      invariant rest <= all
      invariant fs.tree == CopiedSoFar(t, src, dst, all - rest, fs.freshFileMode, fs.freshDirMode)
    {
      var n :| n in rest;
      ghost var before := all - rest;
      ChildNamesExact(t, src, n);
      ChildStep(t, src, dst, before, n, fs.freshFileMode, fs.freshDirMode);
      var r := RecursiveCopy(fs, src + [n], dst + [n]);
      rest := rest - {n};
      assert all - rest == before + {n};
    }
    assert all - rest == all;
  }

  /** The two passes of SecurePath.copy, once the landing place is known. */
  method CopyTo(fs: FileSystem, src: Path, at: Path, dirsExistOk: bool) returns (r: Outcome)
    requires fs.Valid() && src in fs.tree && Disjoint(src, at)
    requires at in fs.tree ==> fs.tree[at].Dir? && fs.tree[src].Dir? && dirsExistOk
    modifies fs
    ensures fs.Valid()
    ensures r.Ok? <==> NoConflict(old(fs.tree), src, at, dirsExistOk) && at != [] && IsDir(old(fs.tree), Parent(at))
    ensures fs.tree == if r.Ok?
                       then Overlay(old(fs.tree), src, at, Under(old(fs.tree), src), fs.freshFileMode, fs.freshDirMode)
                       else old(fs.tree)
    ensures r.Ok? <==> var t := old(fs.tree);
      && at != [] && at[..|at| - 1] in t && t[at[..|at| - 1]].Dir?
      && forall p :: p in t && src <= p && at + p[|src|..] in t ==>
           dirsExistOk && (t[p].Dir? <==> t[at + p[|src|..]].Dir?)
    ensures r.Ok? ==> var (t, t') := (old(fs.tree), fs.tree);
      forall p :: p in t && src <= p ==> var q := at + p[|src|..];
        && q in t'
        && (t[p].File? ==> t'[q].File? && t'[q].content == t[p].content
                           && t'[q].mode % 64 == 0 && t'[q].mode / 64 == fs.freshFileMode / 64 % 8)
        && (t[p].Dir? ==> t'[q] == if q in t then t[q] else Dir(fs.freshDirMode))
    ensures r.Ok? ==> var (t, t') := (old(fs.tree), fs.tree);
      forall q :: !(at <= q && src + q[|at|..] in t) ==> (q in t' <==> q in t) && (q in t ==> t'[q] == t[q])
  {
    ghost var t := fs.tree;
    CanCopyAt(t, src, at, dirsExistOk);
    r := CheckForConflicts(fs, src, at, dirsExistOk);
    if r.Err? { return; }
    r := RecursiveCopy(fs, src, at);
    if r.Ok? {
      OverlayWellFormed(t, src, at, fs.freshFileMode, fs.freshDirMode);
      CopiedPathByPath(t, src, at, fs.freshFileMode, fs.freshDirMode);
    }
  }

  /** SecurePath.copy. `at` is where the copy lands: in an existing directory under the name of
      the source, unless it has that name itself and the source is no file; otherwise at the
      destination. */
  method Copy(fs: FileSystem, src: Path, dst: Path, dirsExistOk: bool) returns (r: Outcome, ghost at: Path)
    requires fs.Valid()
    requires Disjoint(src, Target(fs.tree, src, dst))
    modifies fs
    ensures fs.Valid()
    ensures src != []
    ensures at == if && dst in old(fs.tree) && old(fs.tree)[dst].Dir?
                     && (|| (if dst == [] then "" else dst[|dst| - 1]) != src[|src| - 1]
                         || (src in old(fs.tree) && old(fs.tree)[src].File?))
                  then dst + [src[|src| - 1]] else dst
    // it succeeds exactly when there is a source, a directory to put it in, and nothing in the
    // way but, if allowed, directories for directories and files for files below the top
    ensures r.Ok? <==> var t := old(fs.tree);
      && src in t
      && at != [] && at[..|at| - 1] in t && t[at[..|at| - 1]].Dir?
      && (at in t ==> dirsExistOk && t[at].Dir? && t[src].Dir?)
      && forall p :: p in t && src <= p && at + p[|src|..] in t ==>
           dirsExistOk && (t[p].Dir? <==> t[at + p[|src|..]].Dir?)
    // then every path of the source has its copy, for the owner only, in directories that are
    // new or as they were
    ensures r.Ok? ==> var (t, t') := (old(fs.tree), fs.tree);
      forall p :: p in t && src <= p ==> var q := at + p[|src|..];
        && q in t'
        && (t[p].File? ==> t'[q].File? && t'[q].content == t[p].content
                           && t'[q].mode % 64 == 0 && t'[q].mode / 64 == fs.freshFileMode / 64 % 8)
        && (t[p].Dir? ==> t'[q] == if q in t then t[q] else Dir(fs.freshDirMode))
    // and everything that has no counterpart in the source is as it was
    ensures r.Ok? ==> var (t, t') := (old(fs.tree), fs.tree);
      forall q :: !(at <= q && src + q[|at|..] in t) ==> (q in t' <==> q in t) && (q in t ==> t'[q] == t[q])
    ensures src !in old(fs.tree) ==> r == Err(FileNotFound)
    ensures src in old(fs.tree) && at in old(fs.tree) && !dirsExistOk ==> r == Err(FileExists)
    ensures r.Ok? <==> CanCopy(old(fs.tree), src, dst, dirsExistOk)
    ensures fs.tree == if r.Ok?
                       then Overlay(old(fs.tree), src, Target(old(fs.tree), src, dst), Under(old(fs.tree), src),
                                    fs.freshFileMode, fs.freshDirMode)
                       else old(fs.tree)
  {
    at := Target(fs.tree, src, dst);
    LandsAt(fs.tree, src, dst);
    if src !in fs.tree {
      return Err(FileNotFound), at;
    }
    var destination := dst;
    if destination in fs.tree {
      if IsDir(fs.tree, destination) && (Name(destination) != Name(src) || IsFile(fs.tree, src)) {
        destination := Join(destination, Name(src));
      }
      if destination in fs.tree {
        if !(IsDir(fs.tree, destination) && IsDir(fs.tree, src) && dirsExistOk) {
          return Err(FileExists), at;
        }
      }
    }
    r := CopyTo(fs, src, destination, dirsExistOk);
  }

  /** The landing place, spelled out. */
  lemma LandsAt(t: Tree, src: Path, dst: Path)
    requires Disjoint(src, Target(t, src, dst))
    ensures src != []
    ensures Target(t, src, dst) ==
            if && dst in t && t[dst].Dir?
               && ((if dst == [] then "" else dst[|dst| - 1]) != src[|src| - 1] || (src in t && t[src].File?))
            then dst + [src[|src| - 1]] else dst
  {
  }

  lemma CanCopyAt(t: Tree, src: Path, at: Path, dirsExistOk: bool)
    ensures NoConflict(t, src, at, dirsExistOk) <==>
            forall p :: p in t && src <= p && at + p[|src|..] in t ==>
              dirsExistOk && (t[p].Dir? <==> t[at + p[|src|..]].Dir?)
  {
    if NoConflict(t, src, at, dirsExistOk) {
      forall p | p in t && src <= p && at + p[|src|..] in t
        ensures dirsExistOk && (t[p].Dir? <==> t[at + p[|src|..]].Dir?)
      {
        assert !Clash(t, p, Image(p, src, at), dirsExistOk);
      }
    }
  }

  lemma OwnerBitsExact(mode: nat)
    ensures OwnerBits(mode) % 64 == 0 && OwnerBits(mode) / 64 == mode / 64 % 8
  {
  }

  /** The overlay of a whole source, spelled out. */
  lemma CopiedPathByPath(t: Tree, src: Path, at: Path, fileMode: nat, dirMode: nat)
    requires NoConflict(t, src, at, true)
    ensures var t' := Overlay(t, src, at, Under(t, src), fileMode, dirMode);
            && (forall p :: p in t && src <= p ==> var q := at + p[|src|..];
                  && q in t'
                  && (t[p].File? ==> t'[q].File? && t'[q].content == t[p].content
                                     && t'[q].mode % 64 == 0 && t'[q].mode / 64 == fileMode / 64 % 8)
                  && (t[p].Dir? ==> t'[q] == if q in t then t[q] else Dir(dirMode)))
            && (forall q :: !(at <= q && src + q[|at|..] in t) ==>
                  (q in t' <==> q in t) && (q in t ==> t'[q] == t[q]))
  {
    var s := Under(t, src);
    var t' := Overlay(t, src, at, s, fileMode, dirMode);
    OwnerBitsExact(fileMode);
    forall p | p in t && src <= p
      ensures var q := at + p[|src|..];
              Find(t', q) == Found(Copied(t, p, q, fileMode, dirMode))
    {
      PreimageOfImage(p, src, at);
      OverlayFind(t, src, at, s, fileMode, dirMode, Image(p, src, at));
    }
    forall q | !(at <= q && src + q[|at|..] in t)
      ensures Find(t', q) == Find(t, q)
    {
      OverlayFind(t, src, at, s, fileMode, dirMode, q);
    }
  }

  lemma OverlayKeepsKinds(t: Tree, src: Path, dst: Path, fileMode: nat, dirMode: nat, q: Path)
    requires NoConflict(t, src, dst, true) && q in t
    ensures var t' := Overlay(t, src, dst, Under(t, src), fileMode, dirMode);
            q in t' && (t[q].Dir? <==> t'[q].Dir?)
  {
    OverlayFind(t, src, dst, Under(t, src), fileMode, dirMode, q);
    if dst <= q && Preimage(q, src, dst) in Under(t, src) {
      ImageOfPreimage(q, src, dst);
      assert !Clash(t, Preimage(q, src, dst), q, true);
    }
  }

  lemma ParentImage(q: Path, src: Path, dst: Path)
    requires dst <= q && q != dst
    ensures q != [] && Preimage(q, src, dst) != [] && dst <= Parent(q)
    ensures Preimage(Parent(q), src, dst) == Parent(Preimage(q, src, dst))
  {
  }

  lemma NewPathHasParent(t: Tree, src: Path, dst: Path, fileMode: nat, dirMode: nat, q: Path)
    requires Closed(t, src) && NoConflict(t, src, dst, true)
    requires q !in t && q != dst && q in Overlay(t, src, dst, Under(t, src), fileMode, dirMode)
    ensures q != [] && IsDir(Overlay(t, src, dst, Under(t, src), fileMode, dirMode), Parent(q))
  {
    OverlayFind(t, src, dst, Under(t, src), fileMode, dirMode, q);
    var p := Preimage(q, src, dst);
    ImageOfPreimage(q, src, dst);
    assert Image(src, src, dst) == dst;
    ParentImage(q, src, dst);
    OverlayFind(t, src, dst, Under(t, src), fileMode, dirMode, Parent(q));
    if Parent(q) in t {
      ImageOfPreimage(Parent(q), src, dst);
      assert !Clash(t, Parent(p), Parent(q), true);
    }
  }

  lemma OverlayWellFormed(t: Tree, src: Path, dst: Path, fileMode: nat, dirMode: nat)
    requires WellFormed(t) && src in t && NoConflict(t, src, dst, true)
    requires dst != [] && IsDir(t, Parent(dst))
    ensures WellFormed(Overlay(t, src, dst, Under(t, src), fileMode, dirMode))
  {
    var t' := Overlay(t, src, dst, Under(t, src), fileMode, dirMode);
    forall q | q in t' && q != []
      ensures IsDir(t', Parent(q))
    {
      if q in t || q == dst {
        OverlayKeepsKinds(t, src, dst, fileMode, dirMode, Parent(q));
      } else {
        NewPathHasParent(t, src, dst, fileMode, dirMode, q);
      }
    }
    OverlayKeepsKinds(t, src, dst, fileMode, dirMode, []);
  }

  // ----------------------------------------------------- what a copy amounts to

  /** What a copy leaves at the image of a source path: the same kind and content;
      a copied file can be read by its owner only, a directory that was there stays. */
  ghost predicate IsCopyOf(t: Tree, t': Tree, p: Path, q: Path)
    requires p in t
  {
    && q in t' && (t'[q].File? <==> t[p].File?)
    && (t[p].File? ==> t'[q].content == t[p].content && OwnerOnly(t'[q].mode))
    && (t[p].Dir? && q in t ==> t'[q] == t[q])
  }

  /** The tree after a copy, path by path. */
  lemma CopyResult(t: Tree, src: Path, dst: Path, fileMode: nat, dirMode: nat)
    requires Disjoint(src, dst) && NoConflict(t, src, dst, true)
    ensures var t' := Overlay(t, src, dst, Under(t, src), fileMode, dirMode);
            // the target mirrors the source
            && (forall p :: p in t && src <= p ==> IsCopyOf(t, t', p, Image(p, src, dst)))
            // the source and everything outside the target are as before
            && (forall p :: p in t && src <= p ==> Find(t', p) == Find(t, p))
            && (forall q :: !(dst <= q) ==> Find(t', q) == Find(t, q))
            // and so is everything in the target without a counterpart
            && (forall q :: dst <= q && Preimage(q, src, dst) !in t ==> Find(t', q) == Find(t, q))
  {
    var s := Under(t, src);
    var t' := Overlay(t, src, dst, s, fileMode, dirMode);
    OverlayFrame(t, src, dst, s, fileMode, dirMode);
    forall p | p in t && src <= p
      ensures IsCopyOf(t, t', p, Image(p, src, dst))
    {
      CopiedAt(t, src, dst, fileMode, dirMode, p);
    }
    forall q | dst <= q && Preimage(q, src, dst) !in t
      ensures Find(t', q) == Find(t, q)
    {
      OverlayFind(t, src, dst, s, fileMode, dirMode, q);
    }
  }

  lemma CopiedAt(t: Tree, src: Path, dst: Path, fileMode: nat, dirMode: nat, p: Path)
    requires NoConflict(t, src, dst, true) && p in t && src <= p
    ensures IsCopyOf(t, Overlay(t, src, dst, Under(t, src), fileMode, dirMode), p, Image(p, src, dst))
  {
    var q := Image(p, src, dst);
    PreimageOfImage(p, src, dst);
    OverlayFind(t, src, dst, Under(t, src), fileMode, dirMode, q);
    assert !Clash(t, p, q, true);
  }

  /** Copying the same source again with dirs_exist_ok succeeds and changes nothing. */
  lemma CopyTwice(t: Tree, src: Path, dst: Path, fileMode: nat, dirMode: nat)
    requires Disjoint(src, dst) && NoConflict(t, src, dst, true)
    ensures var t' := Overlay(t, src, dst, Under(t, src), fileMode, dirMode);
            && Under(t', src) == Under(t, src)
            && NoConflict(t', src, dst, true)
            && Overlay(t', src, dst, Under(t', src), fileMode, dirMode) == t'
  {
    var s := Under(t, src);
    var t' := Overlay(t, src, dst, s, fileMode, dirMode);
    CopyResult(t, src, dst, fileMode, dirMode);
    OverlayFrame(t, src, dst, s, fileMode, dirMode);
    forall q
      ensures Find(Overlay(t', src, dst, s, fileMode, dirMode), q) == Find(t', q)
    {
      OverlayFind(t, src, dst, s, fileMode, dirMode, q);
      OverlayFind(t', src, dst, s, fileMode, dirMode, q);
      if dst <= q && Preimage(q, src, dst) in s { ImageOfPreimage(q, src, dst); }
    }
    SameLookups(Overlay(t', src, dst, s, fileMode, dirMode), t');
  }
}
