/**
 Removing the bundle of an app project (apps/snowflake_app_project_paths.py): a retried
 delete, then a walk up through the directories left empty. Any single delete may fail.
 */
module BundleCleanup {
  import opened FileSystem

  /** How an operation of the file system ends; both errors are OSErrors. */
  datatype Reply = Done | PermissionError | OtherError

  /** Milliseconds between attempts. */
  const RETRY_DELAYS: seq<nat> := [100, 250, 500]

  const OWNER_WRITE: nat := 128

  /** The mode with the owner's write bit set. */
  function Writable(mode: nat): nat {
    if mode / OWNER_WRITE % 2 == 1 then mode else mode + OWNER_WRITE
  }

  function MadeWritable(e: Entry): Entry {
    match e
    case File(content, mode) => File(content, Writable(mode))
    case Dir(mode) => Dir(Writable(mode))
  }

  /** pathlib's parent: the root is its own. */
  function ParentOf(p: Path): Path {
    if p == [] then [] else Parent(p)
  }

  /** The tree without the subtree at `p`. */
  function Removed(t: Tree, p: Path): Tree { t - Under(t, p) }

  predicate Below(p: Path, q: Path) { p <= q && p != q }

  predicate LeftAt(t: Tree, u: Tree, p: Path, q: Path) {
    && (q in u ==> q in t && (u[q] == t[q] || u[q] == MadeWritable(t[q])))
    && (q in t && !(p <= q) ==> q in u && u[q] == t[q])
  }

  /** `u` is what a delete of `p` that failed may leave of `t`: `p` itself is still there,
      everything elsewhere is as it was, and what remains below has its content. */
  ghost predicate LeftOf(t: Tree, u: Tree, p: Path) {
    p in u && forall q :: LeftAt(t, u, p, q)
  }

  /** The bit with the value 128 is set, and no other changes. */
  lemma WritableBit(mode: nat)
    ensures Writable(mode) / 128 % 2 == 1
    ensures Writable(mode) % 128 == mode % 128 && Writable(mode) / 256 == mode / 256
  {
    assert (mode + OWNER_WRITE) / OWNER_WRITE == mode / OWNER_WRITE + 1;
  }

  lemma WritableTwice(e: Entry)
    ensures MadeWritable(MadeWritable(e)) == MadeWritable(e)
  {
    WritableBit(e.mode);
  }

  lemma LeftOfLeft(t: Tree, u: Tree, v: Tree, p: Path)
    requires LeftOf(t, u, p) && LeftOf(u, v, p)
    ensures LeftOf(t, v, p)
  {
    forall q
      ensures LeftAt(t, v, p, q)
    {
      assert LeftAt(t, u, p, q) && LeftAt(u, v, p, q);
      if q in v { WritableTwice(t[q]); }
    }
  }

  lemma SameKind(t: Tree, u: Tree, p: Path)
    requires LeftOf(t, u, p)
    ensures p in t && IsDir(u, p) == IsDir(t, p)
  {
    assert LeftAt(t, u, p, p);
  }

  /** The entries below `p` that lie in one of its children `names`. */
  function InChildren(t: Tree, p: Path, names: set<string>): set<Path> {
    set q | q in t && Below(p, q) && q[|p|] in names
  }

  lemma ChildOnTheWay(t: Tree, p: Path, q: Path)
    requires WellFormed(t) && q in t && Below(p, q)
    ensures p + [q[|p|]] in t && p + [q[|p|]] <= q && q[|p|] in ChildNames(t, p)
  {
    var c := q[..|p| + 1];
    assert c == p + [q[|p|]];
    if c != q { AncestorsAreDirs(t, q, c); }
    ChildNamesExact(t, p, q[|p|]);
  }

  lemma UnderIsChildren(t: Tree, p: Path)
    requires WellFormed(t) && p in t
    ensures Under(t, p) == {p} + InChildren(t, p, ChildNames(t, p))
  {
    forall q | q in t && Below(p, q)
      ensures q[|p|] in ChildNames(t, p)
    {
      ChildOnTheWay(t, p, q);
    }
  }

  lemma OneChildMore(t: Tree, p: Path, names: set<string>, n: string)
    ensures InChildren(t, p, names + {n}) == InChildren(t, p, names) + Under(t, p + [n])
  {
    forall q | q in t
      ensures Below(p, q) && q[|p|] == n <==> p + [n] <= q
    {
      if Below(p, q) && q[|p|] == n { assert q[..|p| + 1] == p + [n]; }
      if p + [n] <= q { assert q[|p|] == (p + [n])[|p|]; assert q[..|p|] == (p + [n])[..|p|] == p; }
    }
  }

  /** The state of rmtree when the children `removed` of `p` are gone. */
  ghost predicate Without(t: Tree, u: Tree, p: Path, removed: set<string>) {
    u == t - InChildren(t, p, removed)
  }

  lemma EnterChild(t: Tree, u: Tree, p: Path, removed: set<string>, n: string)
    requires p in t && Without(t, u, p, removed) && n in ChildNames(t, p) - removed
    ensures p + [n] in u && |Under(u, p + [n])| < |Under(t, p)|
  {
    ChildNamesExact(t, p, n);
    assert (p + [n])[|p|] == n;
    assert Under(u, p + [n]) <= Under(t, p) - {p} by {
      forall q | q in u && p + [n] <= q
        ensures p <= q && p != q
      {
        assert p <= p + [n];
      }
    }
    Smaller(Under(u, p + [n]), Under(t, p) - {p});
  }

  lemma LeaveChild(t: Tree, u: Tree, p: Path, removed: set<string>, n: string)
    requires Without(t, u, p, removed) && n !in removed
    ensures Without(t, Removed(u, p + [n]), p, removed + {n})
  {
    OneChildMore(t, p, removed, n);
    forall q | p + [n] <= q
      ensures q !in InChildren(t, p, removed)
    {
      assert q[|p|] == (p + [n])[|p|] == n;
    }
    assert Under(u, p + [n]) == Under(t, p + [n]);
  }

  lemma StuckInChild(t: Tree, u: Tree, v: Tree, p: Path, removed: set<string>, n: string)
    requires p in t && Without(t, u, p, removed) && LeftOf(u, v, p + [n])
    ensures LeftOf(t, v, p)
  {
    assert p <= p + [n] && !(p + [n] <= p);
    forall q
      ensures LeftAt(t, v, p, q)
    {
      assert LeftAt(u, v, p + [n], q);
      if p + [n] <= q { assert p <= q; }
    }
    assert LeftAt(u, v, p + [n], p);
  }

  lemma AllChildrenGone(t: Tree, u: Tree, p: Path)
    requires WellFormed(t) && p in t && Without(t, u, p, ChildNames(t, p))
    ensures IsDir(t, p) ==> IsDir(u, p)
    ensures ChildNames(u, p) == {} && u - {p} == Removed(t, p) && LeftOf(t, u, p)
  {
    forall n
      ensures n !in ChildNames(u, p)
    {
      ChildNamesExact(u, p, n);
      ChildNamesExact(t, p, n);
      assert (p + [n])[|p|] == n && p <= p + [n];
    }
    UnderIsChildren(t, p);
    forall q
      ensures LeftAt(t, u, p, q)
    {
    }
  }

  lemma RemovalKeepsForm(t: Tree, p: Path)
    requires WellFormed(t) && p != []
    ensures WellFormed(Removed(t, p))
  {
    forall q | q in Removed(t, p) && q != []
      ensures IsDir(Removed(t, p), Parent(q))
    {
      StillUnder(p, q);
      assert q in t && !(p <= q);
      assert Parent(q) in t && !(p <= Parent(q));
    }
  }

  lemma StillUnder(p: Path, q: Path)
    requires q != []
    ensures p <= Parent(q) ==> p <= q
  {
    assert q == Parent(q) + [q[|q| - 1]];
  }

  /** A primitive delete, or the listing of a directory, that the system refused although
      nothing in the tree forbade it. */
  datatype Refusal = Refusal(path: Path, reply: Reply)

  /** The refusals since `before`. */
  function Since(before: seq<Refusal>, after: seq<Refusal>): seq<Refusal> {
    if before <= after then after[|before|..] else after
  }

  /** One refusal more, with this reply, at or below `p`. */
  predicate OneRefusal(before: seq<Refusal>, after: seq<Refusal>, p: Path, reply: Reply) {
    before <= after && |after| == |before| + 1 && after[|before|].reply == reply && p <= after[|before|].path
  }

  lemma OneRefusalAbove(before: seq<Refusal>, after: seq<Refusal>, p: Path, n: string, reply: Reply)
    requires OneRefusal(before, after, p + [n], reply)
    ensures OneRefusal(before, after, p, reply)
  {
    assert p <= p + [n];
  }

  /** The refusals of a retried delete of the directory `p` that took `attempts` attempts
      and ended with `reply`: one for each attempt that failed, and nothing follows an error
      that is no PermissionError. */
  predicate Retried(refusals: seq<Refusal>, attempts: nat, p: Path, reply: Reply) {
    && (forall i :: 0 <= i < |refusals| ==> p <= refusals[i].path)
    && |refusals| == (if reply.Done? then attempts - 1 else attempts)
    && (forall i :: 0 <= i < |refusals| && i < attempts - 1 ==> refusals[i].reply == PermissionError)
    && (!reply.Done? ==> refusals != [] && refusals[|refusals| - 1].reply == reply)
  }

  /** The refusals of `n` attempts so far, after each of which another was due. */
  predicate RetriedSoFar(before: seq<Refusal>, after: seq<Refusal>, n: nat, p: Path) {
    && before <= after
    && (n == 0 ==> after == before)
    && (n > 0 ==> Retried(Since(before, after), n, p, PermissionError))
  }

  lemma RetriedOnce(before: seq<Refusal>, mid: seq<Refusal>, after: seq<Refusal>, n: nat, p: Path, reply: Reply)
    requires RetriedSoFar(before, mid, n, p)
    requires if reply.Done? then after == mid else OneRefusal(mid, after, p, reply)
    ensures before <= after && Retried(Since(before, after), n + 1, p, reply)
    ensures reply.PermissionError? ==> RetriedSoFar(before, after, n + 1, p)
  {
    if !reply.Done? {
      OneLater(before, mid, after);
    }
  }

  lemma OneLater(before: seq<Refusal>, mid: seq<Refusal>, after: seq<Refusal>)
    requires before <= mid <= after && |after| == |mid| + 1
    ensures Since(before, after) == Since(before, mid) + [after[|mid|]]
  {
  }

  lemma OneDelayMore(before: seq<nat>, i: nat)
    requires i < |RETRY_DELAYS|
    ensures before + RETRY_DELAYS[..i] + [RETRY_DELAYS[i]] == before + RETRY_DELAYS[..i + 1]
  {
  }

  class Disk {
    var tree: Tree
    ghost var refused: seq<Refusal>
    ghost var attempts: nat
    ghost var slept: seq<nat>

    method Unlink(p: Path) returns (r: Reply)
      requires IsFile(tree, p)
      modifies `tree, `refused
      ensures tree == if r.Done? then old(tree) - {p} else old(tree)
      ensures refused == if r.Done? then old(refused) else old(refused) + [Refusal(p, r)]
    {
      r := *;
      if r.Done? {
        tree := tree - {p};
      } else {
        refused := refused + [Refusal(p, r)];
      }
    }

    /** A directory that is missing, a file or not empty is an error, but no refusal. */
    method Rmdir(p: Path) returns (r: Reply)
      modifies `tree, `refused
      ensures tree == if r.Done? then old(tree) - {p} else old(tree)
      ensures if IsDir(old(tree), p) && ChildNames(old(tree), p) == {}
              then refused == if r.Done? then old(refused) else old(refused) + [Refusal(p, r)]
              else r == OtherError && refused == old(refused)
    {
      if !IsDir(tree, p) || ChildNames(tree, p) != {} { return OtherError; }
      r := *;
      if r.Done? {
        tree := tree - {p};
      } else {
        refused := refused + [Refusal(p, r)];
      }
    }

    /** The names in a directory. */
    method ListDirectory(p: Path) returns (r: Reply, names: set<string>)
      modifies `refused
      ensures r.Done? ==> names == ChildNames(tree, p)
      ensures refused == if r.Done? then old(refused) else old(refused) + [Refusal(p, r)]
    {
      r, names := *, ChildNames(tree, p);
      if !r.Done? {
        refused := refused + [Refusal(p, r)];
      }
    }

    /** shutil.rmtree: children first, stopping at the first error. It fails only when a
        delete or a listing is refused. */
    method RemoveTree(p: Path) returns (r: Reply)
      requires WellFormed(tree) && p in tree && p != []
      modifies `tree, `refused
      ensures WellFormed(tree)
      ensures if r.Done? then tree == Removed(old(tree), p) && refused == old(refused)
              else LeftOf(old(tree), tree, p) && OneRefusal(old(refused), refused, p, r)
      decreases |Under(tree, p)|, 2
    {
      ghost var t := tree;
      RemovalKeepsForm(t, p);
      if tree[p].File? {
        NoChildren(t, p);
        assert Without(t, t, p, {});
        AllChildrenGone(t, t, p);
        r := Unlink(p);
      } else {
        r := RemoveChildren(p);
        if r.Done? {
          AllChildrenGone(t, tree, p);
          r := Rmdir(p);
        }
      }
    }

    method RemoveChildren(p: Path) returns (r: Reply)
      requires WellFormed(tree) && p in tree
      modifies `tree, `refused
      ensures WellFormed(tree)
      ensures if r.Done?
              then Without(old(tree), tree, p, ChildNames(old(tree), p)) && refused == old(refused)
              else LeftOf(old(tree), tree, p) && OneRefusal(old(refused), refused, p, r)
      decreases |Under(tree, p)|, 1
    {
      ghost var t := tree;
      var names;
      r, names := ListDirectory(p);
      if !r.Done? { return; }
      ghost var all := names;
      while names != {}
        invariant names <= all && r.Done? && refused == old(refused)
        invariant WellFormed(tree) && Without(t, tree, p, all - names)
        decreases |names|
      {
        var n :| n in names;
        r := RemoveChild(p, n, t, all - names);
        if !r.Done? { return; }
        assert all - (names - {n}) == (all - names) + {n};
        names := names - {n};
      }
      assert all - names == all;
    }

    /** One turn of the loop over the children; `t` is the tree before the loop. */
    method RemoveChild(p: Path, n: string, ghost t: Tree, ghost removed: set<string>) returns (r: Reply)
      requires p in t && n in ChildNames(t, p) - removed
      requires WellFormed(tree) && Without(t, tree, p, removed)
      modifies `tree, `refused
      ensures WellFormed(tree)
      ensures if r.Done? then Without(t, tree, p, removed + {n}) && refused == old(refused)
              else LeftOf(t, tree, p) && OneRefusal(old(refused), refused, p, r)
      decreases |Under(t, p)|, 0
    {
      ghost var before := tree;
      EnterChild(t, before, p, removed, n);
      r := RemoveTree(p + [n]);
      if r.Done? {
        LeaveChild(t, before, p, removed, n);
      } else {
        StuckInChild(t, before, tree, p, removed, n);
        OneRefusalAbove(old(refused), refused, p, n, r);
      }
    }

    /** _clear_readonly_bits: any of the entries may refuse. */
    method ClearReadonlyBits(p: Path, ghost t: Tree)
      requires WellFormed(tree) && LeftOf(t, tree, p)
      modifies `tree
      ensures WellFormed(tree) && LeftOf(old(tree), tree, p) && LeftOf(t, tree, p)
    {
      var targets := Under(tree, p);
      while targets != {}
        invariant targets <= Under(old(tree), p)
        invariant tree.Keys == old(tree).Keys
        invariant forall q :: q in tree ==>
                    tree[q] == old(tree)[q] || (p <= q && q !in targets && tree[q] == MadeWritable(old(tree)[q]))
        decreases |targets|
      {
        var q :| q in targets;
        targets := targets - {q};
        var failed: bool := *;
        if !failed {
          tree := tree[q := MadeWritable(tree[q])];
        }
      }
      LeftOfLeft(t, old(tree), tree, p);
    }

    /** One attempt: SecurePath.rmdir, which fails for a file. Earlier attempts may have left
        less than the tree `t` they began with. */
    method Attempt(p: Path, ghost t: Tree) returns (r: Reply)
      requires WellFormed(tree) && p != [] && LeftOf(t, tree, p)
      modifies `tree, `refused, `attempts
      ensures WellFormed(tree) && attempts == old(attempts) + 1
      ensures if r.Done? then tree == Removed(t, p) else LeftOf(t, tree, p)
      ensures if IsFile(t, p) then r == OtherError && tree == old(tree) && refused == old(refused)
              else if r.Done? then refused == old(refused) else OneRefusal(old(refused), refused, p, r)
    {
      attempts := attempts + 1;
      SameKind(t, tree, p);
      if tree[p].File? {
        return OtherError;
      }
      ghost var before := tree;
      r := RemoveTree(p);
      if r.Done? {
        SameOutside(t, before, p);
      } else {
        LeftOfLeft(t, before, tree, p);
      }
    }

    /** _remove_directory. It goes on after a PermissionError only, at most three times,
        sleeping in between, and the last error propagates. */
    method RemoveDirectory(p: Path) returns (r: Reply)
      requires WellFormed(tree) && p in tree && p != []
      modifies this
      ensures WellFormed(tree)
      ensures if r.Done? then tree == Removed(old(tree), p) else LeftOf(old(tree), tree, p)
      ensures 1 <= attempts - old(attempts) <= 4
      ensures slept == old(slept) + [100, 250, 500][..attempts - old(attempts) - 1]
      ensures r.PermissionError? ==> attempts - old(attempts) == 4
      ensures old(refused) <= refused
      ensures if IsFile(old(tree), p)
              then r == OtherError && attempts == old(attempts) + 1 && refused == old(refused)
              else Retried(Since(old(refused), refused), attempts - old(attempts), p, r)
    {
      ghost var t, rs := tree, refused;
      NothingLost(t, p);
      for i := 0 to 4
        invariant i < 4 && attempts == old(attempts) + i && slept == old(slept) + RETRY_DELAYS[..i]
        invariant WellFormed(tree) && LeftOf(t, tree, p)
        invariant IsFile(t, p) ==> i == 0 && tree == t && refused == rs
        invariant RetriedSoFar(rs, refused, i, p)
      {
        ghost var rs' := refused;
        r := Attempt(p, t);
        if IsDir(t, p) { RetriedOnce(rs, rs', refused, i, p, r); }
        if r.Done? || r.OtherError? || i == 3 { return; }
        ClearReadonlyBits(p, t);
        OneDelayMore(old(slept), i);
        slept := slept + [RETRY_DELAYS[i]];
      }
      assert false;
    }

    /** _remove_empty_directories_up_to_project_root. It stops at the first directory that
        is not empty, or that the system refuses to remove; `stopped` tells the latter. */
    method RemoveEmptyUpTo(start: Path, root: Path) returns (ghost gone: set<Path>, ghost stopped: bool)
      requires WellFormed(tree)
      modifies `tree, `refused
      ensures WellFormed(tree) && tree == old(tree) - gone
      ensures DeeperPart(gone, LeftEmpty(old(tree), start, root))
      ensures if stopped
              then |refused| == |old(refused)| + 1 && old(refused) <= refused
                   && RefusedAbove(old(tree), start, root, gone, refused[|old(refused)|])
              else gone == LeftEmpty(old(tree), start, root) && refused == old(refused)
    {
      ghost var t := tree;
      var directory := start;
      ghost var top := |start|;
      stopped := false;
      assert start[..top] == start;
      assert Chain(start, top) == {};
      while Below(root, directory)
        invariant 0 <= top <= |start| && directory == start[..top] && !stopped && refused == old(refused)
        invariant WellFormed(tree) && tree == t - Chain(start, top)
        invariant Chain(start, top) <= LeftEmpty(t, start, root)
        decreases top
      {
        var r := Rmdir(directory);
        if !r.Done? {
          stopped := IsDir(tree, directory) && ChildNames(tree, directory) == {};
          gone := Chain(start, top);
          ChainIsDeeperPart(t, start, root, top);
          if stopped {
            WalkRefused(t, start, root, top, refused[|refused| - 1]);
          } else {
            StopsAtOccupied(t, start, root, top);
          }
          return;
        }
        WalkStep(t, start, root, top);
        directory := ParentOf(directory);
        top := top - 1;
      }
      gone := Chain(start, top);
      ChainIsDeeperPart(t, start, root, top);
      StopsBelowRoot(t, start, root, top);
    }

    /** The start of both: _remove_directory on a bundle that exists. */
    method RemoveIfThere(bundle: Path) returns (gone: bool)
      requires WellFormed(tree) && bundle != []
      modifies this
      ensures WellFormed(tree) && old(refused) <= refused && attempts - old(attempts) <= 4
      ensures if gone then tree == Removed(old(tree), bundle)
              else bundle in old(tree) && LeftOf(old(tree), tree, bundle)
      ensures refused == old(refused) ==> (gone <==> !IsFile(old(tree), bundle))
      ensures !gone ==>
        IsFile(old(tree), bundle) || (refused != old(refused) && bundle <= refused[|refused| - 1].path)
    {
      if bundle !in tree {
        NothingUnder(tree, bundle);
        return true;
      }
      var r := RemoveDirectory(bundle);
      gone := r.Done?;
    }

    /** clean_up_output: a failure is reported. `warned` tells that the bundle is still there, and
        `stopped` that the walk above it was cut short. */
    method CleanUpOutput(bundle: Path, root: Path)
      returns (warned: bool, ghost above: set<Path>, ghost stopped: bool)
      requires WellFormed(tree) && Below(root, bundle)
      modifies this
      ensures WellFormed(tree)
      ensures attempts - old(attempts) <= 4 && old(refused) <= refused
      // when nothing is refused, the bundle and exactly the directories left empty go
      ensures refused == old(refused) && !IsFile(old(tree), bundle) ==>
        && !warned && !stopped
        && tree == Removed(old(tree), bundle) - LeftEmpty(Removed(old(tree), bundle), Parent(bundle), root)
      // the bundle stays only if it is a file or the last attempt at it was refused
      ensures warned ==>
        && bundle in old(tree) && LeftOf(old(tree), tree, bundle)
        && (IsFile(old(tree), bundle) || (refused != old(refused) && bundle <= refused[|refused| - 1].path))
      // otherwise only the upper directories of that chain can stay, when removing one was refused
      ensures !warned ==>
        && tree == Removed(old(tree), bundle) - above
        && DeeperPart(above, LeftEmpty(Removed(old(tree), bundle), Parent(bundle), root))
        && (!stopped ==> above == LeftEmpty(Removed(old(tree), bundle), Parent(bundle), root))
      ensures !warned && stopped ==>
        && refused != old(refused)
        && RefusedAbove(Removed(old(tree), bundle), Parent(bundle), root, above, refused[|refused| - 1])
    {
      above, stopped := {}, false;
      var gone := RemoveIfThere(bundle);
      if !gone { return true, {}, false; }
      above, stopped := RemoveEmptyUpTo(Parent(bundle), root);
      warned := false;
    }

    /** remove_up_bundle_root: an error when the bundle cannot be removed. */
    method RemoveUpBundleRoot(bundle: Path) returns (ok: bool)
      requires WellFormed(tree) && bundle != []
      modifies this
      ensures WellFormed(tree) && old(refused) <= refused
      ensures if ok then tree == Removed(old(tree), bundle)
              else bundle in old(tree) && LeftOf(old(tree), tree, bundle)
      ensures refused == old(refused) ==> (ok <==> !IsFile(old(tree), bundle))
    {
      ok := RemoveIfThere(bundle);
    }
  }

  /** `gone` is a part of the chain that holds, with each directory, all the deeper ones. */
  predicate DeeperPart(gone: set<Path>, chain: set<Path>) {
    gone <= chain && forall d, e :: d in gone && e in chain && d <= e ==> e in gone
  }

  /** The refusal is that of a directory left empty outside `gone`. */
  predicate RefusedAbove(t: Tree, start: Path, root: Path, gone: set<Path>, refusal: Refusal) {
    refusal.path in LeftEmpty(t, start, root) && refusal.path !in gone
  }

  lemma NothingUnder(t: Tree, p: Path)
    requires WellFormed(t) && p !in t
    ensures Removed(t, p) == t
  {
    forall q | q in t
      ensures !(p <= q)
    {
      if p <= q { AncestorsAreDirs(t, q, p); }
    }
  }

  // ------------------------------------------------------------ the walk upwards

  /** The prefixes of `p` longer than `top`. */
  function Chain(p: Path, top: nat): set<Path> {
    set j | top < j <= |p| :: p[..j]
  }

  /** The ancestors of `start`, itself included, below the project root that hold nothing
      but each other. */
  function LeftEmpty(t: Tree, start: Path, root: Path): set<Path> {
    if !IsDir(t, start) then {}
    else set d | d in Prefixes(start) && Below(root, d) && Under(t, d) <= Prefixes(start)
  }

  lemma PrefixOf(p: Path, d: Path)
    ensures d in Prefixes(p) <==> d <= p
  {
    if d <= p { assert d == p[..|d|]; }
  }

  lemma ChainExact(p: Path, top: nat, d: Path)
    ensures d in Chain(p, top) <==> d <= p && |d| > top
  {
    if d <= p { assert d == p[..|d|]; }
  }

  lemma Childless(t: Tree, p: Path)
    requires WellFormed(t) && p in t && ChildNames(t, p) == {}
    ensures t - {p} == Removed(t, p)
  {
    UnderIsChildren(t, p);
  }

  lemma OneMoreEmpty(t: Tree, start: Path, root: Path, top: nat)
    requires WellFormed(t) && 0 < top <= |start| && Below(root, start[..top])
    requires WellFormed(t - Chain(start, top)) && Chain(start, top) <= LeftEmpty(t, start, root)
    requires IsDir(t - Chain(start, top), start[..top]) && ChildNames(t - Chain(start, top), start[..top]) == {}
    ensures Chain(start, top - 1) == Chain(start, top) + {start[..top]}
    ensures Chain(start, top - 1) <= LeftEmpty(t, start, root)
    ensures ParentOf(start[..top]) == start[..top - 1]
  {
    var d := start[..top];
    forall e
      ensures e in Chain(start, top - 1) <==> e in Chain(start, top) || e == d
    {
      ChainExact(start, top - 1, e);
      ChainExact(start, top, e);
    }
    UnderIsChildren(t - Chain(start, top), d);
    PrefixOf(start, d);
    forall q | q in Under(t, d)
      ensures q in Prefixes(start)
    {
      PrefixOf(start, q);
      ChainExact(start, top, q);
      assert q in t - Chain(start, top) ==> q in Under(t - Chain(start, top), d);
    }
    if top < |start| {
      ChainExact(start, top, start);
    } else {
      assert d == start;
    }
  }

  /** One directory of the walk removed. */
  lemma WalkStep(t: Tree, start: Path, root: Path, top: nat)
    requires WellFormed(t) && 0 < top <= |start| && Below(root, start[..top])
    requires WellFormed(t - Chain(start, top)) && Chain(start, top) <= LeftEmpty(t, start, root)
    requires IsDir(t - Chain(start, top), start[..top]) && ChildNames(t - Chain(start, top), start[..top]) == {}
    ensures (t - Chain(start, top)) - {start[..top]} == t - Chain(start, top - 1)
    ensures WellFormed(t - Chain(start, top - 1)) && Chain(start, top - 1) <= LeftEmpty(t, start, root)
    ensures ParentOf(start[..top]) == start[..top - 1]
  {
    var before := t - Chain(start, top);
    OneMoreEmpty(t, start, root, top);
    Childless(before, start[..top]);
    RemovalKeepsForm(before, start[..top]);
  }

  /** A refusal in the walk is that of a directory left empty. */
  lemma WalkRefused(t: Tree, start: Path, root: Path, top: nat, refusal: Refusal)
    requires WellFormed(t) && 0 < top <= |start| && Below(root, start[..top])
    requires WellFormed(t - Chain(start, top)) && Chain(start, top) <= LeftEmpty(t, start, root)
    requires IsDir(t - Chain(start, top), start[..top]) && ChildNames(t - Chain(start, top), start[..top]) == {}
    requires refusal.path == start[..top]
    ensures RefusedAbove(t, start, root, Chain(start, top), refusal)
  {
    OneMoreEmpty(t, start, root, top);
    ChainExact(start, top, start[..top]);
  }

  /** Nothing above an occupied directory is left empty. */
  lemma StopsAtOccupied(t: Tree, start: Path, root: Path, top: nat)
    requires WellFormed(t) && top <= |start|
    requires Chain(start, top) <= LeftEmpty(t, start, root)
    requires !IsDir(t - Chain(start, top), start[..top]) || ChildNames(t - Chain(start, top), start[..top]) != {}
    ensures Chain(start, top) == LeftEmpty(t, start, root)
  {
    if IsDir(t, start) {
      var here := start[..top];
      ChainExact(start, top, here);
      if here != start { AncestorsAreDirs(t, start, here); }
      var n :| n in ChildNames(t - Chain(start, top), here);
      ChildNamesExact(t - Chain(start, top), here, n);
      ChainExact(start, top, here + [n]);
      PrefixOf(start, here + [n]);
      assert here <= here + [n];
      forall d | d in LeftEmpty(t, start, root)
        ensures d in Chain(start, top)
      {
        PrefixOf(start, d);
        ChainExact(start, top, d);
        NotAbove(t, start, root, d, here + [n]);
      }
    }
  }

  lemma NotAbove(t: Tree, start: Path, root: Path, d: Path, other: Path)
    requires d in LeftEmpty(t, start, root) && other in t && other !in Prefixes(start)
    ensures !(d <= other)
  {
  }

  lemma StopsBelowRoot(t: Tree, start: Path, root: Path, top: nat)
    requires top <= |start| && Chain(start, top) <= LeftEmpty(t, start, root) && !Below(root, start[..top])
    ensures Chain(start, top) == LeftEmpty(t, start, root)
  {
    var here := start[..top];
    forall d | d <= start
      ensures |d| <= top ==> !Below(root, d)
      ensures d in Chain(start, top) <==> |d| > top
      ensures d in Prefixes(start)
    {
      ChainExact(start, top, d);
      PrefixOf(start, d);
      if |d| <= top { assert d == here[..|d|]; }
    }
    forall d | d in Prefixes(start)
      ensures d <= start
    {
      PrefixOf(start, d);
    }
  }

  lemma ChainIsDeeperPart(t: Tree, start: Path, root: Path, top: nat)
    requires Chain(start, top) <= LeftEmpty(t, start, root)
    ensures DeeperPart(Chain(start, top), LeftEmpty(t, start, root))
  {
    forall d, e | d in Chain(start, top) && e in LeftEmpty(t, start, root) && d <= e
      ensures e in Chain(start, top)
    {
      ChainExact(start, top, d);
      ChainExact(start, top, e);
      PrefixOf(start, e);
    }
  }

  /** What the walk removes is as much as there is: every ancestor that stays holds
      something, or is not below the project root. */
  lemma ChainIsLongest(t: Tree, start: Path, root: Path, d: Path)
    requires WellFormed(t) && IsDir(t, start) && d <= start && Below(root, d)
    requires d !in LeftEmpty(t, start, root)
    ensures ChildNames(t - LeftEmpty(t, start, root), d) != {}
  {
    PrefixOf(start, d);
    var q :| q in Under(t, d) && q !in Prefixes(start);
    assert d <= q && q != d;
    ChildOnTheWay(t, d, q);
    var n := q[|d|];
    OccupiedStays(t, start, root, d + [n], q);
    ChildNamesExact(t - LeftEmpty(t, start, root), d, n);
  }

  lemma OccupiedStays(t: Tree, start: Path, root: Path, c: Path, q: Path)
    requires c in t && q in t && c <= q && q !in Prefixes(start)
    ensures c in t - LeftEmpty(t, start, root)
  {
    assert q in Under(t, c);
  }

  /** The walk never takes the project root, a file, or anything but ancestors of the
      bundle. */
  lemma WalkFrame(t: Tree, start: Path, root: Path, q: Path)
    requires WellFormed(t) && q in LeftEmpty(t, start, root)
    ensures IsDir(t, q) && q != root && root <= q <= start
  {
    PrefixOf(start, q);
    if q != start { AncestorsAreDirs(t, start, q); }
  }

  /** The tree after an unhindered clean-up, path by path. */
  lemma CleanedPathByPath(t: Tree, bundle: Path, root: Path)
    requires WellFormed(t) && Below(root, bundle)
    ensures var u := Removed(t, bundle) - LeftEmpty(Removed(t, bundle), Parent(bundle), root);
            forall q ::
              && (q in u <==>
                    && q in t && !(bundle <= q)
                    && !(&& IsDir(t, bundle[..|bundle| - 1]) && root <= q && q != root && q <= bundle
                         && forall x :: x in t && q <= x ==> x <= bundle || bundle <= x))
              && (q in u ==> u[q] == t[q])
  {
    var u := Removed(t, bundle) - LeftEmpty(Removed(t, bundle), Parent(bundle), root);
    forall q | q in t && !(bundle <= q)
      ensures q in LeftEmpty(Removed(t, bundle), Parent(bundle), root) <==>
                && IsDir(t, bundle[..|bundle| - 1]) && root <= q && q != root && q <= bundle
                && forall x :: x in t && q <= x ==> x <= bundle || bundle <= x
    {
      LeftEmptyExactly(t, bundle, root, q);
    }
  }

  lemma AboveBundle(x: Path, bundle: Path)
    requires bundle != []
    ensures x in Prefixes(Parent(bundle)) <==> x <= bundle && !(bundle <= x)
  {
    PrefixOf(Parent(bundle), x);
    if x <= bundle && !(bundle <= x) { assert x == Parent(bundle)[..|x|]; }
  }

  lemma LeftEmptyExactly(t: Tree, bundle: Path, root: Path, q: Path)
    requires bundle != [] && q in t && !(bundle <= q)
    ensures q in LeftEmpty(Removed(t, bundle), Parent(bundle), root) <==>
              && IsDir(t, bundle[..|bundle| - 1]) && root <= q && q != root && q <= bundle
              && forall x :: x in t && q <= x ==> x <= bundle || bundle <= x
  {
    var (r, start) := (Removed(t, bundle), Parent(bundle));
    AboveBundle(q, bundle);
    assert IsDir(r, start) <==> IsDir(t, start);
    assert Under(r, q) <= Prefixes(start) <==> forall x :: x in t && q <= x ==> x <= bundle || bundle <= x by {
      forall x | x in t
        ensures x in r && x in Prefixes(start) ==> x <= bundle
        ensures x in r && x <= bundle ==> x in Prefixes(start)
        ensures x in r <==> !(bundle <= x)
      {
        AboveBundle(x, bundle);
      }
    }
  }

  /** Whatever a clean-up leaves, no file outside the bundle and no project root is lost. */
  lemma CleanUpLosesNothingElse(t: Tree, bundle: Path, root: Path, above: set<Path>, q: Path)
    requires WellFormed(t) && Below(root, bundle)
    requires above <= LeftEmpty(Removed(t, bundle), Parent(bundle), root)
    requires q in t && !(bundle <= q) && (t[q].File? || q == root)
    ensures q in Removed(t, bundle) - above && (Removed(t, bundle) - above)[q] == t[q]
  {
    RemovalKeepsForm(t, bundle);
    if q in above {
      WalkFrame(Removed(t, bundle), Parent(bundle), root, q);
    }
  }

  lemma NothingLost(t: Tree, p: Path)
    requires p in t
    ensures LeftOf(t, t, p)
  {
    forall q
      ensures LeftAt(t, t, p, q)
    {
    }
  }

  /** After a delete that succeeded it does not matter what failed attempts had left. */
  lemma SameOutside(t: Tree, u: Tree, p: Path)
    requires LeftOf(t, u, p)
    ensures Removed(u, p) == Removed(t, p)
  {
    assert forall q :: LeftAt(t, u, p, q);
    var (a, b) := (u - Under(u, p), t - Under(t, p));
    forall q
      ensures q in a <==> q in b
      ensures q in a ==> a[q] == b[q]
    {
      assert LeftAt(t, u, p, q);
    }
  }

  lemma NoChildren(t: Tree, p: Path)
    requires WellFormed(t) && IsFile(t, p)
    ensures ChildNames(t, p) == {}
  {
    forall n
      ensures n !in ChildNames(t, p)
    {
      ChildNamesExact(t, p, n);
      assert Parent(p + [n]) == p;
    }
  }

  lemma {:induction false} Smaller<T>(a: set<T>, b: set<T>)
    requires a <= b
    ensures |a| <= |b|
    decreases a
  {
    if a != {} {
      var x :| x in a;
      Smaller(a - {x}, b - {x});
    }
  }
}
