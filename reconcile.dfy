/**
 * The loops the deployment scripts share: bring every item of `dist/public`
 * up to `dist` (by copying, copying over, or moving), and the scripts' own
 * recursive copy.  Each loop is proved to reach an order-independent closed
 * form built from `Transfer`, whatever order `readdirSync` lists the items in.
 */
module Reconcile {
  import opened FileTree
  import opened Fs
  import opened Layout

  /** Items of dist/public whose name is still free in dist. */
  function Incoming(t: Tree): set<Name>
  {
    set n | n in Children(t, Public) && Dist + [n] !in t
  }

  /** Items of dist/public whose name dist already has: the merges skip them. */
  function Colliding(t: Tree): set<Name>
  {
    set n | n in Children(t, Public) && Dist + [n] in t
  }

  /** The copy-merge: every incoming item copied up, except those whose copy throws. */
  function CopyMerged(t: Tree, faulty: set<Name>): Tree
  {
    Transfer(t, Public, Dist, Incoming(t) - faulty, false)
  }

  /** The move-merge: every incoming item moved up. */
  function MoveMerged(t: Tree): Tree
  {
    Transfer(t, Public, Dist, Incoming(t), true)
  }

  /** The move-merge followed by removing dist/public when it is left empty,
      that is, when no item collided. */
  function MovedOut(t: Tree): Tree
  {
    if Colliding(t) == {} then MoveMerged(t) - {Public} else MoveMerged(t)
  }

  /** The GitHub Pages merge: every item copied over its namesake in dist. */
  function Overwritten(t: Tree): Tree
  {
    Transfer(t, Public, Dist, Children(t, Public), false)
  }

  /** Every copy of the GitHub Pages loop succeeds exactly when this holds. */
  predicate Overwritable(t: Tree)
  {
    forall n :: n in Children(t, Public) ==> Clean(t, n)
  }

  /** Copying item `n` over its namesake in dist meets no error: it is not
      dist/public itself and no file meets a directory. */
  predicate Clean(t: Tree, n: Name)
  {
    n != "public" && Compatible(t, Public + [n], Dist + [n])
  }

  /** dist/public occupies its own name in dist, so it is never incoming. */
  lemma PublicCollides(t: Tree)
    requires Public in t
    ensures "public" !in Incoming(t)
  {
    assert Dist + ["public"] == Public;
  }

  /** What one step of a merge sees after the items in `done` went up. */
  lemma MergeStepView(t: Tree, done: set<Name>, move: bool, n: Name)
    requires ValidTree(t) && IsDirAt(t, Public) && "public" !in done && n !in done
    requires n in Children(t, Public)
    ensures Dist + [n] in Transfer(t, Public, Dist, done, move) <==> Dist + [n] in t
    ensures Dist + [n] in t ==> Transfer(t, Public, Dist, done, move)[Dist + [n]] == t[Dist + [n]]
    ensures Public + [n] in Transfer(t, Public, Dist, done, move)
    ensures Transfer(t, Public, Dist, done, move)[Public + [n]] == t[Public + [n]]
    ensures IsDirAt(Transfer(t, Public, Dist, done, move), Dist)
  {
    var p := Dist + [n];
    if p in Sent(t, Public, Dist, done) {
      SentSource(t, Public, Dist, done, p);
    }
    ChildrenMember(t, Public, n);
    TransferKeepsBelow(t, Public, Dist, done, move, n);
    TransferOutside(t, Public, Dist, done, move, Dist);
    AncestorIsDir(t, Dist, Public);
  }

  /** The file/directory clash test for item `n` reads only places that the
      steps for the other items leave alone. */
  lemma CompatibleView(t: Tree, done: set<Name>, n: Name)
    requires "public" !in done && n !in done && n != "public"
    ensures Compatible(Transfer(t, Public, Dist, done, false), Public + [n], Dist + [n])
        <==> Compatible(t, Public + [n], Dist + [n])
  {
    var u := Transfer(t, Public, Dist, done, false);
    TransferKeepsBelow(t, Public, Dist, done, false, n);
    TransferKeepsTarget(t, Public, Dist, done, false, n);
    var a, b := Public + [n], Dist + [n];
    forall q | a <= q ensures b <= b + q[|a|..] {}
  }

  /** For a file, the clash test only asks that the target is no directory. */
  lemma FileCompatible(t: Tree, a: Path, b: Path)
    requires ValidTree(t) && IsFileAt(t, a)
    ensures Compatible(t, a, b) <==> !IsDirAt(t, b)
  {
    NothingBelowFile(t, a);
    assert a[|a|..] == [] && b + [] == b;
  }

  /** The names of `ns` that are free in dist and whose copy does not throw. */
  ghost function Fresh(t: Tree, faulty: set<Name>, ns: seq<Name>): set<Name>
  {
    set n | n in ns && Dist + [n] !in t && n !in faulty
  }

  /** The names of `ns` that dist already has. */
  ghost function Taken(t: Tree, ns: seq<Name>): set<Name>
  {
    set n | n in ns && Dist + [n] in t
  }

  lemma FreshStep(t: Tree, faulty: set<Name>, ns: seq<Name>, n: Name)
    ensures Dist + [n] !in t && n !in faulty ==> Fresh(t, faulty, ns + [n]) == Fresh(t, faulty, ns) + {n}
    ensures !(Dist + [n] !in t && n !in faulty) ==> Fresh(t, faulty, ns + [n]) == Fresh(t, faulty, ns)
  {}

  lemma TakenStep(t: Tree, ns: seq<Name>, n: Name)
    ensures Dist + [n] in t ==> Taken(t, ns + [n]) == Taken(t, ns) + {n}
    ensures Dist + [n] !in t ==> Taken(t, ns + [n]) == Taken(t, ns)
  {}

  /** Over a whole listing of dist/public, the fresh and the taken names are
      the incoming and the colliding items. */
  lemma FreshAll(t: Tree, faulty: set<Name>, names: seq<Name>)
    requires Listing(t, Public, names)
    ensures Fresh(t, faulty, names) == Incoming(t) - faulty
    ensures faulty == {} ==> Fresh(t, faulty, names) == Incoming(t)
    ensures Taken(t, names) == Colliding(t)
  {}

  /** In a listing without repeats, no name comes back. */
  lemma NotEarlier(names: seq<Name>, i: nat)
    requires i < |names|
    requires forall j, k :: 0 <= j < k < |names| ==> names[j] != names[k]
    ensures names[i] !in names[..i]
    ensures names[..i + 1] == names[..i] + [names[i]]
  {}

  lemma OneMore(s: set<Name>, n: Name)
    requires n !in s
    ensures |s + {n}| == |s| + 1
  {}

  /** Which copy the copy-merge loop makes: `cpSync`/`copyFileSync`, or the
      script's own `copyRecursive`. */
  datatype Copier = BuiltIn | HandWritten

  /**
   * The copy-merge loop: each item of dist/public whose name dist lacks is
   * copied up (a directory with its whole subtree); the others are skipped.
   * `faulty` names the items whose copy throws; only the scripts that catch
   * per item pass a non-empty set.  Fails only when dist/public cannot be
   * listed.
   */
  method CopyMerge(fs: FileSystem, faulty: set<Name>, copier: Copier)
    returns (ok: bool, copied: nat, skipped: nat)
    requires fs.Valid()
    modifies fs
    ensures fs.Valid()
    ensures ok <==> IsDirAt(old(fs.entries), Public)
    ensures fs.entries == if ok then CopyMerged(old(fs.entries), faulty) else old(fs.entries)
    ensures ok ==> copied == |Incoming(old(fs.entries)) - faulty|
    ensures ok ==> skipped == |Colliding(old(fs.entries))|
    ensures !ok ==> copied == 0 && skipped == 0
  {
    copied, skipped := 0, 0;
    var names;
    ok, names := fs.ReadDir(Public);
    if !ok {
      return;
    }
    ghost var t := fs.entries;
    var i := 0;
    assert Fresh(t, faulty, names[..0]) == {} && Taken(t, names[..0]) == {};
    TransferNone(t, Public, Dist, false);
    while i < |names|
      invariant 0 <= i <= |names|
      invariant fs.Valid()
      invariant fs.entries == Transfer(t, Public, Dist, Fresh(t, faulty, names[..i]), false)
      invariant copied == |Fresh(t, faulty, names[..i])| && skipped == |Taken(t, names[..i])|
    {
      var c, k := MergeItem(fs, faulty, copier, names, i, t);
      if c {
        copied := copied + 1;
      }
      if k {
        skipped := skipped + 1;
      }
      i := i + 1;
    }
    assert names[..i] == names;
    FreshAll(t, faulty, names);
  }

  /** The copy-merge loop's body for `names[i]`: skip it when dist has the
      name, else copy it up unless the copy throws. */
  method MergeItem(fs: FileSystem, faulty: set<Name>, copier: Copier,
                   names: seq<Name>, i: nat, ghost t: Tree)
    returns (copiedIt: bool, skippedIt: bool)
    requires fs.Valid() && ValidTree(t) && IsDirAt(t, Public)
    requires Listing(t, Public, names) && i < |names|
    requires fs.entries == Transfer(t, Public, Dist, Fresh(t, faulty, names[..i]), false)
    modifies fs
    ensures fs.Valid()
    ensures fs.entries == Transfer(t, Public, Dist, Fresh(t, faulty, names[..i + 1]), false)
    ensures |Fresh(t, faulty, names[..i + 1])| == |Fresh(t, faulty, names[..i])| + if copiedIt then 1 else 0
    ensures |Taken(t, names[..i + 1])| == |Taken(t, names[..i])| + if skippedIt then 1 else 0
  {
    var n := names[i];
    ghost var done := Fresh(t, faulty, names[..i]);
    ghost var seen := Taken(t, names[..i]);
    NotEarlier(names, i);
    FreshStep(t, faulty, names[..i], n);
    TakenStep(t, names[..i], n);
    assert n in Children(t, Public) by { assert n in names; }
    assert "public" !in done by { assert Dist + ["public"] == Public; }
    MergeStepView(t, done, false, n);
    copiedIt, skippedIt := false, false;
    if fs.Exists(Dist + [n]) {
      OneMore(seen, n);
      skippedIt := true;
    } else if n in faulty {
      // the copy throws; the script reports it and goes on
    } else {
      CopyItem(fs, n, copier, t, done);
      OneMore(done, n);
      copiedIt := true;
    }
  }

  /** One copy of the copy-merge loop, onto a name that dist lacks. */
  method CopyItem(fs: FileSystem, n: Name, copier: Copier, ghost t: Tree, ghost done: set<Name>)
    requires fs.Valid() && ValidTree(t) && IsDirAt(t, Public)
    requires "public" !in done && n !in done && n in Incoming(t)
    requires fs.entries == Transfer(t, Public, Dist, done, false)
    modifies fs
    ensures fs.Valid()
    ensures fs.entries == Transfer(t, Public, Dist, done + {n}, false)
  {
    PublicCollides(t);
    MergeStepView(t, done, false, n);
    var a, b := Public + [n], Dist + [n];
    ghost var u := fs.entries;
    AbsentCompatible(u, a, b);
    if copier == HandWritten {
      CopyRecursive(fs, a, b);
    } else if fs.IsDirectory(a) {
      var _ := fs.Cp(a, b);
    } else {
      var _ := fs.CopyFile(a, b);
      CopyFileIsCopyTree(u, a, b);
    }
    CopyStep(t, Public, Dist, done, n);
  }

  /** Children of two paths neither of which contains the other are again
      such paths, and neither contains the other parent. */
  lemma DisjointChildren(src: Path, dst: Path, e: Name)
    requires Disjoint(src, dst)
    ensures Disjoint(src + [e], dst + [e])
    ensures !(dst + [e] <= src) && !(src + [e] <= dst)
  {
    if dst + [e] <= src {
      PrefixesComparable(dst, dst + [e], src);
    }
    if src + [e] <= dst {
      PrefixesComparable(src, src + [e], dst);
    }
  }

  /** The facts a recursive call of `CopyRecursive` for child `e` needs. */
  lemma CopyChildView(t: Tree, src: Path, dst: Path, S: set<Name>, e: Name)
    requires ValidTree(t) && CanCopy(t, src, dst) && IsDirAt(t, src) && e !in S
    requires e in Children(t, src)
    ensures CanCopy(Transfer(t[dst := t[src]], src, dst, S, false), src + [e], dst + [e])
    ensures Below(Transfer(t[dst := t[src]], src, dst, S, false), src + [e]) == Below(t, src + [e])
  {
    var t' := t[dst := t[src]];
    var u := Transfer(t', src, dst, S, false);
    ChildrenMember(t, src, e);
    DisjointChildren(src, dst, e);
    TransferKeepsBelow(t', src, dst, S, false, e);
    TransferOutside(t', src, dst, S, false, dst);
    assert src + [e] in u;
    assert IsDirAt(u, dst);
    ChildCompatible(t, src, dst, S, e);
    assert Below(u, src + [e]) == Below(t, src + [e]);
  }

  lemma ChildCompatible(t: Tree, src: Path, dst: Path, S: set<Name>, e: Name)
    requires src in t && Compatible(t, src, dst) && Disjoint(src, dst) && e !in S
    ensures Compatible(Transfer(t[dst := t[src]], src, dst, S, false), src + [e], dst + [e])
  {
    var t' := t[dst := t[src]];
    var u := Transfer(t', src, dst, S, false);
    var a, b := src + [e], dst + [e];
    DisjointChildren(src, dst, e);
    TransferKeepsBelow(t', src, dst, S, false, e);
    TransferKeepsTarget(t', src, dst, S, false, e);
    forall q | q in u && a <= q && b + q[|a|..] in u
      ensures u[b + q[|a|..]].Dir? <==> u[q].Dir?
    {
      var r := b + q[|a|..];
      assert b <= r;
      assert q[|src|..] == [e] + q[|a|..];
      assert r == dst + q[|src|..];
      assert q != dst && r != dst;
    }
  }

  /** Fewer entries lie below a child than below its parent. */
  lemma BelowChildSmaller(t: Tree, src: Path, e: Name)
    requires src in t
    ensures |Below(t, src + [e])| < |Below(t, src)|
  {
    var small, big := Below(t, src + [e]), Below(t, src);
    assert small <= big;
    assert src in big - small;
    assert big == small + (big - small);
    assert small * (big - small) == {};
  }

  /**
   * The scripts' `copyRecursive(src, dest)`: a directory is created at `dest`
   * when missing and each of its entries copied into it in turn; a file is
   * copied with `copyFileSync`.  Modelled where no clash of a file with a
   * directory occurs and `dest`'s parent is a directory, which is how the
   * merges call it; then it writes exactly what `cpSync` would.
   */
  method CopyRecursive(fs: FileSystem, src: Path, dst: Path)
    requires fs.Valid() && CanCopy(fs.entries, src, dst)
    modifies fs
    ensures fs.Valid()
    ensures fs.entries == CopyTree(old(fs.entries), src, dst)
    decreases |Below(fs.entries, src)|, 1
  {
    ghost var t := fs.entries;
    assert src[|src|..] == [] && dst + [] == dst;
    if !fs.IsDirectory(src) {
      var _ := fs.CopyFile(src, dst);
      CopyFileIsCopyTree(t, src, dst);
      return;
    }
    if !fs.Exists(dst) {
      MakeDirsChild(t, dst);
      var _ := fs.Mkdir(dst);
    } else {
      UpdateSame(t, dst);
    }
    ghost var t0 := fs.entries;
    assert t0 == t[dst := t[src]];
    var _, names := fs.ReadDir(src);
    SameChildren(t, src, dst);
    var i := 0;
    assert Listed(names[..0]) == {};
    TransferNone(t0, src, dst, false);
    while i < |names|
      invariant 0 <= i <= |names|
      invariant fs.Valid()
      invariant fs.entries == Transfer(t0, src, dst, Listed(names[..i]), false)
    {
      CopyChild(fs, src, dst, names, i, t);
      i := i + 1;
    }
    assert names[..i] == names;
    ListedAll(t, src, names);
    CopyTreeByChildren(t, src, dst);
  }

  /** One pass of `copyRecursive`'s loop: copy `src/names[i]` to `dst/names[i]`. */
  method CopyChild(fs: FileSystem, src: Path, dst: Path, names: seq<Name>, i: nat, ghost t: Tree)
    requires ValidTree(t) && CanCopy(t, src, dst) && IsDirAt(t, src)
    requires Listing(t, src, names) && i < |names|
    requires fs.Valid()
    requires fs.entries == Transfer(t[dst := t[src]], src, dst, Listed(names[..i]), false)
    modifies fs
    ensures fs.Valid()
    ensures fs.entries == Transfer(t[dst := t[src]], src, dst, Listed(names[..i + 1]), false)
    decreases |Below(t, src)|, 0
  {
    var e := names[i];
    NotEarlier(names, i);
    ListedStep(names[..i], e);
    assert e in Children(t, src) by { assert e in names; }
    CopyChildView(t, src, dst, Listed(names[..i]), e);
    BelowChildSmaller(t, src, e);
    CopyRecursive(fs, src + [e], dst + [e]);
    CopyStep(t[dst := t[src]], src, dst, Listed(names[..i]), e);
  }

  /** The names a listing holds, as a set. */
  ghost function Listed(ns: seq<Name>): set<Name>
  {
    set n | n in ns
  }

  lemma ListedStep(ns: seq<Name>, n: Name)
    ensures Listed(ns + [n]) == Listed(ns) + {n}
  {}

  lemma ListedAll(t: Tree, p: Path, names: seq<Name>)
    requires Listing(t, p, names)
    ensures Listed(names) == Children(t, p)
  {}

  lemma UpdateSame(t: Tree, k: Path)
    requires k in t
    ensures t[k := t[k]] == t
  {}

  /** Writing at `dst` does not change what lies directly below `src`. */
  lemma SameChildren(t: Tree, src: Path, dst: Path)
    requires src in t && Disjoint(src, dst)
    ensures Children(t[dst := t[src]], src) == Children(t, src)
  {
    forall n ensures n in Children(t[dst := t[src]], src) <==> n in Children(t, src) {
      ChildrenMember(t[dst := t[src]], src, n);
      ChildrenMember(t, src, n);
    }
  }

  /**
   * The move-merge loop: each item of dist/public whose name dist lacks is
   * renamed up; dist/public is then removed when nothing is left in it.
   * Fails only when dist/public cannot be listed.
   */
  method MoveMerge(fs: FileSystem) returns (ok: bool, moved: nat, pruned: bool)
    requires fs.Valid()
    modifies fs
    ensures fs.Valid()
    ensures ok <==> IsDirAt(old(fs.entries), Public)
    ensures !ok ==> fs.entries == old(fs.entries) && moved == 0 && !pruned
    ensures ok ==> moved == |Incoming(old(fs.entries))|
    ensures ok ==> (pruned <==> Colliding(old(fs.entries)) == {})
    ensures ok ==> fs.entries == if pruned then MoveMerged(old(fs.entries)) - {Public}
                                 else MoveMerged(old(fs.entries))
    ensures ok ==> fs.entries == MovedOut(old(fs.entries))
  {
    moved, pruned := 0, false;
    var names;
    ok, names := fs.ReadDir(Public);
    if !ok {
      return;
    }
    ghost var t := fs.entries;
    var i := 0;
    assert Fresh(t, {}, names[..0]) == {};
    TransferNone(t, Public, Dist, true);
    while i < |names|
      invariant 0 <= i <= |names|
      invariant fs.Valid()
      invariant fs.entries == Transfer(t, Public, Dist, Fresh(t, {}, names[..i]), true)
      invariant moved == |Fresh(t, {}, names[..i])|
    {
      var m := MoveItem(fs, names, i, t);
      if m {
        moved := moved + 1;
      }
      i := i + 1;
    }
    assert names[..i] == names;
    FreshAll(t, {}, names);
    assert fs.entries == MoveMerged(t);
    pruned := PrunePublic(fs, t);
  }

  /** The move step of the scripts that run it only when dist/public
      exists: `None` when listing dist/public throws. */
  function MovedIfPresent(t: Tree): Option<Tree>
  {
    if Public !in t then Some(t)
    else if IsDirAt(t, Public) then Some(MovedOut(t))
    else None
  }

  method MoveIfPresent(fs: FileSystem) returns (ok: bool)
    requires fs.Valid()
    modifies fs
    ensures fs.Valid()
    ensures ok <==> MovedIfPresent(old(fs.entries)).Some?
    ensures fs.entries == if ok then MovedIfPresent(old(fs.entries)).value else old(fs.entries)
  {
    if !fs.Exists(Public) {
      return true;
    }
    var merged, _, _ := MoveMerge(fs);
    ok := merged;
  }

  /** After the move loop: dist/public is removed when it came out empty. */
  method PrunePublic(fs: FileSystem, ghost t: Tree) returns (pruned: bool)
    requires fs.Valid() && ValidTree(t) && IsDirAt(t, Public)
    requires fs.entries == MoveMerged(t)
    modifies fs
    ensures fs.Valid()
    ensures pruned <==> Colliding(t) == {}
    ensures fs.entries == if pruned then MoveMerged(t) - {Public} else MoveMerged(t)
  {
    MoveMergeLeaves(t);
    var _, rest := fs.ReadDir(Public);
    pruned := |rest| == 0;
    if pruned {
      var _ := fs.Rmdir(Public);
    } else {
      assert rest[0] in Colliding(t);
    }
  }

  /** The move-merge loop's body for `names[i]`: rename it up unless dist
      has the name. */
  method MoveItem(fs: FileSystem, names: seq<Name>, i: nat, ghost t: Tree) returns (movedIt: bool)
    requires fs.Valid() && ValidTree(t) && IsDirAt(t, Public)
    requires Listing(t, Public, names) && i < |names|
    requires fs.entries == Transfer(t, Public, Dist, Fresh(t, {}, names[..i]), true)
    modifies fs
    ensures fs.Valid()
    ensures fs.entries == Transfer(t, Public, Dist, Fresh(t, {}, names[..i + 1]), true)
    ensures |Fresh(t, {}, names[..i + 1])| == |Fresh(t, {}, names[..i])| + if movedIt then 1 else 0
  {
    var n := names[i];
    ghost var done := Fresh(t, {}, names[..i]);
    NotEarlier(names, i);
    FreshStep(t, {}, names[..i], n);
    assert n in Children(t, Public) by { assert n in names; }
    assert "public" !in done by { assert Dist + ["public"] == Public; }
    MergeStepView(t, done, true, n);
    movedIt := false;
    if !fs.Exists(Dist + [n]) {
      assert n != "public" by { assert Dist + ["public"] == Public; }
      var _ := fs.Rename(Public + [n], Dist + [n]);
      MoveStep(t, Public, Dist, done, n);
      OneMore(done, n);
      movedIt := true;
    }
  }

  /** After the move-merge, dist/public holds exactly the skipped items. */
  lemma MoveMergeLeaves(t: Tree)
    requires ValidTree(t) && IsDirAt(t, Public)
    ensures IsDirAt(MoveMerged(t), Public)
    ensures Children(MoveMerged(t), Public) == Colliding(t)
  {
    var S := Incoming(t);
    PublicCollides(t);
    assert Public !in Sent(t, Public, Dist, S) by {
      if Public in Sent(t, Public, Dist, S) {
        SentSource(t, Public, Dist, S, Public);
      }
    }
    forall n ensures n in Children(MoveMerged(t), Public) <==> n in Colliding(t) {
      var p := Public + [n];
      ChildrenMember(MoveMerged(t), Public, n);
      ChildrenMember(t, Public, n);
      assert p !in Sent(t, Public, Dist, S) by {
        if p in Sent(t, Public, Dist, S) {
          SentSource(t, Public, Dist, S, p);
        }
      }
    }
  }

  /**
   * The GitHub Pages loop: every item of dist/public is copied over the same
   * name in dist, with `cpSync` for a directory and `copyFileSync` for a
   * file; the first copy that throws ends it.
   */
  method OverwriteMerge(fs: FileSystem) returns (ok: bool)
    requires fs.Valid()
    modifies fs
    ensures fs.Valid()
    ensures ok <==> IsDirAt(old(fs.entries), Public) && Overwritable(old(fs.entries))
    ensures ok ==> fs.entries == Overwritten(old(fs.entries))
    ensures !ok ==> exists S :: S <= Children(old(fs.entries), Public) &&
                      fs.entries == Transfer(old(fs.entries), Public, Dist, S, false)
  {
    var names;
    ghost var t := fs.entries;
    TransferNone(t, Public, Dist, false);
    ok, names := fs.ReadDir(Public);
    if !ok {
      return;
    }
    var i := 0;
    assert Listed(names[..0]) == {};
    while i < |names|
      invariant 0 <= i <= |names|
      invariant fs.Valid()
      invariant fs.entries == Transfer(t, Public, Dist, Listed(names[..i]), false)
      invariant forall n :: n in Listed(names[..i]) ==> Clean(t, n)
    {
      ok := OverwriteItem(fs, names, i, t);
      if !ok {
        assert names[i] in Children(t, Public) by { assert names[i] in names; }
        ListedPrefix(t, names, i);
        return;
      }
      i := i + 1;
    }
    assert names[..i] == names;
    ListedAll(t, Public, names);
  }

  lemma ListedPrefix(t: Tree, names: seq<Name>, i: nat)
    requires Listing(t, Public, names) && i <= |names|
    ensures Listed(names[..i]) <= Children(t, Public)
  {
    forall n | n in Listed(names[..i]) ensures n in Children(t, Public) {
      assert n in names;
    }
  }

  /** The GitHub Pages loop's body for `names[i]`. */
  method OverwriteItem(fs: FileSystem, names: seq<Name>, i: nat, ghost t: Tree) returns (ok: bool)
    requires fs.Valid() && ValidTree(t) && IsDirAt(t, Public)
    requires Listing(t, Public, names) && i < |names|
    requires fs.entries == Transfer(t, Public, Dist, Listed(names[..i]), false)
    requires forall n :: n in Listed(names[..i]) ==> Clean(t, n)
    modifies fs
    ensures fs.Valid()
    ensures ok <==> Clean(t, names[i])
    ensures ok ==> fs.entries == Transfer(t, Public, Dist, Listed(names[..i + 1]), false)
    ensures !ok ==> fs.entries == old(fs.entries)
  {
    var n := names[i];
    ghost var done := Listed(names[..i]);
    NotEarlier(names, i);
    ListedStep(names[..i], n);
    assert n in Children(t, Public) by { assert n in names; }
    assert "public" !in done;
    MergeStepView(t, done, false, n);
    var a, b := Public + [n], Dist + [n];
    ghost var u := fs.entries;
    if fs.IsDirectory(a) {
      ok := fs.Cp(a, b);
      if n != "public" {
        CompatibleView(t, done, n);
      }
    } else {
      ok := fs.CopyFile(a, b);
      FileCompatible(t, a, b);
      if n != "public" {
        CompatibleView(t, done, n);
        CopyFileIsCopyTree(u, a, b);
      } else {
        assert b == Public;
      }
    }
    if ok {
      CopyStep(t, Public, Dist, done, n);
    }
  }
}
