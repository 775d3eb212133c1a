/**
 * What the three merges of `dist/public` into `dist` promise, stated on
 * their closed forms: which entries survive untouched, which appear and with
 * what content, what a second run does, and how the items divide up.
 */
module MergeLaws {
  import opened FileTree
  import opened Layout
  import opened Reconcile
  import opened Build

  // ---------------------------------------------------------------------
  // Copy-merge (skip what dist already has)
  // ---------------------------------------------------------------------

  /** A path received from below dist/public hangs below an item name that
      dist lacked, so it was not in the tree. */
  lemma ReceivedWasAbsent(t: Tree, S: set<Name>, p: Path)
    requires ValidTree(t) && Receives(t, Public, Dist, S, p)
    requires forall n :: n in S ==> Dist + [n] !in t
    ensures p !in t
  {
    var top := p[..2];
    assert top == Dist + [p[1]];
    if p in t && top != p {
      AncestorIsDir(t, top, p);
    }
  }

  /** No entry is overwritten or removed: not the server bundle, not a
      colliding item, not anything in dist/public. */
  lemma CopyMergeKeeps(t: Tree, faulty: set<Name>, p: Path)
    requires ValidTree(t) && p in t
    ensures p in CopyMerged(t, faulty) && CopyMerged(t, faulty)[p] == t[p]
  {
    var S := Incoming(t) - faulty;
    if Receives(t, Public, Dist, S, p) {
      ReceivedWasAbsent(t, S, p);
    }
  }

  /** An incoming item arrives in dist whole: every entry below it, a file
      with its content, a directory as a directory. */
  lemma CopyMergeAdds(t: Tree, faulty: set<Name>, n: Name, q: Path)
    requires n in Incoming(t) - faulty && Public + [n] + q in t
    ensures Dist + [n] + q in CopyMerged(t, faulty)
    ensures CopyMerged(t, faulty)[Dist + [n] + q] == t[Public + [n] + q]
  {
    var S := Incoming(t) - faulty;
    var src, p := Public + [n] + q, Dist + [n] + q;
    assert src[|Public|] == n && Dist + src[|Public|..] == p;
    assert p in Sent(t, Public, Dist, S);
    assert p[|Dist|] == n && Public + p[|Dist|..] == src;
  }

  /** Whatever is new after the copy-merge came from below an incoming item
      that did not throw, at the same place relative to it. */
  lemma CopyMergeOnlyNew(t: Tree, faulty: set<Name>, p: Path)
    requires p in CopyMerged(t, faulty) && p !in t
    ensures Dist < p && p[1] in Incoming(t) - faulty && Public + p[1..] in t
    ensures CopyMerged(t, faulty)[p] == t[Public + p[1..]]
  {
    SentSource(t, Public, Dist, Incoming(t) - faulty, p);
  }

  /** The skip is shallow: below a colliding name nothing is added, even
      what only the source had. */
  lemma ShallowSkip(t: Tree, faulty: set<Name>, n: Name, q: Path)
    requires ValidTree(t) && n in Colliding(t)
    ensures Dist + [n] + q in CopyMerged(t, faulty) <==> Dist + [n] + q in t
  {
    var p := Dist + [n] + q;
    if p in t {
      CopyMergeKeeps(t, faulty, p);
    } else if p in CopyMerged(t, faulty) {
      CopyMergeOnlyNew(t, faulty, p);
    }
  }

  /** After the loop every listed item whose copy did not throw has its
      name in dist. */
  lemma ListedPresent(t: Tree, faulty: set<Name>, n: Name)
    requires ValidTree(t) && n in Children(t, Public) && n !in faulty
    ensures Dist + [n] in CopyMerged(t, faulty)
  {
    if Dist + [n] in t {
      CopyMergeKeeps(t, faulty, Dist + [n]);
    } else {
      ChildrenMember(t, Public, n);
      assert Public + [n] + [] == Public + [n] && Dist + [n] + [] == Dist + [n];
      CopyMergeAdds(t, faulty, n, []);
    }
  }

  /** After a copy-merge in which nothing threw, a second copy-merge changes
      nothing, whichever of its copies would throw: every item is skipped. */
  lemma CopyMergeIdempotent(t: Tree, faulty: set<Name>)
    requires ValidTree(t) && IsDirAt(t, Public)
    ensures CopyMerged(CopyMerged(t, {}), faulty) == CopyMerged(t, {})
  {
    var r := CopyMerged(t, {});
    PublicCollides(t);
    forall n | n in Children(r, Public) ensures Dist + [n] in r {
      var a := Public + [n];
      ChildrenMember(r, Public, n);
      if a !in t {
        CopyMergeOnlyNew(t, {}, a);
      }
      ChildrenMember(t, Public, n);
      ListedPresent(t, {}, n);
    }
    assert Incoming(r) - faulty == {};
    TransferNone(r, Public, Dist, false);
  }

  /** The counters: copied plus skipped never exceeds the items listed, and
      reaches it when no copy throws. */
  lemma CopyCounts(t: Tree, faulty: set<Name>)
    ensures |Incoming(t) - faulty| + |Colliding(t)| <= |Children(t, Public)|
    ensures Incoming(t) * faulty == {} ==>
      |Incoming(t) - faulty| + |Colliding(t)| == |Children(t, Public)|
  {
    MovePartition(t);
    var kept, lost := Incoming(t) - faulty, Incoming(t) * faulty;
    assert Incoming(t) == kept + lost && kept * lost == {};
  }

  /** The server bundle survives the merge: when the server build wrote
      dist/index.js, a same-named item of dist/public does not replace it. */
  lemma ServerBundleKept(t: Tree, vite: Exec, esbuild: Exec)
    requires ValidTree(t) && WellFormed(vite) && WellFormed(esbuild)
    requires BundleRoom(t) && esbuild.bundle.Some?
    ensures ServerBundle in CopyMerged(Built(t, vite, esbuild), {})
    ensures CopyMerged(Built(t, vite, esbuild), {})[ServerBundle] == File(esbuild.bundle.value)
  {
    var t1 := Emitted(t, vite);
    EmittedValid(t, vite);
    EmittedKeepsRoom(t, vite);
    BundleWritten(t1, esbuild);
    EmittedValid(t1, esbuild);
    CopyMergeKeeps(Built(t, vite, esbuild), {}, ServerBundle);
  }

  // ---------------------------------------------------------------------
  // Move-merge (rename what dist lacks, leave the rest)
  // ---------------------------------------------------------------------

  /** Moved and skipped items split the listing of dist/public. */
  lemma MovePartition(t: Tree)
    ensures Incoming(t) + Colliding(t) == Children(t, Public)
    ensures Incoming(t) * Colliding(t) == {}
    ensures |Incoming(t)| + |Colliding(t)| == |Children(t, Public)|
  {
  }

  /** A moved item is gone from dist/public and sits in dist with the same
      content, its whole subtree with it. */
  lemma MoveMergeMoves(t: Tree, n: Name, q: Path)
    requires Public in t && n in Incoming(t) && Public + [n] + q in t
    ensures Dist + [n] + q in MoveMerged(t)
    ensures MoveMerged(t)[Dist + [n] + q] == t[Public + [n] + q]
    ensures Public + [n] + q !in MoveMerged(t)
  {
    var S := Incoming(t);
    var src, p := Public + [n] + q, Dist + [n] + q;
    assert src[|Public|] == n && Dist + src[|Public|..] == p;
    assert p in Sent(t, Public, Dist, S);
    assert p[|Dist|] == n && Public + p[|Dist|..] == src;
    assert src in Picked(t, Public, S);
    PublicCollides(t);
    if src in Sent(t, Public, Dist, S) {
      SentSource(t, Public, Dist, S, src);
    }
  }

  /** Everything that is not a moved item stays where it was, unchanged. */
  lemma MoveMergeKeeps(t: Tree, p: Path)
    requires ValidTree(t) && p in t && !(Public < p && p[2] in Incoming(t))
    ensures p in MoveMerged(t) && MoveMerged(t)[p] == t[p]
  {
    var S := Incoming(t);
    assert p !in Picked(t, Public, S);
    if Receives(t, Public, Dist, S, p) {
      ReceivedWasAbsent(t, S, p);
    }
  }

  /** The server bundle survives the move-merge and the pruning of
      dist/public. */
  lemma ServerBundleKeptByMove(t: Tree, vite: Exec, esbuild: Exec)
    requires ValidTree(t) && WellFormed(vite) && WellFormed(esbuild)
    requires BundleRoom(t) && esbuild.bundle.Some?
    ensures ServerBundle in MovedOut(Built(t, vite, esbuild))
    ensures MovedOut(Built(t, vite, esbuild))[ServerBundle] == File(esbuild.bundle.value)
  {
    var t1 := Emitted(t, vite);
    var b := Built(t, vite, esbuild);
    EmittedValid(t, vite);
    EmittedKeepsRoom(t, vite);
    BundleWritten(t1, esbuild);
    EmittedValid(t1, esbuild);
    assert !(Public <= ServerBundle) by { assert ServerBundle[1] != Public[1]; }
    MovedOutKeeps(b, ServerBundle);
  }

  /** Outside dist/public the move-merge and the pruning keep every entry. */
  lemma MovedOutKeeps(t: Tree, p: Path)
    requires ValidTree(t) && p in t && !(Public <= p)
    ensures p in MovedOut(t) && MovedOut(t)[p] == t[p]
  {
    MoveMergeKeeps(t, p);
  }

  /** Whatever is new after the move-merge is a moved item's entry. */
  lemma MoveMergeOnlyNew(t: Tree, p: Path)
    requires p in MoveMerged(t) && p !in t
    ensures Dist < p && p[1] in Incoming(t) && Public + p[1..] in t
    ensures MoveMerged(t)[p] == t[Public + p[1..]]
  {
    SentSource(t, Public, Dist, Incoming(t), p);
  }

  /** After a move-merge nothing is left to move, so running the loop again
      changes nothing. */
  lemma MoveMergeSettled(t: Tree)
    requires ValidTree(t) && IsDirAt(t, Public)
    ensures Incoming(MoveMerged(t)) == {}
    ensures MoveMerged(MoveMerged(t)) == MoveMerged(t)
  {
    var r := MoveMerged(t);
    MoveMergeLeaves(t);
    forall n | n in Children(r, Public) ensures Dist + [n] in r {
      MoveMergeKeeps(t, Dist + [n]);
    }
    TransferNone(r, Public, Dist, true);
  }

  // ---------------------------------------------------------------------
  // Overwrite-merge (copy every item over its namesake)
  // ---------------------------------------------------------------------

  /** Every entry below every item lands in dist, replacing what was there. */
  lemma OverwriteCopies(t: Tree, n: Name, q: Path)
    requires n in Children(t, Public) && Public + [n] + q in t
    ensures Dist + [n] + q in Overwritten(t)
    ensures Overwritten(t)[Dist + [n] + q] == t[Public + [n] + q]
  {
    var S := Children(t, Public);
    var src, p := Public + [n] + q, Dist + [n] + q;
    assert src[|Public|] == n && Dist + src[|Public|..] == p;
    assert p in Sent(t, Public, Dist, S);
    assert p[|Dist|] == n && Public + p[|Dist|..] == src;
  }

  /** An existing entry changes only when the source has the same place. */
  lemma OverwriteKeeps(t: Tree, p: Path)
    requires p in t && !(Dist < p && Public + p[1..] in t)
    ensures p in Overwritten(t) && Overwritten(t)[p] == t[p]
  {
  }

  /** Nothing appears that the source does not have. */
  lemma OverwriteOnlyNew(t: Tree, p: Path)
    requires p in Overwritten(t) && p !in t
    ensures Dist < p && Public + p[1..] in t && Overwritten(t)[p] == t[Public + p[1..]]
  {
    SentSource(t, Public, Dist, Children(t, Public), p);
  }
}
