/**
 * The filesystem as the deployment scripts see it: a finite map from paths
 * (sequences of names, relative to the working directory) to nodes.
 * Every operation the scripts perform through Node's `fs` module is given
 * here as a pure function on such maps; the class in fs.dfy applies them.
 */
module FileTree {

  type Name = string
  type Path = seq<Name>

  /** A file holds text; a directory holds nothing itself, its children are the
      entries one name below it. */
  datatype Node = File(content: string) | Dir

  type Tree = map<Path, Node>

  function Parent(p: Path): Path
    requires p != []
  {
    p[..|p| - 1]
  }

  /** The root (the working directory) is a directory and every other entry
      hangs below a directory. */
  ghost predicate ValidTree(t: Tree)
  {
    [] in t && t[[]].Dir? &&
    forall p :: p in t && p != [] ==> Parent(p) in t && t[Parent(p)].Dir?
  }

  predicate IsDirAt(t: Tree, p: Path)
  {
    p in t && t[p].Dir?
  }

  predicate IsFileAt(t: Tree, p: Path)
  {
    p in t && t[p].File?
  }

  /** The names `readdirSync(p)` returns, as a set. */
  function Children(t: Tree, p: Path): set<Name>
  {
    set q | q in t && |q| == |p| + 1 && p <= q :: q[|p|]
  }

  lemma ChildrenMember(t: Tree, p: Path, n: Name)
    ensures n in Children(t, p) <==> p + [n] in t
  {
    if p + [n] in t {
      assert (p + [n])[|p|] == n;
    }
    if n in Children(t, p) {
      var q :| q in t && |q| == |p| + 1 && p <= q && q[|p|] == n;
      assert q == p + [n];
    }
  }

  /** Every proper prefix of an entry is a directory entry. */
  lemma {:induction false} AncestorIsDir(t: Tree, a: Path, p: Path)
    requires ValidTree(t) && p in t && a < p
    ensures IsDirAt(t, a)
    decreases |p|
  {
    var q := Parent(p);
    if a != q {
      assert a < q by {
        assert |a| < |q|;
        assert q[..|a|] == p[..|a|];
      }
      AncestorIsDir(t, a, q);
    }
  }

  /** Nothing lies below an absent path or below a file. */
  lemma NothingBelowAbsent(t: Tree, a: Path)
    requires ValidTree(t) && a !in t
    ensures forall q :: q in t ==> !(a <= q)
  {
    forall q | q in t && a <= q
      ensures false
    {
      if a != q {
        AncestorIsDir(t, a, q);
      }
    }
  }

  lemma NothingBelowFile(t: Tree, a: Path)
    requires ValidTree(t) && IsFileAt(t, a)
    ensures forall q :: q in t && a <= q ==> q == a
  {
    forall q | q in t && a <= q && q != a
      ensures false
    {
      AncestorIsDir(t, a, q);
    }
  }

  /** Every strict descendant of `p` lies below one of p's children. */
  lemma BelowSomeChild(t: Tree, p: Path, q: Path)
    requires ValidTree(t) && q in t && p < q
    ensures q[|p|] in Children(t, p) && p + [q[|p|]] <= q
  {
    var c := q[..|p| + 1];
    assert c == p + [q[|p|]];
    if c != q {
      AncestorIsDir(t, c, q);
    }
    ChildrenMember(t, p, q[|p|]);
  }

  // ---------------------------------------------------------------------
  // Copying and moving subtrees
  // ---------------------------------------------------------------------

  /** The entries at or below `a`. */
  function Below(t: Tree, a: Path): set<Path>
  {
    set q | q in t && a <= q
  }

  /** The entries at or below `a`, re-rooted at `b`. */
  function Rebased(t: Tree, a: Path, b: Path): set<Path>
  {
    set q | q in t && a <= q :: b + q[|a|..]
  }

  /** Every re-rooted path has its source below `a`. */
  lemma RebasedSource(t: Tree, a: Path, b: Path, p: Path)
    requires p in Rebased(t, a, b)
    ensures b <= p && a + p[|b|..] in t
  {
    var q :| q in t && a <= q && p == b + q[|a|..];
    assert p[|b|..] == q[|a|..];
    assert a + q[|a|..] == q;
  }

  lemma SentSource(t: Tree, src: Path, dst: Path, S: set<Name>, p: Path)
    requires p in Sent(t, src, dst, S)
    ensures Receives(t, src, dst, S, p)
  {
    var q :| q in t && src < q && q[|src|] in S && p == dst + q[|src|..];
    assert p[|dst|..] == q[|src|..];
    assert src + q[|src|..] == q;
  }

  /** `cpSync(a, b, {recursive: true})`: the subtree at `a` is written over `b`,
      files replacing files, directories merging into directories. */
  function CopyTree(t: Tree, a: Path, b: Path): (r: Tree)
  {
    map p | p in t.Keys + Rebased(t, a, b) ::
      if b <= p && a + p[|b|..] in t then t[a + p[|b|..]]
      else if p in t then t[p]
      else RebasedSource(t, a, b, p); assert false; Dir
  }

  /** `renameSync(a, b)`: the subtree at `a` is taken away and re-rooted at `b`. */
  function MoveTree(t: Tree, a: Path, b: Path): (r: Tree)
  {
    map p | p in (t.Keys - Below(t, a)) + Rebased(t, a, b) ::
      if b <= p && a + p[|b|..] in t then t[a + p[|b|..]]
      else if p in t then t[p]
      else RebasedSource(t, a, b, p); assert false; Dir
  }

  /** `rmSync(a, {recursive: true})`: the subtree at `a` is gone. */
  function RemoveTree(t: Tree, a: Path): (r: Tree)
  {
    map p | p in t.Keys - Below(t, a) :: t[p]
  }

  /** The strict descendants of `src` that lie below a child named in `S`. */
  function Picked(t: Tree, src: Path, S: set<Name>): set<Path>
  {
    set q | q in t && src < q && q[|src|] in S
  }

  /** Those descendants re-rooted from `src` to `dst`. */
  function Sent(t: Tree, src: Path, dst: Path, S: set<Name>): set<Path>
  {
    set q | q in t && src < q && q[|src|] in S :: dst + q[|src|..]
  }

  /** `p` receives its node from below `src` when the children named in `S` are
      transferred from `src` to `dst`. */
  predicate Receives(t: Tree, src: Path, dst: Path, S: set<Name>, p: Path)
  {
    dst < p && p[|dst|] in S && src + p[|dst|..] in t
  }

  /** Copy (move = false) or move (move = true) every child of `src` named in
      `S` to the same name under `dst`, all at once. */
  function Transfer(t: Tree, src: Path, dst: Path, S: set<Name>, move: bool): (r: Tree)
  {
    map p | p in (if move then t.Keys - Picked(t, src, S) else t.Keys) + Sent(t, src, dst, S) ::
      if Receives(t, src, dst, S, p) then t[src + p[|dst|..]]
      else if p in t then t[p]
      else SentSource(t, src, dst, S, p); assert false; Dir
  }


  /** Copying `a` over `b` never turns a directory into a file or back. */
  predicate Compatible(t: Tree, a: Path, b: Path)
  {
    forall q :: q in t && a <= q && b + q[|a|..] in t ==> (t[b + q[|a|..]].Dir? <==> t[q].Dir?)
  }

  /** Neither path lies at or below the other. */
  predicate Disjoint(a: Path, b: Path)
  {
    !(a <= b) && !(b <= a)
  }

  lemma ParentOfLonger(x: Path, y: Path)
    requires y != []
    ensures Parent(x + y) == x + Parent(y)
  {
  }

  lemma CopyTreeValid(t: Tree, a: Path, b: Path)
    requires ValidTree(t) && a in t && b != [] && IsDirAt(t, Parent(b)) && Compatible(t, a, b)
    ensures ValidTree(CopyTree(t, a, b))
  {
    var r := CopyTree(t, a, b);
    assert [] in r && r[[]] == t[[]];
    forall p | p in r && p != []
      ensures Parent(p) in r && r[Parent(p)].Dir?
    {
      if b <= p && a + p[|b|..] in t {
        CopiedParent(t, a, b, p);
      } else {
        if p !in t {
          RebasedSource(t, a, b, p);
        }
        KeptParent(t, a, b, p);
      }
    }
  }

  /** The parent of a copied entry is a directory after the copy. */
  lemma CopiedParent(t: Tree, a: Path, b: Path, p: Path)
    requires ValidTree(t) && a in t && b != [] && IsDirAt(t, Parent(b))
    requires b <= p && a + p[|b|..] in t && p != []
    ensures Parent(p) in CopyTree(t, a, b) && CopyTree(t, a, b)[Parent(p)].Dir?
  {
    var pp := Parent(p);
    if p == b {
      assert !(b <= pp);
      assert pp in t;
    } else {
      var x := p[|b|..];
      var s := a + x;
      assert x != [] && p == b + x;
      ParentOfLonger(b, x);
      ParentOfLonger(a, x);
      assert pp == b + Parent(x);
      assert s != [] && Parent(s) == a + Parent(x);
      assert Parent(s) in t && t[Parent(s)].Dir?;
      assert a <= Parent(s) && Parent(s)[|a|..] == Parent(x);
      assert pp in Rebased(t, a, b);
      assert pp[|b|..] == Parent(x);
    }
  }

  /** The parent of an entry the copy keeps is still a directory after it. */
  lemma KeptParent(t: Tree, a: Path, b: Path, p: Path)
    requires ValidTree(t) && Compatible(t, a, b)
    requires p in t && p != []
    ensures Parent(p) in CopyTree(t, a, b) && CopyTree(t, a, b)[Parent(p)].Dir?
  {
    var pp := Parent(p);
    assert pp in t && t[pp].Dir?;
    if b <= pp && a + pp[|b|..] in t {
      var q := a + pp[|b|..];
      assert b + q[|a|..] == pp;
    }
  }

  lemma MoveTreeValid(t: Tree, a: Path, b: Path)
    requires ValidTree(t) && a in t && a != [] && b !in t && b != [] && IsDirAt(t, Parent(b))
    requires !(a <= b)
    ensures ValidTree(MoveTree(t, a, b))
  {
    var r := MoveTree(t, a, b);
    NothingBelowAbsent(t, b);
    assert [] !in Below(t, a);
    assert [] in r && r[[]] == t[[]];
    forall p | p in r && p != []
      ensures Parent(p) in r && r[Parent(p)].Dir?
    {
      if b <= p && a + p[|b|..] in t {
        MovedParent(t, a, b, p);
      } else {
        if p !in t - Below(t, a) {
          RebasedSource(t, a, b, p);
        }
        StayedParent(t, a, b, p);
      }
    }
  }

  /** The parent of a moved entry is a directory after the move. */
  lemma MovedParent(t: Tree, a: Path, b: Path, p: Path)
    requires ValidTree(t) && a in t && a != [] && b !in t && b != [] && IsDirAt(t, Parent(b))
    requires !(a <= b) && (forall q :: b <= q ==> q !in t)
    requires b <= p && a + p[|b|..] in t && p != []
    ensures Parent(p) in MoveTree(t, a, b) && MoveTree(t, a, b)[Parent(p)].Dir?
  {
    var pp := Parent(p);
    if p == b {
      assert !(b <= pp);
      assert pp in t;
      assert !(a <= pp);
    } else {
      var x := p[|b|..];
      var s := a + x;
      assert x != [] && p == b + x;
      ParentOfLonger(b, x);
      ParentOfLonger(a, x);
      assert pp == b + Parent(x);
      assert s != [] && Parent(s) == a + Parent(x);
      assert Parent(s) in t && t[Parent(s)].Dir?;
      assert a <= Parent(s) && Parent(s)[|a|..] == Parent(x);
      assert pp in Rebased(t, a, b);
      assert pp[|b|..] == Parent(x);
    }
  }

  /** The parent of an entry the move leaves in place is still a directory. */
  lemma StayedParent(t: Tree, a: Path, b: Path, p: Path)
    requires ValidTree(t) && (forall q :: b <= q ==> q !in t)
    requires p in t && !(a <= p) && p != []
    ensures Parent(p) in MoveTree(t, a, b) && MoveTree(t, a, b)[Parent(p)].Dir?
  {
    var pp := Parent(p);
    assert pp in t && t[pp].Dir?;
    assert !(a <= pp);
    assert !(b <= pp);
  }

  lemma RemoveTreeValid(t: Tree, a: Path)
    requires ValidTree(t) && a != []
    ensures ValidTree(RemoveTree(t, a))
  {
    var r := RemoveTree(t, a);
    assert [] !in Below(t, a);
    forall p | p in r && p != []
      ensures Parent(p) in r && r[Parent(p)].Dir?
    {
      assert !(a <= Parent(p));
    }
  }

  /** Condition under which transferring children of `src` to `dst` never reads
      what an earlier transfer wrote: `src` is not at or above `dst`, and no
      child of `dst` named in `S` lies on the way to `src`. */
  predicate Separate(src: Path, dst: Path, S: set<Name>)
  {
    !(src <= dst) && !(dst < src && src[|dst|] in S)
  }

  /** Paths at or below `src + [c]` are never received. */
  lemma NotReceivedBelow(t: Tree, src: Path, dst: Path, S: set<Name>, c: Name, q: Path)
    requires Separate(src, dst, S) && src + [c] <= q
    ensures !Receives(t, src, dst, S, q)
  {
  }

  /** The region below `src + [c]` is untouched by a transfer that excludes c. */
  lemma TransferKeepsBelow(t: Tree, src: Path, dst: Path, S: set<Name>, move: bool, c: Name)
    requires Separate(src, dst, S) && c !in S
    ensures forall q :: src + [c] <= q ==>
      (q in Transfer(t, src, dst, S, move) <==> q in t) &&
      (q in t ==> Transfer(t, src, dst, S, move)[q] == t[q])
  {
    forall q | src + [c] <= q
      ensures (q in Transfer(t, src, dst, S, move) <==> q in t)
      ensures q in t ==> Transfer(t, src, dst, S, move)[q] == t[q]
    {
      NotReceivedBelow(t, src, dst, S, c, q);
      if q in Sent(t, src, dst, S) {
        SentSource(t, src, dst, S, q);
      }
      assert q !in Picked(t, src, S);
    }
  }

  lemma RebasedChild(t: Tree, u: Tree, src: Path, dst: Path, c: Name)
    requires forall q :: src + [c] <= q ==> (q in u <==> q in t)
    ensures Rebased(u, src + [c], dst + [c]) == Sent(t, src, dst, {c})
  {
    var a, b := src + [c], dst + [c];
    forall p | p in Rebased(u, a, b) ensures p in Sent(t, src, dst, {c}) {
      var q :| q in u && a <= q && p == b + q[|a|..];
      assert src < q && q[|src|] == c && dst + q[|src|..] == p;
    }
    forall p | p in Sent(t, src, dst, {c}) ensures p in Rebased(u, a, b) {
      var q :| q in t && src < q && q[|src|] in {c} && p == dst + q[|src|..];
      assert a <= q && b + q[|a|..] == p;
    }
  }

  lemma SentUnion(t: Tree, src: Path, dst: Path, S: set<Name>, c: Name)
    ensures Sent(t, src, dst, S + {c}) == Sent(t, src, dst, S) + Sent(t, src, dst, {c})
    ensures Picked(t, src, S + {c}) == Picked(t, src, S) + Picked(t, src, {c})
  {
  }

  /** Reading the child's entry: `src + [c] + rest` seen from `dst + [c] + rest`. */
  lemma ChildPath(src: Path, dst: Path, c: Name, p: Path)
    ensures dst + [c] <= p <==> (dst < p && p[|dst|] == c)
    ensures dst + [c] <= p ==> (src + [c]) + p[|dst + [c]|..] == src + p[|dst|..]
  {
    if dst + [c] <= p {
      assert p[|dst| + 1..] == p[|dst|..][1..];
      assert p[|dst|..] == [c] + p[|dst| + 1..];
    }
    if dst < p && p[|dst|] == c {
      assert p[..|dst| + 1] == dst + [c];
    }
  }

  /** One more child copied with `cpSync` extends the transfer by that child. */
  lemma {:induction false} CopyStep(t: Tree, src: Path, dst: Path, S: set<Name>, c: Name)
    requires Separate(src, dst, S + {c}) && c !in S
    ensures CopyTree(Transfer(t, src, dst, S, false), src + [c], dst + [c])
         == Transfer(t, src, dst, S + {c}, false)
  {
    var u := Transfer(t, src, dst, S, false);
    var a, b := src + [c], dst + [c];
    var lhs := CopyTree(u, a, b);
    var rhs := Transfer(t, src, dst, S + {c}, false);
    TransferKeepsBelow(t, src, dst, S, false, c);
    RebasedChild(t, u, src, dst, c);
    SentUnion(t, src, dst, S, c);
    assert lhs.Keys == rhs.Keys;
    forall p | p in lhs.Keys
      ensures lhs[p] == rhs[p]
    {
      CopyStepValue(t, src, dst, S, c, p);
    }
  }

  lemma CopyStepValue(t: Tree, src: Path, dst: Path, S: set<Name>, c: Name, p: Path)
    requires Separate(src, dst, S + {c}) && c !in S
    requires p in CopyTree(Transfer(t, src, dst, S, false), src + [c], dst + [c])
    requires p in Transfer(t, src, dst, S + {c}, false)
    ensures CopyTree(Transfer(t, src, dst, S, false), src + [c], dst + [c])[p]
         == Transfer(t, src, dst, S + {c}, false)[p]
  {
    TransferKeepsBelow(t, src, dst, S, false, c);
    ChildPath(src, dst, c, p);
  }

  lemma MoveStepKeys(t: Tree, src: Path, dst: Path, S: set<Name>, c: Name)
    requires Separate(src, dst, S + {c}) && c !in S
    ensures MoveTree(Transfer(t, src, dst, S, true), src + [c], dst + [c]).Keys
         == Transfer(t, src, dst, S + {c}, true).Keys
  {
    var u := Transfer(t, src, dst, S, true);
    var a, b := src + [c], dst + [c];
    TransferKeepsBelow(t, src, dst, S, true, c);
    RebasedChild(t, u, src, dst, c);
    SentUnion(t, src, dst, S, c);
    MovedBelow(t, src, dst, S, c);
    assert u.Keys == (t.Keys - Picked(t, src, S)) + Sent(t, src, dst, S);
  }

  /** What `renameSync` of child `c` takes away is exactly that child's subtree. */
  lemma MovedBelow(t: Tree, src: Path, dst: Path, S: set<Name>, c: Name)
    requires Separate(src, dst, S + {c}) && c !in S
    ensures Below(Transfer(t, src, dst, S, true), src + [c]) == Picked(t, src, {c})
    ensures forall p :: p in Sent(t, src, dst, S) ==> p !in Below(Transfer(t, src, dst, S, true), src + [c])
  {
    var u := Transfer(t, src, dst, S, true);
    var a := src + [c];
    TransferKeepsBelow(t, src, dst, S, true, c);
    forall q | q in Picked(t, src, {c}) ensures q in Below(u, a) {
      assert a <= q;
    }
    forall p | p in Sent(t, src, dst, S)
      ensures p !in Below(u, a)
    {
      SentSource(t, src, dst, S, p);
      if src + [c] <= p {
        NotReceivedBelow(t, src, dst, S, c, p);
      }
    }
  }

  /** One more child moved with `renameSync` extends the transfer by that child. */
  lemma {:induction false} MoveStep(t: Tree, src: Path, dst: Path, S: set<Name>, c: Name)
    requires Separate(src, dst, S + {c}) && c !in S
    ensures MoveTree(Transfer(t, src, dst, S, true), src + [c], dst + [c])
         == Transfer(t, src, dst, S + {c}, true)
  {
    var u := Transfer(t, src, dst, S, true);
    var a, b := src + [c], dst + [c];
    var lhs := MoveTree(u, a, b);
    var rhs := Transfer(t, src, dst, S + {c}, true);
    TransferKeepsBelow(t, src, dst, S, true, c);
    MoveStepKeys(t, src, dst, S, c);
    forall p | p in lhs.Keys
      ensures lhs[p] == rhs[p]
    {
      MoveStepValue(t, src, dst, S, c, p);
    }
  }

  lemma MoveStepValue(t: Tree, src: Path, dst: Path, S: set<Name>, c: Name, p: Path)
    requires Separate(src, dst, S + {c}) && c !in S
    requires p in MoveTree(Transfer(t, src, dst, S, true), src + [c], dst + [c])
    requires p in Transfer(t, src, dst, S + {c}, true)
    ensures MoveTree(Transfer(t, src, dst, S, true), src + [c], dst + [c])[p]
         == Transfer(t, src, dst, S + {c}, true)[p]
  {
    TransferKeepsBelow(t, src, dst, S, true, c);
    ChildPath(src, dst, c, p);
  }

  /** Transferring no children changes nothing. */
  lemma TransferNone(t: Tree, src: Path, dst: Path, move: bool)
    ensures Transfer(t, src, dst, {}, move) == t
  {
    assert Sent(t, src, dst, {}) == {};
    assert Picked(t, src, {}) == {};
  }

  /** A whole-subtree copy is the root copied, then every child transferred. */
  lemma CopyTreeByChildren(t: Tree, a: Path, b: Path)
    requires ValidTree(t) && a in t && Disjoint(a, b)
    ensures CopyTree(t, a, b) == Transfer(t[b := t[a]], a, b, Children(t, a), false)
  {
    var lhs := CopyTree(t, a, b);
    var rhs := Transfer(t[b := t[a]], a, b, Children(t, a), false);
    ByChildrenKeys(t, a, b);
    assert lhs.Keys == rhs.Keys;
    forall p | p in lhs.Keys
      ensures lhs[p] == rhs[p]
    {
      ByChildrenValue(t, a, b, p);
    }
  }

  lemma ByChildrenKeys(t: Tree, a: Path, b: Path)
    requires ValidTree(t) && a in t && Disjoint(a, b)
    ensures Rebased(t, a, b) == {b} + Sent(t[b := t[a]], a, b, Children(t, a))
  {
    var t0 := t[b := t[a]];
    var ch := Children(t, a);
    forall p | p in Rebased(t, a, b) && p != b ensures p in Sent(t0, a, b, ch) {
      var q :| q in t && a <= q && p == b + q[|a|..];
      assert q != a;
      BelowSomeChild(t, a, q);
      assert q != b;
    }
    forall p | p in Sent(t0, a, b, ch) ensures p in Rebased(t, a, b) {
      var q :| q in t0 && a < q && q[|a|] in ch && p == b + q[|a|..];
      assert q != b;
    }
    assert b == b + a[|a|..];
  }

  lemma ByChildrenValue(t: Tree, a: Path, b: Path, p: Path)
    requires ValidTree(t) && a in t && Disjoint(a, b)
    requires p in CopyTree(t, a, b) && p in Transfer(t[b := t[a]], a, b, Children(t, a), false)
    ensures CopyTree(t, a, b)[p] == Transfer(t[b := t[a]], a, b, Children(t, a), false)[p]
  {
    if b < p && a + p[|b|..] in t {
      var q := a + p[|b|..];
      assert a < q;
      BelowSomeChild(t, a, q);
      assert q[|a|] == p[|b|];
    }
    if p == b {
      assert a + p[|b|..] == a;
    }
  }

  /** A file copied to a place outside its own path is the whole subtree copied. */
  lemma CopyFileIsCopyTree(t: Tree, a: Path, b: Path)
    requires ValidTree(t) && IsFileAt(t, a) && Disjoint(a, b)
    ensures t[b := t[a]] == CopyTree(t, a, b)
  {
    CopyTreeByChildren(t, a, b);
    forall n | n in Children(t, a) ensures false {
      ChildrenMember(t, a, n);
      assert a < a + [n];
      AncestorIsDir(t, a, a + [n]);
    }
    assert Children(t, a) == {};
    TransferNone(t[b := t[a]], a, b, false);
  }

  /** With nothing at `b`, copying onto it meets no file/directory clash. */
  lemma AbsentCompatible(t: Tree, a: Path, b: Path)
    requires ValidTree(t) && b !in t
    ensures Compatible(t, a, b)
  {
    NothingBelowAbsent(t, b);
  }

  /** `rmdirSync(p)` on an empty directory is the subtree removal. */
  lemma RemoveEmptyDir(t: Tree, p: Path)
    requires ValidTree(t) && IsDirAt(t, p) && Children(t, p) == {}
    ensures t - {p} == RemoveTree(t, p)
  {
    forall q | q in Below(t, p) ensures q == p {
      if q != p {
        assert p < q;
        BelowSomeChild(t, p, q);
      }
    }
    assert Below(t, p) == {p};
  }

  // ---------------------------------------------------------------------
  // Creating directories and files
  // ---------------------------------------------------------------------

  /** The path itself and every prefix of it. */
  function Prefixes(p: Path): set<Path>
  {
    set i | 0 <= i <= |p| :: p[..i]
  }

  /** `mkdirSync(p, {recursive: true})` succeeds when no prefix of p is a file. */
  predicate NoFileOnPath(t: Tree, p: Path)
  {
    forall i :: 0 <= i <= |p| ==> !IsFileAt(t, p[..i])
  }

  /** `mkdirSync(p, {recursive: true})`: every missing prefix becomes a directory. */
  function MakeDirs(t: Tree, p: Path): (r: Tree)
  {
    map q | q in t.Keys + Prefixes(p) :: if q in t then t[q] else Dir
  }

  lemma MakeDirsValid(t: Tree, p: Path)
    requires ValidTree(t) && NoFileOnPath(t, p)
    ensures ValidTree(MakeDirs(t, p)) && IsDirAt(MakeDirs(t, p), p)
    ensures forall q :: q in t ==> q in MakeDirs(t, p) && MakeDirs(t, p)[q] == t[q]
  {
    var r := MakeDirs(t, p);
    assert p == p[..|p|];
    assert p in Prefixes(p);
    assert !IsFileAt(t, p[..|p|]);
    forall q | q in r && q != []
      ensures Parent(q) in r && r[Parent(q)].Dir?
    {
      if q !in t {
        var i :| 0 <= i <= |p| && q == p[..i];
        assert Parent(q) == p[..i - 1];
        assert Parent(q) in Prefixes(p);
        assert !IsFileAt(t, p[..i - 1]);
      }
    }
  }

  /** `mkdirSync` on an existing directory changes nothing. */
  lemma MakeDirsExisting(t: Tree, p: Path)
    requires ValidTree(t) && IsDirAt(t, p)
    ensures NoFileOnPath(t, p) && MakeDirs(t, p) == t
  {
    forall i | 0 <= i <= |p| ensures IsDirAt(t, p[..i]) {
      if i < |p| {
        AncestorIsDir(t, p[..i], p);
      } else {
        assert p[..i] == p;
      }
    }
    assert Prefixes(p) <= t.Keys;
  }

  /** `writeFileSync(p, content)` succeeds when p's parent is a directory and p
      is not one. */
  predicate Writable(t: Tree, p: Path)
  {
    p != [] && IsDirAt(t, Parent(p)) && !IsDirAt(t, p)
  }

  lemma WriteValid(t: Tree, p: Path, content: string)
    requires ValidTree(t) && Writable(t, p)
    ensures ValidTree(t[p := File(content)])
  {
    if p in t {
      NothingBelowFile(t, p);
    } else {
      NothingBelowAbsent(t, p);
    }
  }

  /** The entries of a tree `site`, placed below `at`. */
  function Rooted(site: Tree, at: Path): set<Path>
  {
    set r | r in site :: at + r
  }

  /** A build tool emptying `at` and writing the tree `site` there. */
  function Mount(t: Tree, at: Path, site: Tree): (r: Tree)
  {
    map p | p in (t.Keys - Below(t, at)) + Rooted(site, at) ::
      if p in t && !(at <= p) then t[p]
      else RootedSource(site, at, p); site[p[|at|..]]
  }

  lemma RootedSource(site: Tree, at: Path, p: Path)
    requires p in Rooted(site, at)
    ensures at <= p && p[|at|..] in site
  {
    var x :| x in site && p == at + x;
    assert p[|at|..] == x;
  }

  lemma MountValid(t: Tree, at: Path, site: Tree)
    requires ValidTree(t) && ValidTree(site) && at != [] && IsDirAt(t, Parent(at))
    ensures ValidTree(Mount(t, at, site)) && IsDirAt(Mount(t, at, site), at)
    ensures forall p :: !(at <= p) ==> (p in Mount(t, at, site) <==> p in t)
    ensures forall p :: p in t && !(at <= p) ==> Mount(t, at, site)[p] == t[p]
  {
    var r := Mount(t, at, site);
    assert at + [] in Rooted(site, at);
    assert at == at + [] && at[|at|..] == [];
    assert [] !in Below(t, at);
    forall p | p in r && p != []
      ensures Parent(p) in r && r[Parent(p)].Dir?
    {
      if at <= p && p[|at|..] in site {
        var x := p[|at|..];
        assert p == at + x;
        if x == [] {
          assert Parent(p) == Parent(at);
          assert !(at <= Parent(at));
        } else {
          ParentOfLonger(at, x);
          assert Parent(x) in site && site[Parent(x)].Dir?;
          assert Parent(p) in Rooted(site, at);
          assert Parent(p)[|at|..] == Parent(x);
        }
      } else {
        assert p in t && p !in Below(t, at) by {
          if p !in t - Below(t, at) {
            RootedSource(site, at, p);
          }
        }
        assert !(at <= Parent(p));
      }
    }
    forall p | !(at <= p) && p in r ensures p in t {
      if p !in t - Below(t, at) {
        RootedSource(site, at, p);
      }
    }
  }

  // ---------------------------------------------------------------------
  // What a transfer leaves alone
  // ---------------------------------------------------------------------

  /** Only paths strictly below `dst` (or, for a move, strictly below `src`)
      can change. */
  lemma TransferOutside(t: Tree, src: Path, dst: Path, S: set<Name>, move: bool, p: Path)
    requires !(dst < p) && !(src < p)
    ensures p in Transfer(t, src, dst, S, move) <==> p in t
    ensures p in t ==> Transfer(t, src, dst, S, move)[p] == t[p]
  {
    if p in Sent(t, src, dst, S) {
      SentSource(t, src, dst, S, p);
    }
  }

  /** Two prefixes of one path are prefixes one of the other. */
  lemma PrefixesComparable(x: Path, y: Path, p: Path)
    requires x <= p && y <= p
    ensures x <= y || y < x
  {
    if |x| <= |y| {
      assert x == p[..|x|] == y[..|x|];
    } else {
      assert y == p[..|y|] == x[..|y|];
    }
  }

  /** A name outside `S` keeps its whole subtree below `dst`. */
  lemma TransferKeepsTarget(t: Tree, src: Path, dst: Path, S: set<Name>, move: bool, c: Name)
    requires Separate(src, dst, S) && c !in S && !(dst + [c] <= src)
    ensures forall p :: dst + [c] <= p ==>
      (p in Transfer(t, src, dst, S, move) <==> p in t) &&
      (p in t ==> Transfer(t, src, dst, S, move)[p] == t[p])
  {
    forall p | dst + [c] <= p
      ensures p in Transfer(t, src, dst, S, move) <==> p in t
      ensures p in t ==> Transfer(t, src, dst, S, move)[p] == t[p]
    {
      assert p[|dst|] == c;
      if p in Sent(t, src, dst, S) {
        SentSource(t, src, dst, S, p);
      }
      if src <= p {
        PrefixesComparable(src, dst + [c], p);
      }
    }
  }

  /** Making one directory whose parent is already a directory. */
  lemma MakeDirsChild(t: Tree, b: Path)
    requires ValidTree(t) && b != [] && IsDirAt(t, Parent(b)) && b !in t
    ensures NoFileOnPath(t, b) && MakeDirs(t, b) == t[b := Dir]
  {
    forall i | 0 <= i < |b| ensures IsDirAt(t, b[..i]) {
      if i < |b| - 1 {
        AncestorIsDir(t, b[..i], Parent(b));
        assert b[..i] == Parent(b)[..i];
      } else {
        assert b[..i] == Parent(b);
      }
    }
    assert b[..|b|] == b;
    assert Prefixes(b) <= t.Keys + {b};
  }
}
