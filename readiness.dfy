/**
 * The checks the scripts run once the tree is in place: which required
 * names a directory holds, whether every required path exists, whether a
 * configuration text mentions a setting, and the closing listing of `dist`.
 * None of them changes the tree.
 */
module Readiness {
  import opened FileTree
  import opened Fs
  import opened Layout

  /** The names of `names` present in `dir`, in their order. */
  function Found(t: Tree, dir: Path, names: seq<Name>): (r: seq<Name>)
    ensures |r| <= |names|
    ensures forall n :: n in r ==> n in names && dir + [n] in t
  {
    if names == [] then []
    else
      var last := names[|names| - 1];
      Found(t, dir, names[..|names| - 1]) + (if dir + [last] in t then [last] else [])
  }

  /** The names of `names` absent from `dir`, in their order. */
  function Missing(t: Tree, dir: Path, names: seq<Name>): (r: seq<Name>)
    ensures |r| <= |names|
    ensures forall n :: n in r ==> n in names && dir + [n] !in t
  {
    if names == [] then []
    else
      var last := names[|names| - 1];
      Missing(t, dir, names[..|names| - 1]) + (if dir + [last] !in t then [last] else [])
  }

  /** Found and missing split the required names between them. */
  lemma {:induction false} FoundMissingPartition(t: Tree, dir: Path, names: seq<Name>)
    ensures multiset(Found(t, dir, names)) + multiset(Missing(t, dir, names)) == multiset(names)
  {
    if names != [] {
      var init, last := names[..|names| - 1], names[|names| - 1];
      FoundMissingPartition(t, dir, init);
      assert names == init + [last];
      var f, m := Found(t, dir, init), Missing(t, dir, init);
      if dir + [last] in t {
        assert Found(t, dir, names) == f + [last] && Missing(t, dir, names) == m;
        assert multiset(f + [last]) == multiset(f) + multiset{last};
      } else {
        assert Found(t, dir, names) == f && Missing(t, dir, names) == m + [last];
        assert multiset(m + [last]) == multiset(m) + multiset{last};
      }
      assert multiset(names) == multiset(init) + multiset{last};
    }
  }

  /** Every required name that is present is reported found. */
  lemma {:induction false} FoundComplete(t: Tree, dir: Path, names: seq<Name>, n: Name)
    requires n in names && dir + [n] in t
    ensures n in Found(t, dir, names)
  {
    var init := names[..|names| - 1];
    if n != names[|names| - 1] {
      assert names == init + [names[|names| - 1]];
      FoundComplete(t, dir, init, n);
    }
  }

  /** Ready (everything found) exactly when nothing is missing, exactly when
      every required name is present. */
  lemma ReadyIffAllPresent(t: Tree, dir: Path, names: seq<Name>)
    ensures |Found(t, dir, names)| == |names| <==> Missing(t, dir, names) == []
    ensures Missing(t, dir, names) == [] <==> forall n :: n in names ==> dir + [n] in t
  {
    FoundMissingPartition(t, dir, names);
    if Missing(t, dir, names) == [] {
      forall n | n in names ensures dir + [n] in t {
        assert n in multiset(names);
      }
    } else {
      var m := Missing(t, dir, names)[0];
      assert m in Missing(t, dir, names);
    }
  }

  /** The required-file loop: each name is pushed onto `found` or `missing`. */
  method Classify(fs: FileSystem, dir: Path, names: seq<Name>) returns (found: seq<Name>, missing: seq<Name>)
    ensures found == Found(fs.entries, dir, names)
    ensures missing == Missing(fs.entries, dir, names)
  {
    found, missing := [], [];
    var i := 0;
    while i < |names|
      invariant 0 <= i <= |names|
      invariant found == Found(fs.entries, dir, names[..i])
      invariant missing == Missing(fs.entries, dir, names[..i])
    {
      assert names[..i + 1][..i] == names[..i];
      if fs.Exists(dir + [names[i]]) {
        found := found + [names[i]];
      } else {
        missing := missing + [names[i]];
      }
      i := i + 1;
    }
    assert names[..i] == names;
  }

  /** The required-file loop followed by `missing.length > 0`: true when
      nothing is missing. */
  method AllFound(fs: FileSystem, dir: Path, names: seq<Name>) returns (all: bool)
    ensures all <==> forall n :: n in names ==> dir + [n] in fs.entries
  {
    var _, missing := Classify(fs, dir, names);
    ReadyIffAllPresent(fs.entries, dir, names);
    all := |missing| == 0;
  }

  /** `allGood = allGood && existsSync(path)` over a list of paths. */
  method AllExist(fs: FileSystem, paths: seq<Path>) returns (allGood: bool)
    ensures allGood <==> forall i :: 0 <= i < |paths| ==> paths[i] in fs.entries
  {
    allGood := true;
    var i := 0;
    while i < |paths|
      invariant 0 <= i <= |paths|
      invariant allGood <==> forall j :: 0 <= j < i ==> paths[j] in fs.entries
    {
      var present := fs.Exists(paths[i]);
      allGood := allGood && present;
      i := i + 1;
    }
  }

  /** `verifyDeployment()` of fast-deploy.js and emergency-deploy.js, which
      is the same check in both: the page, the server bundle and the assets
      directory all exist. */
  method VerifyDeployment(fs: FileSystem) returns (allGood: bool)
    ensures allGood <==> IndexHtml in fs.entries && ServerBundle in fs.entries && Assets in fs.entries
  {
    allGood := AllExist(fs, [IndexHtml, ServerBundle, Assets]);
    assert [IndexHtml, ServerBundle, Assets][0] == IndexHtml;
    assert [IndexHtml, ServerBundle, Assets][1] == ServerBundle;
    assert [IndexHtml, ServerBundle, Assets][2] == Assets;
  }

  /** `sub` occurs in `s` at index `i`. */
  predicate OccursAt(s: string, sub: string, i: int)
  {
    0 <= i && i + |sub| <= |s| && s[i..i + |sub|] == sub
  }

  /** `s.includes(sub)`, scanning from the left. */
  function Includes(s: string, sub: string): bool
    decreases |s|
  {
    |sub| <= |s| && (s[..|sub|] == sub || Includes(s[1..], sub))
  }

  /** The scan finds `sub` exactly when it occurs somewhere. */
  lemma {:induction false} IncludesIff(s: string, sub: string)
    ensures Includes(s, sub) <==> exists i :: OccursAt(s, sub, i)
    decreases |s|
  {
    if |sub| > |s| {
      assert forall i :: !OccursAt(s, sub, i);
    } else if s[..|sub|] == sub {
      assert OccursAt(s, sub, 0);
    } else {
      IncludesIff(s[1..], sub);
      if Includes(s[1..], sub) {
        var j :| OccursAt(s[1..], sub, j);
        assert s[1..][j..j + |sub|] == s[j + 1..j + 1 + |sub|];
        assert OccursAt(s, sub, j + 1);
      } else {
        forall i | OccursAt(s, sub, i) ensures false {
          assert i != 0;
          assert s[1..][i - 1..i - 1 + |sub|] == s[i..i + |sub|];
          assert OccursAt(s[1..], sub, i - 1);
        }
      }
    }
  }

  /** The closing listing: `readdirSync(dir)`, then `statSync(..).isDirectory()`
      on each name. */
  method Describe(fs: FileSystem, dir: Path) returns (ok: bool, names: seq<Name>, dirs: seq<bool>)
    ensures ok <==> IsDirAt(fs.entries, dir)
    ensures ok ==> Listing(fs.entries, dir, names)
    ensures |dirs| == |names|
    ensures forall i :: 0 <= i < |names| ==> (dirs[i] <==> IsDirAt(fs.entries, dir + [names[i]]))
  {
    ok, names := fs.ReadDir(dir);
    dirs := [];
    var i := 0;
    while i < |names|
      invariant 0 <= i <= |names| && |dirs| == i
      invariant forall j :: 0 <= j < i ==> (dirs[j] <==> IsDirAt(fs.entries, dir + [names[j]]))
    {
      ChildrenMember(fs.entries, dir, names[i]);
      assert names[i] in names;
      var d := fs.IsDirectory(dir + [names[i]]);
      dirs := dirs + [d];
      i := i + 1;
    }
  }
}
