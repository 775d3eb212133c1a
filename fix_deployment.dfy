/** fix-deployment.js: copy-merge dist/public into dist, reporting each item
    whose copy throws and going on, then check dist's listing for
    `index.html` and `assets`. */
module FixDeployment {
  import opened FileTree
  import opened Fs
  import opened Layout
  import opened Reconcile
  import MergeLaws

  /** The whole script.  `faulty` names the items whose copy throws.  Exit
      status 1, with nothing changed, when dist/public is missing or is no
      directory; otherwise 0, and `ready` tells whether dist now lists both
      `index.html` and `assets`. */
  method Run(fs: FileSystem, faulty: set<Name>) returns (status: int, ready: bool)
    requires fs.Valid()
    modifies fs
    ensures fs.Valid()
    ensures status == (if IsDirAt(old(fs.entries), Public) then 0 else 1)
    ensures fs.entries == if status == 0 then CopyMerged(old(fs.entries), faulty) else old(fs.entries)
    ensures status == 0 ==> (ready <==> IndexHtml in fs.entries && Assets in fs.entries)
  {
    ready := false;
    if !fs.Exists(Public) {
      return 1, false;
    }
    ghost var t := fs.entries;
    var merged, _, _ := CopyMerge(fs, faulty, BuiltIn);
    if !merged {
      return 1, false;
    }
    AncestorIsDir(t, Dist, Public);
    MergeLaws.CopyMergeKeeps(t, faulty, Dist);
    ready := CheckReady(fs);
    status := 0;
  }

  /** `readdirSync('dist')`, then `includes('index.html')` and
      `includes('assets')` on the listing. */
  method CheckReady(fs: FileSystem) returns (ready: bool)
    requires IsDirAt(fs.entries, Dist)
    ensures ready <==> IndexHtml in fs.entries && Assets in fs.entries
  {
    var _, names := fs.ReadDir(Dist);
    assert Dist + ["index.html"] == IndexHtml && Dist + ["assets"] == Assets;
    ChildrenMember(fs.entries, Dist, "index.html");
    ChildrenMember(fs.entries, Dist, "assets");
    ready := "index.html" in names && "assets" in names;
  }

  /** The check passes whenever dist/public supplied both names and their
      copies did not throw, or dist had them already. */
  lemma ReadyWhenSupplied(t: Tree, faulty: set<Name>)
    requires ValidTree(t) && IsDirAt(t, Public)
    requires PublicIndexHtml in t || IndexHtml in t
    requires Public + ["assets"] in t || Assets in t
    requires "index.html" !in faulty && "assets" !in faulty
    ensures IndexHtml in CopyMerged(t, faulty) && Assets in CopyMerged(t, faulty)
  {
    assert Dist + ["index.html"] == IndexHtml && Dist + ["assets"] == Assets;
    assert Public + ["index.html"] == PublicIndexHtml;
    ChildrenMember(t, Public, "index.html");
    ChildrenMember(t, Public, "assets");
    if IndexHtml in t {
      MergeLaws.CopyMergeKeeps(t, faulty, IndexHtml);
    } else {
      MergeLaws.ListedPresent(t, faulty, "index.html");
    }
    if Assets in t {
      MergeLaws.CopyMergeKeeps(t, faulty, Assets);
    } else {
      MergeLaws.ListedPresent(t, faulty, "assets");
    }
  }
}
