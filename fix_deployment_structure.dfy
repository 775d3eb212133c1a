/** fix-deployment-structure.js: copy-merge dist/public into dist with the
    script's own `copyRecursive`, counting copied and skipped items and
    going on past a copy that throws, then require dist/index.html. */
module FixDeploymentStructure {
  import opened FileTree
  import opened Fs
  import opened Layout
  import opened Reconcile
  import opened Readiness
  import MergeLaws

  /** The whole script.  `faulty` names the items whose copy throws.  Exit
      status 0 exactly when dist/public was a directory and dist/index.html
      exists after the merge; `copied` and `skipped` are the loop's counters. */
  method Run(fs: FileSystem, faulty: set<Name>) returns (status: int, copied: nat, skipped: nat)
    requires fs.Valid()
    modifies fs
    ensures fs.Valid()
    ensures fs.entries == if IsDirAt(old(fs.entries), Public) then CopyMerged(old(fs.entries), faulty) else old(fs.entries)
    ensures status == (if IsDirAt(old(fs.entries), Public) && IndexHtml in fs.entries then 0 else 1)
    ensures IsDirAt(old(fs.entries), Public) ==>
      copied == |Incoming(old(fs.entries)) - faulty| && skipped == |Colliding(old(fs.entries))| &&
      copied + skipped <= |Children(old(fs.entries), Public)|
  {
    copied, skipped := 0, 0;
    if !fs.Exists(Public) {
      status := 1;
      return;
    }
    ghost var t := fs.entries;
    var merged;
    merged, copied, skipped := CopyMerge(fs, faulty, HandWritten);
    if !merged {
      status := 1;
      return;
    }
    MergeLaws.CopyCounts(t, faulty);
    var present := CriticalPresent(fs);
    status := if present then 0 else 1;
  }

  /** `criticalFiles.filter(..)` over `['index.html']`, then the length test. */
  method CriticalPresent(fs: FileSystem) returns (present: bool)
    ensures present <==> IndexHtml in fs.entries
  {
    present := AllFound(fs, Dist, ["index.html"]);
    assert Dist + ["index.html"] == IndexHtml;
    assert "index.html" in ["index.html"];
  }
}
