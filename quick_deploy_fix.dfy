/** quick-deploy-fix.js: the copy-merge of dist/public into dist on its own,
    reporting how many items dist/public holds. */
module QuickDeployFix {
  import opened FileTree
  import opened Fs
  import opened Layout
  import opened Reconcile
  import MergeLaws

  /** The whole script.  Exit status 1, with nothing changed, when
      dist/public is missing or is no directory; otherwise its items are
      merged and `items` is how many it holds. */
  method Run(fs: FileSystem) returns (status: int, items: nat)
    requires fs.Valid()
    modifies fs
    ensures fs.Valid()
    ensures status == (if IsDirAt(old(fs.entries), Public) then 0 else 1)
    ensures fs.entries == if status == 0 then CopyMerged(old(fs.entries), {}) else old(fs.entries)
    ensures status == 0 ==> items == |Children(old(fs.entries), Public)|
  {
    items := 0;
    if !fs.Exists(Public) {
      status := 1;
      return;
    }
    ghost var t := fs.entries;
    var merged, copied, skipped := CopyMerge(fs, {}, BuiltIn);
    if !merged {
      status := 1;
      return;
    }
    MergeLaws.CopyCounts(t, {});
    items := copied + skipped;
    status := 0;
  }
}
