/** scripts/deployment-build.js: `npm run build`, the copy-merge of
    dist/public into dist, and a closing listing of dist. */
module DeploymentBuild {
  import opened FileTree
  import opened Fs
  import opened Layout
  import opened Reconcile
  import opened Build
  import opened Readiness
  import MergeLaws

  /** The whole script.  Exit status 0 exactly when the build completed and
      left dist/public a directory; then its items have been merged and
      `listing`/`dirs` are dist's entries and which of them are directories. */
  method Run(fs: FileSystem, npm: Exec) returns (status: int, listing: seq<Name>, dirs: seq<bool>)
    requires fs.Valid() && WellFormed(npm)
    modifies fs
    ensures fs.Valid()
    ensures status == (if npm.status == Completed && IsDirAt(Emitted(old(fs.entries), npm), Public) then 0 else 1)
    ensures fs.entries == if status == 0 then CopyMerged(Emitted(old(fs.entries), npm), {})
                          else Emitted(old(fs.entries), npm)
    ensures status == 0 ==> Listing(fs.entries, Dist, listing) && |dirs| == |listing|
    ensures status == 0 ==> forall i :: 0 <= i < |listing| ==> (dirs[i] <==> IsDirAt(fs.entries, Dist + [listing[i]]))
  {
    listing, dirs := [], [];
    var ok := RunBuild(fs, npm);
    if !ok {
      status := 1;
      return;
    }
    if !fs.Exists(Public) {
      status := 1;
      return;
    }
    ghost var t := fs.entries;
    var merged, _, _ := CopyMerge(fs, {}, BuiltIn);
    if !merged {
      status := 1;
      return;
    }
    AncestorIsDir(t, Dist, Public);
    MergeLaws.CopyMergeKeeps(t, {}, Dist);
    var _, names, flags := Describe(fs, Dist);
    listing, dirs := names, flags;
    status := 0;
  }
}
