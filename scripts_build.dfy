/** scripts/build.js: the frontend build, the server build, then the
    copy-merge of dist/public into dist. */
module ScriptsBuild {
  import opened FileTree
  import opened Fs
  import opened Layout
  import opened Reconcile
  import opened Build

  /** The whole script.  A build that does not complete ends it with exit
      status 1, as does a missing dist/public; otherwise the items are
      merged and the status is 0. */
  method Run(fs: FileSystem, vite: Exec, esbuild: Exec) returns (status: int)
    requires fs.Valid() && WellFormed(vite) && WellFormed(esbuild)
    modifies fs
    ensures fs.Valid()
    ensures status == (if vite.status == Completed && esbuild.status == Completed &&
                          IsDirAt(Built(old(fs.entries), vite, esbuild), Public) then 0 else 1)
    ensures vite.status != Completed ==> fs.entries == Emitted(old(fs.entries), vite)
    ensures vite.status == Completed ==>
      fs.entries == if status == 0 then CopyMerged(Built(old(fs.entries), vite, esbuild), {})
                    else Built(old(fs.entries), vite, esbuild)
  {
    var ok := RunBuild(fs, vite);
    if !ok {
      return 1;
    }
    ok := RunBuild(fs, esbuild);
    if !ok {
      return 1;
    }
    if !fs.Exists(Public) {
      return 1;
    }
    var merged, _, _ := CopyMerge(fs, {}, BuiltIn);
    status := if merged then 0 else 1;
  }
}
