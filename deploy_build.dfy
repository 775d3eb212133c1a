/** deploy-build.js: `npm run build`, then the copy-merge of dist/public
    into dist. */
module DeployBuild {
  import opened FileTree
  import opened Fs
  import opened Layout
  import opened Reconcile
  import opened Build

  /** The whole script.  Exit status 0 exactly when the build completed and
      left dist/public a directory; then its items have been merged. */
  method Run(fs: FileSystem, npm: Exec) returns (status: int)
    requires fs.Valid() && WellFormed(npm)
    modifies fs
    ensures fs.Valid()
    ensures status == (if npm.status == Completed && IsDirAt(Emitted(old(fs.entries), npm), Public) then 0 else 1)
    ensures fs.entries == if status == 0 then CopyMerged(Emitted(old(fs.entries), npm), {})
                          else Emitted(old(fs.entries), npm)
  {
    var ok := RunBuild(fs, npm);
    if !ok {
      return 1;
    }
    if !fs.Exists(Public) {
      return 1;
    }
    var merged, _, _ := CopyMerge(fs, {}, BuiltIn);
    status := if merged then 0 else 1;
  }
}
