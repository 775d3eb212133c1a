/** scripts/post-build.js: after a build, copy what dist/public holds up
    into dist, skipping every name dist already has. */
module PostBuild {
  import opened FileTree
  import opened Fs
  import opened Layout
  import opened Reconcile

  /** The whole script.  Exit status 1 when dist/public is missing or cannot
      be listed, and then nothing has changed. */
  method Run(fs: FileSystem) returns (status: int)
    requires fs.Valid()
    modifies fs
    ensures fs.Valid()
    ensures status == (if IsDirAt(old(fs.entries), Public) then 0 else 1)
    ensures fs.entries == if status == 0 then CopyMerged(old(fs.entries), {}) else old(fs.entries)
  {
    if !fs.Exists(Public) {
      return 1;
    }
    var ok, _, _ := CopyMerge(fs, {}, BuiltIn);
    status := if ok then 0 else 1;
  }
}
