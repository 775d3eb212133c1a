/** deploy.js: remove dist, run both builds, copy-merge dist/public into
    dist, then require dist/index.html and dist/index.js. */
module Deploy {
  import opened FileTree
  import opened Fs
  import opened Layout
  import opened Reconcile
  import opened Build
  import opened Readiness
  import MergeLaws

  /** The whole script.  Exit status 0 exactly when both builds completed,
      dist/public was a directory, and after the merge dist holds every
      required name; `copied` counts the items copied up. */
  method Run(fs: FileSystem, vite: Exec, esbuild: Exec) returns (status: int, copied: nat)
    requires fs.Valid() && WellFormed(vite) && WellFormed(esbuild)
    modifies fs
    ensures fs.Valid()
    ensures vite.status != Completed ==> status == 1 && fs.entries == Emitted(RemoveTree(old(fs.entries), Dist), vite)
    ensures vite.status == Completed && !(esbuild.status == Completed && IsDirAt(Rebuilt(old(fs.entries), vite, esbuild), Public)) ==>
      status == 1 && fs.entries == Rebuilt(old(fs.entries), vite, esbuild)
    ensures vite.status == Completed && esbuild.status == Completed && IsDirAt(Rebuilt(old(fs.entries), vite, esbuild), Public) ==>
      fs.entries == CopyMerged(Rebuilt(old(fs.entries), vite, esbuild), {}) &&
      copied == |Incoming(Rebuilt(old(fs.entries), vite, esbuild))| &&
      (status == 0 <==> forall n :: n in Required ==> Dist + [n] in fs.entries)
    ensures status == 0 || status == 1
  {
    copied := 0;
    ghost var t0 := fs.entries;
    CleanedRoom(t0);
    if fs.Exists(Dist) {
      var _ := fs.Rm(Dist);
    }
    var ok := RunBuild(fs, vite);
    if !ok {
      status := 1;
      return;
    }
    ok := RunBuild(fs, esbuild);
    if !ok {
      status := 1;
      return;
    }
    if !fs.Exists(Public) {
      status := 1;
      return;
    }
    var merged, c, _ := CopyMerge(fs, {}, BuiltIn);
    if !merged {
      status := 1;
      return;
    }
    copied := c;
    var _, missing := Classify(fs, Dist, Required);
    ReadyIffAllPresent(fs.entries, Dist, Required);
    status := if |missing| > 0 then 1 else 0;
  }

  /** After a successful run dist/index.js is the server bundle, whatever
      dist held before and whatever dist/public holds. */
  lemma BundleShipped(t: Tree, vite: Exec, esbuild: Exec)
    requires ValidTree(t) && WellFormed(vite) && WellFormed(esbuild) && esbuild.bundle.Some?
    ensures ServerBundle in CopyMerged(Rebuilt(t, vite, esbuild), {})
    ensures CopyMerged(Rebuilt(t, vite, esbuild), {})[ServerBundle] == File(esbuild.bundle.value)
  {
    CleanedRoom(t);
    MergeLaws.ServerBundleKept(RemoveTree(t, Dist), vite, esbuild);
  }
}
