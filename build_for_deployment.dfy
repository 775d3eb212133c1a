/** build-for-deployment.js: remove dist, run both builds, move every item
    of dist/public that dist lacks up into dist, remove dist/public when it
    is left empty, then require dist/index.html and dist/index.js. */
module BuildForDeployment {
  import opened FileTree
  import opened Fs
  import opened Layout
  import opened Reconcile
  import opened Build
  import opened Readiness
  import MergeLaws

  /** The whole script.  Exit status 0 exactly when both builds completed,
      dist/public was a directory, and after the move dist holds every
      required name; `moved` counts the items moved. */
  method Run(fs: FileSystem, vite: Exec, esbuild: Exec) returns (status: int, moved: nat)
    requires fs.Valid() && WellFormed(vite) && WellFormed(esbuild)
    modifies fs
    ensures fs.Valid()
    ensures vite.status != Completed ==> status == 1 && fs.entries == Emitted(RemoveTree(old(fs.entries), Dist), vite)
    ensures vite.status == Completed && !(esbuild.status == Completed && IsDirAt(Rebuilt(old(fs.entries), vite, esbuild), Public)) ==>
      status == 1 && fs.entries == Rebuilt(old(fs.entries), vite, esbuild)
    ensures vite.status == Completed && esbuild.status == Completed && IsDirAt(Rebuilt(old(fs.entries), vite, esbuild), Public) ==>
      fs.entries == MovedOut(Rebuilt(old(fs.entries), vite, esbuild)) &&
      moved == |Incoming(Rebuilt(old(fs.entries), vite, esbuild))| &&
      (status == 0 <==> forall n :: n in Required ==> Dist + [n] in fs.entries)
    ensures status == 0 || status == 1
  {
    moved := 0;
    ghost var t0 := fs.entries;
    CleanedRoom(t0);
    if fs.Exists(Dist) {
      var _ := fs.Rm(Dist);
    }
    var ok := RunBuild(fs, vite);
    if !ok {
      status := 1;
      return;
    }
    ok := RunBuild(fs, esbuild);
    if !ok {
      status := 1;
      return;
    }
    if !fs.Exists(Public) {
      status := 1;
      return;
    }
    var merged, m, _ := MoveMerge(fs);
    if !merged {
      status := 1;
      return;
    }
    moved := m;
    var all := AllFound(fs, Dist, Required);
    status := if all then 0 else 1;
  }

  /** After a successful run dist/index.js is the server bundle. */
  lemma BundleShipped(t: Tree, vite: Exec, esbuild: Exec)
    requires ValidTree(t) && WellFormed(vite) && WellFormed(esbuild) && esbuild.bundle.Some?
    ensures ServerBundle in MovedOut(Rebuilt(t, vite, esbuild))
    ensures MovedOut(Rebuilt(t, vite, esbuild))[ServerBundle] == File(esbuild.bundle.value)
  {
    CleanedRoom(t);
    MergeLaws.ServerBundleKeptByMove(RemoveTree(t, Dist), vite, esbuild);
  }
}
