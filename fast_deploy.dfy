/** fast-deploy.js: build with a timeout, copy-merge dist/public into dist
    with the script's own `copyRecursive` (going on past a copy that
    throws), then check the three deployment paths. */
module FastDeploy {
  import opened FileTree
  import opened Fs
  import opened Layout
  import opened Reconcile
  import opened Build
  import opened Readiness

  /** `runBuild()`: a completed build is usable; a build killed by its
      timeout is usable when it got as far as dist/public; any other failure
      is not. */
  method RunBuild(fs: FileSystem, npm: Exec) returns (usable: bool)
    requires fs.Valid() && WellFormed(npm)
    modifies fs
    ensures fs.Valid()
    ensures fs.entries == Emitted(old(fs.entries), npm)
    ensures usable <==> npm.status == Completed || (npm.status == TimedOut && Public in fs.entries)
  {
    var completed := Build.RunBuild(fs, npm);
    if completed {
      return true;
    }
    if npm.status == TimedOut {
      usable := fs.Exists(Public);
    } else {
      usable := false;
    }
  }

  /** `fixDeploymentStructure()`: false, with nothing changed, when
      dist/public is missing; when it is a directory its items are merged and
      `copied` counts the copies that did not throw. */
  method FixDeploymentStructure(fs: FileSystem, faulty: set<Name>) returns (ok: bool, copied: nat)
    requires fs.Valid()
    modifies fs
    ensures fs.Valid()
    ensures ok <==> IsDirAt(old(fs.entries), Public)
    ensures fs.entries == if ok then CopyMerged(old(fs.entries), faulty) else old(fs.entries)
    ensures ok ==> copied == |Incoming(old(fs.entries)) - faulty|
  {
    copied := 0;
    if !fs.Exists(Public) {
      return false, 0;
    }
    var merged, c, _ := CopyMerge(fs, faulty, HandWritten);
    ok, copied := merged, c;
  }

  /** The whole script: exit status 1 at the first stage that fails. */
  method Run(fs: FileSystem, npm: Exec, faulty: set<Name>) returns (status: int)
    requires fs.Valid() && WellFormed(npm)
    modifies fs
    ensures fs.Valid()
    ensures
      var b := Emitted(old(fs.entries), npm);
      var usable := npm.status == Completed || (npm.status == TimedOut && Public in b);
      var fixed := usable && IsDirAt(b, Public);
      fs.entries == (if fixed then CopyMerged(b, faulty) else b) &&
      (status == 0 <==> fixed && IndexHtml in fs.entries && ServerBundle in fs.entries && Assets in fs.entries) &&
      (status == 0 || status == 1)
  {
    var usable := RunBuild(fs, npm);
    if !usable {
      return 1;
    }
    var fixed, _ := FixDeploymentStructure(fs, faulty);
    if !fixed {
      return 1;
    }
    var allGood := VerifyDeployment(fs);
    status := if allGood then 0 else 1;
  }
}
