/**
 * fix-deployment-fast.js: with no dist, make it, build the server and write
 * a placeholder page; with dist/public present, move its items up into dist;
 * otherwise change nothing.  Then report the required names found and
 * missing, and list dist.
 */
module FixDeploymentFast {
  import opened FileTree
  import opened Fs
  import opened Layout
  import opened Reconcile
  import opened Build
  import opened Readiness

  /** The no-dist branch: dist, the server build, the placeholder page. */
  function Minimal(t: Tree, esbuild: Exec, html: string): Tree
  {
    Emitted(MakeDirs(t, Dist), esbuild)[IndexHtml := File(html)]
  }

  /** The tree before the closing listing; `None` when a step throws. */
  function Fixed(t: Tree, esbuild: Exec, html: string): Option<Tree>
  {
    if Dist !in t then (if esbuild.status == Completed then Some(Minimal(t, esbuild, html)) else None)
    else MovedIfPresent(t)
  }

  /** A site mounted under dist/public leaves dist/index.html alone. */
  lemma SitedPageRoom(m: Tree, site: Option<Tree>)
    requires ValidTree(m) && IsDirAt(m, Dist) && IndexHtml !in m
    requires site.Some? ==> ValidTree(site.value)
    ensures ValidTree(Sited(m, site)) && IsDirAt(Sited(m, site), Dist) && IndexHtml !in Sited(m, site)
  {
    if site.Some? {
      DistRoom(m);
      SitedFacts(m, site.value);
      assert !(Public <= IndexHtml) by { assert IndexHtml[1] != Public[1]; }
    }
  }

  /** Writing the server bundle leaves dist/index.html alone. */
  lemma BundledPageRoom(s: Tree, bundle: Option<string>)
    requires ValidTree(s) && IsDirAt(s, Dist) && IndexHtml !in s
    ensures ValidTree(Bundled(s, bundle)) && IsDirAt(Bundled(s, bundle), Dist) && IndexHtml !in Bundled(s, bundle)
  {
    DistRoom(s);
    if bundle.Some? && !IsDirAt(s, ServerBundle) {
      BundledFacts(s, bundle.value);
      assert ServerBundle != IndexHtml by { assert ServerBundle[1] != IndexHtml[1]; }
    }
  }

  /** In a project without dist the page can always be written once the
      server build has run. */
  lemma PageRoom(t: Tree, esbuild: Exec)
    requires ValidTree(t) && Dist !in t && WellFormed(esbuild)
    ensures ValidTree(Emitted(MakeDirs(t, Dist), esbuild))
    ensures Writable(Emitted(MakeDirs(t, Dist), esbuild), IndexHtml)
  {
    DistRoom(t);
    MakeDist(t);
    var m := MakeDirs(t, Dist);
    MakeDirsValid(t, Dist);
    NothingBelowAbsent(t, Dist);
    assert IndexHtml !in m by { assert Dist <= IndexHtml; }
    SitedPageRoom(m, esbuild.site);
    BundledPageRoom(Sited(m, esbuild.site), esbuild.bundle);
    assert Parent(IndexHtml) == Dist;
  }

  /** Lines for the no-dist branch. */
  method CreateMinimal(fs: FileSystem, esbuild: Exec, html: string) returns (ok: bool)
    requires fs.Valid() && Dist !in fs.entries && WellFormed(esbuild)
    modifies fs
    ensures fs.Valid()
    ensures ok <==> esbuild.status == Completed
    ensures fs.entries == if ok then Minimal(old(fs.entries), esbuild, html)
                          else Emitted(MakeDirs(old(fs.entries), Dist), esbuild)
  {
    PageRoom(fs.entries, esbuild);
    DistRoom(fs.entries);
    var _ := fs.Mkdir(Dist);
    ok := RunBuild(fs, esbuild);
    if !ok {
      return;
    }
    var _ := fs.WriteFile(IndexHtml, html);
  }

  /** The whole script.  Exit status 0 exactly when no step throws, the
      closing `readdirSync('dist')` included; the found and missing names
      are reported but do not change the status. */
  method Run(fs: FileSystem, esbuild: Exec, html: string)
    returns (status: int, found: seq<Name>, missing: seq<Name>, listing: seq<Name>, dirs: seq<bool>)
    requires fs.Valid() && WellFormed(esbuild)
    modifies fs
    ensures fs.Valid()
    ensures Fixed(old(fs.entries), esbuild, html).None? ==> (status == 1 &&
      fs.entries == if Dist in old(fs.entries) then old(fs.entries) else Emitted(MakeDirs(old(fs.entries), Dist), esbuild))
    ensures Fixed(old(fs.entries), esbuild, html).Some? ==>
      fs.entries == Fixed(old(fs.entries), esbuild, html).value &&
      found == Found(fs.entries, Dist, Required) && missing == Missing(fs.entries, Dist, Required) &&
      (status == 0 <==> IsDirAt(fs.entries, Dist))
    ensures status == 0 ==> Listing(fs.entries, Dist, listing) && |dirs| == |listing|
    ensures status == 0 ==> forall i :: 0 <= i < |listing| ==> (dirs[i] <==> IsDirAt(fs.entries, Dist + [listing[i]]))
    ensures status == 0 || status == 1
  {
    found, missing, listing, dirs := [], [], [], [];
    var ok;
    if !fs.Exists(Dist) {
      ok := CreateMinimal(fs, esbuild, html);
    } else {
      ok := MoveIfPresent(fs);
    }
    if !ok {
      return 1, [], [], [], [];
    }
    found, missing := Classify(fs, Dist, Required);
    var listed;
    listed, listing, dirs := Describe(fs, Dist);
    status := if listed then 0 else 1;
  }

  /** The no-dist branch yields a deployable dist whenever the server build
      writes its bundle: both required names are there and the run ends
      with exit status 0. */
  lemma MinimalReady(t: Tree, esbuild: Exec, html: string)
    requires ValidTree(t) && Dist !in t && WellFormed(esbuild)
    requires esbuild.status == Completed && esbuild.bundle.Some?
    ensures Fixed(t, esbuild, html).Some?
    ensures IsDirAt(Fixed(t, esbuild, html).value, Dist)
    ensures forall n :: n in Required ==> Dist + [n] in Fixed(t, esbuild, html).value
  {
    DistRoom(t);
    MakeDirsValid(t, Dist);
    var m := MakeDirs(t, Dist);
    NothingBelowAbsent(t, Dist);
    assert ServerBundle !in m by { assert Dist <= ServerBundle; }
    assert !IsFileAt(m, Dist);
    DistRoom(m);
    BundleWritten(m, esbuild);
    PageRoom(t, esbuild);
    assert Dist + ["index.html"] == IndexHtml && Dist + ["index.js"] == ServerBundle;
    assert IndexHtml != Dist;
  }
}
