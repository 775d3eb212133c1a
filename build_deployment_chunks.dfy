/**
 * build-deployment-chunks.js: remove dist, build the server, build the
 * frontend (falling back to a page of the script's own when that fails),
 * move dist/public's items up into dist when it exists, report the required
 * names found and missing, and list dist.
 */
module BuildDeploymentChunks {
  import opened FileTree
  import opened Fs
  import opened Layout
  import opened Reconcile
  import opened Build
  import opened Readiness
  import MergeLaws

  /** The tree after the clean-up, the server build and the frontend build
      or its fallback; `None` when one of them throws. */
  function Attempted(t: Tree, esbuild: Exec, vite: Exec, html: string): Option<Tree>
  {
    var b := Emitted(Emitted(RemoveTree(t, Dist), esbuild), vite);
    if esbuild.status != Completed then None
    else if vite.status == Completed then Some(b)
    else FallbackSite(b, html)
  }

  /** The tree before the closing listing; `None` when a step throws. */
  function Chunked(t: Tree, esbuild: Exec, vite: Exec, html: string): Option<Tree>
  {
    var s := Attempted(t, esbuild, vite, html);
    if s.None? then None else MovedIfPresent(s.value)
  }

  /** The builds and the fallback. */
  method Prepare(fs: FileSystem, esbuild: Exec, vite: Exec, html: string) returns (ok: bool)
    requires fs.Valid() && WellFormed(esbuild) && WellFormed(vite)
    modifies fs
    ensures fs.Valid()
    ensures ok <==> Attempted(old(fs.entries), esbuild, vite, html).Some?
    ensures ok ==> fs.entries == Attempted(old(fs.entries), esbuild, vite, html).value
    ensures esbuild.status != Completed ==> fs.entries == Emitted(RemoveTree(old(fs.entries), Dist), esbuild)
  {
    CleanedRoom(fs.entries);
    if fs.Exists(Dist) {
      var _ := fs.Rm(Dist);
    }
    ok := RunBuild(fs, esbuild);
    if !ok {
      return;
    }
    var built := RunBuild(fs, vite);
    if !built {
      ok := WriteFallbackSite(fs, html);
    }
  }

  /** The whole script.  Exit status 0 exactly when no step throws, the
      closing `readdirSync('dist')` included; the found and missing names
      are reported but do not change the status. */
  method Run(fs: FileSystem, esbuild: Exec, vite: Exec, html: string)
    returns (status: int, found: seq<Name>, missing: seq<Name>, listing: seq<Name>, dirs: seq<bool>)
    requires fs.Valid() && WellFormed(esbuild) && WellFormed(vite)
    modifies fs
    ensures fs.Valid()
    ensures esbuild.status != Completed ==> status == 1 && fs.entries == Emitted(RemoveTree(old(fs.entries), Dist), esbuild)
    ensures Chunked(old(fs.entries), esbuild, vite, html).None? ==> status == 1
    ensures Chunked(old(fs.entries), esbuild, vite, html).Some? ==>
      fs.entries == Chunked(old(fs.entries), esbuild, vite, html).value &&
      found == Found(fs.entries, Dist, Required) && missing == Missing(fs.entries, Dist, Required) &&
      (status == 0 <==> IsDirAt(fs.entries, Dist))
    ensures status == 0 ==> Listing(fs.entries, Dist, listing) && |dirs| == |listing|
    ensures status == 0 ==> forall i :: 0 <= i < |listing| ==> (dirs[i] <==> IsDirAt(fs.entries, Dist + [listing[i]]))
    ensures status == 0 || status == 1
  {
    found, missing, listing, dirs := [], [], [], [];
    var ok := Prepare(fs, esbuild, vite, html);
    if !ok {
      return 1, [], [], [], [];
    }
    ok := MoveIfPresent(fs);
    if !ok {
      return 1, [], [], [], [];
    }
    found, missing := Classify(fs, Dist, Required);
    var listed;
    listed, listing, dirs := Describe(fs, Dist);
    status := if listed then 0 else 1;
  }

  /** A frontend build that writes no server bundle leaves dist/index.js alone. */
  lemma ViteKeepsBundle(b: Tree, vite: Exec)
    requires ValidTree(b) && WellFormed(vite) && vite.bundle.None? && ServerBundle in b
    ensures ValidTree(Emitted(b, vite))
    ensures ServerBundle in Emitted(b, vite) && Emitted(b, vite)[ServerBundle] == b[ServerBundle]
  {
    EmittedValid(b, vite);
    if vite.site.Some? && NoFileOnPath(b, Dist) {
      SitedFacts(b, vite.site.value);
      assert !(Public <= ServerBundle) by { assert ServerBundle[1] != Public[1]; }
    }
  }

  /** The fallback changes nothing outside dist/public/index.html. */
  lemma FallbackKeeps(u: Tree, html: string, p: Path)
    requires ValidTree(u) && FallbackSite(u, html).Some? && p in u && p != PublicIndexHtml
    ensures ValidTree(FallbackSite(u, html).value)
    ensures p in FallbackSite(u, html).value && FallbackSite(u, html).value[p] == u[p]
  {
    MakeDirsValid(u, Public);
    WriteValid(MakeDirs(u, Public), PublicIndexHtml, html);
  }

  /** The server bundle ships: when the server build writes one and the
      frontend build does not, a successful run leaves exactly that bundle
      at dist/index.js. */
  lemma BundleShipped(t: Tree, esbuild: Exec, vite: Exec, html: string)
    requires ValidTree(t) && WellFormed(esbuild) && WellFormed(vite)
    requires esbuild.bundle.Some? && vite.bundle.None?
    requires Chunked(t, esbuild, vite, html).Some?
    ensures ServerBundle in Chunked(t, esbuild, vite, html).value
    ensures Chunked(t, esbuild, vite, html).value[ServerBundle] == File(esbuild.bundle.value)
  {
    var c := RemoveTree(t, Dist);
    CleanedRoom(t);
    BundleWritten(c, esbuild);
    EmittedValid(c, esbuild);
    var b := Emitted(c, esbuild);
    ViteKeepsBundle(b, vite);
    var s := Attempted(t, esbuild, vite, html).value;
    if vite.status != Completed {
      assert ServerBundle != PublicIndexHtml;
      FallbackKeeps(Emitted(b, vite), html, ServerBundle);
    }
    assert ValidTree(s) && ServerBundle in s && s[ServerBundle] == File(esbuild.bundle.value);
    if Public in s {
      assert !(Public <= ServerBundle) by { assert ServerBundle[1] != Public[1]; }
      MergeLaws.MovedOutKeeps(s, ServerBundle);
    }
  }
}
