/**
 * emergency-deploy.js: build the server, try the frontend, fall back to a
 * placeholder page and stylesheet when the frontend build fails, copy-merge
 * dist/public into dist, and check the three deployment paths.  Errors the
 * script does not catch end the process with exit status 1.
 */
module EmergencyDeploy {
  import opened FileTree
  import opened Fs
  import opened Layout
  import opened Reconcile
  import opened Build
  import opened Readiness

  /** The placeholder stylesheet written to dist/assets/style.css. */
  const StyleSheet: string := "body { font-family: Arial, sans-serif; }"

  /** `buildBackend()`: dist is created when missing, then the server build runs. */
  function BackendBuilt(t: Tree, esbuild: Exec): Tree
  {
    Emitted(if Dist in t then t else MakeDirs(t, Dist), esbuild)
  }

  method BuildBackend(fs: FileSystem, esbuild: Exec) returns (ok: bool)
    requires fs.Valid() && WellFormed(esbuild)
    modifies fs
    ensures fs.Valid()
    ensures fs.entries == BackendBuilt(old(fs.entries), esbuild)
    ensures ok <==> esbuild.status == Completed
  {
    if !fs.Exists(Dist) {
      DistRoom(fs.entries);
      var _ := fs.Mkdir(Dist);
    }
    ok := Build.RunBuild(fs, esbuild);
  }

  /** `buildFrontendMinimal()`: dist/public is created when missing, then
      the frontend build runs; a failed `mkdirSync` skips the build. */
  function FrontendBuilt(t: Tree, vite: Exec): Tree
  {
    if Public in t then Emitted(t, vite)
    else if NoFileOnPath(t, Public) then Emitted(MakeDirs(t, Public), vite)
    else t
  }

  method BuildFrontendMinimal(fs: FileSystem, vite: Exec) returns (built: bool)
    requires fs.Valid() && WellFormed(vite)
    modifies fs
    ensures fs.Valid()
    ensures fs.entries == FrontendBuilt(old(fs.entries), vite)
    ensures built <==> (Public in old(fs.entries) || NoFileOnPath(old(fs.entries), Public)) && vite.status == Completed
  {
    if !fs.Exists(Public) {
      var made := fs.Mkdir(Public);
      if !made {
        return false;
      }
    }
    built := Build.RunBuild(fs, vite);
  }

  /** The placeholder page is written when dist/index.html is missing;
      `None` when that write throws. */
  function WithPage(t: Tree, html: string): Option<Tree>
  {
    if IndexHtml in t then Some(t)
    else if Writable(t, IndexHtml) then Some(t[IndexHtml := File(html)])
    else None
  }

  /** dist/assets with the placeholder stylesheet is made when dist/assets
      is missing; `None` when that `mkdirSync` throws. */
  function WithAssets(t: Tree): Option<Tree>
  {
    if Assets in t then Some(t)
    else if NoFileOnPath(t, Assets) then Some(MakeDirs(t, Assets)[StyleCss := File(StyleSheet)])
    else None
  }

  /** `createBasicDeploymentStructure()`; `None` when it throws. */
  function BasicStructure(t: Tree, html: string): Option<Tree>
  {
    match WithPage(t, html)
    case None => None
    case Some(u) => WithAssets(u)
  }

  /** Once dist/assets has been made, the stylesheet can be written in it. */
  lemma StyleSheetRoom(t: Tree)
    requires ValidTree(t) && Assets !in t && NoFileOnPath(t, Assets)
    ensures ValidTree(MakeDirs(t, Assets)) && Writable(MakeDirs(t, Assets), StyleCss)
  {
    MakeDirsValid(t, Assets);
    assert Parent(StyleCss) == Assets;
    NothingBelowAbsent(t, Assets);
    assert StyleCss !in t by { assert Assets <= StyleCss; }
    assert StyleCss !in Prefixes(Assets);
  }

  method CreateBasicDeploymentStructure(fs: FileSystem, html: string) returns (ok: bool)
    requires fs.Valid()
    modifies fs
    ensures fs.Valid()
    ensures ok <==> BasicStructure(old(fs.entries), html).Some?
    ensures ok ==> fs.entries == BasicStructure(old(fs.entries), html).value
  {
    if !fs.Exists(IndexHtml) {
      var written := fs.WriteFile(IndexHtml, html);
      if !written {
        return false;
      }
    }
    if !fs.Exists(Assets) {
      ghost var u := fs.entries;
      var made := fs.Mkdir(Assets);
      if !made {
        return false;
      }
      StyleSheetRoom(u);
      var _ := fs.WriteFile(StyleCss, StyleSheet);
    }
    ok := true;
  }

  /** `fixDeploymentStructure()`: when dist/public exists its items are
      copy-merged; `None` when listing it throws. */
  function Fixed(t: Tree): Option<Tree>
  {
    if Public !in t then Some(t)
    else if IsDirAt(t, Public) then Some(CopyMerged(t, {}))
    else None
  }

  method FixDeploymentStructure(fs: FileSystem) returns (ok: bool)
    requires fs.Valid()
    modifies fs
    ensures fs.Valid()
    ensures ok <==> Fixed(old(fs.entries)).Some?
    ensures ok ==> fs.entries == Fixed(old(fs.entries)).value
  {
    if !fs.Exists(Public) {
      return true;
    }
    var merged, _, _ := CopyMerge(fs, {}, BuiltIn);
    ok := merged;
  }

  /** The tree `main()` leaves behind; `None` when an uncaught error ends it. */
  function Outcome(t: Tree, esbuild: Exec, vite: Exec, html: string): Option<Tree>
  {
    var b := BackendBuilt(t, esbuild);
    var f := FrontendBuilt(b, vite);
    var frontendBuilt := (Public in b || NoFileOnPath(b, Public)) && vite.status == Completed;
    var s := if frontendBuilt then Some(f) else BasicStructure(f, html);
    if s.None? then None else Fixed(s.value)
  }

  /** The whole script: exit status 0 exactly when no uncaught error ends it
      and the three deployment paths exist at the end.  A failed server
      build does not stop it. */
  method Run(fs: FileSystem, esbuild: Exec, vite: Exec, html: string) returns (status: int)
    requires fs.Valid() && WellFormed(esbuild) && WellFormed(vite)
    modifies fs
    ensures fs.Valid()
    ensures Outcome(old(fs.entries), esbuild, vite, html).Some? ==>
      fs.entries == Outcome(old(fs.entries), esbuild, vite, html).value
    ensures status == 0 <==> (Outcome(old(fs.entries), esbuild, vite, html).Some? &&
                              IndexHtml in fs.entries && ServerBundle in fs.entries && Assets in fs.entries)
    ensures status == 0 || status == 1
  {
    var _ := BuildBackend(fs, esbuild);
    var frontendBuilt := BuildFrontendMinimal(fs, vite);
    if !frontendBuilt {
      var created := CreateBasicDeploymentStructure(fs, html);
      if !created {
        return 1;
      }
    }
    var fixed := FixDeploymentStructure(fs);
    if !fixed {
      return 1;
    }
    var allGood := VerifyDeployment(fs);
    status := if allGood then 0 else 1;
  }

  /** The fallback always supplies a page and an assets directory when dist
      is a directory, and never replaces a page that is already there. */
  lemma FallbackSupplies(t: Tree, html: string)
    requires ValidTree(t) && IsDirAt(t, Dist)
    ensures BasicStructure(t, html).Some?
    ensures IndexHtml in BasicStructure(t, html).value && Assets in BasicStructure(t, html).value
    ensures IndexHtml in t ==> BasicStructure(t, html).value[IndexHtml] == t[IndexHtml]
  {
    assert Parent(IndexHtml) == Dist && Parent(Assets) == Dist;
    var u := WithPage(t, html).value;
    if IndexHtml !in t {
      WriteValid(t, IndexHtml, html);
    }
    assert ValidTree(u) && IsDirAt(u, Dist);
    if Assets !in u {
      assert Assets[..0] == [] && Assets[..1] == Dist && Assets[..2] == Assets;
      assert NoFileOnPath(u, Assets);
      StyleSheetRoom(u);
      MakeDirsValid(u, Assets);
      assert StyleCss != IndexHtml;
    }
  }
}
