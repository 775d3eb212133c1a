/**
 * deploy-production.js: build the server, make sure dist/public holds a
 * page (copying dist/index.html there when it does not), write a
 * production dist/package.json when there is none, and check the three
 * files a production start needs.  Any throw ends the process with exit
 * status 1.
 */
module DeployProduction {
  import opened FileTree
  import opened Fs
  import opened Layout
  import opened Build
  import opened Readiness

  /** `ensureFrontendStructure()`: the tree it leaves behind and whether it
      returned without throwing. */
  function FrontendStructure(t: Tree): (Tree, bool)
  {
    if Public !in t && !NoFileOnPath(t, Public) then (t, false)
    else
      var u := if Public in t then t else MakeDirs(t, Public);
      if PublicIndexHtml in u then (u, true)
      else if CanCopyFile(u, IndexHtml, PublicIndexHtml) then (u[PublicIndexHtml := u[IndexHtml]], true)
      else (u, false)
  }

  /** `ensurePackageJson()`, with the serialised manifest as a parameter. */
  function PackageJsonEnsured(t: Tree, json: string): (Tree, bool)
  {
    if DistPackageJson in t then (t, true)
    else if Writable(t, DistPackageJson) then (t[DistPackageJson := File(json)], true)
    else (t, false)
  }

  /** What `verifyDeployment()` demands. */
  predicate Ready(t: Tree)
  {
    ServerBundle in t && PublicIndexHtml in t && DistPackageJson in t
  }

  /** `main()`: the tree left behind and whether it ends without a throw. */
  function Deployed(t: Tree, esbuild: Exec, json: string): (Tree, bool)
  {
    var b := Emitted(t, esbuild);
    if esbuild.status != Completed then (b, false)
    else
      var f := FrontendStructure(b);
      if !f.1 then f
      else
        var p := PackageJsonEnsured(f.0, json);
        (p.0, p.1 && Ready(p.0))
  }

  method EnsureFrontendStructure(fs: FileSystem) returns (ok: bool)
    requires fs.Valid()
    modifies fs
    ensures fs.Valid()
    ensures fs.entries == FrontendStructure(old(fs.entries)).0
    ensures ok == FrontendStructure(old(fs.entries)).1
  {
    if !fs.Exists(Public) {
      var made := fs.Mkdir(Public);
      if !made {
        return false;
      }
    }
    if fs.Exists(PublicIndexHtml) {
      return true;
    }
    if !fs.Exists(IndexHtml) {
      return false;
    }
    ok := fs.CopyFile(IndexHtml, PublicIndexHtml);
  }

  method EnsurePackageJson(fs: FileSystem, json: string) returns (ok: bool)
    requires fs.Valid()
    modifies fs
    ensures fs.Valid()
    ensures fs.entries == PackageJsonEnsured(old(fs.entries), json).0
    ensures ok == PackageJsonEnsured(old(fs.entries), json).1
  {
    if fs.Exists(DistPackageJson) {
      return true;
    }
    ok := fs.WriteFile(DistPackageJson, json);
  }

  method VerifyDeployment(fs: FileSystem) returns (allFilesExist: bool)
    ensures allFilesExist <==> Ready(fs.entries)
  {
    allFilesExist := AllExist(fs, [ServerBundle, PublicIndexHtml, DistPackageJson]);
    assert [ServerBundle, PublicIndexHtml, DistPackageJson][0] == ServerBundle;
    assert [ServerBundle, PublicIndexHtml, DistPackageJson][1] == PublicIndexHtml;
    assert [ServerBundle, PublicIndexHtml, DistPackageJson][2] == DistPackageJson;
  }

  /** The whole script: exit status 0 exactly when every step returns and
      the three production files are there. */
  method Run(fs: FileSystem, esbuild: Exec, json: string) returns (status: int)
    requires fs.Valid() && WellFormed(esbuild)
    modifies fs
    ensures fs.Valid()
    ensures fs.entries == Deployed(old(fs.entries), esbuild, json).0
    ensures status == 0 <==> Deployed(old(fs.entries), esbuild, json).1
    ensures status == 0 ==> Ready(fs.entries)
    ensures status == 0 || status == 1
  {
    var built := Build.RunBuild(fs, esbuild);
    if !built {
      return 1;
    }
    var structured := EnsureFrontendStructure(fs);
    if !structured {
      return 1;
    }
    var written := EnsurePackageJson(fs, json);
    if !written {
      return 1;
    }
    var ready := VerifyDeployment(fs);
    status := if ready then 0 else 1;
  }

  /** Where dist is a directory, the frontend step succeeds whenever some
      page is available, keeps everything there was, and copies
      dist/index.html only when dist/public has no page of its own. */
  lemma FrontendSupplied(b: Tree)
    requires ValidTree(b) && IsDirAt(b, Dist) && !IsFileAt(b, Public)
    requires PublicIndexHtml in b || IsFileAt(b, IndexHtml)
    ensures FrontendStructure(b).1 && ValidTree(FrontendStructure(b).0)
    ensures forall p :: p in b ==> p in FrontendStructure(b).0 && (p != PublicIndexHtml ==> FrontendStructure(b).0[p] == b[p])
    ensures PublicIndexHtml in FrontendStructure(b).0
    ensures PublicIndexHtml in b ==> FrontendStructure(b).0[PublicIndexHtml] == b[PublicIndexHtml]
    ensures PublicIndexHtml !in b ==> FrontendStructure(b).0[PublicIndexHtml] == b[IndexHtml]
  {
    assert Public[..0] == [] && Public[..1] == Dist && Public[..2] == Public;
    assert NoFileOnPath(b, Public);
    MakeDirsValid(b, Public);
    var u := if Public in b then b else MakeDirs(b, Public);
    assert ValidTree(u) && IsDirAt(u, Public);
    if PublicIndexHtml !in b {
      assert PublicIndexHtml !in Prefixes(Public);
      assert Parent(PublicIndexHtml) == Public;
      WriteValid(u, PublicIndexHtml, b[IndexHtml].content);
    }
  }

  /** Where dist is a directory the manifest step always succeeds, keeps
      everything there was, and a second run changes nothing. */
  lemma PackageJsonSupplied(u: Tree, json: string)
    requires ValidTree(u) && IsDirAt(u, Dist)
    ensures PackageJsonEnsured(u, json).1
    ensures DistPackageJson in PackageJsonEnsured(u, json).0
    ensures forall p :: p in u ==> p in PackageJsonEnsured(u, json).0 && PackageJsonEnsured(u, json).0[p] == u[p]
    ensures PackageJsonEnsured(PackageJsonEnsured(u, json).0, json) == (PackageJsonEnsured(u, json).0, true)
  {
    assert Parent(DistPackageJson) == Dist;
  }

  /** A completed server build that writes its bundle, with a page to serve
      and room for dist/public, always yields exit status 0. */
  lemma ProductionReady(t: Tree, esbuild: Exec, json: string)
    requires ValidTree(t) && WellFormed(esbuild) && BundleRoom(t)
    requires esbuild.status == Completed && esbuild.bundle.Some?
    requires !IsFileAt(Emitted(t, esbuild), Public)
    requires PublicIndexHtml in Emitted(t, esbuild) || IsFileAt(Emitted(t, esbuild), IndexHtml)
    ensures Deployed(t, esbuild, json).1
  {
    var b := Emitted(t, esbuild);
    EmittedValid(t, esbuild);
    BundleWritten(t, esbuild);
    AncestorIsDir(b, Dist, ServerBundle);
    FrontendSupplied(b);
    var f := FrontendStructure(b).0;
    assert IsDirAt(f, Dist);
    PackageJsonSupplied(f, json);
  }
}
