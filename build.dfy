/**
 * The build commands the deployment scripts launch (`vite build`,
 * `esbuild server/index.ts --outdir=dist`, `npm run build`).  What a command
 * does inside is not modelled: a run is an `Exec` record saying how it ended
 * and what it left behind, a site tree written over `dist/public` and a server
 * bundle written at `dist/index.js`.
 */
module Build {
  import opened FileTree
  import opened Fs
  import opened Layout

  /** How the child process ended: exit code 0, killed by its timeout
      (`error.signal === 'SIGTERM'`), or any other failure. */
  datatype Status = Completed | TimedOut | Failed

  /** One run of a build command. */
  datatype Exec = Exec(status: Status, site: Option<Tree>, bundle: Option<string>)

  ghost predicate WellFormed(e: Exec)
  {
    e.site.Some? ==> ValidTree(e.site.value)
  }

  /** The bundler empties `dist/public` and writes the site there, creating
      `dist` on the way; it cannot when a file stands in the way. */
  function Sited(t: Tree, site: Option<Tree>): Tree
  {
    if site.Some? && NoFileOnPath(t, Dist) then Mount(MakeDirs(t, Dist), Public, site.value) else t
  }

  /** The server bundler writes `dist/index.js`, creating `dist` on the way. */
  function Bundled(t: Tree, bundle: Option<string>): Tree
  {
    if bundle.Some? && NoFileOnPath(t, Dist) && !IsDirAt(t, ServerBundle)
    then MakeDirs(t, Dist)[ServerBundle := File(bundle.value)]
    else t
  }

  /** Everything one run leaves behind. */
  function Emitted(t: Tree, e: Exec): Tree
  {
    Bundled(Sited(t, e.site), e.bundle)
  }

  /** What a frontend build followed by a server build leaves behind. */
  function Built(t: Tree, vite: Exec, esbuild: Exec): Tree
  {
    Emitted(Emitted(t, vite), esbuild)
  }

  /** What `rmSync('dist', {recursive: true, force: true})` followed by both
      builds leaves behind. */
  function Rebuilt(t: Tree, vite: Exec, esbuild: Exec): Tree
  {
    Built(RemoveTree(t, Dist), vite, esbuild)
  }

  /** `mkdirSync('dist')` adds at most the one directory. */
  lemma MakeDist(t: Tree)
    requires ValidTree(t) && NoFileOnPath(t, Dist)
    ensures MakeDirs(t, Dist) == if Dist in t then t else t[Dist := Dir]
  {
    assert Dist[..0] == [] && Dist[..1] == Dist;
    if Dist in t {
      assert IsDirAt(t, Dist) by { assert !IsFileAt(t, Dist[..1]); }
      MakeDirsExisting(t, Dist);
    } else {
      MakeDirsChild(t, Dist);
    }
  }

  /** A placed site sits exactly below `dist/public`; everything else stays,
      apart from `dist` itself being created when it was missing. */
  lemma SitedFacts(t: Tree, site: Tree)
    requires ValidTree(t) && ValidTree(site) && NoFileOnPath(t, Dist)
    ensures ValidTree(Sited(t, Some(site)))
    ensures IsDirAt(Sited(t, Some(site)), Dist) && IsDirAt(Sited(t, Some(site)), Public)
    ensures forall x :: x in site ==> Public + x in Sited(t, Some(site)) && Sited(t, Some(site))[Public + x] == site[x]
    ensures forall p :: p in Sited(t, Some(site)) && Public <= p ==> p[2..] in site
    ensures forall p :: !(Public <= p) && p != Dist ==>
      (p in Sited(t, Some(site)) <==> p in t) && (p in t ==> Sited(t, Some(site))[p] == t[p])
  {
    var m := MakeDirs(t, Dist);
    var r := Sited(t, Some(site));
    MakeDist(t);
    MakeDirsValid(t, Dist);
    assert Parent(Public) == Dist;
    MountValid(m, Public, site);
    forall x | x in site ensures Public + x in r && r[Public + x] == site[x] {
      assert Public + x in Rooted(site, Public);
      assert (Public + x)[|Public|..] == x;
    }
    forall p | p in r && Public <= p ensures p[2..] in site {
      if p in Rooted(site, Public) {
        RootedSource(site, Public, p);
      }
    }
  }

  lemma BundledFacts(t: Tree, b: string)
    requires ValidTree(t) && NoFileOnPath(t, Dist) && !IsDirAt(t, ServerBundle)
    ensures ValidTree(Bundled(t, Some(b)))
    ensures Bundled(t, Some(b)) == (if Dist in t then t else t[Dist := Dir])[ServerBundle := File(b)]
  {
    MakeDist(t);
    MakeDirsValid(t, Dist);
    assert Parent(ServerBundle) == Dist;
    WriteValid(MakeDirs(t, Dist), ServerBundle, b);
  }

  lemma EmittedValid(t: Tree, e: Exec)
    requires ValidTree(t) && WellFormed(e)
    ensures ValidTree(Emitted(t, e))
  {
    var s := Sited(t, e.site);
    if e.site.Some? && NoFileOnPath(t, Dist) {
      SitedFacts(t, e.site.value);
    }
    if e.bundle.Some? && NoFileOnPath(s, Dist) && !IsDirAt(s, ServerBundle) {
      BundledFacts(s, e.bundle.value);
    }
  }

  /** Room for the server bundle: `dist` can be made and `dist/index.js` is
      no directory. */
  predicate BundleRoom(t: Tree)
  {
    NoFileOnPath(t, Dist) && !IsDirAt(t, ServerBundle)
  }

  /** `dist` can be made exactly when it is absent or a directory. */
  lemma DistRoom(t: Tree)
    requires ValidTree(t)
    ensures NoFileOnPath(t, Dist) <==> !IsFileAt(t, Dist)
  {
    forall i | 0 <= i <= |Dist| ensures Dist[..i] == [] || Dist[..i] == Dist {
      if i == 0 {
        assert Dist[..0] == [];
      } else {
        assert Dist[..1] == Dist;
      }
    }
    assert Dist[..1] == Dist;
  }

  lemma SitedKeepsRoom(t: Tree, site: Option<Tree>)
    requires ValidTree(t) && (site.Some? ==> ValidTree(site.value)) && BundleRoom(t)
    ensures ValidTree(Sited(t, site)) && BundleRoom(Sited(t, site))
  {
    if site.Some? {
      SitedFacts(t, site.value);
      assert ServerBundle[1][0] != Public[1][0];
      DistRoom(Sited(t, site));
    }
  }

  /** A run never takes that room away. */
  lemma EmittedKeepsRoom(t: Tree, e: Exec)
    requires ValidTree(t) && WellFormed(e) && BundleRoom(t)
    ensures BundleRoom(Emitted(t, e))
  {
    var s := Sited(t, e.site);
    SitedKeepsRoom(t, e.site);
    if e.bundle.Some? {
      var r := Bundled(s, e.bundle);
      BundledFacts(s, e.bundle.value);
      DistRoom(r);
    }
  }

  /** With room for it, a run that emits a bundle leaves exactly that file at
      `dist/index.js`. */
  lemma BundleWritten(t: Tree, e: Exec)
    requires ValidTree(t) && WellFormed(e) && BundleRoom(t) && e.bundle.Some?
    ensures ServerBundle in Emitted(t, e) && Emitted(t, e)[ServerBundle] == File(e.bundle.value)
  {
    SitedKeepsRoom(t, e.site);
    BundledFacts(Sited(t, e.site), e.bundle.value);
  }

  /** `rmSync('dist', {recursive: true, force: true})` leaves room for
      everything the builds write. */
  lemma CleanedRoom(t: Tree)
    requires ValidTree(t)
    ensures ValidTree(RemoveTree(t, Dist)) && Dist !in RemoveTree(t, Dist)
    ensures BundleRoom(RemoveTree(t, Dist))
    ensures Dist !in t ==> RemoveTree(t, Dist) == t
  {
    RemoveTreeValid(t, Dist);
    assert Dist[..0] == [] && Dist[..1] == Dist;
    if Dist !in t {
      NothingBelowAbsent(t, Dist);
      assert Below(t, Dist) == {};
    }
  }

  /** `execSync(command)`: the run leaves its output behind however it ends,
      and the call returns normally only when the command completed. */
  method RunBuild(fs: FileSystem, e: Exec) returns (ok: bool)
    requires fs.Valid() && WellFormed(e)
    modifies fs
    ensures fs.Valid()
    ensures fs.entries == Emitted(old(fs.entries), e)
    ensures ok <==> e.status == Completed
  {
    EmittedValid(fs.entries, e);
    fs.entries := Emitted(fs.entries, e);
    ok := e.status == Completed;
  }

  /** The fallback when the frontend build fails: make dist/public and
      write a page of the script's own there; `None` when either call throws. */
  function FallbackSite(u: Tree, html: string): Option<Tree>
  {
    if !NoFileOnPath(u, Public) then None
    else if Writable(MakeDirs(u, Public), PublicIndexHtml) then Some(MakeDirs(u, Public)[PublicIndexHtml := File(html)])
    else None
  }

  method WriteFallbackSite(fs: FileSystem, html: string) returns (ok: bool)
    requires fs.Valid()
    modifies fs
    ensures fs.Valid()
    ensures ok <==> FallbackSite(old(fs.entries), html).Some?
    ensures ok ==> fs.entries == FallbackSite(old(fs.entries), html).value
  {
    ok := fs.Mkdir(Public);
    if !ok {
      return;
    }
    ok := fs.WriteFile(PublicIndexHtml, html);
  }

  /** The fallback succeeds whenever dist can hold dist/public and no
      directory sits at dist/public/index.html, and then the page is the
      script's own. */
  lemma FallbackSiteWritten(u: Tree, html: string)
    requires ValidTree(u) && NoFileOnPath(u, Public) && !IsDirAt(u, PublicIndexHtml)
    ensures FallbackSite(u, html).Some?
    ensures FallbackSite(u, html).value[PublicIndexHtml] == File(html)
  {
    MakeDirsValid(u, Public);
    assert Parent(PublicIndexHtml) == Public;
    if PublicIndexHtml !in u {
      assert PublicIndexHtml !in Prefixes(Public);
    }
  }
}
