/**
 * build-frontend.js: `npx vite build`, then make sure dist/public exists
 * (seeding it with dist/index.html); when anything in that throws, fall back
 * to creating dist/public with a page of the script's own.  A 30-second timer
 * is started before the build and cleared only when the build command
 * returns.
 */
module BuildFrontend {
  import opened FileTree
  import opened Fs
  import opened Layout
  import opened Reconcile
  import opened Build

  /** `copyRecursive(src, dest)`: nothing when `src` is missing, else the
      recursive copy. */
  method CopyRecursive(fs: FileSystem, src: Path, dst: Path)
    requires fs.Valid() && (src !in fs.entries || CanCopy(fs.entries, src, dst))
    modifies fs
    ensures fs.Valid()
    ensures fs.entries == if src in old(fs.entries) then CopyTree(old(fs.entries), src, dst) else old(fs.entries)
  {
    if !fs.Exists(src) {
      return;
    }
    Reconcile.CopyRecursive(fs, src, dst);
  }

  /** The steps after a completed build: the tree they leave and whether
      they all succeeded. */
  function Seeded(b: Tree): (Tree, bool)
  {
    if Public in b then (b, true)
    else if !NoFileOnPath(b, Public) then (b, false)
    else
      var m := MakeDirs(b, Public);
      if IndexHtml !in m then (m, true)
      else if CanCopyFile(m, IndexHtml, PublicIndexHtml) then (m[PublicIndexHtml := m[IndexHtml]], true)
      else (m, false)
  }

  /** Whether the timer was cleared: `clearTimeout` runs as soon as the
      build command returns, before any of the seeding steps. */
  predicate Cleared(vite: Exec)
  {
    vite.status == Completed
  }

  /** What `buildFrontend()` leaves behind; `None` when it throws. */
  function Frontend(t: Tree, vite: Exec, html: string): Option<Tree>
  {
    var b := Emitted(t, vite);
    if vite.status != Completed then FallbackSite(b, html)
    else if Seeded(b).1 then Some(Seeded(b).0)
    else FallbackSite(Seeded(b).0, html)
  }

  /** The build path: check for dist/public, else create it and copy
      dist/index.html into it. */
  method Seed(fs: FileSystem) returns (ok: bool)
    requires fs.Valid()
    modifies fs
    ensures fs.Valid()
    ensures fs.entries == Seeded(old(fs.entries)).0 && ok == Seeded(old(fs.entries)).1
  {
    if fs.Exists(Public) {
      return true;
    }
    ok := fs.Mkdir(Public);
    if !ok {
      return;
    }
    if fs.Exists(IndexHtml) {
      ok := fs.CopyFile(IndexHtml, PublicIndexHtml);
    }
  }

  /** `buildFrontend()`: `ok` is false when it throws; `cleared` tells
      whether the build command returned, which clears the timer. */
  method BuildFrontend(fs: FileSystem, vite: Exec, html: string) returns (ok: bool, cleared: bool)
    requires fs.Valid() && WellFormed(vite)
    modifies fs
    ensures fs.Valid()
    ensures ok <==> Frontend(old(fs.entries), vite, html).Some?
    ensures ok ==> fs.entries == Frontend(old(fs.entries), vite, html).value
    ensures cleared <==> Cleared(vite)
  {
    ghost var t := fs.entries;
    var completed := Build.RunBuild(fs, vite);
    cleared := completed;
    if completed {
      var seeded := Seed(fs);
      if seeded {
        return true, true;
      }
    }
    ok := WriteFallbackSite(fs, html);
  }

  /** The whole script as written: `buildFrontend()` throwing ends it with
      exit status 1; otherwise it reports success, but when the build
      command failed the timer was never cleared, so its callback throws 30
      seconds after the build started and the uncaught error ends the
      process with exit status 1 too. */
  method Run(fs: FileSystem, vite: Exec, html: string) returns (status: int)
    requires fs.Valid() && WellFormed(vite)
    modifies fs
    ensures fs.Valid()
    ensures Frontend(old(fs.entries), vite, html).Some? ==> fs.entries == Frontend(old(fs.entries), vite, html).value
    ensures status == (if Cleared(vite) && Frontend(old(fs.entries), vite, html).Some? then 0 else 1)
  {
    var ok, cleared := BuildFrontend(fs, vite, html);
    status := if ok && cleared then 0 else 1;
  }

  /** Exit status as intended: 0 whenever `buildFrontend()` returns, the
      fallback included. */
  method RunClearingTimer(fs: FileSystem, vite: Exec, html: string) returns (status: int)
    requires fs.Valid() && WellFormed(vite)
    modifies fs
    ensures fs.Valid()
    ensures Frontend(old(fs.entries), vite, html).Some? ==> fs.entries == Frontend(old(fs.entries), vite, html).value
    ensures status == (if Frontend(old(fs.entries), vite, html).Some? then 0 else 1)
  {
    var ok, _ := BuildFrontend(fs, vite, html);
    status := if ok then 0 else 1;
  }

  /** A fresh checkout: nothing but the project root. */
  const EmptyProject: Tree := map[[] := Dir]

  /** The timer finding on a concrete input: in an empty project a build
      that fails and writes nothing still gets the fallback page, so
      `buildFrontend()` returns normally, yet the timer was never cleared
      and the script as written exits with status 1. */
  lemma TimerCounterexample()
    ensures Frontend(EmptyProject, Exec(Failed, None, None), "").Some?
    ensures !Cleared(Exec(Failed, None, None))
  {
    var t := EmptyProject;
    assert Emitted(t, Exec(Failed, None, None)) == t;
    assert ValidTree(t);
    assert NoFileOnPath(t, Public) by {
      forall i | 0 <= i <= |Public| ensures !IsFileAt(t, Public[..i]) {
        if i > 0 {
          assert Public[..i] != [];
        }
      }
    }
    FallbackSiteWritten(t, "");
  }

  /** A project whose `dist/index.html` is a directory. */
  const IndexHtmlDir: Tree := map[[] := Dir, Dist := Dir, IndexHtml := Dir]

  /** When the build completes but copying `dist/index.html` throws, the
      timer was already cleared and the fallback page is written, so the
      script as written exits 0. */
  lemma SeedFailureStillCleared(html: string)
    ensures Frontend(IndexHtmlDir, Exec(Completed, None, None), html).Some?
    ensures Cleared(Exec(Completed, None, None))
  {
    var t := IndexHtmlDir;
    var vite := Exec(Completed, None, None);
    assert Emitted(t, vite) == t;
    assert ValidTree(t) by {
      assert Parent(Dist) == [] && Parent(IndexHtml) == Dist;
      forall p | p in t && p != [] ensures Parent(p) in t && t[Parent(p)].Dir? {
        assert p == Dist || p == IndexHtml;
      }
    }
    assert Public !in t && PublicIndexHtml !in t;
    assert NoFileOnPath(t, Public) by {
      forall i | 0 <= i <= |Public| ensures !IsFileAt(t, Public[..i]) {
        if i > 0 {
          assert Public[..i] != [];
        }
      }
    }
    var m := MakeDirs(t, Public);
    MakeDirsValid(t, Public);
    assert !IsFileAt(m, IndexHtml);
    assert Seeded(t) == (m, false);
    assert NoFileOnPath(m, Public);
    assert !IsDirAt(m, PublicIndexHtml);
    FallbackSiteWritten(m, html);
  }
}
