/** build-github-pages.js: make sure dist exists, `npm run build`, copy every
    item of dist/public over its namesake in dist, and write a page at
    dist/index.html when there is none. */
module BuildGithubPages {
  import opened FileTree
  import opened Fs
  import opened Layout
  import opened Reconcile
  import opened Build
  import MergeLaws

  /** `ensureDir(dir)`: create `dir` with its missing parents unless
      something is there already; the `mkdirSync` throws when a file lies
      on the way. */
  method EnsureDir(fs: FileSystem, dir: Path) returns (ok: bool)
    requires fs.Valid()
    modifies fs
    ensures fs.Valid()
    ensures ok <==> dir in old(fs.entries) || NoFileOnPath(old(fs.entries), dir)
    ensures fs.entries == if dir in old(fs.entries) || !ok then old(fs.entries) else MakeDirs(old(fs.entries), dir)
    ensures ok ==> dir in fs.entries
  {
    if fs.Exists(dir) {
      return true;
    }
    ok := fs.Mkdir(dir);
    if ok {
      MakeDirsValid(old(fs.entries), dir);
    }
  }

  /** The overwrite step: `None` when one of its calls throws. */
  function Copied(b: Tree): Option<Tree>
  {
    if Public !in b then Some(b)
    else if IsDirAt(b, Public) && Overwritable(b) then Some(Overwritten(b))
    else None
  }

  /** The page step: `None` when the write throws. */
  function Paged(m: Tree, html: string): Option<Tree>
  {
    if IndexHtml in m then Some(m)
    else if Writable(m, IndexHtml) then Some(m[IndexHtml := File(html)])
    else None
  }

  /** The tree after `ensureDir('dist')` and the build. */
  function Prepared(t: Tree, npm: Exec): Tree
  {
    Emitted(if Dist in t then t else MakeDirs(t, Dist), npm)
  }

  /** What a successful run leaves behind; `None` when it fails. */
  function Published(t: Tree, npm: Exec, html: string): Option<Tree>
  {
    var m := Copied(Prepared(t, npm));
    if npm.status != Completed || m.None? then None else Paged(m.value, html)
  }

  /** The whole script: exit status 0 exactly when the build completed and
      no call threw; then dist/index.html exists. */
  method Run(fs: FileSystem, npm: Exec, html: string) returns (status: int)
    requires fs.Valid() && WellFormed(npm)
    modifies fs
    ensures fs.Valid()
    ensures status == (if Published(old(fs.entries), npm, html).Some? then 0 else 1)
    ensures status == 0 ==> fs.entries == Published(old(fs.entries), npm, html).value
    ensures status == 0 ==> IndexHtml in fs.entries
    ensures npm.status == Completed && Copied(Prepared(old(fs.entries), npm)).None? ==>
      exists S :: S <= Children(Prepared(old(fs.entries), npm), Public) &&
                  fs.entries == Transfer(Prepared(old(fs.entries), npm), Public, Dist, S, false)
    ensures npm.status != Completed ==> fs.entries == Prepared(old(fs.entries), npm)
  {
    DistRoom(fs.entries);
    var _ := EnsureDir(fs, Dist);
    var ok := Build.RunBuild(fs, npm);
    if !ok {
      return 1;
    }
    ok := CopyStatic(fs);
    if !ok {
      return 1;
    }
    ok := EnsurePage(fs, html);
    status := if ok then 0 else 1;
  }

  /** The overwrite loop, run when dist/public exists; a copy that throws
      leaves the items before it copied. */
  method CopyStatic(fs: FileSystem) returns (ok: bool)
    requires fs.Valid()
    modifies fs
    ensures fs.Valid()
    ensures ok <==> Copied(old(fs.entries)).Some?
    ensures ok ==> fs.entries == Copied(old(fs.entries)).value
    ensures !ok ==> exists S :: S <= Children(old(fs.entries), Public) &&
                      fs.entries == Transfer(old(fs.entries), Public, Dist, S, false)
  {
    if !fs.Exists(Public) {
      return true;
    }
    ok := OverwriteMerge(fs);
  }

  /** Write the page when dist/index.html is missing. */
  method EnsurePage(fs: FileSystem, html: string) returns (ok: bool)
    requires fs.Valid()
    modifies fs
    ensures fs.Valid()
    ensures ok <==> Paged(old(fs.entries), html).Some?
    ensures ok ==> fs.entries == Paged(old(fs.entries), html).value
    ensures ok ==> IndexHtml in fs.entries
  {
    if fs.Exists(IndexHtml) {
      return true;
    }
    ok := fs.WriteFile(IndexHtml, html);
  }

  /** The built page wins: when dist/public holds an index.html, a
      successful run publishes exactly that page, whatever dist/index.html
      held before. */
  lemma BuiltPageWins(b: Tree, html: string)
    requires Copied(b).Some? && Paged(Copied(b).value, html).Some?
    requires Public in b && PublicIndexHtml in b
    ensures Paged(Copied(b).value, html).value[IndexHtml] == b[PublicIndexHtml]
  {
    assert Public + ["index.html"] + [] == PublicIndexHtml;
    assert Dist + ["index.html"] + [] == IndexHtml;
    ChildrenMember(b, Public, "index.html");
    MergeLaws.OverwriteCopies(b, "index.html", []);
  }

  /** The tree the build starts from is a well-formed one. */
  lemma PreparedValid(t: Tree, npm: Exec)
    requires ValidTree(t) && WellFormed(npm)
    ensures ValidTree(Prepared(t, npm))
  {
    if Dist !in t {
      DistRoom(t);
      MakeDirsValid(t, Dist);
    }
    EmittedValid(if Dist in t then t else MakeDirs(t, Dist), npm);
  }

  lemma BuiltPagePublished(t: Tree, npm: Exec, html: string)
    requires ValidTree(t) && WellFormed(npm)
    requires Published(t, npm, html).Some?
    requires PublicIndexHtml in Prepared(t, npm)
    ensures Published(t, npm, html).value[IndexHtml] == Prepared(t, npm)[PublicIndexHtml]
  {
    PreparedValid(t, npm);
    AncestorIsDir(Prepared(t, npm), Public, PublicIndexHtml);
    BuiltPageWins(Prepared(t, npm), html);
  }

  /** Without an index.html in dist/public or in dist, the page written is
      the script's own. */
  lemma OwnPageWritten(b: Tree, html: string)
    requires Copied(b).Some? && Paged(Copied(b).value, html).Some?
    requires PublicIndexHtml !in b && IndexHtml !in b
    ensures Paged(Copied(b).value, html).value[IndexHtml] == File(html)
  {
    if Public in b {
      assert Public + IndexHtml[1..] == PublicIndexHtml;
      if IndexHtml in Overwritten(b) {
        MergeLaws.OverwriteOnlyNew(b, IndexHtml);
      }
    }
  }

  lemma FallbackPage(t: Tree, npm: Exec, html: string)
    requires Published(t, npm, html).Some?
    requires PublicIndexHtml !in Prepared(t, npm) && IndexHtml !in Prepared(t, npm)
    ensures Published(t, npm, html).value[IndexHtml] == File(html)
  {
    OwnPageWritten(Prepared(t, npm), html);
  }
}
