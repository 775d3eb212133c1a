# Deployment-tree reconciliation, modelled in Dafny

The repository is a portfolio site. Its only logic is a family of about
eighteen Node deployment scripts. After a frontend build (Vite, which writes
`dist/public`) and a server build (esbuild, which writes `dist/index.js`),
each script reconciles the two trees. It folds the items of `dist/public`
into `dist` and then checks that the names a deployment needs are there.
The variants are:

- copy-merge with a shallow skip of names `dist` already has;
- the same copy-merge done fail-soft, where an item whose copy throws is
  logged and skipped;
- move-merge by rename, removing `dist/public` when nothing was left behind;
- the GitHub Pages overwrite-merge;
- create-if-absent fallbacks for `index.html`, `assets/` and `package.json`;
- readiness checks with different exit-status policies.

The model works as follows.

- `FileTree` holds the state: a map from paths (sequences of names) to
  `File(content) | Dir`. Every `fs` call the scripts make is a pure function
  on such maps (`MakeDirs`, `CopyTree`, `MoveTree`, `RemoveTree`, `Mount`).
- `Fs.FileSystem` is a class with one mutable field, `entries`. It has one
  method per `fs` call. Each method returns `ok == false` exactly where Node
  throws, and leaves the tree unchanged in that case.
- `Reconcile` holds the shared loops as methods over the class. Each loop is
  proved to reach an order-independent closed form (`CopyMerged`,
  `MoveMerged`, `MovedOut`, `Overwritten`), whatever order `readdirSync`
  lists the items in.
- `MergeLaws` proves the properties the scripts rely on: no overwrite,
  completeness, the shallow skip, idempotence, the move partition and
  pruning, and the server bundle surviving the merge.
- `Build` models a build command as an outcome record `Exec`: a status
  (completed, timed out or failed), an optional site tree that it mounts at
  `dist/public`, and an optional server bundle that it writes to
  `dist/index.js`.
- `Readiness` holds the required-name checks.

Each script is one module whose `Run` method returns the process exit
status. Its contract gives the final tree and the status as functions of the
starting tree and the build outcomes. An uncaught throw is a `None` or a
`false` flag in those functions.

## Model

| member | source | states |
|---|---|---|
| Fs.FileSystem.Exists | scripts/post-build.js:21 | `existsSync`: true exactly when the path is in the tree |
| Fs.FileSystem.IsDirectory | scripts/post-build.js:27 | `statSync(p).isDirectory()` on an existing path: true exactly when it is a directory |
| Fs.FileSystem.ReadDir | scripts/post-build.js:14 | `readdirSync` succeeds exactly on a directory and returns each child name once; nothing changes |
| Fs.FileSystem.ReadFile | verify-deployment.js:52 | `readFileSync` yields the content exactly when the path is a file |
| Fs.FileSystem.Mkdir | quick-deploy-fix.js:28 | recursive `mkdirSync` succeeds exactly when no prefix of the path is a file; the new tree has every missing prefix as a directory and nothing else changes |
| Fs.FileSystem.WriteFile | emergency-deploy.js:127 | `writeFileSync` succeeds exactly when the parent is a directory and the path is no directory; it then replaces or creates that one file |
| Fs.FileSystem.CopyFile | scripts/post-build.js:31 | `copyFileSync` succeeds exactly when the source is a file and the destination is writable; it then overwrites the destination with the source content |
| Fs.FileSystem.Cp | scripts/post-build.js:28 | recursive `cpSync` succeeds on a compatible, non-overlapping copy and yields `CopyTree`: the whole subtree re-rooted at the destination, the source kept |
| Fs.FileSystem.Rename | build-for-deployment.js:75 | `renameSync` onto a free name succeeds exactly when the destination's parent is a directory and the source is not an ancestor; it yields `MoveTree`: the subtree gone from the source and present at the destination |
| Fs.FileSystem.Rmdir | build-for-deployment.js:82 | `rmdirSync` succeeds exactly on an empty non-root directory and removes only it |
| Fs.FileSystem.Rm | deploy.js:25 | `rmSync(p, {recursive, force})` removes the path and everything below it, and succeeds when the path is absent too |
| FileTree.MakeDirsValid | quick-deploy-fix.js:27-29 | creating a directory path keeps the tree well formed, makes the path a directory and keeps every existing entry |
| FileTree.CopyFileIsCopyTree | scripts/post-build.js:27-32 | on a file, `copyFileSync` and a recursive copy give the same tree, so the file/directory branch is one transfer |
| FileTree.RemoveTreeValid | deploy.js:23-26 | removing a subtree keeps the tree well formed |
| Reconcile.CopyMerge | scripts/post-build.js:12-34 | the copy-merge succeeds exactly when `dist/public` is a directory. The tree is then `CopyMerged`: every item whose name `dist` lacks is copied up, except the items whose copy throws. Otherwise the tree is unchanged. `copied` counts the items copied and `skipped` the name collisions |
| Reconcile.MergeItem | scripts/post-build.js:17-33 | one iteration: skip on a collision, otherwise copy the item unless its copy throws; the loop invariant grows by exactly that item |
| Reconcile.CopyItem | scripts/post-build.js:27-32 | copying one absent item, by `cpSync`/`copyFileSync` or by the scripts' own `copyRecursive`, adds exactly its subtree under `dist` |
| Reconcile.CopyRecursive | fix-deployment-structure.js:31-46 | the hand-written recursive copy (directories created only when absent, files overwritten) yields exactly `CopyTree` |
| Reconcile.CopyChild | fix-deployment-structure.js:39-42 | one recursive call of `copyRecursive` on a directory entry adds that entry's subtree |
| Reconcile.MoveMerge | build-for-deployment.js:61-84 | the move-merge succeeds exactly when `dist/public` is a directory. `moved` counts the items renamed. `dist/public` is pruned exactly when nothing collided. The tree is then `MovedOut`; on failure it is unchanged |
| Reconcile.MoveItem | build-for-deployment.js:63-77 | one iteration: leave a colliding item in place, otherwise rename it into `dist` |
| Reconcile.PrunePublic | build-for-deployment.js:81-84 | after the moves, `dist/public` is removed exactly when no item collided |
| Reconcile.MoveMergeLeaves | build-for-deployment.js:81-84 | after the moves `dist/public` holds exactly the colliding names, so "empty" means "nothing collided" |
| Reconcile.PublicCollides | build-deployment-chunks.js:162-169 | an item named `public` always collides, since its destination is `dist/public` itself |
| Reconcile.MoveIfPresent | fix-deployment-fast.js:67-105 | when `dist/public` is absent nothing changes; when it is a directory the move-merge with pruning runs; when it is a file the listing throws |
| Reconcile.OverwriteMerge | build-github-pages.js:53-69 | in the model, the overwrite-merge succeeds exactly when every item copies without error, giving `Overwritten`. When one throws, the tree is a transfer of some subset of the items |
| Reconcile.OverwriteItem | build-github-pages.js:56-67 | in the model, one overwriting copy succeeds exactly when the item is not `public` and no file meets a directory |
| MergeLaws.ReceivedWasAbsent | scripts/post-build.js:21-24 | every path the copy-merge writes was absent before, so nothing is overwritten |
| MergeLaws.CopyMergeKeeps | scripts/post-build.js:20-24 | every existing entry, such as `dist/index.js` and all of `dist/public`, is kept with the same content |
| MergeLaws.CopyMergeAdds | scripts/post-build.js:27-32 | each path under an absent, non-failing item appears under `dist` with the source's content |
| MergeLaws.CopyMergeOnlyNew | scripts/post-build.js:16-34 | every new path comes from an item that was absent from `dist` and carries that item's content |
| MergeLaws.ShallowSkip | scripts/build.js:30 | under a colliding name, the merged tree has exactly the paths `dist` already had: source-only descendants are not merged in |
| MergeLaws.ListedPresent | deploy-build.js:30-45 | every listed item whose copy does not throw exists in `dist` afterwards |
| MergeLaws.CopyMergeIdempotent | scripts/post-build.js:21-24 | after a copy-merge in which no copy threw, a second copy-merge changes nothing, whichever of its copies throw |
| MergeLaws.CopyCounts | fix-deployment-structure.js:64-90 | copied plus skipped is at most the number of items, with equality when no copy fails |
| MergeLaws.ServerBundleKept | scripts/build.js:14-37 | after both builds and the copy-merge, `dist/index.js` holds the server bundle |
| MergeLaws.MovePartition | build-for-deployment.js:62-78 | moved and skipped items partition the listing |
| MergeLaws.MoveMergeMoves | build-for-deployment.js:75 | a moved item is gone from `dist/public` and present under `dist` with the same content |
| MergeLaws.MoveMergeKeeps | build-for-deployment.js:69-72 | every entry not under a moved item, the skipped items included, is kept |
| MergeLaws.MovedOutKeeps | build-for-deployment.js:61-84 | the move-merge with pruning keeps every entry outside `dist/public` |
| MergeLaws.ServerBundleKeptByMove | build-for-deployment.js:48-84 | after both builds and the move-merge, `dist/index.js` holds the server bundle |
| MergeLaws.MoveMergeOnlyNew | build-for-deployment.js:62-78 | every new path comes from a moved item with that item's content |
| MergeLaws.MoveMergeSettled | build-for-deployment.js:62-84 | after the move-merge no item is incoming, so a second move-merge changes nothing |
| MergeLaws.OverwriteCopies | build-github-pages.js:57-66 | every path under every item appears under `dist` with the source's content, overwriting what was there |
| MergeLaws.OverwriteKeeps | build-github-pages.js:53-69 | an entry with no counterpart under `dist/public` is kept |
| MergeLaws.OverwriteOnlyNew | build-github-pages.js:57-66 | every new path is a copy of a path under `dist/public` |
| Build.RunBuild | deploy.js:31-36 | a build command leaves `Emitted`: its site mounted at `dist/public`, its bundle at `dist/index.js`. It reports success exactly when it completed |
| Build.BundleWritten | deploy.js:36 | a build that writes a bundle, with room for it, leaves `dist/index.js` holding it |
| Build.CleanedRoom | deploy.js:23-26 | after removing `dist`, it is absent and there is room for the bundle |
| Build.WriteFallbackSite | build-deployment-chunks.js:58-151 | the fallback makes `dist/public` and writes its own page there. It succeeds exactly when both calls can |
| Build.FallbackSiteWritten | build-deployment-chunks.js:62-149 | with no file in the way, the fallback always succeeds and the page holds the fallback HTML |
| Readiness.Found | build-deployment-chunks.js:197-206 | the found list holds only required names present under `dist` |
| Readiness.Missing | build-deployment-chunks.js:197-206 | the missing list holds only required names absent from `dist` |
| Readiness.FoundMissingPartition | build-deployment-chunks.js:193-206 | found and missing together are the required names, each once |
| Readiness.FoundComplete | build-deployment-chunks.js:197-201 | every present required name is found |
| Readiness.ReadyIffAllPresent | build-deployment-chunks.js:208 | all found exactly when none missing exactly when every required name exists |
| Readiness.Classify | build-deployment-chunks.js:193-206 | the push loop yields exactly the found and missing lists |
| Readiness.AllFound | deploy.js:79-93 | the check passes exactly when every required name exists in `dist` |
| Readiness.AllExist | emergency-deploy.js:167-185 | the `allGood` fold holds exactly when every checked path exists |
| Readiness.IncludesIff | verify-deployment.js:53-55 | `includes` holds exactly when the text occurs at some position |
| Readiness.Describe | scripts/deployment-build.js:48-54 | the closing listing succeeds exactly on a directory and flags each entry's directory-ness; it writes nothing |
| PostBuild.Run | scripts/post-build.js:11-45 | exit 0 with the copy-merge done exactly when `dist/public` is a directory, else exit 1 and no change |
| ScriptsBuild.Run | scripts/build.js:8-49 | a failed Vite build stops the script. Otherwise exit 0 exactly when both builds completed and `dist/public` is a directory; the tree is then the copy-merge of the built tree |
| DeployBuild.Run | deploy-build.js:19-58 | exit 0 exactly when the build completed and `dist/public` is a directory, with the copy-merge done |
| DeploymentBuild.Run | scripts/deployment-build.js:10-63 | as `DeployBuild.Run`, plus a read-only listing of `dist` with directory flags on success |
| QuickDeployFix.Run | quick-deploy-fix.js:18-69 | exit 1 with no change when `dist/public` is missing. Otherwise the copy-merge, with `items` the number of listed items |
| Deploy.Run | deploy.js:21-130 | `dist` is removed and both builds run. A missing `dist/public` gives exit 1. The copy-merge counts every incoming item. Exit 0 exactly when `index.html` and `index.js` are in `dist` |
| Deploy.BundleShipped | deploy.js:23-72 | after the cleanup, builds and merge, `dist/index.js` holds the server bundle |
| FixDeployment.Run | fix-deployment.js:21-71 | exit 1 with no change when `dist/public` is missing. Otherwise a fail-soft copy-merge with exit 0. `ready` holds exactly when `index.html` and `assets` are in `dist`, and does not change the status |
| FixDeployment.CheckReady | fix-deployment.js:59-61 | readiness from the `dist` listing: both names among its entries |
| FixDeployment.ReadyWhenSupplied | fix-deployment.js:31-61 | when each of `index.html` and `assets` is already in `dist`, or comes from `dist/public` without its copy failing, the report is ready |
| FixDeploymentStructure.Run | fix-deployment-structure.js:48-120 | a fail-soft copy-merge with the scripts' own `copyRecursive`. The counters count copied and skipped items and together are at most the listing. Exit 0 exactly when `dist/public` was a directory and `dist/index.html` exists |
| FixDeploymentStructure.CriticalPresent | fix-deployment-structure.js:96-102 | the critical check passes exactly when `dist/index.html` exists |
| FastDeploy.RunBuild | fast-deploy.js:25-44 | the build is usable exactly when it completed, or timed out with `dist/public` present |
| FastDeploy.FixDeploymentStructure | fast-deploy.js:62-94 | false with no change exactly when `dist/public` is missing. Otherwise a fail-soft copy-merge whose count excludes failed copies |
| Readiness.VerifyDeployment | fast-deploy.js:96-114 | true exactly when `dist/index.html`, `dist/index.js` and `dist/assets` exist; emergency-deploy.js performs the same check and calls this member |
| FastDeploy.Run | fast-deploy.js:116-139 | build, then fix, then verify. Exit 1 at the first stage that fails |
| EmergencyDeploy.BuildBackend | emergency-deploy.js:26-46 | `dist` is created only when absent, then the server build runs |
| EmergencyDeploy.BuildFrontendMinimal | emergency-deploy.js:48-70 | `dist/public` is created only when absent, then the frontend build runs. Built exactly when both succeed |
| EmergencyDeploy.CreateBasicDeploymentStructure | emergency-deploy.js:72-140 | the placeholder page is written only when `dist/index.html` is absent. The stylesheet is written only when `dist/assets` is absent |
| EmergencyDeploy.FixDeploymentStructure | emergency-deploy.js:142-165 | no change when `dist/public` is missing, else the copy-merge of absent names |
| EmergencyDeploy.Run | emergency-deploy.js:187-215 | a backend failure does not stop the run, and the fallback runs only when the frontend build failed. Exit 0 exactly when no step throws and the three paths exist |
| EmergencyDeploy.StyleSheetRoom | emergency-deploy.js:133-137 | once `dist/assets` is made, the stylesheet can always be written |
| EmergencyDeploy.FallbackSupplies | emergency-deploy.js:76-137 | with `dist` a directory, the fallback always supplies a page and an assets directory and keeps an existing page |
| BuildGithubPages.EnsureDir | build-github-pages.js:19-23 | the directory is created only when absent, so a second call changes nothing |
| BuildGithubPages.CopyStatic | build-github-pages.js:53-69 | nothing is copied when `dist/public` is absent. Otherwise the overwrite-merge runs, and when one copy throws the tree is a partial transfer |
| BuildGithubPages.EnsurePage | build-github-pages.js:71-76 | the generated page is written only when `dist/index.html` is absent; afterwards it exists |
| BuildGithubPages.Run | build-github-pages.js:25-87 | exit 0 exactly when the closed form `Published` is defined; `dist/index.html` then exists. A failed build or copy leaves the stated partial tree |
| BuildGithubPages.PreparedValid | build-github-pages.js:30-34 | making `dist` and building keeps the tree well formed |
| BuildGithubPages.BuiltPageWins | build-github-pages.js:57-76 | a built `dist/public/index.html` overwrites `dist/index.html`, and the generated page is then not written |
| BuildGithubPages.BuiltPagePublished | build-github-pages.js:34-76 | on success, a built page is what `dist/index.html` holds |
| BuildGithubPages.OwnPageWritten | build-github-pages.js:72-76 | with no page anywhere, the generated page is written |
| BuildGithubPages.FallbackPage | build-github-pages.js:71-76 | on success with no built page, `dist/index.html` holds the generated page |
| BuildFrontend.CopyRecursive | build-frontend.js:19-37 | a missing source is a no-op; otherwise the recursive copy |
| BuildFrontend.Seed | build-frontend.js:57-69 | an existing `dist/public` is left alone. Otherwise it is created and `dist/index.html` is copied in when present |
| BuildFrontend.BuildFrontend | build-frontend.js:39-310 | the build path, or on any throw the fallback page written over `dist/public/index.html`. `cleared` holds exactly when `npx vite build` returned, whether or not the seeding after it threw |
| BuildFrontend.Run | build-frontend.js:312-320 | as written: exit 0 exactly when `npx vite build` returned, so that the timer was cleared, and `buildFrontend()` returns |
| BuildFrontend.RunClearingTimer | build-frontend.js:39-320 | corrected: exit 0 exactly when `buildFrontend()` returns, fallback included |
| BuildFrontend.TimerCounterexample | build-frontend.js:44-75 | on an empty project with a failed Vite build, the fallback succeeds but the timer is never cleared |
| BuildFrontend.SeedFailureStillCleared | build-frontend.js:48-75 | when the Vite build completes but copying a `dist/index.html` that is a directory throws, the timer is already cleared and the fallback page is written, so even the script as written exits 0 |
| BuildForDeployment.Run | build-for-deployment.js:25-137 | cleanup, both builds, then the move-merge with pruning. `moved` counts the moved items. Exit 0 exactly when `index.html` and `index.js` are in `dist` |
| BuildForDeployment.BundleShipped | build-for-deployment.js:27-84 | after the cleanup, builds and move-merge, `dist/index.js` holds the server bundle |
| BuildDeploymentChunks.Prepare | build-deployment-chunks.js:43-151 | `dist` is removed and the server build runs. The frontend build runs, with the fallback page on failure |
| BuildDeploymentChunks.Run | build-deployment-chunks.js:37-238 | the move-merge runs only when `dist/public` exists. Found and missing are reported but do not change the status. Exit 1 only on a throw |
| BuildDeploymentChunks.ViteKeepsBundle | build-deployment-chunks.js:50-56 | the frontend build leaves the server bundle alone |
| BuildDeploymentChunks.FallbackKeeps | build-deployment-chunks.js:58-151 | the fallback changes nothing but `dist/public` and its page |
| BuildDeploymentChunks.BundleShipped | build-deployment-chunks.js:43-186 | when the run gets through, `dist/index.js` holds the server bundle |
| FixDeploymentFast.CreateMinimal | fix-deployment-fast.js:26-65 | with no `dist`: it is created, the server build runs, and the placeholder page is written. Only a failed build throws |
| FixDeploymentFast.PageRoom | fix-deployment-fast.js:30-63 | once `dist` is fresh and the server has been built, the placeholder page can always be written |
| FixDeploymentFast.Run | fix-deployment-fast.js:24-155 | three branches: no `dist`, `dist/public` present, or neither, which changes nothing. Found and missing are reported only. Exit 1 only on a throw |
| FixDeploymentFast.MinimalReady | fix-deployment-fast.js:26-123 | with no `dist` and a bundle-writing server build, both required names are found |
| DeployProduction.EnsureFrontendStructure | deploy-production.js:38-63 | `dist/public` is made only when absent. An existing page is kept. Otherwise `dist/index.html` is copied in, and the step throws when there is none |
| DeployProduction.EnsurePackageJson | deploy-production.js:65-94 | `dist/package.json` is written only when absent |
| DeployProduction.VerifyDeployment | deploy-production.js:96-124 | passes exactly when `dist/index.js`, `dist/public/index.html` and `dist/package.json` exist |
| DeployProduction.Run | deploy-production.js:126-148 | exit 0 exactly when no step throws and the three files exist |
| DeployProduction.FrontendSupplied | deploy-production.js:44-62 | with `dist` a directory and some page available, the frontend step succeeds. It keeps every entry and copies `dist/index.html` only when `dist/public` has no page |
| DeployProduction.PackageJsonSupplied | deploy-production.js:65-94 | with `dist` a directory, the manifest step succeeds and keeps every entry; a second run changes nothing |
| DeployProduction.ProductionReady | deploy-production.js:126-148 | a completed server build with a page available always gives exit 0 |
| VerifyDeployment.CheckFile | verify-deployment.js:16-21 | true exactly when the path exists |
| VerifyDeployment.CheckDirectory | verify-deployment.js:23-32 | true exactly when the path is a directory, whose names are listed |
| VerifyDeployment.CheckReplit | verify-deployment.js:50-65 | true exactly when `.replit` is a file containing all three settings |
| VerifyDeployment.Run | verify-deployment.js:34-80 | exit 0 exactly when the four path checks and the `.replit` check pass; no writes |
| VerifyDeployment.ConfiguredIff | verify-deployment.js:53-55 | the settings are accepted exactly when each occurs somewhere in the text |
| VerifyDeployment.SettingsAccepted | verify-deployment.js:53-61 | a `.replit` holding the three settings with anything around them passes |
| VerifyDeploymentReady.CheckStartScript | verify-deployment-ready.js:50-58 | reading and parsing `package.json` throws when it is a directory or does not parse |
| VerifyDeploymentReady.Run | verify-deployment-ready.js:31-74 | exit 1 only when reading `package.json` throws. `allPassed` is the conjunction of the four path checks and the start-script check; no writes |
| VerifyDeploymentReady.PassedMeansReady | verify-deployment-ready.js:34-58 | a passing report means all four files exist and the start script is set |
| VerifyDeploymentReady.NotReadyExitsZero | verify-deployment-ready.js:60-74 | a project with no files is reported not ready and still exits 0 |

## Left out

- Console output, emoji prefixes, byte sizes and the printed structures are not modelled. Paths are relative to the working directory, so `process.cwd()` and `path.join` are the identity here.
- Child processes (`execSync`, `spawn` and `runCommand`) are not modelled. Each build is an `Exec` parameter: how it ended, the site it mounts at `dist/public` and the bundle it writes to `dist/index.js`. Timeouts and signals appear only as the `TimedOut` status.
- Fallback HTML bodies, the production `package.json` object and the parsing of `package.json` are parameters (`html`, `json`, `hasStart`). The one exception is the stylesheet written by emergency-deploy.js, which is a constant.
- Filesystem permissions, symlinks, cross-device renames and I/O errors other than the type clashes above are not modelled. A copy that throws for such a reason is modelled by the `faulty` set of item names, which leaves that item unchanged.
- Reconcile.CopyMerge: a copy that throws part-way through an item's subtree leaves no partial subtree in the model.
- Fs.FileSystem.Cp: Node's `cpSync` rejects a destination equal to or inside the source, but accepts a destination that is an ancestor of the source. The model refuses every overlap, and a copy where a file meets a directory, as a throw with no change; Node may copy part of the tree before throwing. Only the `public` item of the GitHub Pages copy reaches the ancestor case, because the copy-merge and the move-merge always skip that item as colliding.
- Reconcile.OverwriteItem: a directory item named `public` (that is, `dist/public/public`) is modelled as a throw. Node copies it into its ancestor `dist/public`, changing items that the loop has not yet copied, so the result then depends on the order of the listing; that order-dependent case is not modelled.
- BuildGithubPages.CopyStatic: inherits the gap of Reconcile.OverwriteItem. For a `dist/public/public` directory it reports a throw with a partial transfer, where Node merges that directory into `dist/public` and goes on.
- Reconcile.OverwriteMerge: the same gap. When `dist/public/public` is a directory, the model's result is not Node's.
- BuildGithubPages.Run: the same gap. When `dist/public/public` is a directory, the model exits 1, where Node may exit 0 with an order-dependent tree.
- Reconcile.CopyRecursive: requires a compatible, non-overlapping copy. The scripts only call it on an item whose name `dist` lacks, where this always holds, so the partial copy the hand-written recursion would make on a type clash is not modelled.
- BuildFrontend.CopyRecursive: the script defines it but never calls it. It is modelled with the same requirement as Reconcile.CopyRecursive.
- Several scripts create `dist` when it is missing while `dist/public` exists. That branch cannot run, because `dist/public` lies inside `dist`, so it is not modelled (quick-deploy-fix.js:27-29, fix-deployment-structure.js:59-61).
- FastDeploy.FixDeploymentStructure: a `readdirSync` that throws because `dist/public` is a file ends the process. The model reports it as the same `false` that a missing `dist/public` returns; both end in exit 1.
- EmergencyDeploy.Run: the tree left by an uncaught throw is not stated, only the exit status 1.
- BuildDeploymentChunks.Run: after a throw in the frontend fallback or the move-merge, only the exit status 1 is stated, not the tree left behind.
- BuildFrontend.Run: the tree is stated only when `buildFrontend()` returns; after a throw inside the fallback, only the status is stated.
- BuildGithubPages.Run: when writing the generated page throws, only the exit status 1 is stated, not the tree.
- deploy-simple.js and the React components under client/ are not part of this model. They hold no reconciliation logic.

## Findings

| source | as written | input that shows it | evidently intended | confidence | as-written member | corrected member |
|---|---|---|---|---|---|---|
| build-frontend.js:44-75 | the 30-second timer is cleared only when `npx vite build` returns, so after a Vite failure it stays pending and its callback throws, ending the process with status 1 although the fallback succeeded | an empty project (only the root directory) where `npx vite build` fails without writing anything: the fallback writes `dist/public/index.html`, yet the exit status is 1 | clear the timer on the fallback path too, so that a successful fallback exits 0 | not executed | BuildFrontend.TimerCounterexample | BuildFrontend.RunClearingTimer |
