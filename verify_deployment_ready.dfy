/**
 * verify-deployment-ready.js: a read-only report on the four files a
 * production start needs and on the start script in package.json.  The
 * report does not set the exit status: only an uncaught throw while reading
 * package.json ends the process with status 1.
 */
module VerifyDeploymentReady {
  import opened FileTree
  import opened Fs
  import opened Layout
  import opened Readiness

  /** The four paths checked, in order. */
  const Checked: seq<Path> := [ServerBundle, IndexHtml, DistPackageJson, PackageJson]

  /** The start-script test on package.json's text: `None` when `JSON.parse`
      or the property access throws, otherwise whether `scripts.start` is
      truthy.  JSON parsing is a parameter of the model. */
  type StartTest = string -> Option<bool>

  /** The report's verdict; `None` when reading package.json throws. */
  function Verdict(t: Tree, hasStart: StartTest): Option<bool>
  {
    var files := forall i :: 0 <= i < |Checked| ==> Checked[i] in t;
    if PackageJson !in t then Some(files)
    else if !IsFileAt(t, PackageJson) then None
    else match hasStart(t[PackageJson].content)
      case None => None
      case Some(start) => Some(files && start)
  }

  /** The start-script check: `None` when it throws. */
  method CheckStartScript(fs: FileSystem, hasStart: StartTest) returns (start: Option<bool>)
    requires PackageJson in fs.entries
    ensures start == if IsFileAt(fs.entries, PackageJson) then hasStart(fs.entries[PackageJson].content) else None
  {
    var content := fs.ReadFile(PackageJson);
    if content.None? {
      return None;
    }
    start := hasStart(content.value);
  }

  /** The whole script. */
  method Run(fs: FileSystem, hasStart: StartTest) returns (status: int, allPassed: bool)
    ensures status == 1 <==> Verdict(fs.entries, hasStart).None?
    ensures status == 0 ==> allPassed == Verdict(fs.entries, hasStart).value
    ensures status == 0 || status == 1
  {
    allPassed := AllExist(fs, Checked);
    if fs.Exists(PackageJson) {
      var start := CheckStartScript(fs, hasStart);
      if start.None? {
        return 1, false;
      }
      allPassed := allPassed && start.value;
    }
    status := 0;
  }

  /** A passing report means all four files exist and, package.json being
      there, that it is a file whose start script is set. */
  lemma PassedMeansReady(t: Tree, hasStart: StartTest)
    requires Verdict(t, hasStart) == Some(true)
    ensures ServerBundle in t && IndexHtml in t && DistPackageJson in t
    ensures IsFileAt(t, PackageJson) && hasStart(t[PackageJson].content) == Some(true)
  {
    assert Checked[0] == ServerBundle && Checked[1] == IndexHtml && Checked[2] == DistPackageJson && Checked[3] == PackageJson;
  }

  /** The exit status says nothing about readiness: a project with no files
      at all is reported not ready and still ends with status 0. */
  lemma NotReadyExitsZero(hasStart: StartTest)
    ensures Verdict(map[[] := Dir], hasStart) == Some(false)
  {
    assert PackageJson !in map[[] := Dir];
    assert Checked[0] !in map[[] := Dir];
  }
}
