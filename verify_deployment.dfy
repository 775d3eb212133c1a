/**
 * verify-deployment.js: a read-only check that dist holds the page, the
 * server bundle, an assets directory and the original dist/public, and
 * that .replit configures a static deployment served from dist.  Exit
 * status 0 exactly when every check passes.
 */
module VerifyDeployment {
  import opened FileTree
  import opened Fs
  import opened Layout
  import opened Readiness

  const StaticTarget: string := "deploymentTarget = \"static\""
  const PublicDirSetting: string := "publicDir = \"dist\""
  const BuildCommand: string := "build = [\"npm\", \"run\", \"build\"]"

  /** The three settings the check looks for in .replit. */
  predicate Configured(content: string)
  {
    Includes(content, StaticTarget) && Includes(content, PublicDirSetting) && Includes(content, BuildCommand)
  }

  /** Everything the script checks, with .replit read as a file. */
  predicate DeploymentReady(t: Tree)
  {
    IndexHtml in t && ServerBundle in t && IsDirAt(t, Assets) && IsDirAt(t, Public) &&
    IsFileAt(t, ReplitConfig) && Configured(t[ReplitConfig].content)
  }

  /** `checkFile()`: existence only. */
  method CheckFile(fs: FileSystem, p: Path) returns (found: bool)
    ensures found <==> p in fs.entries
  {
    found := fs.Exists(p);
  }

  /** `checkDirectory()`: an existing directory, whose names are listed. */
  method CheckDirectory(fs: FileSystem, p: Path) returns (isDir: bool, files: seq<Name>)
    ensures isDir <==> IsDirAt(fs.entries, p)
    ensures isDir ==> Listing(fs.entries, p, files)
  {
    isDir := fs.Exists(p) && fs.IsDirectory(p);
    files := [];
    if isDir {
      var _, names := fs.ReadDir(p);
      files := names;
    }
  }

  /** The .replit check; a directory named .replit makes `readFileSync`
      throw, which ends the process with exit status 1 as well. */
  method CheckReplit(fs: FileSystem) returns (configured: bool)
    ensures configured <==> IsFileAt(fs.entries, ReplitConfig) && Configured(fs.entries[ReplitConfig].content)
  {
    if !fs.Exists(ReplitConfig) {
      return false;
    }
    var content := fs.ReadFile(ReplitConfig);
    if content.None? {
      return false;
    }
    var hasStaticDeployment := Includes(content.value, StaticTarget);
    var hasDistPublicDir := Includes(content.value, PublicDirSetting);
    var hasBuildCommand := Includes(content.value, BuildCommand);
    configured := hasStaticDeployment && hasDistPublicDir && hasBuildCommand;
  }

  /** The whole script: every check runs, and the exit status is 0 exactly
      when all of them pass. */
  method Run(fs: FileSystem) returns (status: int)
    ensures status == 0 <==> DeploymentReady(fs.entries)
    ensures status == 0 || status == 1
  {
    var page := CheckFile(fs, IndexHtml);
    var bundle := CheckFile(fs, ServerBundle);
    var assets, _ := CheckDirectory(fs, Assets);
    var public, _ := CheckDirectory(fs, Public);
    var configured := CheckReplit(fs);
    var allGood := page && bundle && assets && public && configured;
    status := if allGood then 0 else 1;
  }

  /** The settings are accepted wherever they stand in the file. */
  lemma ConfiguredIff(content: string)
    ensures Configured(content) <==>
      (exists i :: OccursAt(content, StaticTarget, i)) &&
      (exists i :: OccursAt(content, PublicDirSetting, i)) &&
      (exists i :: OccursAt(content, BuildCommand, i))
  {
    IncludesIff(content, StaticTarget);
    IncludesIff(content, PublicDirSetting);
    IncludesIff(content, BuildCommand);
  }

  /** A .replit holding the three settings, one after another with anything
      around them, passes the check. */
  lemma SettingsAccepted(a: string, b: string, c: string, d: string)
    ensures Configured(a + StaticTarget + b + PublicDirSetting + c + BuildCommand + d)
  {
    var s := a + StaticTarget + b + PublicDirSetting + c + BuildCommand + d;
    var i := |a|;
    var j := i + |StaticTarget| + |b|;
    var k := j + |PublicDirSetting| + |c|;
    assert s[i..i + |StaticTarget|] == StaticTarget;
    assert s[j..j + |PublicDirSetting|] == PublicDirSetting;
    assert s[k..k + |BuildCommand|] == BuildCommand;
    assert OccursAt(s, StaticTarget, i) && OccursAt(s, PublicDirSetting, j) && OccursAt(s, BuildCommand, k);
    ConfiguredIff(s);
  }
}
