/** Where the deployment scripts look, relative to the project root. */
module Layout {
  import opened FileTree

  /** `dist/`: the directory the host serves. */
  const Dist: Path := ["dist"]
  /** `dist/public/`: where the frontend bundler writes the site. */
  const Public: Path := ["dist", "public"]
  const IndexHtml: Path := ["dist", "index.html"]
  /** `dist/index.js`: the server bundle. */
  const ServerBundle: Path := ["dist", "index.js"]
  const Assets: Path := ["dist", "assets"]
  const DistPackageJson: Path := ["dist", "package.json"]
  const PublicIndexHtml: Path := ["dist", "public", "index.html"]
  const StyleCss: Path := ["dist", "assets", "style.css"]
  const ReplitConfig: Path := [".replit"]
  const PackageJson: Path := ["package.json"]

  /** The names the deployment checks require directly under `dist`. */
  const Required: seq<Name> := ["index.html", "index.js"]
}
