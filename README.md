# Ezer site build: a verified model of the production build

The Ezer marketing site has a build script, `build.js`. In production mode it bundles the
scripts and styles (with esbuild), then writes a deployable `dist` folder:

- one folder per region, `dist/us` and `dist/au`, holding those of the ten listed pages whose
  source exists, each passed through `transformHtmlForRegion`;
- `dist/index.html`, a copy of the geo-redirect page `index-redirect.html`;
- `dist/_redirects`, the Netlify redirect rules, when the project has them;
- `dist/img` and `dist/fonts`, recursive copies of the image and font folders, when present.

`transformHtmlForRegion` rewrites a page for a folder one level below the site root. It
does three things:

- Seven global regular-expression replacements make root-relative links relative.
- The first `<html ...>` tag gets a `data-region` attribute.
- A region-switcher script goes before the first `</body>`. The script links to the same
  page in the other region's folder.

The project is in six modules:

| file | module | what it holds |
|---|---|---|
| `common.dfy` | `Common` | `Option`, the string prefix test `StartsWith`, small sequence facts |
| `link_rewrite.dfy` | `LinkRewrite` | the seven replace rules: each regular expression as a matcher `MatchAt`, the global replace as the scan `ReplaceAll`, the chain `RewriteLinks` |
| `region_marker.dfy` | `RegionMarker` | the `<html>` marker, the switcher insertion and the whole `TransformHtmlForRegion` |
| `region_switch.dfy` | `RegionSwitch` | the computation inside the switcher script: page path, current region, target folder, label, link |
| `file_tree.dfy` | `FileTree` | the file system as a map from paths to contents, and what a copy writes (`CopyOf`) |
| `site_build.dfy` | `SiteBuild` | the region pages, the copy steps, the build's outcome (`Build`), and the class `FileSystem` whose methods perform the build |

The transform is pure, so it is modelled as functions and lemmas. The build changes the
file system step by step, so it is modelled as methods of `FileSystem`, which holds the
files in a field. Each method is proved against a specification function.

- `CopyDir` is proved against `CopyOf`.
- `EmitPage`, `EmitRegion` and `EmitRegionPages` are proved against `RegionPages` and `Emitted`. `EmitPage` and `EmitRegion` take the page transform as a parameter, and `EmitRegionPages` passes `TransformHtmlForRegion`, as build.js does.
- `ProductionBuild` is proved against `Build`.

The lemmas beside those functions state what the build promises.

How the file system is modelled:

- A path is the list of its segments, relative to the project folder.
- Folders are not stored. A folder exists when some file lies below it.
- The code has no `try`/`catch`, so a failed file operation ends the build. In that case
  `ProductionBuild` returns `ok == false`, with the files written up to that point.

## Model

| member | source | states |
|---|---|---|
| LinkRewrite.MatchAt | build.js:33-39 | each regular expression of the chain as a matcher at one position: a match consumes between one character and the rest of the text; what it accepts and writes is stated rule by rule in both directions: `RootIndexRewrite`, `RootPageRewrite`, `RootNestedRewrite`, `RootAnchorRewrite` and `AssetRewrite` show that text of a regular expression's shape matches with the stated replacement, and `RootIndexSound`, `RootPageSound`, `RootNestedSound`, `RootAnchorSound` and `AssetSound` show that every match has that shape; `RestoreMatched` shows the written text determines the matched one |
| LinkRewrite.MatchHead | build.js:33-39 | every match of every rule begins with `href="` or `src="` |
| LinkRewrite.ReplaceAll | build.js:33-39 | a global `replace` as a left-to-right scan that never rescans what it wrote; `SpliceAt`, `KeepsUnmatchedPrefix` and `FixedWhenHitFree` state what it copies and what it rewrites |
| LinkRewrite.FixedWhenHitFree | build.js:33-39 | a text in which the rule matches at no position comes out of its global replace unchanged |
| LinkRewrite.KeepsUnmatchedPrefix | build.js:33-39 | text in which no match starts is copied as it is, and the scan continues on what follows it |
| LinkRewrite.ApplyRules | build.js:32-39 | the replacements applied one after another, each to the previous one's output; `ApplyRulesAppend`, `HitFreeAfterRules` and `HeadlessUnchanged` state its properties |
| LinkRewrite.ApplyRulesAppend | build.js:32-39 | running one list of rules and then another is running their concatenation |
| LinkRewrite.RewriteLinks | build.js:32-39 | the seven replacements in source order; `NoRootedPageLinkAfterChain`, `NoUnprefixedAssetAfterChain` and `RewriteLinksFixed` state what the chain leaves |
| LinkRewrite.NameRun | build.js:34-35 | the greedy class `[a-zA-Z0-9_-]+` run: every counted character is a name character and the next one is not |
| LinkRewrite.UnquotedRun | build.js:35-36 | the greedy class `[^"]+` run: no counted character is `"`, and the run stops exactly at a `"` or the end |
| LinkRewrite.RootIndexRewrite | build.js:33 | `href="/"` is matched and becomes `href="index.html"`, whatever follows |
| LinkRewrite.RootIndexSound | build.js:33 | every match of the first rule is the text `href="/"`, rewritten to `href="index.html"` |
| LinkRewrite.RootPageSound | build.js:34 | every match of the rooted-page rule is `href="/`, a non-empty run of letters, digits, `_` and `-`, then `.html"`; it is rewritten to `href="<name>.html"` |
| LinkRewrite.RootNestedSound | build.js:35 | every match of the nested-folder rule is `href="/`, a non-empty name run, `/`, a non-empty run without `"`, then `"`; it is rewritten without the leading slash |
| LinkRewrite.RootAnchorSound | build.js:36 | every match of the anchor rule is `href="/#`, a non-empty run without `"`, then `"`; it is rewritten to `href="index.html#<frag>"` |
| LinkRewrite.AssetSound | build.js:37-39 | every match of an asset rule is `href` or `src`, `="` and the folder name with its `/`; it is rewritten with one `../` before the folder |
| LinkRewrite.RootPageRewrite | build.js:34 | `href="/<name>.html"` with a non-empty name of letters, digits, `_` and `-` is matched whole and becomes `href="<name>.html"` |
| LinkRewrite.RootNestedRewrite | build.js:35 | `href="/<dir>/<rest>"` is matched up to the closing quote and becomes `href="<dir>/<rest>"` |
| LinkRewrite.RootAnchorRewrite | build.js:36 | `href="/#<frag>"` becomes `href="index.html#<frag>"` |
| LinkRewrite.DeRootedOutput | build.js:35-36 | what the nested-folder and anchor rules write is an `href` whose value never starts with `/` |
| LinkRewrite.AssetRewrite | build.js:37-39 | for `href` and `src` and each of `Assets/`, `img/`, `fonts/`, the rule keeps the attribute and adds exactly one `../` before the folder |
| LinkRewrite.AssetSkipsPrefixed | build.js:37-39 | a value that already starts with `../` is not matched by any asset rule, so it gets no second `../` |
| LinkRewrite.AssetReplacementUnmatched | build.js:37-39 | no asset rule, of the same folder or another, matches at any position inside what an asset rule wrote, whatever follows it: a rewritten value never gets a second `../` |
| LinkRewrite.AssetPassHitFree | build.js:37-39 | after an asset rule's own global replace, no `href` or `src` value starting with its folder is left anywhere in the text |
| LinkRewrite.PassKeepsHitFree | build.js:33-39 | a global replace leaves no match of a rule behind when it is that rule's own pass or its input held none, provided the pass cannot create one: no pass writes `href="/"` or `href="/<name>.html"`, and no asset pass writes an unprefixed asset value |
| LinkRewrite.HitFreeAfterRules | build.js:32-39 | once a rule matches nowhere, a sequence of later passes that cannot create a match of it leaves it matching nowhere |
| LinkRewrite.RestoreMatched | build.js:33-39 | every rule's replacement determines the text it replaced: the rewrite loses nothing of the original link |
| LinkRewrite.SpliceAt | build.js:33-39 | the global replace copies the text before a match, writes the replacement and resumes right after the matched text |
| LinkRewrite.NoRootedPageLinkAfterChain | build.js:32-39 | after the seven replacements, no `href="/"` and no `href="/<name>.html"` is left anywhere in the page, including ones that earlier rewrites could have formed |
| LinkRewrite.NoUnprefixedAssetAfterChain | build.js:32-39 | after the seven replacements, no `href` or `src` value starting with `Assets/`, `img/` or `fonts/` is left anywhere in the page, including ones the nested-folder rule produced |
| LinkRewrite.RewriteLinksFixed | build.js:32-39 | a page in which no rule matches anywhere comes out of the chain unchanged |
| LinkRewrite.HeadlessUnchanged | build.js:32-39 | a page in which `href="` and `src="` occur at no position comes out of any sequence of the rules unchanged |
| RegionMarker.IndexOf | build.js:57 | the first occurrence of a literal at or after a position, as `indexOf` and a string-pattern replace find it; none means there is no occurrence |
| RegionMarker.FindHtmlTag | build.js:41 | the first position where `<html([^>]*)>` with the ignore-case flag can match, or none when it matches nowhere |
| RegionMarker.InjectRegionMarker | build.js:41-43 | the non-global, ignore-case replace of the first `<html ...>` tag; `MarkerRewritesFirstTag`, `MarkerChangesIffTag` and `MarkerTwiceAddsTwice` state its result |
| RegionMarker.MarkTag | build.js:41-43 | the replacement callback applied at the tag: lower-case `<html`, the captured attributes, ` data-region="<region>"`, then `>`; `MarkTagTwice` and `MarkedTagIsFirst` state how it behaves when applied again |
| RegionMarker.MarkTagTwice | build.js:41-43 | marking a marked tag again keeps the attributes and adds the region attribute a second time |
| RegionMarker.MarkedTagIsFirst | build.js:41-43 | in a marked page the rewritten tag is still the first `<html ...>` tag, now closed right after the region attribute |
| RegionMarker.MarkerRewritesFirstTag | build.js:41-43 | with the first tag at `i` and its first `>` at `c`, the page becomes the text before `i`, `<html`, the original attributes, `data-region="<region>"`, `>`, then everything after `c` unchanged |
| RegionMarker.MarkerChangesIffTag | build.js:41-43 | the marker step changes the page exactly when the page has an `<html ...>` tag |
| RegionMarker.MarkerTwiceAddsTwice | build.js:41-43 | the marker step is not idempotent: a second run adds a second `data-region` attribute to the same tag |
| RegionMarker.InsertSwitcher | build.js:45-57 | the non-global string replace of `</body>` by the switcher script, a line break and the tag; `SwitcherBeforeFirstBody` and `SwitcherChangesIffBody` state its result |
| RegionMarker.SwitcherBeforeFirstBody | build.js:45-57 | the switcher script and a line break are inserted immediately before the first `</body>`; that tag and everything after it, later `</body>` tags included, are kept |
| RegionMarker.SwitcherChangesIffBody | build.js:57 | the switcher step changes the page exactly when it contains `</body>` |
| RegionMarker.TransformHtmlForRegion | build.js:31-59 | the link chain, then the marker on its output, then the switcher on that; the lemmas of `RewriteLinks`, `InjectRegionMarker` and `InsertSwitcher` state each stage, and `TransformKeepsPlainPage` the whole |
| RegionMarker.TransformKeepsPlainPage | build.js:31-59 | a page with no link match, no `<html ...>` tag and no `</body>` comes out of the whole transform unchanged |
| RegionSwitch.StripRegionPrefix | build.js:48 | the result is a suffix of the pathname; when the pathname starts with `/us` or `/au`, exactly three characters are removed, or four exactly when a `/` follows them; any other pathname is returned as it is |
| RegionSwitch.PagePath | build.js:48 | an empty stripped pathname stands for `index.html`; otherwise the page path is the stripped pathname without its leading `/`, when it has one |
| RegionSwitch.RegionName | build.js:115 | the region written into a folder's pages: `US` for the `us` folder and `AU` otherwise; `SwitchTargetsOtherFolder` and `SwitchRoundTrip` state the links it leads to |
| RegionSwitch.CurrentRegion | build.js:49 | the `data-region` attribute, with a missing or empty one read as `US`; `OtherSlugChoice` states its effect on the link |
| RegionSwitch.OtherSlug | build.js:50 | `au` from `US`, `us` from anything else; `OtherSlugChoice` and `SwitchTargetsOtherFolder` state both directions |
| RegionSwitch.SwitchLabel | build.js:52 | the link text; `LabelMatchesTarget` states that it names the target folder's region |
| RegionSwitch.SwitchUrl | build.js:51 | `/<other>/<page path>`; `SwitchRoundTrip` states that following it twice comes back to the start |
| RegionSwitch.OtherSlugChoice | build.js:49-50 | the link goes to `au` exactly when the current region is `US`, and to `us` otherwise; a missing attribute counts as `US` |
| RegionSwitch.LabelMatchesTarget | build.js:50-52 | the label is "United States" exactly when the link goes to `us`, and "Australia" exactly when it goes to `au` |
| RegionSwitch.SwitchTargetsOtherFolder | build.js:49-51 | on a page the build wrote for a region folder, the link goes to the other region's folder |
| RegionSwitch.PagePathInFolder | build.js:48 | for `/<slug>/<file>` the page path is `<file>` |
| RegionSwitch.PagePathOfFolder | build.js:48 | `/<slug>` and `/<slug>/` both stand for `index.html` |
| RegionSwitch.SwitchRoundTrip | build.js:48-51 | from `/<slug>/<file>` the link goes to the same file in the other folder, and that page's link comes back to `/<slug>/<file>` |
| RegionSwitch.StripWithoutBoundary | build.js:48 | the prefix test has no segment boundary: on `/usage.html` the page path is `age.html` |
| FileTree.Entries | build.js:16 | every name `readdirSync` reports is a sub-folder or a file of the folder |
| FileTree.CopyOf | build.js:11-28 | what `copyDir` writes: the files at or below `src`, rebased below `dest`; `CopyOfKey` and `CopyOfAt` state its contents, and `FileSystem.CopyDir` is proved to write exactly it |
| FileTree.CopyOfKey | build.js:11-28 | a copy writes only at `dest` followed by a path relative to `src`, with the content of the file at that relative path |
| FileTree.CopyOfAt | build.js:11-28 | the copy holds `dest + r` exactly when the source holds `src + r`, with the same content |
| FileTree.CopyLeavesOthers | build.js:11-28 | a file outside `dest` keeps its content when the copy is merged in |
| SiteBuild.FileSystem.CopyFile | build.js:25 | the file at `src` is written at `dest`, replacing any file there; nothing else changes |
| SiteBuild.FileSystem.CopyDir | build.js:11-28 | every file below the folder `src` is written at the same relative path below `dest`, whatever order the entries are read in; nothing else changes |
| SiteBuild.FileSystem.EmitPage | build.js:110-118 | when the source page exists, the given page transform applied to it with `US` for `us` and `AU` otherwise is written at `dist/<slug>/<file>`, replacing any file there; when it does not, nothing changes |
| SiteBuild.FileSystem.EmitRegion | build.js:108-119 | the folder `dist/<slug>` gets each listed page whose source exists, rendered by the given page transform with `US` for `us` and `AU` otherwise; the state is the initial files plus `RegionPages`, so nothing else changes |
| SiteBuild.FileSystem.EmitRegionPages | build.js:106-120 | both region folders are written, `us` then `au`; the state is the initial files plus `Emitted` |
| SiteBuild.FileSystem.Perform | build.js:122-142 | one of the copies after the region folders, with its outcome as `RunStep` defines it, including the cases that throw |
| SiteBuild.FileSystem.FinishBuild | build.js:122-142 | the four copies in order, stopping at the first that throws, as `Run` defines it |
| SiteBuild.FileSystem.ProductionBuild | build.js:105-142 | the outcome and the final files are those of `Build` |
| SiteBuild.PagePathFor | build.js:108-112 | the page `f` of folder `slug` is written at `dist/<slug>/<f>`; `RegionPagesAt` and `EmittedPages` state that the emitted pages are exactly these paths |
| SiteBuild.RegionPages | build.js:110-119 | the pages of one region folder, for the listed pages whose source exists; `RegionPagesAt` states its contents |
| SiteBuild.EmittedFor | build.js:107-120 | the pages of the listed region folders together; `EmittedPages` states its contents |
| SiteBuild.Emitted | build.js:105-120 | the pages of `dist/us` and `dist/au`, each rendered by `TransformHtmlForRegion`; `EmittedRegionPage` states its contents and `FileSystem.EmitRegionPages` is proved to write exactly it |
| SiteBuild.StepFails | build.js:122-142 | when a copy throws: `copyFileSync` of a missing source, `copyFileSync` of a folder, `copyDir` of a plain file; `BuildOk` states the resulting condition for the whole build |
| SiteBuild.StepWrite | build.js:122-142 | the files after a copy that does not throw: the file copied, or the folder merged as `CopyOf` says, or nothing for a missing optional source |
| SiteBuild.RunStep | build.js:122-142 | one copy step: when `StepFails` holds it throws and leaves the files as they were, otherwise it writes `StepWrite`; `FileSystem.Perform` is proved to follow it, throw cases included |
| SiteBuild.Run | build.js:122-142 | the copies in order, stopping at the first that throws with the files written so far; `RunOk` and `RunKeepsPut` state its outcome |
| SiteBuild.Build | build.js:105-142 | the region pages, then the four copies; `BuildOk`, `BuildRootFiles`, `BuildFolderCopy`, `BuildRegionPage` and `BuildOutsideDist` state its outcome, and `FileSystem.ProductionBuild` is proved to produce it |
| SiteBuild.RegionPagesAt | build.js:110-119 | a region folder holds a page for `f` exactly when `f` is listed and its source exists, and that page is the source rendered for the folder's region |
| SiteBuild.EmittedPages | build.js:106-120 | the region pages are exactly `dist/<slug>/<f>` for each region, each listed page `f` and each existing source, each the source transformed for that region |
| SiteBuild.EmittedRegionPage | build.js:113-116 | `dist/<slug>/<f>` exists exactly when the source `f` exists; its content is the source transformed with `US` for `us` and `AU` for `au` |
| SiteBuild.BuildRegionPage | build.js:106-142 | after the whole build, a present source's region page holds its transform; a missing source's page is left as it was |
| SiteBuild.BuildOutsideDist | build.js:105-142 | the build never creates, changes or removes a file outside `dist` |
| SiteBuild.BuildOk | build.js:122-142 | the build succeeds exactly when `index-redirect.html` exists as a file, `_redirects` is not a folder, and neither `img` nor `fonts` is a plain file; this holds in the model, which has no file/folder clashes as outcomes and skips a folder-valued page source (see "## Left out") |
| SiteBuild.BuildRootFiles | build.js:122-130 | a successful build has `dist/index.html` equal to `index-redirect.html`, and, when `_redirects` exists, `dist/_redirects` equal to it |
| SiteBuild.BuildFolderCopy | build.js:132-142 | a successful build holds every file of `img` and of `fonts` at the same relative path below `dist/img` and `dist/fonts` |
| SiteBuild.RunOk | build.js:122-142 | when no step writes where a step reads, a sequence of copies succeeds exactly when no step would throw on the initial files |
| SiteBuild.RunKeepsPut | build.js:122-142 | a file put by one step of a successful run survives when no later step writes at or above it |

## Left out

- Bundling with esbuild and the development watch mode (build.js:61-99, 145-151) are left out. They call a tool outside the program.
- `console.log` output is left out.
- The DOM half of the switcher script (build.js:53-54) is left out. The model inserts the script text verbatim; `RegionSwitch` models the computation on lines 48-52.
- File contents are strings. UTF-8 decoding, permissions and symbolic links are not modelled.
- Directories are implicit, so `mkdirSync` (build.js:13, 109) has nothing to model. An empty folder leaves no trace in the model.
  - In consequence, copying an empty `img` folder creates no `dist/img` here.
  - Likewise, when `img` is a plain file, `copyDir` creates `dist/img` before `readdirSync` throws, and the model does not show that folder.
- `readdirSync` order is not modelled. `CopyDir` takes the entries in an arbitrary order, and its result does not depend on that order.
- SiteBuild.FileSystem.ProductionBuild: failures caused by a file standing where the build needs a folder, or the reverse, are not modelled as outcomes. Examples are `dist` or `dist/us` existing as a file, or a folder at `dist/index.html`. The method requires that the files it writes do not clash with existing ones (`PrefixFree(files.Keys + BuildWrites(files))`) instead of returning `ok == false`.
- SiteBuild.FileSystem.EmitPage, SiteBuild.FileSystem.EmitRegion, SiteBuild.RegionPages, SiteBuild.Build and SiteBuild.BuildOk: a listed source page that exists as a folder is treated as missing and skipped. Node would throw from `readFileSync` (build.js:114), so `BuildOk` does not list that failure.
- SiteBuild.Build and SiteBuild.BuildOk: failures from a file standing where the build needs a folder, or the reverse (`mkdirSync` at build.js:109, `writeFileSync` at build.js:116, the copies at build.js:122-142), are not outcomes of `Build`. A write replaces what is at its path, so `BuildOk` does not list these failures either.
- The paths of the page copies are joined to the script's folder (`__dirname`). The `img` and `fonts` copies are relative to the working directory. The model assumes the build runs from the project folder, so both are the same.
- `CopyDir` carries a ghost `depth` bound on the nesting below its source. It only serves termination; `Perform` passes the longest path length.
- Regular expressions in general are not modelled. Each of the eight patterns the transform uses has its own matcher. Each has at most one match at a position, so backtracking is not needed.
