/**
 * The production branch of build.js after bundling: the per-region pages (build.js:106-120),
 * the root copies (build.js:122-130) and the recursive folder copies (copyDir, build.js:11-28,
 * used at build.js:132-142), on the file system of `FileTree`.
 */
module SiteBuild {
  import opened Common
  import opened FileTree
  import opened RegionMarker
  import opened RegionSwitch

  /** The ten pages of build.js:106, in order. */
  const HtmlFiles: seq<string> := ["index.html", "blogs.html", "chatbot.html", "faq.html",
    "insights.html", "pricing.html", "reach.html", "dms-management.html",
    "website-management.html", "photo-studio-360.html"]

  /** The region folders of build.js:107, in order. */
  const Regions: seq<string> := ["us", "au"]

  /**
   * The pages of one region folder, for the listed pages whose source exists, each made by
   * `render` from the source text and the region name. The build renders with
   * `TransformHtmlForRegion`; the facts about the folder structure hold for any renderer.
   */
  ghost function RegionPages(m: Files, slug: string, pages: seq<string>, render: (string, string) -> string): Files
    decreases |pages|
  {
    if pages == [] then map[]
    else
      var f := pages[|pages| - 1];
      var before := RegionPages(m, slug, pages[..|pages| - 1], render);
      if [f] in m then before[PagePathFor(slug, f) := render(m[[f]], RegionName(slug))] else before
  }

  /** Everything the emission loop writes, for the given region folders. */
  ghost function EmittedFor(m: Files, slugs: seq<string>, render: (string, string) -> string): Files
    decreases |slugs|
  {
    if slugs == [] then map[] else EmittedFor(m, slugs[..|slugs| - 1], render) + RegionPages(m, slugs[|slugs| - 1], HtmlFiles, render)
  }

  ghost function Emitted(m: Files): Files
  {
    EmittedFor(m, Regions, TransformHtmlForRegion)
  }

  // ---------------------------------------------------------------------------------------
  // Facts about the region pages

  /** The page written for `f` in folder `slug`. */
  function PagePathFor(slug: string, f: string): Path
  {
    ["dist", slug, f]
  }

  /** A region folder holds the transformed page of each listed source page that exists, and nothing else. */
  lemma {:induction false} RegionPagesAt(m: Files, slug: string, pages: seq<string>, render: (string, string) -> string, k: Path)
    ensures k in RegionPages(m, slug, pages, render) <==>
      |k| == 3 && k == PagePathFor(slug, k[2]) && k[2] in pages && [k[2]] in m
    ensures k in RegionPages(m, slug, pages, render) ==>
      RegionPages(m, slug, pages, render)[k] == render(m[[k[2]]], RegionName(slug))
    decreases |pages|
  {
    if pages != [] {
      var init := pages[..|pages| - 1];
      RegionPagesAt(m, slug, init, render, k);
      assert pages == init + [pages[|pages| - 1]];
    }
  }

  lemma RegionPagesStep(m: Files, slug: string, pages: seq<string>, render: (string, string) -> string, f: string)
    ensures RegionPages(m, slug, pages + [f], render) ==
      if [f] in m then RegionPages(m, slug, pages, render)[PagePathFor(slug, f) := render(m[[f]], RegionName(slug))]
      else RegionPages(m, slug, pages, render)
  {
    assert (pages + [f])[..|pages|] == pages;
  }

  /** The emission for several region folders: exactly the listed pages of those folders. */
  lemma {:induction false} EmittedForAt(m: Files, slugs: seq<string>, render: (string, string) -> string, k: Path)
    ensures k in EmittedFor(m, slugs, render) <==>
      |k| == 3 && k == PagePathFor(k[1], k[2]) && k[1] in slugs && k[2] in HtmlFiles && [k[2]] in m
    ensures k in EmittedFor(m, slugs, render) ==>
      EmittedFor(m, slugs, render)[k] == render(m[[k[2]]], RegionName(k[1]))
    decreases |slugs|
  {
    if slugs != [] {
      var init := slugs[..|slugs| - 1];
      var last := slugs[|slugs| - 1];
      EmittedForAt(m, init, render, k);
      RegionPagesAt(m, last, HtmlFiles, render, k);
      assert slugs == init + [last];
    }
  }

  /**
   * The pages the build writes: for each region folder and each listed page whose source
   * exists, the page transformed for that region; nothing else.
   */
  lemma EmittedPages(m: Files, k: Path)
    ensures k in Emitted(m) <==>
      exists slug, f :: slug in Regions && f in HtmlFiles && [f] in m && k == PagePathFor(slug, f)
    ensures k in Emitted(m) ==>
      Emitted(m)[k] == TransformHtmlForRegion(m[[k[2]]], RegionName(k[1]))
  {
    EmittedForAt(m, Regions, TransformHtmlForRegion, k);
    if k in Emitted(m) {
      assert k[1] in Regions && k[2] in HtmlFiles && [k[2]] in m && k == PagePathFor(k[1], k[2]);
    }
  }

  /** The US folder's pages are transformed for US, the AU folder's for AU. */
  lemma EmittedRegionPage(m: Files, slug: string, f: string)
    requires slug in Regions && f in HtmlFiles
    ensures PagePathFor(slug, f) in Emitted(m) <==> [f] in m
    ensures [f] in m ==>
      Emitted(m)[PagePathFor(slug, f)] == TransformHtmlForRegion(m[[f]], if slug == "us" then "US" else "AU")
  {
    EmittedForAt(m, Regions, TransformHtmlForRegion, PagePathFor(slug, f));
  }

  /** `a` and `b` hold the same top-level files: the same source pages. */
  ghost predicate SameSources(a: Files, b: Files)
  {
    forall f :: ([f] in a <==> [f] in b) && ([f] in a ==> a[[f]] == b[[f]])
  }

  /** Writing region folders leaves the top-level source pages as they were. */
  lemma EmittedSources(m: Files, fs: Files, slugs: seq<string>, render: (string, string) -> string)
    requires fs == m + EmittedFor(m, slugs, render)
    ensures SameSources(fs, m)
  {
    forall f ensures ([f] in fs <==> [f] in m) && ([f] in fs ==> fs[[f]] == m[[f]]) {
      EmittedForAt(m, slugs, render, [f]);
    }
  }

  lemma PageSources(m: Files, fs: Files, slug: string, pages: seq<string>, render: (string, string) -> string, f: string)
    requires fs == m + RegionPages(m, slug, pages, render)
    ensures ([f] in fs <==> [f] in m) && ([f] in fs ==> fs[[f]] == m[[f]])
  {
    RegionPagesAt(m, slug, pages, render, [f]);
  }

  /** A region folder only depends on the source pages. */
  lemma {:induction false} RegionPagesSameSources(a: Files, b: Files, slug: string, pages: seq<string>, render: (string, string) -> string)
    requires SameSources(a, b)
    ensures RegionPages(a, slug, pages, render) == RegionPages(b, slug, pages, render)
    decreases |pages|
  {
    if pages != [] {
      RegionPagesSameSources(a, b, slug, pages[..|pages| - 1], render);
      var f := pages[|pages| - 1];
      assert ([f] in a <==> [f] in b) && ([f] in a ==> a[[f]] == b[[f]]);
    }
  }

  /** Each region folder's pages are among the emitted ones. */
  lemma RegionPagesWithin(m: Files, slug: string, render: (string, string) -> string)
    requires slug in Regions
    ensures RegionPages(m, slug, HtmlFiles, render).Keys <= EmittedFor(m, Regions, render).Keys
  {
    forall k | k in RegionPages(m, slug, HtmlFiles, render) ensures k in EmittedFor(m, Regions, render) {
      RegionPagesAt(m, slug, HtmlFiles, render, k);
      EmittedForAt(m, Regions, render, k);
    }
  }

  lemma UnionUpdate(a: Files, b: Files, k: Path, v: string)
    ensures (a + b)[k := v] == a + b[k := v]
  {
  }

  lemma UnionAssoc(a: Files, b: Files, c: Files)
    ensures a + b + c == a + (b + c)
  {
  }

  /** One turn of the page loop: the page for `f` joins the folder when its source exists. */
  lemma EmitPageStep(m: Files, fs: Files, slug: string, pages: seq<string>, render: (string, string) -> string, f: string)
    requires fs == m + RegionPages(m, slug, pages, render)
    ensures [f] in fs <==> [f] in m
    ensures [f] in fs ==>
      fs[PagePathFor(slug, f) := render(fs[[f]], RegionName(slug))] == m + RegionPages(m, slug, pages + [f], render)
    ensures [f] !in fs ==> fs == m + RegionPages(m, slug, pages + [f], render)
  {
    PageSources(m, fs, slug, pages, render, f);
    RegionPagesStep(m, slug, pages, render, f);
    if [f] in m {
      UnionUpdate(m, RegionPages(m, slug, pages, render), PagePathFor(slug, f), render(m[[f]], RegionName(slug)));
    }
  }

  /** One turn of the region loop: the folder's pages join the emitted ones. */
  lemma EmitRegionStep(m: Files, fs: Files, slugs: seq<string>, slug: string, render: (string, string) -> string)
    requires fs == m + EmittedFor(m, slugs, render)
    ensures RegionPages(fs, slug, HtmlFiles, render) == RegionPages(m, slug, HtmlFiles, render)
    ensures fs + RegionPages(fs, slug, HtmlFiles, render) == m + EmittedFor(m, slugs + [slug], render)
  {
    EmittedSources(m, fs, slugs, render);
    RegionPagesSameSources(fs, m, slug, HtmlFiles, render);
    assert (slugs + [slug])[..|slugs|] == slugs;
    UnionAssoc(m, EmittedFor(m, slugs, render), RegionPages(m, slug, HtmlFiles, render));
  }

  // ---------------------------------------------------------------------------------------
  // The copy steps after the region folders

  datatype Outcome = Outcome(ok: bool, files: Files)

  /** The three kinds of copy that build.js:122-142 performs. */
  datatype Step =
    | CopyRequired(src: Path, dest: Path)        // copyFileSync(src, dest), not guarded
    | CopyIfPresent(src: Path, dest: Path)       // if (existsSync(src)) copyFileSync(src, dest)
    | CopyFolderIfPresent(src: Path, dest: Path) // if (existsSync(src)) copyDir(src, dest)

  /** The steps of build.js:122-142, in order. */
  const FinishSteps: seq<Step> := [
    CopyRequired(["index-redirect.html"], ["dist", "index.html"]),
    CopyIfPresent(["_redirects"], ["dist", "_redirects"]),
    CopyFolderIfPresent(["img"], ["dist", "img"]),
    CopyFolderIfPresent(["fonts"], ["dist", "fonts"])]

  /**
   * The step throws: `copyFileSync` of a missing source or of a folder, or `copyDir` of a plain
   * file (its `readdirSync` fails).
   */
  predicate StepFails(s: Step, a: Files)
  {
    match s
    case CopyRequired(src, _) => src !in a
    case CopyIfPresent(src, _) => IsDir(a, src)
    case CopyFolderIfPresent(src, _) => src in a
  }

  /** The files after a step that does not throw. */
  ghost function StepWrite(s: Step, a: Files): Files
    requires !StepFails(s, a)
  {
    match s
    case CopyRequired(src, dest) => a[dest := a[src]]
    case CopyIfPresent(src, dest) => if src in a then a[dest := a[src]] else a
    case CopyFolderIfPresent(src, dest) => if IsDir(a, src) then a + CopyOf(a, src, dest) else a
  }

  ghost function RunStep(s: Step, a: Files): Outcome
  {
    if StepFails(s, a) then Outcome(false, a) else Outcome(true, StepWrite(s, a))
  }

  /** Runs the steps in order; the first step that throws ends the run with the files written so far. */
  ghost function Run(steps: seq<Step>, a: Files): Outcome
    decreases |steps|
  {
    if steps == [] then Outcome(true, a)
    else
      var o := RunStep(steps[0], a);
      if !o.ok then o else Run(steps[1..], o.files)
  }

  /** The production steps of build.js after bundling. */
  ghost function Build(m: Files): Outcome
  {
    Run(FinishSteps, m + Emitted(m))
  }

  /** The paths a step writes, were it run on `a`. */
  ghost function StepKeys(s: Step, a: Files): set<Path>
  {
    match s
    case CopyRequired(src, dest) => if src in a then {dest} else {}
    case CopyIfPresent(src, dest) => if src in a then {dest} else {}
    case CopyFolderIfPresent(src, dest) => if IsDir(a, src) then CopyOf(a, src, dest).Keys else {}
  }

  /** Every path the build may write. */
  ghost function BuildWrites(m: Files): set<Path>
  {
    var pages := m + Emitted(m);
    Emitted(m).Keys + StepKeys(FinishSteps[0], pages) + StepKeys(FinishSteps[1], pages)
      + StepKeys(FinishSteps[2], pages) + StepKeys(FinishSteps[3], pages)
  }

  /** `a` and `b` agree everywhere outside `d`. */
  ghost predicate SameOutside(a: Files, b: Files, d: Path)
  {
    forall p :: !IsPrefix(d, p) ==> (p in a <==> p in b) && (p in a ==> a[p] == b[p])
  }

  /** A bound on the length of every path in `s`. */
  ghost function MaxLen(s: set<Path>): (n: nat)
    ensures forall p :: p in s ==> |p| <= n
    decreases s
  {
    if s == {} then 0
    else
      var p :| p in s;
      var rest := MaxLen(s - {p});
      if |p| > rest then |p| else rest
  }

  /** The sources of the steps are top-level entries other than `dist`; the targets are entries of `dist`. */
  predicate TopLevelStep(s: Step)
  {
    |s.src| == 1 && s.src[0] != "dist" && |s.dest| == 2 && s.dest[0] == "dist"
  }

  lemma FinishStepsTopLevel()
    ensures forall i | 0 <= i < |FinishSteps| :: TopLevelStep(FinishSteps[i])
  {
  }

  lemma PagePathInDist(slug: string, f: string)
    ensures IsPrefix(["dist"], PagePathFor(slug, f))
  {
    assert PagePathFor(slug, f)[..1] == ["dist"];
  }

  /** The region folders only write below `dist`. */
  lemma EmittedForOutside(m: Files, slugs: seq<string>, render: (string, string) -> string)
    ensures SameOutside(m + EmittedFor(m, slugs, render), m, ["dist"])
  {
    forall p | p in EmittedFor(m, slugs, render) ensures IsPrefix(["dist"], p) {
      EmittedForAt(m, slugs, render, p);
      PagePathInDist(p[1], p[2]);
    }
  }

  /** Outside `dist`, a top-level entry is as the build found it. */
  lemma TopLevelUnchanged(m: Files, a: Files, src: Path, dest: Path)
    requires SameOutside(a, m, ["dist"]) && |src| == 1 && src[0] != "dist"
    ensures AgreeBelow(a, m, src)
    ensures IsDir(a, src) <==> IsDir(m, src)
    ensures CopyOf(a, src, dest) == CopyOf(m, src, dest)
  {
    forall p | IsPrefix(src, p) ensures !IsPrefix(["dist"], p) {
      assert p[0] == src[0];
    }
    AgreeIsDir(a, m, src);
    AgreeCopy(a, m, src, dest);
  }

  lemma NotBelowDist(d: Path, p: Path)
    requires IsPrefix(["dist"], d) && !IsPrefix(["dist"], p)
    ensures !IsPrefix(d, p)
  {
    if IsPrefix(d, p) {
      PrefixTrans(["dist"], d, p);
    }
  }

  // ---------------------------------------------------------------------------------------
  // Facts about the steps

  /** A step only writes at or below its target. */
  lemma StepAt(s: Step, a: Files, p: Path)
    requires !StepFails(s, a) && !IsPrefix(s.dest, p)
    ensures (p in StepWrite(s, a) <==> p in a) && (p in a ==> StepWrite(s, a)[p] == a[p])
  {
    assert IsPrefix(s.dest, s.dest);
    if s.CopyFolderIfPresent? && p in CopyOf(a, s.src, s.dest) {
      CopyOfKey(a, s.src, s.dest, p);
    }
  }

  /** Steps whose targets do not cover `p` leave `p` as it was. */
  lemma {:induction false} RunAt(steps: seq<Step>, a: Files, p: Path)
    requires forall i | 0 <= i < |steps| :: !IsPrefix(steps[i].dest, p)
    ensures (p in Run(steps, a).files <==> p in a) && (p in a ==> Run(steps, a).files[p] == a[p])
    decreases |steps|
  {
    if steps != [] && !StepFails(steps[0], a) {
      StepAt(steps[0], a, p);
      RunAt(steps[1..], StepWrite(steps[0], a), p);
    }
  }

  /** A step whose target lies inside `dist` keeps everything outside `dist`. */
  lemma StepOutside(m: Files, s: Step, a: Files)
    requires !StepFails(s, a) && TopLevelStep(s) && SameOutside(a, m, ["dist"])
    ensures SameOutside(StepWrite(s, a), m, ["dist"])
  {
    assert s.dest[..1] == ["dist"];
    forall p | !IsPrefix(["dist"], p) ensures !IsPrefix(s.dest, p) {
      NotBelowDist(s.dest, p);
    }
    forall p | !IsPrefix(["dist"], p) ensures (p in StepWrite(s, a) <==> p in a) && (p in a ==> StepWrite(s, a)[p] == a[p]) {
      StepAt(s, a, p);
    }
  }

  /** Whether a step throws, and what it writes, depend only on what lies at or below its source. */
  lemma StepAgree(s: Step, a: Files, b: Files)
    requires AgreeBelow(a, b, s.src)
    ensures StepFails(s, a) <==> StepFails(s, b)
    ensures StepKeys(s, a) == StepKeys(s, b)
  {
    assert IsPrefix(s.src, s.src);
    AgreeIsDir(a, b, s.src);
    AgreeCopy(a, b, s.src, s.dest);
  }

  /** No step writes where a step reads. */
  ghost predicate Independent(steps: seq<Step>)
  {
    forall i, j | 0 <= i < |steps| && 0 <= j < |steps| :: Apart(steps[i].dest, steps[j].src)
  }

  lemma StepKeepsSource(s: Step, a: Files, src: Path)
    requires !StepFails(s, a) && Apart(s.dest, src)
    ensures AgreeBelow(StepWrite(s, a), a, src)
  {
    forall p | IsPrefix(src, p) ensures (p in StepWrite(s, a) <==> p in a) && (p in a ==> StepWrite(s, a)[p] == a[p]) {
      ApartBelow(src, s.dest, p);
      StepAt(s, a, p);
    }
  }

  /** The run succeeds exactly when no step would throw on the initial files. */
  lemma {:induction false} RunOk(steps: seq<Step>, a: Files)
    requires Independent(steps)
    ensures Run(steps, a).ok <==> forall i | 0 <= i < |steps| :: !StepFails(steps[i], a)
    decreases |steps|
  {
    if steps != [] && !StepFails(steps[0], a) {
      var b := StepWrite(steps[0], a);
      var rest := steps[1..];
      assert Independent(rest) by {
        forall i, j | 0 <= i < |rest| && 0 <= j < |rest| ensures Apart(rest[i].dest, rest[j].src) {
          assert rest[i] == steps[i + 1] && rest[j] == steps[j + 1];
        }
      }
      RunOk(rest, b);
      forall j | 0 <= j < |rest| ensures StepFails(rest[j], b) <==> StepFails(rest[j], a) {
        assert rest[j] == steps[j + 1];
        StepKeepsSource(steps[0], a, rest[j].src);
        StepAgree(rest[j], b, a);
      }
      assert forall i | 0 <= i < |steps| :: steps[i] == if i == 0 then steps[0] else rest[i - 1];
    }
  }

  /** The file a step puts at `p`, read from `a`. */
  ghost predicate StepPuts(s: Step, a: Files, p: Path, v: string)
  {
    match s
    case CopyRequired(src, dest) => p == dest && src in a && v == a[src]
    case CopyIfPresent(src, dest) => p == dest && src in a && v == a[src]
    case CopyFolderIfPresent(src, dest) =>
      IsPrefix(dest, p) && src + p[|dest|..] in a && v == a[src + p[|dest|..]]
  }

  lemma StepPutsAt(s: Step, a: Files, p: Path, v: string)
    requires !StepFails(s, a) && StepPuts(s, a, p, v)
    ensures p in StepWrite(s, a) && StepWrite(s, a)[p] == v
  {
    if s.CopyFolderIfPresent? {
      var r := p[|s.dest|..];
      assert p == s.dest + r;
      CopyOfAt(a, s.src, s.dest, r);
      ConcatEmpty(s.src, r);
      BelowIsDir(a, s.src, r);
    }
  }

  lemma ConcatEmpty(x: Path, r: Path)
    ensures r == [] ==> x + r == x
  {
  }

  lemma BelowIsDir(a: Files, d: Path, r: Path)
    ensures d + r in a && r != [] ==> IsDir(a, d)
  {
    assert IsPrefix(d, d + r);
  }

  lemma StepPutsAgree(s: Step, a: Files, b: Files, p: Path, v: string)
    requires AgreeBelow(a, b, s.src)
    ensures StepPuts(s, a, p, v) <==> StepPuts(s, b, p, v)
  {
    assert IsPrefix(s.src, s.src);
    if s.CopyFolderIfPresent? && IsPrefix(s.dest, p) {
      assert IsPrefix(s.src, s.src + p[|s.dest|..]);
    }
  }

  /** A file put by one step of a successful run survives when no later step writes there. */
  lemma {:induction false} RunKeepsPut(steps: seq<Step>, a: Files, i: nat, p: Path, v: string)
    requires Independent(steps) && Run(steps, a).ok && i < |steps|
    requires StepPuts(steps[i], a, p, v)
    requires forall j | i < j < |steps| :: !IsPrefix(steps[j].dest, p)
    ensures p in Run(steps, a).files && Run(steps, a).files[p] == v
    decreases |steps|
  {
    var b := StepWrite(steps[0], a);
    var rest := steps[1..];
    if i == 0 {
      StepPutsAt(steps[0], a, p, v);
      forall j | 0 <= j < |rest| ensures !IsPrefix(rest[j].dest, p) {
        assert rest[j] == steps[j + 1];
      }
      RunAt(rest, b, p);
    } else {
      assert Independent(rest) by {
        forall k, j | 0 <= k < |rest| && 0 <= j < |rest| ensures Apart(rest[k].dest, rest[j].src) {
          assert rest[k] == steps[k + 1] && rest[j] == steps[j + 1];
        }
      }
      assert rest[i - 1] == steps[i];
      StepKeepsSource(steps[0], a, steps[i].src);
      StepPutsAgree(steps[i], b, a, p, v);
      forall j | i - 1 < j < |rest| ensures !IsPrefix(rest[j].dest, p) {
        assert rest[j] == steps[j + 1];
      }
      RunKeepsPut(rest, b, i - 1, p, v);
    }
  }

  /** Steps whose targets lie inside `dist` keep everything outside `dist`. */
  lemma {:induction false} RunOutside(steps: seq<Step>, a: Files, m: Files)
    requires forall i | 0 <= i < |steps| :: TopLevelStep(steps[i])
    requires SameOutside(a, m, ["dist"])
    ensures SameOutside(Run(steps, a).files, m, ["dist"])
    decreases |steps|
  {
    if steps != [] && !StepFails(steps[0], a) {
      StepOutside(m, steps[0], a);
      assert forall i | 0 <= i < |steps[1..]| :: steps[1..][i] == steps[i + 1];
      RunOutside(steps[1..], StepWrite(steps[0], a), m);
    }
  }

  /** Unrolls `Run` by one step. */
  lemma RunFrom(steps: seq<Step>, k: nat, a: Files)
    requires k < |steps|
    ensures Run(steps[k..], a) ==
      if !RunStep(steps[k], a).ok then RunStep(steps[k], a) else Run(steps[k + 1..], RunStep(steps[k], a).files)
  {
    assert steps[k..][0] == steps[k];
    assert steps[k..][1..] == steps[k + 1..];
  }

  lemma FinishStepsIndependent()
    ensures Independent(FinishSteps)
  {
    forall i, j | 0 <= i < |FinishSteps| && 0 <= j < |FinishSteps| ensures Apart(FinishSteps[i].dest, FinishSteps[j].src) {
      assert FinishSteps[i].dest[0] == "dist" && FinishSteps[j].src[0] != "dist";
      assert |FinishSteps[i].dest| == 2 && |FinishSteps[j].src| == 1;
    }
  }

  /** Outside `dist` the files after the region folders are the initial ones. */
  lemma PagesOutside(m: Files)
    ensures SameOutside(m + Emitted(m), m, ["dist"])
  {
    EmittedForOutside(m, Regions, TransformHtmlForRegion);
  }

  // ---------------------------------------------------------------------------------------
  // What the build does

  /** The build never changes, creates or removes a file outside `dist`. */
  lemma BuildOutsideDist(m: Files)
    ensures SameOutside(Build(m).files, m, ["dist"])
  {
    PagesOutside(m);
    FinishStepsTopLevel();
    RunOutside(FinishSteps, m + Emitted(m), m);
  }

  /**
   * Whatever else happens, each region page whose source exists holds that source transformed
   * for the region; a page whose source is missing is skipped, so the build leaves that path as
   * it found it.
   */
  lemma BuildRegionPage(m: Files, slug: string, f: string)
    requires slug in Regions && f in HtmlFiles
    ensures [f] in m ==>
      PagePathFor(slug, f) in Build(m).files && Build(m).files[PagePathFor(slug, f)] == TransformHtmlForRegion(m[[f]], RegionName(slug))
    ensures [f] !in m ==> (PagePathFor(slug, f) in Build(m).files <==> PagePathFor(slug, f) in m)
    ensures [f] !in m && PagePathFor(slug, f) in m ==> Build(m).files[PagePathFor(slug, f)] == m[PagePathFor(slug, f)]
  {
    var k := PagePathFor(slug, f);
    forall i | 0 <= i < |FinishSteps| ensures !IsPrefix(FinishSteps[i].dest, k) {
      assert k[1] == slug && FinishSteps[i].dest[1] != slug;
    }
    RunAt(FinishSteps, m + Emitted(m), k);
    EmittedForAt(m, Regions, TransformHtmlForRegion, k);
  }

  /** The copy steps succeed on `a` exactly when they would succeed on `m`, which agrees with it outside `dist`. */
  lemma FinishOk(m: Files, a: Files)
    requires SameOutside(a, m, ["dist"])
    ensures Run(FinishSteps, a).ok <==>
      ["index-redirect.html"] in m && !IsDir(m, ["_redirects"]) && ["img"] !in m && ["fonts"] !in m
  {
    FinishStepsIndependent();
    RunOk(FinishSteps, a);
    var s0, s1, s2, s3 := FinishSteps[0], FinishSteps[1], FinishSteps[2], FinishSteps[3];
    StepFailsAgree(m, a, s0);
    StepFailsAgree(m, a, s1);
    StepFailsAgree(m, a, s2);
    StepFailsAgree(m, a, s3);
    NoneOfFourFails(FinishSteps, a);
    assert !StepFails(s0, m) <==> ["index-redirect.html"] in m;
    assert !StepFails(s1, m) <==> !IsDir(m, ["_redirects"]);
    assert !StepFails(s2, m) <==> ["img"] !in m;
    assert !StepFails(s3, m) <==> ["fonts"] !in m;
  }

  lemma NoneOfFourFails(steps: seq<Step>, a: Files)
    requires |steps| == 4
    ensures (forall i | 0 <= i < |steps| :: !StepFails(steps[i], a)) <==>
      !StepFails(steps[0], a) && !StepFails(steps[1], a) && !StepFails(steps[2], a) && !StepFails(steps[3], a)
  {
  }

  /** Whether a top-level step fails depends only on files outside `dist`. */
  lemma StepFailsAgree(m: Files, a: Files, s: Step)
    requires SameOutside(a, m, ["dist"]) && TopLevelStep(s)
    ensures StepFails(s, a) <==> StepFails(s, m)
  {
    TopLevelUnchanged(m, a, s.src, s.dest);
    StepAgree(s, a, m);
  }

  /** A successful run keeps the copies of the two single files, which no later step overwrites. */
  lemma FinishFileCopy(a: Files, i: nat)
    requires Run(FinishSteps, a).ok && i < 2 && FinishSteps[i].src in a
    ensures FinishSteps[i].dest in Run(FinishSteps, a).files
    ensures Run(FinishSteps, a).files[FinishSteps[i].dest] == a[FinishSteps[i].src]
  {
    FinishStepsIndependent();
    var s := FinishSteps[i];
    assert StepPuts(s, a, s.dest, a[s.src]);
    LaterDestsApart(i, s.dest);
    RunKeepsPut(FinishSteps, a, i, s.dest, a[s.src]);
  }

  lemma RootFilesOutsideDist()
    ensures !IsPrefix(["dist"], ["index-redirect.html"]) && !IsPrefix(["dist"], ["_redirects"])
  {
    assert "dist"[0] != "index-redirect.html"[0] && "dist"[0] != "_redirects"[0];
    FirstSegmentsApart(["dist"], ["index-redirect.html"]);
    FirstSegmentsApart(["dist"], ["_redirects"]);
  }

  lemma FinishRootFiles(m: Files, a: Files)
    requires SameOutside(a, m, ["dist"]) && Run(FinishSteps, a).ok
    ensures ["index-redirect.html"] in m
    ensures ["dist", "index.html"] in Run(FinishSteps, a).files
    ensures Run(FinishSteps, a).files[["dist", "index.html"]] == m[["index-redirect.html"]]
    ensures ["_redirects"] in m ==>
      ["dist", "_redirects"] in Run(FinishSteps, a).files && Run(FinishSteps, a).files[["dist", "_redirects"]] == m[["_redirects"]]
  {
    FinishOk(m, a);
    RootFilesOutsideDist();
    FinishFileCopy(a, 0);
    if ["_redirects"] in m {
      FinishFileCopy(a, 1);
    }
  }

  /** No later step of the build writes at or above the target `p` of step `i`. */
  lemma LaterDestsApart(i: nat, p: Path)
    requires i < |FinishSteps| && |p| >= 2 && p[..2] == FinishSteps[i].dest
    ensures forall j | i < j < |FinishSteps| :: !IsPrefix(FinishSteps[j].dest, p)
  {
    forall j | i < j < |FinishSteps| ensures !IsPrefix(FinishSteps[j].dest, p) {
      assert FinishSteps[j].dest[1] != FinishSteps[i].dest[1];
    }
  }

  lemma FinishFolderCopy(m: Files, a: Files, name: string, r: Path)
    requires SameOutside(a, m, ["dist"]) && Run(FinishSteps, a).ok
    requires (name == "img" || name == "fonts") && [name] + r in m
    ensures ["dist", name] + r in Run(FinishSteps, a).files
    ensures Run(FinishSteps, a).files[["dist", name] + r] == m[[name] + r]
  {
    var p := ["dist", name] + r;
    FinishStepsIndependent();
    assert ([name] + r)[0] == name && "dist"[0] != name[0];
    FirstSegmentsApart(["dist"], [name] + r);
    assert [name] + r in a && a[[name] + r] == m[[name] + r];
    assert p[2..] == r && p[..2] == ["dist", name];
    var i := if name == "img" then 2 else 3;
    assert FinishSteps[i] == CopyFolderIfPresent([name], ["dist", name]);
    assert StepPuts(FinishSteps[i], a, p, m[[name] + r]);
    LaterDestsApart(i, p);
    RunKeepsPut(FinishSteps, a, i, p, m[[name] + r]);
  }

  /** The build succeeds exactly when the geo redirect page exists and no copied source has the wrong kind. */
  lemma BuildOk(m: Files)
    ensures Build(m).ok <==>
      ["index-redirect.html"] in m && !IsDir(m, ["_redirects"]) && ["img"] !in m && ["fonts"] !in m
  {
    PagesOutside(m);
    FinishOk(m, m + Emitted(m));
  }

  /** A successful build holds the geo redirect page as `dist/index.html` and a copy of the Netlify rules. */
  lemma BuildRootFiles(m: Files)
    requires Build(m).ok
    ensures ["index-redirect.html"] in m
    ensures ["dist", "index.html"] in Build(m).files && Build(m).files[["dist", "index.html"]] == m[["index-redirect.html"]]
    ensures ["_redirects"] in m ==>
      ["dist", "_redirects"] in Build(m).files && Build(m).files[["dist", "_redirects"]] == m[["_redirects"]]
  {
    PagesOutside(m);
    FinishRootFiles(m, m + Emitted(m));
  }

  /** A successful build holds, below `dist/img` and `dist/fonts`, every file of `img` and `fonts`. */
  lemma BuildFolderCopy(m: Files, name: string, r: Path)
    requires Build(m).ok && (name == "img" || name == "fonts") && [name] + r in m
    ensures ["dist", name] + r in Build(m).files && Build(m).files[["dist", name] + r] == m[[name] + r]
  {
    PagesOutside(m);
    FinishFolderCopy(m, m + Emitted(m), name, r);
  }

  // ---------------------------------------------------------------------------------------
  // The file system and the build

  class FileSystem {
    var files: Files

    /** The root is a folder, and no file lies below another. */
    ghost predicate Valid()
      reads this
    {
      [] !in files && PrefixFree(files.Keys)
    }

    constructor (initial: Files)
      requires [] !in initial && PrefixFree(initial.Keys)
      ensures Valid() && files == initial
    {
      files := initial;
    }

    /** `copyFileSync(src, dest)`: the file at `src` is written at `dest`, replacing any file there. */
    method CopyFile(src: Path, dest: Path)
      requires Valid() && src in files && dest != []
      requires PrefixFree(files.Keys + {dest})
      modifies this
      ensures Valid() && files == old(files)[dest := old(files)[src]]
    {
      PrefixFreeSubset(files.Keys + {dest}, files.Keys + {dest});
      files := files[dest := files[src]];
    }

    /**
     * `copyDir(src, dest)`: every file below the folder `src` is written at the same relative
     * path below `dest`. The entries are visited in an unspecified order; `depth` bounds the
     * nesting below `src` and only serves termination.
     */
    method CopyDir(src: Path, dest: Path, ghost depth: nat)
      requires Valid() && IsDir(files, src) && src !in files && Apart(src, dest)
      requires forall p :: p in files && IsPrefix(src, p) ==> |p| <= |src| + depth
      requires PrefixFree(files.Keys + CopyOf(files, src, dest).Keys)
      modifies this
      ensures Valid() && files == old(files) + CopyOf(old(files), src, dest)
      decreases depth
    {
      ghost var m := files;
      assert dest != [] by {
        assert IsPrefix([], src);
      }
      CopyOfNonEmpty(m, src, dest);
      var names := Entries(files, src);
      ghost var done: set<string> := {};
      while names != {}
        invariant names !! done && names + done == Entries(m, src)
        invariant CopiedBelow(m, files, src, dest, done)
        invariant Valid()
        decreases names
      {
        var name :| name in names;
        ghost var fs := files;
        if IsDir(files, src + [name]) {
          DirEntryReady(m, fs, src, dest, done, name, depth);
          CopyDir(src + [name], dest + [name], depth - 1);
          DirStep(m, fs, src, dest, done, name);
        } else {
          FileEntryReady(m, fs, src, dest, done, name);
          CopyFile(src + [name], dest + [name]);
          FileStep(m, fs, src, dest, done, name);
        }
        names := names - {name};
        done := done + {name};
      }
      CopiedAllEntries(m, files, src, dest);
    }

    /**
     * One page of a region folder: when the source exists, it is rendered with the folder's
     * region name and written into the folder. The build renders with `TransformHtmlForRegion`.
     */
    method EmitPage(slug: string, file: string, render: (string, string) -> string)
      requires Valid() && ([file] in files ==> PrefixFree(files.Keys + {PagePathFor(slug, file)}))
      modifies this
      ensures Valid()
      ensures [file] in old(files) ==>
        files == old(files)[PagePathFor(slug, file) := render(old(files)[[file]], RegionName(slug))]
      ensures [file] !in old(files) ==> files == old(files)
    {
      if [file] in files {
        var content := files[[file]];
        var region := RegionName(slug);
        PrefixFreeSubset(files.Keys + {PagePathFor(slug, file)}, files.Keys + {PagePathFor(slug, file)});
        files := files[PagePathFor(slug, file) := render(content, region)];
      }
    }

    /** One region folder: each listed page that exists, rendered for the folder's region. */
    method EmitRegion(slug: string, render: (string, string) -> string)
      requires Valid() && PrefixFree(files.Keys + RegionPages(files, slug, HtmlFiles, render).Keys)
      modifies this
      ensures Valid() && files == old(files) + RegionPages(old(files), slug, HtmlFiles, render)
    {
      ghost var m := files;
      ghost var u := m.Keys + RegionPages(m, slug, HtmlFiles, render).Keys;
      var j := 0;
      ghost var done: seq<string> := [];
      while j < |HtmlFiles|
        invariant 0 <= j <= |HtmlFiles| && done == HtmlFiles[..j]
        invariant files == m + RegionPages(m, slug, done, render)
        invariant Valid() && files.Keys <= u
      {
        var file := HtmlFiles[j];
        EmitPageStep(m, files, slug, done, render, file);
        if [file] in files {
          RegionPagesAt(m, slug, HtmlFiles, render, PagePathFor(slug, file));
          PrefixFreeSubset(files.Keys + {PagePathFor(slug, file)}, u);
        }
        EmitPage(slug, file, render);
        TakeStep(HtmlFiles, j);
        done := done + [file];
        j := j + 1;
      }
      assert done == HtmlFiles;
    }

    /** The region folders of build.js, in order. */
    method EmitRegionPages()
      requires Valid() && PrefixFree(files.Keys + Emitted(files).Keys)
      modifies this
      ensures Valid() && files == old(files) + Emitted(old(files))
    {
      ghost var m := files;
      ghost var u := m.Keys + Emitted(m).Keys;
      var i := 0;
      while i < |Regions|
        invariant 0 <= i <= |Regions|
        invariant files == m + EmittedFor(m, Regions[..i], TransformHtmlForRegion)
        invariant Valid() && files.Keys <= u
      {
        var slug := Regions[i];
        EmitRegionStep(m, files, Regions[..i], slug, TransformHtmlForRegion);
        RegionPagesWithin(m, slug, TransformHtmlForRegion);
        PrefixFreeSubset(files.Keys + RegionPages(files, slug, HtmlFiles, TransformHtmlForRegion).Keys, u);
        EmitRegion(slug, TransformHtmlForRegion);
        TakeStep(Regions, i);
        i := i + 1;
      }
      assert Regions[..i] == Regions;
    }

    /**
     * The production branch after bundling: the region folders, the geo redirect page, the
     * Netlify redirects, then the `img` and `fonts` folders. `ok` is false when a step throws.
     */
    method ProductionBuild() returns (ok: bool)
      requires Valid() && PrefixFree(files.Keys + BuildWrites(files))
      modifies this
      ensures Valid() && Build(old(files)) == Outcome(ok, files)
    {
      ghost var m := files;
      ghost var u := m.Keys + BuildWrites(m);
      PrefixFreeSubset(files.Keys + Emitted(files).Keys, u);
      EmitRegionPages();
      PagesOutside(m);
      ok := FinishBuild(u);
    }

    /** build.js:122-142, on the files as the region folders left them. */
    method FinishBuild(ghost u: set<Path>) returns (ok: bool)
      requires Valid() && PrefixFree(u) && files.Keys <= u
      requires StepKeys(FinishSteps[0], files) <= u && StepKeys(FinishSteps[1], files) <= u
      requires StepKeys(FinishSteps[2], files) <= u && StepKeys(FinishSteps[3], files) <= u
      modifies this
      ensures Valid() && Run(FinishSteps, old(files)) == Outcome(ok, files)
    {
      ghost var a := files;
      FinishStepsTopLevel();
      RunFrom(FinishSteps, 0, files);
      ok := Perform(CopyRequired(["index-redirect.html"], ["dist", "index.html"]), a, u);
      if !ok {
        return;
      }
      RunFrom(FinishSteps, 1, files);
      ok := Perform(CopyIfPresent(["_redirects"], ["dist", "_redirects"]), a, u);
      if !ok {
        return;
      }
      RunFrom(FinishSteps, 2, files);
      ok := Perform(CopyFolderIfPresent(["img"], ["dist", "img"]), a, u);
      if !ok {
        return;
      }
      RunFrom(FinishSteps, 3, files);
      ok := Perform(CopyFolderIfPresent(["fonts"], ["dist", "fonts"]), a, u);
      assert FinishSteps[4..] == [];
    }

    /**
     * One copy step. `a` is the state the steps started from: the step reads what lies below
     * its source, which no step writes, so what it may write is what it would write on `a`.
     */
    method Perform(s: Step, ghost a: Files, ghost u: set<Path>) returns (ok: bool)
      requires Valid() && TopLevelStep(s) && SameOutside(files, a, ["dist"])
      requires PrefixFree(u) && files.Keys <= u && StepKeys(s, a) <= u
      modifies this
      ensures RunStep(s, old(files)) == Outcome(ok, files)
      ensures Valid() && SameOutside(files, a, ["dist"]) && files.Keys <= u
    {
      TopLevelUnchanged(a, files, s.src, s.dest);
      StepAgree(s, files, a);
      ghost var before := files;
      ok := true;
      match s
      case CopyRequired(src, dest) =>
        if src !in files {
          return false;
        }
        PrefixFreeSubset(files.Keys + {dest}, u);
        CopyFile(src, dest);
        StepOutside(a, s, before);
      case CopyIfPresent(src, dest) =>
        if src in files || IsDir(files, src) {
          if IsDir(files, src) {
            return false;
          }
          PrefixFreeSubset(files.Keys + {dest}, u);
          CopyFile(src, dest);
        }
        StepOutside(a, s, before);
      case CopyFolderIfPresent(src, dest) =>
        if src in files || IsDir(files, src) {
          if src in files {
            return false;
          }
          PrefixFreeSubset(files.Keys + CopyOf(files, src, dest).Keys, u);
          CopyDir(src, dest, MaxLen(files.Keys));
        }
        StepOutside(a, s, before);
    }
  }
}
