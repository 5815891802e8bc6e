/**
 * The computation inside the region-switcher script (build.js:48-52): from the page's
 * pathname and the `data-region` attribute of its `<html>` element, the link to the same
 * page in the other region's folder and the label of that link.
 */
module RegionSwitch {
  import opened Common

  /** The region name build.js writes into `data-region` for a region folder. */
  function RegionName(slug: string): (r: string)
    ensures r == "US" || r == "AU"
    ensures r == "US" <==> slug == "us"
  {
    if slug == "us" then "US" else "AU"
  }

  /** `pathname.replace(/^\/(us|au)\/?/, '')`: drops a leading `/us` or `/au` and one `/` after it. */
  function StripRegionPrefix(pathname: string): (r: string)
    ensures |r| <= |pathname| && r == pathname[|pathname| - |r|..]
    ensures StartsWith(pathname, "/us") || StartsWith(pathname, "/au") ==>
              (|pathname| - |r| == 3 || |pathname| - |r| == 4) &&
              (|pathname| - |r| == 4 <==> StartsWith(pathname[3..], "/"))
    ensures !(StartsWith(pathname, "/us") || StartsWith(pathname, "/au")) ==> r == pathname
  {
    if StartsWith(pathname, "/us") || StartsWith(pathname, "/au") then
      var rest := pathname[3..];
      if StartsWith(rest, "/") then rest[1..] else rest
    else pathname
  }

  lemma IndexPageUnrooted()
    ensures !StartsWith("index.html", "/")
  {
    assert "index.html"[..1][0] == 'i';
  }

  /** `(... || 'index.html').replace(/^\//, '')`: the page path used in the switch link. */
  function PagePath(pathname: string): (r: string)
    ensures var s := StripRegionPrefix(pathname); s == "" ==> r == "index.html"
    ensures var s := StripRegionPrefix(pathname); s != "" && !StartsWith(s, "/") ==> r == s
    ensures var s := StripRegionPrefix(pathname); StartsWith(s, "/") ==> "/" + r == s
  {
    var stripped := StripRegionPrefix(pathname);
    var page := if stripped == "" then "index.html" else stripped;
    IndexPageUnrooted();
    if StartsWith(page, "/") then page[1..] else page
  }

  /** `getAttribute('data-region') || 'US'`: a missing or empty attribute counts as `US`. */
  function CurrentRegion(attr: Option<string>): string
  {
    match attr
    case None => "US"
    case Some(v) => if v == "" then "US" else v
  }

  /** The folder of the other region: `au` from `US`, `us` from anything else. */
  function OtherSlug(region: string): string
  {
    if region == "US" then "au" else "us"
  }

  /** The visible text of the switch link. */
  function SwitchLabel(other: string): string
  {
    if other == "us" then "United States" else "Australia"
  }

  /** The href of the switch link. */
  function SwitchUrl(attr: Option<string>, pathname: string): string
  {
    "/" + OtherSlug(CurrentRegion(attr)) + "/" + PagePath(pathname)
  }

  // ---------------------------------------------------------------------------------------
  // Properties

  /** The two directions of the region choice, a missing attribute included. */
  lemma OtherSlugChoice(attr: Option<string>)
    ensures OtherSlug(CurrentRegion(attr)) == "au" <==> CurrentRegion(attr) == "US"
    ensures OtherSlug(CurrentRegion(attr)) == "us" <==> CurrentRegion(attr) != "US"
    ensures attr.None? ==> OtherSlug(CurrentRegion(attr)) == "au"
  {
  }

  /** The label names the United States exactly when the link goes to the `us` folder. */
  lemma LabelMatchesTarget(attr: Option<string>)
    ensures SwitchLabel(OtherSlug(CurrentRegion(attr))) == "United States"
        <==> OtherSlug(CurrentRegion(attr)) == "us"
    ensures SwitchLabel(OtherSlug(CurrentRegion(attr))) == "Australia"
        <==> OtherSlug(CurrentRegion(attr)) == "au"
  {
  }

  /** A page that build.js wrote into a region folder links to the other region's folder. */
  lemma SwitchTargetsOtherFolder(slug: string)
    requires slug == "us" || slug == "au"
    ensures OtherSlug(CurrentRegion(Some(RegionName(slug)))) != slug
    ensures OtherSlug(CurrentRegion(Some(RegionName(slug)))) == "us"
         || OtherSlug(CurrentRegion(Some(RegionName(slug)))) == "au"
  {
  }

  /** The region folder and the one slash after it are dropped from a page's pathname. */
  lemma {:induction false} PagePathInFolder(slug: string, file: string)
    requires slug == "us" || slug == "au"
    requires file != [] && file[0] != '/'
    ensures PagePath("/" + slug + "/" + file) == file
  {
    var p := "/" + slug + "/" + file;
    assert p[..3] == "/" + slug;
    assert p[3..] == "/" + file;
    assert StripRegionPrefix(p) == file by {
      assert StartsWith(p[3..], "/");
      assert p[3..][1..] == file;
    }
    assert !StartsWith(file, "/");
  }

  /** The folder itself, with or without its trailing slash, stands for its `index.html`. */
  lemma PagePathOfFolder(slug: string)
    requires slug == "us" || slug == "au"
    ensures PagePath("/" + slug) == "index.html"
    ensures PagePath("/" + slug + "/") == "index.html"
  {
    var q := "/" + slug;
    assert q[..3] == q;
    WholeFolderPath(q);
    var p := q + "/";
    assert p[..3] == q && p[3] == '/';
    WholeFolderPath(p);
  }

  /** A pathname that is only a region folder, with at most its slash, has no page path of its own. */
  lemma WholeFolderPath(pathname: string)
    requires StartsWith(pathname, "/us") || StartsWith(pathname, "/au")
    requires |pathname| == 3 || (|pathname| == 4 && pathname[3] == '/')
    ensures PagePath(pathname) == "index.html"
  {
    if |pathname| == 4 {
      assert pathname[3..][..1] == "/";
    }
    assert |StripRegionPrefix(pathname)| == 0;
  }

  /**
   * Following the switch link twice comes back to the start: from `/<slug>/<file>` the link
   * goes to the other folder with the same file, and from there back to `/<slug>/<file>`.
   */
  lemma SwitchRoundTrip(slug: string, file: string)
    requires slug == "us" || slug == "au"
    requires file != [] && file[0] != '/'
    ensures SwitchUrl(Some(RegionName(slug)), "/" + slug + "/" + file)
         == "/" + OtherSlug(RegionName(slug)) + "/" + file
    ensures SwitchUrl(Some(RegionName(OtherSlug(RegionName(slug)))),
                      SwitchUrl(Some(RegionName(slug)), "/" + slug + "/" + file))
         == "/" + slug + "/" + file
  {
    var other := OtherSlug(RegionName(slug));
    var there := "/" + other + "/" + file;
    assert other == (if slug == "us" then "au" else "us");
    assert CurrentRegion(Some(RegionName(slug))) == RegionName(slug);
    PagePathInFolder(slug, file);
    assert SwitchUrl(Some(RegionName(slug)), "/" + slug + "/" + file) == there;
    assert CurrentRegion(Some(RegionName(other))) == RegionName(other);
    assert OtherSlug(RegionName(other)) == slug;
    PagePathInFolder(other, file);
  }

  /**
   * The prefix test has no word boundary: a pathname that merely begins with the letters of
   * a region, such as `/usage.html`, loses them too.
   */
  lemma StripWithoutBoundary()
    ensures PagePath("/usage.html") == "age.html"
  {
    assert StartsWith("/usage.html", "/us");
    assert "/usage.html"[3..] == "age.html";
    assert !StartsWith("age.html", "/") by {
      assert "age.html"[..1][0] == 'a';
    }
  }
}
