/**
 * The last two steps of transformHtmlForRegion: the region marker on the first `<html>` tag
 * and the region-switcher script before the first `</body>`, and the whole transform.
 */
module RegionMarker {
  import opened Common
  import opened LinkRewrite

  /**
   * The first index at or after `from` where `pat` occurs in `s`. A plain search, as
   * String.prototype.indexOf and a literal-string replace perform it.
   */
  function IndexOf(s: string, pat: string, from: nat): (r: Option<nat>)
    requires from <= |s|
    ensures r.Some? ==> from <= r.value <= |s| && StartsWith(s[r.value..], pat)
    ensures r.Some? ==> forall j :: from <= j < r.value ==> !StartsWith(s[j..], pat)
    ensures r.None? ==> forall j :: from <= j <= |s| ==> !StartsWith(s[j..], pat)
    decreases |s| - from
  {
    if StartsWith(s[from..], pat) then Some(from)
    else if from == |s| then None
    else IndexOf(s, pat, from + 1)
  }

  /** A letter of the pattern under the ignore-case flag: either case of it. */
  predicate EitherCase(x: char, lower: char, upper: char)
  {
    x == lower || x == upper
  }

  /** `<html` in any mix of upper and lower case starts at `i`. */
  predicate HtmlOpenAt(s: string, i: nat)
  {
    i + 5 <= |s| && s[i] == '<' && EitherCase(s[i + 1], 'h', 'H') && EitherCase(s[i + 2], 't', 'T')
    && EitherCase(s[i + 3], 'm', 'M') && EitherCase(s[i + 4], 'l', 'L')
  }

  /**
   * The pattern `<html([^>]*)>` with the ignore-case flag matches at `i`: an opening `<html`,
   * and a `>` somewhere after it (the attribute text runs up to the first one).
   */
  predicate TagAt(s: string, i: nat)
  {
    HtmlOpenAt(s, i) && exists j :: i + 5 <= j < |s| && s[j] == '>'
  }

  /** The first position at or after `from` where the `<html ...>` pattern matches. */
  function FindHtmlTag(s: string, from: nat): (r: Option<nat>)
    requires from <= |s|
    ensures r.Some? ==> from <= r.value < |s| && TagAt(s, r.value)
    ensures r.Some? ==> forall j :: from <= j < r.value ==> !TagAt(s, j)
    ensures r.Some? ==> IndexOf(s, ">", r.value + 5).Some?
    ensures r.None? ==> forall j :: from <= j < |s| ==> !TagAt(s, j)
    decreases |s| - from
  {
    if from == |s| then None
    else if HtmlOpenAt(s, from) && IndexOf(s, ">", from + 5).Some? then
      assert s[IndexOf(s, ">", from + 5).value] == '>' by {
        var c := IndexOf(s, ">", from + 5).value;
        assert s[c] == s[c..][..1][0];
      }
      Some(from)
    else
      assert !TagAt(s, from) by {
        if HtmlOpenAt(s, from) {
          forall j | from + 5 <= j < |s| ensures s[j] != '>' {
            assert s[j..][..1] == [s[j]];
          }
        }
      }
      FindHtmlTag(s, from + 1)
  }

  /** The attribute added to the `<html>` tag. */
  function RegionAttribute(region: string): string
  {
    " data-region=\"" + region + "\""
  }

  /**
   * Adds `data-region="<region>"` to the first `<html ...>` tag. The replacement always
   * writes a lower-case `<html`, keeps the attribute text, and closes the tag.
   */
  function InjectRegionMarker(html: string, region: string): string
  {
    match FindHtmlTag(html, 0)
    case None => html
    case Some(i) => MarkTag(html, region, i, IndexOf(html, ">", i + 5).value)
  }

  /** The tag from `i` to its closing `>` at `c`, rewritten with the region attribute. */
  function MarkTag(html: string, region: string, i: nat, c: nat): string
    requires i + 5 <= c < |html|
  {
    html[..i] + "<html" + html[i + 5..c] + RegionAttribute(region) + ">" + html[c + 1..]
  }

  lemma IndexOfFirst(s: string, pat: string, from: nat, i: nat)
    requires from <= i <= |s| && StartsWith(s[i..], pat)
    requires forall j :: from <= j < i ==> !StartsWith(s[j..], pat)
    ensures IndexOf(s, pat, from) == Some(i)
  {
  }

  lemma FindHtmlTagFirst(s: string, i: nat)
    requires i < |s| && TagAt(s, i)
    requires forall j :: 0 <= j < i ==> !TagAt(s, j)
    ensures FindHtmlTag(s, 0) == Some(i)
  {
  }

  /** `c` is the first `>` at or after position `from`. */
  predicate FirstCloseAt(s: string, from: nat, c: nat)
  {
    from <= c < |s| && s[c] == '>' && forall j :: from <= j < c ==> s[j] != '>'
  }

  lemma FirstCloseIndex(s: string, from: nat, c: nat)
    requires FirstCloseAt(s, from, c)
    ensures IndexOf(s, ">", from) == Some(c)
  {
    assert s[c..][..1] == [s[c]];
    forall j | from <= j < c ensures !StartsWith(s[j..], ">") {
      assert s[j..][..1] == [s[j]];
    }
    IndexOfFirst(s, ">", from, c);
  }

  /**
   * The marker step rewrites exactly the first `<html ...>` tag: the text before it and
   * after its closing `>` is kept, and the attribute text is kept between `<html` and the
   * new attribute.
   */
  lemma MarkerRewritesFirstTag(html: string, region: string, i: nat, c: nat)
    requires i < |html| && TagAt(html, i) && forall j :: 0 <= j < i ==> !TagAt(html, j)
    requires FirstCloseAt(html, i + 5, c)
    ensures InjectRegionMarker(html, region) == MarkTag(html, region, i, c)
  {
    FindHtmlTagFirst(html, i);
    FirstCloseIndex(html, i + 5, c);
    MarkerAt(html, region, i, c);
  }

  lemma MarkerAt(html: string, region: string, i: nat, c: nat)
    requires FindHtmlTag(html, 0) == Some(i) && IndexOf(html, ">", i + 5) == Some(c)
    ensures i + 5 <= c < |html|
    ensures InjectRegionMarker(html, region) == MarkTag(html, region, i, c)
  {
  }

  /** Without an `<html ...>` tag the marker step changes nothing, and with one it always changes the page. */
  lemma MarkerChangesIffTag(html: string, region: string)
    ensures InjectRegionMarker(html, region) != html <==> exists i :: 0 <= i < |html| && TagAt(html, i)
  {
    match FindHtmlTag(html, 0)
    case None =>
    case Some(i) =>
      var c := IndexOf(html, ">", i + 5).value;
      var out := InjectRegionMarker(html, region);
      assert |out| == |html| + |RegionAttribute(region)|;
  }

  /** Text before position `i` that held no tag still holds none once `<html` is written at `i`. */
  lemma NoTagBeforeRewrite(html: string, out: string, i: nat)
    requires i < |html| && TagAt(html, i) && forall j :: 0 <= j < i ==> !TagAt(html, j)
    requires i + 5 <= |out| && out[..i] == html[..i] && out[i] == '<'
    ensures forall j :: 0 <= j < i ==> !HtmlOpenAt(out, j)
  {
    var c :| i + 5 <= c < |html| && html[c] == '>';
    forall j | 0 <= j < i ensures !HtmlOpenAt(out, j) {
      if j + 5 <= i {
        assert out[j..j + 5] == html[j..j + 5] by {
          assert out[j..j + 5] == out[..i][j..j + 5];
          assert html[j..j + 5] == html[..i][j..j + 5];
        }
        if HtmlOpenAt(out, j) {
          forall k | j <= k < j + 5 ensures html[k] == out[k] {
            assert html[k] == html[..i][k];
            assert out[k] == out[..i][k];
          }
          assert TagAt(html, j);
          assert false;
        }
      } else {
        assert out[j + (i - j)] == '<';
      }
    }
  }

  /**
   * The marker step is not idempotent: on a page whose first tag is followed by its `>`,
   * running it twice writes the attribute twice (when the region name holds no `>`).
   */
  lemma MarkerTwiceAddsTwice(html: string, region: string, i: nat, c: nat)
    requires i < |html| && TagAt(html, i) && forall j :: 0 <= j < i ==> !TagAt(html, j)
    requires FirstCloseAt(html, i + 5, c)
    requires forall k :: 0 <= k < |region| ==> region[k] != '>'
    ensures InjectRegionMarker(InjectRegionMarker(html, region), region)
         == html[..i] + "<html" + html[i + 5..c] + RegionAttribute(region) + RegionAttribute(region)
            + ">" + html[c + 1..]
  {
    var out := MarkTag(html, region, i, c);
    var c2 := c + |RegionAttribute(region)|;
    MarkedTagIsFirst(html, region, i, c);
    calc {
      InjectRegionMarker(InjectRegionMarker(html, region), region);
      { MarkerRewritesFirstTag(html, region, i, c); }
      InjectRegionMarker(out, region);
      { MarkerRewritesFirstTag(out, region, i, c2); }
      MarkTag(out, region, i, c2);
      { MarkTagTwice(html, region, i, c); }
      html[..i] + "<html" + html[i + 5..c] + RegionAttribute(region) + RegionAttribute(region) + ">" + html[c + 1..];
    }
  }

  /** In a marked page the rewritten tag is still the first one, now closed after the attribute. */
  lemma MarkedTagIsFirst(html: string, region: string, i: nat, c: nat)
    requires i < |html| && TagAt(html, i) && forall j :: 0 <= j < i ==> !TagAt(html, j)
    requires FirstCloseAt(html, i + 5, c)
    requires forall k :: 0 <= k < |region| ==> region[k] != '>'
    ensures TagAt(MarkTag(html, region, i, c), i)
    ensures forall j :: 0 <= j < i ==> !TagAt(MarkTag(html, region, i, c), j)
    ensures FirstCloseAt(MarkTag(html, region, i, c), i + 5, c + |RegionAttribute(region)|)
  {
    var attr := RegionAttribute(region);
    var out := MarkTag(html, region, i, c);
    var c2 := c + |attr|;
    assert out[..i] == html[..i];
    assert out[i..i + 5] == "<html";
    assert out[i] == '<';
    NoTagBeforeRewrite(html, out, i);
    assert HtmlOpenAt(out, i) by {
      assert out[i + 1] == out[i..i + 5][1] && out[i + 2] == out[i..i + 5][2];
      assert out[i + 3] == out[i..i + 5][3] && out[i + 4] == out[i..i + 5][4];
    }
    assert out[c2] == '>';
    forall j | i + 5 <= j < c2 ensures out[j] != '>' {
      if j < c {
        assert out[j] == html[j];
      } else {
        assert out[j] == attr[j - c];
      }
    }
  }

  lemma MarkTagTwice(html: string, region: string, i: nat, c: nat)
    requires i + 5 <= c < |html|
    ensures MarkTag(MarkTag(html, region, i, c), region, i, c + |RegionAttribute(region)|)
         == html[..i] + "<html" + html[i + 5..c] + RegionAttribute(region) + RegionAttribute(region)
            + ">" + html[c + 1..]
  {
    var attr := RegionAttribute(region);
    var out := MarkTag(html, region, i, c);
    var c2 := c + |attr|;
    assert out[..i] == html[..i];
    assert out[i + 5..c2] == html[i + 5..c] + attr;
    assert out[c2 + 1..] == html[c + 1..];
  }

  /** The region-switcher script of build.js:45-56, with its escapes resolved. */
  const SwitcherScript: string :=
      "\n" +
      "        <script>" + "\n" +
      "        (function(){" + "\n" +
      "            var path=(location.pathname.replace(/^\\/(us|au)\\/?/,'')||'index.html').replace(/^\\//,'');" + "\n" +
      "            var region=document.documentElement.getAttribute('data-region')||'US';" + "\n" +
      "            var other=region==='US'?'au':'us';" + "\n" +
      "            var url='/'+other+'/'+path;" + "\n" +
      "            var label=other==='us'?'United States':'Australia';" + "\n" +
      "            var el=document.querySelector('.menu-list');" + "\n" +
      "            if(el){var li=document.createElement('li');li.className='m-0 p-0 ms-lg-3';li.innerHTML='<a class=\"menu-link link\" href=\"'+url+'\">'+label+'</a>';el.appendChild(li);}" + "\n" +
      "        })();" + "\n" +
      "        </script>"

  /** Puts the switcher and a line break before the first `</body>`, if there is one. */
  function InsertSwitcher(out: string): string
  {
    match IndexOf(out, "</body>", 0)
    case None => out
    case Some(i) => out[..i] + SwitcherScript + "\n    " + out[i..]
  }

  /**
   * The switcher and a line break go immediately before the first `</body>`; that tag and
   * everything after it, later `</body>` tags included, are kept as they were.
   */
  lemma SwitcherBeforeFirstBody(out: string, i: nat)
    requires i <= |out| && StartsWith(out[i..], "</body>")
    requires forall j :: 0 <= j < i ==> !StartsWith(out[j..], "</body>")
    ensures InsertSwitcher(out) == out[..i] + SwitcherScript + "\n    " + out[i..]
  {
    IndexOfFirst(out, "</body>", 0, i);
  }

  /** The switcher step changes the page exactly when it has a `</body>`. */
  lemma SwitcherChangesIffBody(out: string)
    ensures InsertSwitcher(out) != out <==> exists i :: 0 <= i <= |out| && StartsWith(out[i..], "</body>")
  {
    match IndexOf(out, "</body>", 0)
    case None =>
    case Some(i) =>
      assert |InsertSwitcher(out)| == |out| + |SwitcherScript| + 5;
  }

  /** transformHtmlForRegion: the link chain, then the marker, then the switcher. */
  function TransformHtmlForRegion(html: string, region: string): string
  {
    InsertSwitcher(InjectRegionMarker(RewriteLinks(html), region))
  }

  /**
   * A page in which no link rule matches, with no `<html ...>` tag and no `</body>`,
   * comes out of the transform exactly as it went in.
   */
  lemma TransformKeepsPlainPage(html: string, region: string)
    requires forall k :: 0 <= k < |LinkRules| ==> HitFree(LinkRules[k], html)
    requires forall i :: 0 <= i < |html| ==> !TagAt(html, i)
    requires forall i :: 0 <= i <= |html| ==> !StartsWith(html[i..], "</body>")
    ensures TransformHtmlForRegion(html, region) == html
  {
    RewriteLinksFixed(html);
    MarkerChangesIffTag(html, region);
    SwitcherChangesIffBody(html);
  }
}
