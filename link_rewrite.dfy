/**
 * The link-rewriting half of transformHtmlForRegion: seven global regular-expression
 * replacements, applied in a fixed order, that make root-relative links relative to a
 * region folder one level below the site root.
 *
 * Each regular expression is modelled by `MatchAt`, which decides whether the rule matches
 * at the very start of a text and, if so, how many characters it consumes and what it
 * writes instead. `ReplaceAll` is the global replace: a left-to-right scan that, at every
 * position, either rewrites a match and continues after it or copies one character.
 */
module LinkRewrite {
  import opened Common

  /** A match at the start of a text: the length it consumes and its replacement. */
  datatype Hit = Hit(len: nat, out: string)

  /** The three asset roots that gain a `../` prefix. */
  datatype AssetRoot = AssetsDir | ImgDir | FontsDir

  /** One replace rule of the chain. */
  datatype Rule =
    | RootIndex                    // href="/"                      -> href="index.html"
    | RootPage                     // href="/<name>.html"           -> href="<name>.html"
    | RootNested                   // href="/<dir>/<rest>"          -> href="<dir>/<rest>"
    | RootAnchor                   // href="/#<frag>"               -> href="index.html#<frag>"
    | AssetPrefix(root: AssetRoot) // (href|src)="<root>            -> $1="../<root>

  function RootDir(a: AssetRoot): (d: string)
    ensures |d| >= 4 && d[|d| - 1] == '/'
  {
    match a
    case AssetsDir => "Assets/"
    case ImgDir => "img/"
    case FontsDir => "fonts/"
  }

  /** The character class [a-zA-Z0-9_-]. */
  predicate IsNameChar(c: char)
  {
    ('a' <= c <= 'z') || ('A' <= c <= 'Z') || ('0' <= c <= '9') || c == '_' || c == '-'
  }

  /** The length of the longest prefix of `s` made of name characters. */
  function NameRun(s: string): (n: nat)
    ensures n <= |s|
    ensures forall i :: 0 <= i < n ==> IsNameChar(s[i])
    ensures n < |s| ==> !IsNameChar(s[n])
  {
    if s == [] || !IsNameChar(s[0]) then 0 else 1 + NameRun(s[1..])
  }

  /** The length of the longest prefix of `s` without a double quote (the class [^"]). */
  function UnquotedRun(s: string): (n: nat)
    ensures n <= |s|
    ensures forall i :: 0 <= i < n ==> s[i] != '"'
    ensures n < |s| ==> s[n] == '"'
  {
    if s == [] || s[0] == '"' then 0 else 1 + UnquotedRun(s[1..])
  }

  const HrefRooted := "href=\"/"

  /**
   * Whether `rule` matches at the start of `s`. Each regular expression of the chain has at
   * most one match at a given position: its greedy character classes stop at a character
   * the rest of the pattern needs, so no backtracking can produce a different match.
   */
  function MatchAt(rule: Rule, s: string): (h: Option<Hit>)
    ensures h.Some? ==> 0 < h.value.len <= |s|
  {
    match rule
    case RootIndex =>
      if StartsWith(s, "href=\"/\"") then Some(Hit(8, "href=\"index.html\"")) else None
    case RootPage =>
      if StartsWith(s, HrefRooted) then
        var n := NameRun(s[7..]);
        if 0 < n && StartsWith(s[7 + n..], ".html\"") then
          Some(Hit(13 + n, "href=\"" + s[7..7 + n] + ".html\""))
        else None
      else None
    case RootNested =>
      if StartsWith(s, HrefRooted) then
        var n := NameRun(s[7..]);
        if 0 < n && 7 + n < |s| && s[7 + n] == '/' then
          var k := UnquotedRun(s[8 + n..]);
          if 0 < k && 8 + n + k < |s| then
            Some(Hit(9 + n + k, "href=\"" + s[7..8 + n + k] + "\""))
          else None
        else None
      else None
    case RootAnchor =>
      if StartsWith(s, "href=\"/#") then
        var k := UnquotedRun(s[8..]);
        if 0 < k && 8 + k < |s| then
          Some(Hit(9 + k, "href=\"index.html#" + s[8..8 + k] + "\""))
        else None
      else None
    case AssetPrefix(a) =>
      if StartsWith(s, "href=\"" + RootDir(a)) then
        Some(Hit(6 + |RootDir(a)|, "href=\"../" + RootDir(a)))
      else if StartsWith(s, "src=\"" + RootDir(a)) then
        Some(Hit(5 + |RootDir(a)|, "src=\"../" + RootDir(a)))
      else None
  }

  /** String.prototype.replace with a global pattern: a left-to-right, non-overlapping scan. */
  function ReplaceAll(rule: Rule, s: string): string
    decreases |s|
  {
    if s == [] then []
    else
      match MatchAt(rule, s)
      case Some(h) => h.out + ReplaceAll(rule, s[h.len..])
      case None => [s[0]] + ReplaceAll(rule, s[1..])
  }

  /** The rules of build.js:33-39, in the order they are applied. */
  const LinkRules: seq<Rule> := [RootIndex, RootPage, RootNested, RootAnchor,
                                 AssetPrefix(AssetsDir), AssetPrefix(ImgDir), AssetPrefix(FontsDir)]

  /** Applies `rules` one after another, each to the output of the previous one. */
  function ApplyRules(rules: seq<Rule>, s: string): string
    decreases |rules|
  {
    if rules == [] then s else ApplyRules(rules[1..], ReplaceAll(rules[0], s))
  }

  /** The link-rewriting chain of transformHtmlForRegion. */
  function RewriteLinks(html: string): string
  {
    ApplyRules(LinkRules, html)
  }

  /** No position of `s` is the start of a match of `rule`. */
  ghost predicate HitFree(rule: Rule, s: string)
  {
    forall i :: 0 <= i < |s| ==> MatchAt(rule, s[i..]).None?
  }

  // ---------------------------------------------------------------------------------------
  // The scan

  /** A text in which the rule matches nowhere passes through the scan unchanged. */
  lemma {:induction false} FixedWhenHitFree(rule: Rule, s: string)
    requires HitFree(rule, s)
    ensures ReplaceAll(rule, s) == s
    decreases |s|
  {
    if s != [] {
      assert MatchAt(rule, s[0..]).None?;
      assert s[0..] == s;
      assert HitFree(rule, s[1..]) by {
        forall i | 0 <= i < |s[1..]| ensures MatchAt(rule, s[1..][i..]).None? {
          assert s[1..][i..] == s[i + 1..];
        }
      }
      FixedWhenHitFree(rule, s[1..]);
    }
  }

  /**
   * Text before the first match is copied as it is: when no match starts inside `p`,
   * the scan of `p + t` is `p` followed by the scan of `t`.
   */
  lemma {:induction false} KeepsUnmatchedPrefix(rule: Rule, p: string, t: string)
    requires forall i :: 0 <= i < |p| ==> MatchAt(rule, (p + t)[i..]).None?
    ensures ReplaceAll(rule, p + t) == p + ReplaceAll(rule, t)
    decreases |p|
  {
    if p != [] {
      var u := p + t;
      assert u[0..] == u;
      ScanCopies(rule, u);
      SuffixOfConcat(p, t, 1);
      forall i | 0 <= i < |p[1..]| ensures MatchAt(rule, (p[1..] + t)[i..]).None? {
        assert u[1..][i..] == u[i + 1..];
      }
      KeepsUnmatchedPrefix(rule, p[1..], t);
      ConsSplit(p);
      ConsConcat(p[0], p[1..], ReplaceAll(rule, t));
    } else {
      assert p + t == t;
    }
  }

  // ---------------------------------------------------------------------------------------
  // A match depends only on the characters it covers

  lemma {:induction false} NameRunExact(s: string, n: nat)
    requires n < |s| && !IsNameChar(s[n])
    requires forall i :: 0 <= i < n ==> IsNameChar(s[i])
    ensures NameRun(s) == n
    decreases n
  {
    if n > 0 {
      NameRunExact(s[1..], n - 1);
    }
  }

  lemma {:induction false} UnquotedRunExact(s: string, n: nat)
    requires n < |s| && s[n] == '"'
    requires forall i :: 0 <= i < n ==> s[i] != '"'
    ensures UnquotedRun(s) == n
    decreases n
  {
    if n > 0 {
      UnquotedRunExact(s[1..], n - 1);
    }
  }

  /** Two texts that agree on their first `L` characters agree on every slice inside them. */
  lemma AgreeOn(x: string, y: string, L: nat, i: nat, j: nat)
    requires L <= |x| && StartsWith(y, x[..L]) && i <= j <= L
    ensures y[i..j] == x[i..j]
  {
    assert y[i..j] == y[..L][i..j];
    assert x[i..j] == x[..L][i..j];
  }

  lemma AgreeAt(x: string, y: string, L: nat, i: nat)
    requires L <= |x| && StartsWith(y, x[..L]) && i < L
    ensures y[i] == x[i]
  {
    assert y[i] == y[..L][i];
    assert x[i] == x[..L][i];
  }

  lemma AgreeNameRun(x: string, y: string, L: nat, from: nat, n: nat)
    requires L <= |x| && StartsWith(y, x[..L]) && from + n < L
    requires n == NameRun(x[from..])
    ensures NameRun(y[from..]) == n
  {
    forall i | 0 <= i <= n ensures y[from..][i] == x[from..][i] {
      AgreeAt(x, y, L, from + i);
    }
    NameRunExact(y[from..], n);
  }

  lemma AgreeUnquotedRun(x: string, y: string, L: nat, from: nat, n: nat)
    requires L <= |x| && StartsWith(y, x[..L]) && from + n < L
    requires n == UnquotedRun(x[from..])
    ensures UnquotedRun(y[from..]) == n
  {
    forall i | 0 <= i <= n ensures y[from..][i] == x[from..][i] {
      AgreeAt(x, y, L, from + i);
    }
    UnquotedRunExact(y[from..], n);
  }

  /** Whatever follows a match cannot change it: the match is decided by the text it covers. */
  lemma MatchLocal(rule: Rule, x: string, y: string)
    requires MatchAt(rule, x).Some?
    requires StartsWith(y, x[..MatchAt(rule, x).value.len])
    ensures MatchAt(rule, y) == MatchAt(rule, x)
  {
    var L := MatchAt(rule, x).value.len;
    match rule
    case RootIndex => AgreeOn(x, y, L, 0, 8);
    case RootPage => MatchLocalRootPage(x, y, L);
    case RootNested => MatchLocalRootNested(x, y, L);
    case RootAnchor => MatchLocalRootAnchor(x, y, L);
    case AssetPrefix(a) =>
      AgreeOn(x, y, L, 0, L);
      if !StartsWith(x, "href=\"" + RootDir(a)) {
        AgreeAt(x, y, L, 0);
      }
  }

  lemma MatchLocalRootPage(x: string, y: string, L: nat)
    requires MatchAt(RootPage, x).Some? && L == MatchAt(RootPage, x).value.len
    requires StartsWith(y, x[..L])
    ensures MatchAt(RootPage, y) == MatchAt(RootPage, x)
  {
    AgreeOn(x, y, L, 0, 7);
    var n := NameRun(x[7..]);
    AgreeNameRun(x, y, L, 7, n);
    AgreeOn(x, y, L, 7 + n, 13 + n);
    assert y[7 + n..][..6] == y[7 + n..13 + n];
    assert x[7 + n..][..6] == x[7 + n..13 + n];
    AgreeOn(x, y, L, 7, 7 + n);
  }

  lemma MatchLocalRootNested(x: string, y: string, L: nat)
    requires MatchAt(RootNested, x).Some? && L == MatchAt(RootNested, x).value.len
    requires StartsWith(y, x[..L])
    ensures MatchAt(RootNested, y) == MatchAt(RootNested, x)
  {
    AgreeOn(x, y, L, 0, 7);
    var n := NameRun(x[7..]);
    AgreeNameRun(x, y, L, 7, n);
    AgreeAt(x, y, L, 7 + n);
    var k := UnquotedRun(x[8 + n..]);
    AgreeUnquotedRun(x, y, L, 8 + n, k);
    AgreeOn(x, y, L, 7, 8 + n + k);
  }

  lemma MatchLocalRootAnchor(x: string, y: string, L: nat)
    requires MatchAt(RootAnchor, x).Some? && L == MatchAt(RootAnchor, x).value.len
    requires StartsWith(y, x[..L])
    ensures MatchAt(RootAnchor, y) == MatchAt(RootAnchor, x)
  {
    AgreeOn(x, y, L, 0, 8);
    var k := UnquotedRun(x[8..]);
    AgreeUnquotedRun(x, y, L, 8, k);
    AgreeOn(x, y, L, 8, 8 + k);
  }

  // ---------------------------------------------------------------------------------------
  // Where the characters of a scan's output come from

  /** Every replacement the chain writes begins with an attribute head `href="` or `src="`. */
  lemma ReplacementHead(rule: Rule, s: string)
    requires MatchAt(rule, s).Some?
    ensures StartsWith(MatchAt(rule, s).value.out, "href=\"")
         || StartsWith(MatchAt(rule, s).value.out, "src=\"")
  {
  }

  /** Where the scan rewrites its first character, its output begins with an attribute head. */
  lemma OutputHead(rule: Rule, u: string)
    requires u != [] && MatchAt(rule, u).Some?
    ensures StartsWith(ReplaceAll(rule, u), "href=\"") || StartsWith(ReplaceAll(rule, u), "src=\"")
  {
    var h := MatchAt(rule, u).value;
    var out := ReplaceAll(rule, u);
    ReplacementHead(rule, u);
    assert out == h.out + ReplaceAll(rule, u[h.len..]);
    if StartsWith(h.out, "href=\"") {
      assert out[..6] == h.out[..6];
    } else {
      assert out[..5] == h.out[..5];
    }
  }

  /** No suffix of `w` can overlap the start of an attribute head. */
  ghost predicate NoAttrHead(w: string)
  {
    forall k :: 0 <= k < |w| ==> !Compatible(w[k..], "href=\"") && !Compatible(w[k..], "src=\"")
  }

  lemma PrefixesCompatible(s: string, a: string, b: string)
    requires StartsWith(s, a) && StartsWith(s, b)
    ensures Compatible(a, b)
  {
    if |a| <= |b| {
      assert b[..|a|] == s[..|b|][..|a|] == s[..|a|];
    } else {
      assert a[..|b|] == s[..|a|][..|b|] == s[..|b|];
    }
  }

  lemma NoAttrHeadSuffix(w: string, j: nat)
    requires NoAttrHead(w) && j <= |w|
    ensures NoAttrHead(w[j..])
  {
    forall k | 0 <= k < |w[j..]|
      ensures !Compatible(w[j..][k..], "href=\"") && !Compatible(w[j..][k..], "src=\"")
    {
      assert w[j..][k..] == w[j + k..];
    }
  }

  /**
   * If the scan's output begins with `w`, and `w` cannot overlap the head of any replacement,
   * then nothing was rewritten there: the input itself begins with `w`.
   */
  lemma {:induction false} PrefixOrigin(rule: Rule, u: string, w: string)
    requires NoAttrHead(w)
    requires StartsWith(ReplaceAll(rule, u), w)
    ensures StartsWith(u, w)
    decreases |w|
  {
    if w != [] {
      var out := ReplaceAll(rule, u);
      assert u != [];
      match MatchAt(rule, u)
      case Some(h) =>
        OutputHead(rule, u);
        assert w[0..] == w;
        if StartsWith(out, "href=\"") {
          PrefixesCompatible(out, w, "href=\"");
        } else {
          PrefixesCompatible(out, w, "src=\"");
        }
        assert false;
      case None =>
        var tail := ReplaceAll(rule, u[1..]);
        ScanCopies(rule, u);
        StartsWithCons(u[0], tail, w);
        NoAttrHeadSuffix(w, 1);
        PrefixOrigin(rule, u[1..], w[1..]);
        ConsSplit(u);
        StartsWithCons(u[0], u[1..], w);
    }
  }

  // ---------------------------------------------------------------------------------------
  // Matches that no later pass brings back

  /** The two rules whose patterns no later rule can bring back. */
  predicate IsRootedPageRule(p: Rule)
  {
    p == RootIndex || p == RootPage
  }

  /**
   * The rules whose matched text, after its first character, cannot overlap an attribute
   * head: `href="/"`, `href="/<name>.html"` and the three asset prefixes.
   */
  predicate IsClosedRule(p: Rule)
  {
    IsRootedPageRule(p) || p.AssetPrefix?
  }

  /**
   * A pass of `k` cannot create a new match of `p`: no rule writes a rooted page link, and
   * no asset rule writes an unprefixed asset path.
   */
  predicate NoRevival(p: Rule, k: Rule)
  {
    IsRootedPageRule(p) || (p.AssetPrefix? && k.AssetPrefix?)
  }

  lemma {:induction false} RootedRuleStart(p: Rule, x: string)
    requires IsRootedPageRule(p) && MatchAt(p, x).Some?
    ensures StartsWith(x, HrefRooted)
  {
    if p == RootIndex {
      assert x[..7] == x[..8][..7];
    }
  }

  lemma CompatibleAt(t: string, b: string, j: nat)
    requires Compatible(t, b) && j < |t| && j < |b|
    ensures t[j] == b[j]
  {
    if |t| <= |b| {
      assert t[j] == b[..|t|][j];
    } else {
      assert t[j] == t[..|b|][j];
    }
  }

  lemma NoAttrHeadIntro(w: string)
    requires |w| > 0 && (w[|w| - 1] == '"' || w[|w| - 1] == '/')
    requires forall k, m :: 0 <= k <= m < |w| && (w[k] == 'h' || w[k] == 's') ==> w[m] != '='
    ensures NoAttrHead(w)
  {
    forall k | 0 <= k < |w| ensures !Compatible(w[k..], "href=\"") && !Compatible(w[k..], "src=\"") {
      var t := w[k..];
      assert t[|t| - 1] == w[|w| - 1];
      if Compatible(t, "href=\"") {
        CompatibleAt(t, "href=\"", 0);
        if |t| > 4 {
          CompatibleAt(t, "href=\"", 4);
        } else {
          CompatibleAt(t, "href=\"", |t| - 1);
        }
        assert false;
      }
      if Compatible(t, "src=\"") {
        CompatibleAt(t, "src=\"", 0);
        if |t| > 3 {
          CompatibleAt(t, "src=\"", 3);
        }
        assert false;
      }
    }
  }

  /** What follows the first character of a closed rule's match cannot overlap a replacement head. */
  lemma MatchTailNoAttrHead(p: Rule, x: string, c: nat)
    requires IsClosedRule(p) && MatchAt(p, x).Some?
    requires 1 <= c < MatchAt(p, x).value.len
    ensures NoAttrHead(x[c..MatchAt(p, x).value.len])
  {
    if p.AssetPrefix? {
      AssetTailNoAttrHead(p.root, x, c);
    } else {
      RootedTailNoAttrHead(p, x, c);
    }
  }

  lemma AssetTailNoAttrHead(a: AssetRoot, x: string, c: nat)
    requires MatchAt(AssetPrefix(a), x).Some?
    requires 1 <= c < MatchAt(AssetPrefix(a), x).value.len
    ensures NoAttrHead(x[c..MatchAt(AssetPrefix(a), x).value.len])
  {
    var L := MatchAt(AssetPrefix(a), x).value.len;
    var d := RootDir(a);
    var pat := if StartsWith(x, "href=\"" + d) then "href=\"" + d else "src=\"" + d;
    assert x[..L] == pat;
    AssetPatternTail(pat, d);
    NoAttrHeadSuffix(pat[1..], c - 1);
    assert x[c..L] == pat[1..][c - 1..];
  }

  /** After its first character, an asset pattern `href="<dir>` or `src="<dir>` holds no attribute head. */
  lemma AssetPatternTail(pat: string, d: string)
    requires d == "Assets/" || d == "img/" || d == "fonts/"
    requires pat == "href=\"" + d || pat == "src=\"" + d
    ensures NoAttrHead(pat[1..])
  {
    var head := if pat == "href=\"" + d then "ref=\"" else "rc=\"";
    assert pat[1..] == head + d;
    HeadThenDir(head, d);
  }

  /** A head without `h` and `s` followed by an asset folder holds no attribute head. */
  lemma HeadThenDir(head: string, d: string)
    requires forall m :: 0 <= m < |head| ==> head[m] != 'h' && head[m] != 's'
    requires d == "Assets/" || d == "img/" || d == "fonts/"
    ensures NoAttrHead(head + d)
  {
    assert forall j :: 0 <= j < |d| ==> d[j] != '=';
    NoAttrHeadSplit(head + d, |head|);
  }

  /** A text whose `h` and `s` all come after its last `=`, ending in `"` or `/`, holds no attribute head. */
  lemma NoAttrHeadSplit(w: string, e: nat)
    requires e <= |w| && |w| > 0 && (w[|w| - 1] == '"' || w[|w| - 1] == '/')
    requires forall m :: 0 <= m < e ==> w[m] != 'h' && w[m] != 's'
    requires forall m :: e <= m < |w| ==> w[m] != '='
    ensures NoAttrHead(w)
  {
    NoAttrHeadIntro(w);
  }

  lemma RootedTailNoAttrHead(p: Rule, x: string, c: nat)
    requires IsRootedPageRule(p) && MatchAt(p, x).Some?
    requires 1 <= c < MatchAt(p, x).value.len
    ensures NoAttrHead(x[c..MatchAt(p, x).value.len])
  {
    var L := MatchAt(p, x).value.len;
    var w := x[c..L];
    RootedRuleStart(p, x);
    assert forall i :: 0 <= i < 7 ==> x[i] == HrefRooted[i] by {
      forall i | 0 <= i < 7 ensures x[i] == HrefRooted[i] {
        assert x[i] == x[..7][i];
      }
    }
    if p == RootIndex {
      assert x[7] == x[..8][7] == '"';
      assert forall m :: c <= m < L ==> x[m] != 'h' && x[m] != 's';
    } else {
      var n := NameRun(x[7..]);
      assert L == 13 + n;
      assert forall m :: 7 <= m < 7 + n ==> IsNameChar(x[m]) by {
        forall m | 7 <= m < 7 + n ensures IsNameChar(x[m]) {
          assert x[m] == x[7..][m - 7];
        }
      }
      assert forall m :: 7 + n <= m < L ==> x[m] == ".html\""[m - 7 - n] by {
        forall m | 7 + n <= m < L ensures x[m] == ".html\""[m - 7 - n] {
          assert x[m] == x[7 + n..][..6][m - 7 - n];
        }
      }
      forall m | 7 <= m < L ensures x[m] != '=' {
        if m < 7 + n {
          assert IsNameChar(x[m]);
        } else {
          assert x[m] == ".html\""[m - 7 - n];
        }
      }
    }
    NoAttrHeadIntro(w);
  }

  /** No position below `n` in `x` can be the start of `href="/`, whatever follows `x`. */
  ghost predicate NoRootedStartBelow(x: string, n: nat)
  {
    forall i :: 0 <= i < n && i < |x| ==> !Compatible(x[i..], HrefRooted)
  }

  lemma NoRootedStartIntro(x: string, n: nat)
    requires forall k {:trigger x[k]} :: 0 <= k < n && k < |x| && x[k] == 'h' ==>
               (k + 1 < |x| && x[k + 1] != 'r') || (k + 4 < |x| && x[k + 4] != '=') || (k + 6 < |x| && x[k + 6] != '/')
    ensures NoRootedStartBelow(x, n)
  {
    forall i | 0 <= i < n && i < |x| ensures !Compatible(x[i..], HrefRooted) {
      var t := x[i..];
      if Compatible(t, HrefRooted) {
        CompatibleAt(t, HrefRooted, 0);
        assert x[i] == t[0];
        if i + 1 < |x| { CompatibleAt(t, HrefRooted, 1); }
        if i + 4 < |x| { CompatibleAt(t, HrefRooted, 4); }
        if i + 6 < |x| { CompatibleAt(t, HrefRooted, 6); }
        assert false;
      }
    }
  }

  lemma NoRootedStartBlocks(x: string, t: string, i: nat, n: nat)
    requires NoRootedStartBelow(x, n) && i < n && i < |x|
    ensures !StartsWith((x + t)[i..], HrefRooted)
  {
    RootedStartCompatible(x, t, i);
  }

  /** A rooted link starting inside `x` is compatible with what `x` holds from there on. */
  lemma RootedStartCompatible(x: string, t: string, i: nat)
    requires i < |x|
    ensures StartsWith((x + t)[i..], HrefRooted) ==> Compatible(x[i..], HrefRooted)
  {
    assert StartsWith((x + t)[i..], x[i..]) by {
      assert (x + t)[i..][..|x| - i] == x[i..];
    }
    if StartsWith((x + t)[i..], HrefRooted) {
      PrefixesCompatible((x + t)[i..], x[i..], HrefRooted);
    }
  }

  /** The replacement of `href="/<name>.html"` starts no rooted link anywhere. */
  lemma RootPageOutShielded(s: string)
    requires MatchAt(RootPage, s).Some?
    ensures NoRootedStartBelow(MatchAt(RootPage, s).value.out, |MatchAt(RootPage, s).value.out|)
  {
    var x := MatchAt(RootPage, s).value.out;
    var n := NameRun(s[7..]);
    var name := s[7..7 + n];
    assert x == "href=\"" + name + ".html\"";
    assert forall m :: 6 <= m < 6 + n ==> IsNameChar(x[m]) by {
      forall m | 6 <= m < 6 + n ensures IsNameChar(x[m]) {
        assert x[m] == name[m - 6] == s[7..][m - 6];
      }
    }
    assert forall m :: 6 + n <= m < 12 + n ==> x[m] == ".html\""[m - 6 - n];
    NoRootedStartIntro(x, |x|);
  }

  /** The replacements of `href="/"` and of the asset rules start no rooted link anywhere. */
  lemma FixedOutShielded(k: Rule, s: string)
    requires k.RootIndex? || k.AssetPrefix?
    requires MatchAt(k, s).Some?
    ensures NoRootedStartBelow(MatchAt(k, s).value.out, |MatchAt(k, s).value.out|)
  {
    var x := MatchAt(k, s).value.out;
    if k.RootIndex? {
      assert x == "href=\"index.html\"";
      NoRootedStartIntro(x, |x|);
    } else {
      var d := RootDir(k.root);
      if StartsWith(s, "href=\"" + d) {
        assert x == "href=\"../" + d;
        AssetHeadShielded("href=\"../", d);
      } else {
        assert x == "src=\"../" + d;
        AssetHeadShielded("src=\"../", d);
      }
    }
  }

  lemma AssetHeadShielded(head: string, d: string)
    requires head == "href=\"../" || head == "src=\"../"
    requires d == "Assets/" || d == "img/" || d == "fonts/"
    ensures NoRootedStartBelow(head + d, |head + d|)
  {
    NoRootedStartIntro(head + d, |head + d|);
  }

  /** In the replacement of `href="/<dir>/<rest>"`, the attribute head starts no rooted link. */
  lemma RootNestedHeadShielded(s: string)
    requires MatchAt(RootNested, s).Some?
    ensures NoRootedStartBelow(MatchAt(RootNested, s).value.out, 6)
  {
    var x := MatchAt(RootNested, s).value.out;
    var n := NameRun(s[7..]);
    assert x[6] == s[7] == s[7..][0];
    NoRootedStartIntro(x, 6);
  }

  /** In the replacement of `href="/#<frag>"`, the text `href="index.html#` starts no rooted link. */
  lemma RootAnchorHeadShielded(s: string)
    requires MatchAt(RootAnchor, s).Some?
    ensures NoRootedStartBelow(MatchAt(RootAnchor, s).value.out, 17)
  {
    var x := MatchAt(RootAnchor, s).value.out;
    assert x[..17] == "href=\"index.html#";
    assert forall m :: 0 <= m < 17 ==> x[m] == "href=\"index.html#"[m] by {
      forall m | 0 <= m < 17 ensures x[m] == "href=\"index.html#"[m] {
        assert x[m] == x[..17][m];
      }
    }
    NoRootedStartIntro(x, 17);
  }

  /**
   * Scanning the text after a non-empty copied piece `a` creates no match of a closed rule
   * that starts inside `a`: such a match would already start there in the unscanned text.
   */
  lemma NoMatchAcrossScan(p: Rule, k: Rule, a: string, rest: string)
    requires IsClosedRule(p) && a != []
    requires MatchAt(p, a + rest).None?
    ensures MatchAt(p, a + ReplaceAll(k, rest)).None?
  {
    var y := a + ReplaceAll(k, rest);
    if MatchAt(p, y).Some? {
      MatchCoveredPrefix(p, k, a, rest);
      MatchLocal(p, y, a + rest);
      assert false;
    }
  }

  /** A closed rule's match in the scanned text covers only characters the unscanned text has too. */
  lemma MatchCoveredPrefix(p: Rule, k: Rule, a: string, rest: string)
    requires IsClosedRule(p) && a != []
    requires MatchAt(p, a + ReplaceAll(k, rest)).Some?
    ensures StartsWith(a + rest, (a + ReplaceAll(k, rest))[..MatchAt(p, a + ReplaceAll(k, rest)).value.len])
  {
    var y := a + ReplaceAll(k, rest);
    var L := MatchAt(p, y).value.len;
    if L <= |a| {
      assert y[..L] == (a + rest)[..L];
    } else {
      MatchTailNoAttrHead(p, y, |a|);
      ScanTailOrigin(k, a, rest, y[|a|..L]);
    }
  }

  lemma ScanTailOrigin(k: Rule, a: string, rest: string, w: string)
    requires NoAttrHead(w)
    requires StartsWith((a + ReplaceAll(k, rest))[|a|..], w)
    ensures StartsWith(a + rest, (a + ReplaceAll(k, rest))[..|a| + |w|])
  {
    var tail := ReplaceAll(k, rest);
    assert (a + tail)[|a|..] == tail;
    PrefixOrigin(k, rest, w);
    assert (a + rest)[..|a| + |w|] == a + rest[..|w|];
    assert (a + tail)[..|a| + |w|] == a + tail[..|w|];
  }

  lemma ConsConcat(c: char, x: string, y: string)
    ensures [c] + (x + y) == ([c] + x) + y
  {
  }

  lemma ScanReplaces(k: Rule, s: string)
    requires MatchAt(k, s).Some?
    ensures ReplaceAll(k, s) == MatchAt(k, s).value.out + ReplaceAll(k, s[MatchAt(k, s).value.len..])
  {
  }

  lemma ScanCopies(k: Rule, s: string)
    requires s != [] && MatchAt(k, s).None?
    ensures ReplaceAll(k, s) == [s[0]] + ReplaceAll(k, s[1..])
  {
  }

  /** A rooted page rule cannot match where the text before the scan's continuation admits no rooted link. */
  lemma ShieldedStart(p: Rule, x: string, t: string, i: nat, n: nat)
    requires IsRootedPageRule(p) && NoRootedStartBelow(x, n) && i < n && i < |x|
    ensures MatchAt(p, (x + t)[i..]).None?
  {
    NoRootedStartBlocks(x, t, i, n);
    if MatchAt(p, (x + t)[i..]).Some? {
      RootedRuleStart(p, (x + t)[i..]);
      assert false;
    }
  }

  /** A closed rule cannot match in a piece of a replacement that is copied from an input it does not match. */
  lemma CopiedStart(p: Rule, k: Rule, x: string, i: nat, rest: string)
    requires IsClosedRule(p) && i < |x| && MatchAt(p, x[i..] + rest).None?
    ensures MatchAt(p, (x + ReplaceAll(k, rest))[i..]).None?
  {
    NoMatchAcrossScan(p, k, x[i..], rest);
    SuffixOfConcat(x, ReplaceAll(k, rest), i);
  }

  lemma SplitCopy(s: string, j: nat, len: nat, x: string, i: nat)
    requires j < len <= |s| && i < |x| && x[i..] == s[j..len]
    ensures s[j..] == x[i..] + s[len..]
  {
  }

  lemma NestedCopy(s: string, i: nat)
    requires MatchAt(RootNested, s).Some?
    requires 6 <= i < |MatchAt(RootNested, s).value.out|
    ensures i + 1 < MatchAt(RootNested, s).value.len
    ensures MatchAt(RootNested, s).value.out[i..] == s[i + 1..MatchAt(RootNested, s).value.len]
  {
    var n := NameRun(s[7..]);
    var k := UnquotedRun(s[8 + n..]);
    assert s[8 + n + k] == s[8 + n..][k];
  }

  lemma AnchorCopy(s: string, i: nat)
    requires MatchAt(RootAnchor, s).Some?
    requires 17 <= i < |MatchAt(RootAnchor, s).value.out|
    ensures i - 9 < MatchAt(RootAnchor, s).value.len
    ensures MatchAt(RootAnchor, s).value.out[i..] == s[i - 9..MatchAt(RootAnchor, s).value.len]
  {
    var k := UnquotedRun(s[8..]);
    assert s[8 + k] == s[8..][k];
  }

  /** No rooted page rule matches inside the replacement of a match of `k`. */
  lemma NoRootedMatchInReplacement(p: Rule, k: Rule, s: string, i: nat)
    requires IsRootedPageRule(p) && (k == p || HitFree(p, s))
    requires MatchAt(k, s).Some? && i < |MatchAt(k, s).value.out|
    ensures MatchAt(p, (MatchAt(k, s).value.out + ReplaceAll(k, s[MatchAt(k, s).value.len..]))[i..]).None?
  {
    var h := MatchAt(k, s).value;
    var t := ReplaceAll(k, s[h.len..]);
    match k
    case RootIndex =>
      FixedOutShielded(k, s);
      ShieldedStart(p, h.out, t, i, |h.out|);
    case AssetPrefix(_) =>
      FixedOutShielded(k, s);
      ShieldedStart(p, h.out, t, i, |h.out|);
    case RootPage =>
      RootPageOutShielded(s);
      ShieldedStart(p, h.out, t, i, |h.out|);
    case RootNested =>
      if i < 6 {
        RootNestedHeadShielded(s);
        ShieldedStart(p, h.out, t, i, 6);
      } else {
        NestedCopy(s, i);
        SplitCopy(s, i + 1, h.len, h.out, i);
        assert MatchAt(p, s[i + 1..]).None?;
        CopiedStart(p, k, h.out, i, s[h.len..]);
      }
    case RootAnchor =>
      if i < 17 {
        RootAnchorHeadShielded(s);
        ShieldedStart(p, h.out, t, i, 17);
      } else {
        AnchorCopy(s, i);
        SplitCopy(s, i - 9, h.len, h.out, i);
        assert MatchAt(p, s[i - 9..]).None?;
        CopiedStart(p, k, h.out, i, s[h.len..]);
      }
  }

  lemma HitFreeSuffix(p: Rule, s: string, m: nat)
    requires HitFree(p, s) && m <= |s|
    ensures HitFree(p, s[m..])
  {
    forall i | 0 <= i < |s[m..]| ensures MatchAt(p, s[m..][i..]).None? {
      assert s[m..][i..] == s[m + i..];
    }
  }

  /**
   * No position inside what an asset rule wrote starts a match of any asset rule: the
   * value it wrote begins with `../`, so no pass of an asset rule, its own or a later one,
   * puts a second `../` in front of it.
   */
  lemma AssetReplacementUnmatched(a: AssetRoot, b: AssetRoot, s: string, t: string, i: nat)
    requires MatchAt(AssetPrefix(a), s).Some?
    requires i < |MatchAt(AssetPrefix(a), s).value.out|
    ensures MatchAt(AssetPrefix(b), (MatchAt(AssetPrefix(a), s).value.out + t)[i..]).None?
  {
    var out := MatchAt(AssetPrefix(a), s).value.out;
    var d := RootDir(a);
    var attr := if StartsWith(s, "href=\"" + d) then "href" else "src";
    assert out == attr + "=\"../" + d;
    if i == 0 {
      assert out + t == attr + "=\"../" + (d + t);
      AssetSkipsPrefixed(b, attr, d + t);
    } else {
      AssetOutTail(attr, d);
      HeadlessStart(AssetPrefix(b), out[1..], t, i - 1);
      assert (out + t)[i..] == (out[1..] + t)[i - 1..];
    }
  }

  /** After its first character, an asset replacement `href="../<dir>` or `src="../<dir>` holds no attribute head. */
  lemma AssetOutTail(attr: string, d: string)
    requires IsLinkAttr(attr)
    requires d == "Assets/" || d == "img/" || d == "fonts/"
    ensures NoAttrHead((attr + "=\"../" + d)[1..])
  {
    var head := attr[1..] + "=\"../";
    var w := attr + "=\"../" + d;
    assert w == attr + ("=\"../" + d);
    assert w[1..] == attr[1..] + ("=\"../" + d);
    assert w[1..] == head + d;
    HeadThenDir(head, d);
  }

  /** No rule matches at a position of `w` when `w` holds no attribute head, whatever follows `w`. */
  lemma HeadlessStart(rule: Rule, w: string, t: string, j: nat)
    requires NoAttrHead(w) && j < |w|
    ensures MatchAt(rule, (w + t)[j..]).None?
  {
    var y := (w + t)[j..];
    if MatchAt(rule, y).Some? {
      MatchHead(rule, y);
      assert StartsWith(y, w[j..]) by {
        assert y[..|w| - j] == w[j..];
      }
      if StartsWith(y, "href=\"") {
        PrefixesCompatible(y, w[j..], "href=\"");
      } else {
        PrefixesCompatible(y, w[j..], "src=\"");
      }
      assert false;
    }
  }

  /**
   * A pass of `k` leaves no match of `p` behind, provided it cannot revive one and the pass
   * is `p`'s own or its input held none.
   */
  lemma {:induction false} PassKeepsHitFree(p: Rule, k: Rule, s: string)
    requires NoRevival(p, k) && (k == p || HitFree(p, s))
    ensures HitFree(p, ReplaceAll(k, s))
    decreases |s|
  {
    if s != [] {
      match MatchAt(k, s)
      case None =>
        if k != p { HitFreeSuffix(p, s, 1); }
        PassKeepsHitFree(p, k, s[1..]);
        PassCopyStep(p, k, s);
      case Some(h) =>
        if k != p { HitFreeSuffix(p, s, h.len); }
        PassKeepsHitFree(p, k, s[h.len..]);
        PassReplaceStep(p, k, s);
    }
  }

  /** An asset rule's own pass leaves no unprefixed value of its folder anywhere. */
  lemma AssetPassHitFree(a: AssetRoot, s: string)
    ensures HitFree(AssetPrefix(a), ReplaceAll(AssetPrefix(a), s))
  {
    PassKeepsHitFree(AssetPrefix(a), AssetPrefix(a), s);
  }

  lemma PassCopyStep(p: Rule, k: Rule, s: string)
    requires NoRevival(p, k) && (k == p || HitFree(p, s))
    requires s != [] && MatchAt(k, s).None?
    requires HitFree(p, ReplaceAll(k, s[1..]))
    ensures HitFree(p, ReplaceAll(k, s))
  {
    var out := ReplaceAll(k, s);
    var t := ReplaceAll(k, s[1..]);
    ScanCopies(k, s);
    forall i | 0 <= i < |out| ensures MatchAt(p, out[i..]).None? {
      if i == 0 {
        if MatchAt(p, out).Some? {
          ConsSplit(s);
          if k != p { assert s[0..] == s; }
          NoMatchAcrossScan(p, k, [s[0]], s[1..]);
          assert false;
        }
      } else {
        assert out[i..] == t[i - 1..];
      }
    }
  }

  lemma PassReplaceStep(p: Rule, k: Rule, s: string)
    requires NoRevival(p, k) && (k == p || HitFree(p, s))
    requires MatchAt(k, s).Some?
    requires HitFree(p, ReplaceAll(k, s[MatchAt(k, s).value.len..]))
    ensures HitFree(p, ReplaceAll(k, s))
  {
    var h := MatchAt(k, s).value;
    var out := ReplaceAll(k, s);
    var t := ReplaceAll(k, s[h.len..]);
    assert out == h.out + t;
    forall i | 0 <= i < |out| ensures MatchAt(p, out[i..]).None? {
      if i < |h.out| {
        if IsRootedPageRule(p) {
          NoRootedMatchInReplacement(p, k, s, i);
        } else {
          AssetReplacementUnmatched(k.root, p.root, s, t, i);
        }
      } else {
        SuffixPastConcat(h.out, t, i);
      }
    }
  }

  // ---------------------------------------------------------------------------------------
  // The chain

  /** Once `p` matches nowhere, no further pass of a rule that cannot revive it brings a match back. */
  lemma {:induction false} HitFreeAfterRules(p: Rule, rules: seq<Rule>, s: string)
    requires HitFree(p, s)
    requires forall j :: 0 <= j < |rules| ==> NoRevival(p, rules[j])
    ensures HitFree(p, ApplyRules(rules, s))
    decreases |rules|
  {
    if rules != [] {
      PassKeepsHitFree(p, rules[0], s);
      assert forall j :: 0 <= j < |rules[1..]| ==> rules[1..][j] == rules[j + 1];
      HitFreeAfterRules(p, rules[1..], ReplaceAll(rules[0], s));
    }
  }

  /** Running two rule lists one after the other is running their concatenation. */
  lemma {:induction false} ApplyRulesAppend(r1: seq<Rule>, r2: seq<Rule>, s: string)
    ensures ApplyRules(r1 + r2, s) == ApplyRules(r2, ApplyRules(r1, s))
    decreases |r1|
  {
    if r1 == [] {
      assert r1 + r2 == r2;
    } else {
      assert (r1 + r2)[1..] == r1[1..] + r2;
      ApplyRulesAppend(r1[1..], r2, ReplaceAll(r1[0], s));
    }
  }

  /**
   * The `i`-th rule of the chain matches nowhere in the result, when every rule after it
   * cannot revive it.
   */
  lemma ChainRuleHitFree(html: string, i: nat)
    requires i < |LinkRules|
    requires forall j :: i < j < |LinkRules| ==> NoRevival(LinkRules[i], LinkRules[j])
    ensures HitFree(LinkRules[i], RewriteLinks(html))
  {
    var p := LinkRules[i];
    var x := ApplyRules(LinkRules[..i], html);
    var tail := LinkRules[i + 1..];
    assert LinkRules == LinkRules[..i] + LinkRules[i..];
    ApplyRulesAppend(LinkRules[..i], LinkRules[i..], html);
    assert LinkRules[i..][1..] == tail;
    assert RewriteLinks(html) == ApplyRules(tail, ReplaceAll(p, x));
    PassKeepsHitFree(p, p, x);
    assert forall j :: 0 <= j < |tail| ==> tail[j] == LinkRules[i + 1 + j];
    HitFreeAfterRules(p, tail, ReplaceAll(p, x));
  }

  /**
   * After the whole chain no `href="/"` and no `href="/<name>.html"` (with a non-empty name
   * of letters, digits, `_` and `-`) is left anywhere in the page.
   */
  lemma NoRootedPageLinkAfterChain(html: string)
    ensures HitFree(RootIndex, RewriteLinks(html))
    ensures HitFree(RootPage, RewriteLinks(html))
  {
    ChainRuleHitFree(html, 0);
    ChainRuleHitFree(html, 1);
  }

  /**
   * After the whole chain no `href` or `src` value starts with `Assets/`, `img/` or `fonts/`:
   * each of them was given its `../`.
   */
  lemma NoUnprefixedAssetAfterChain(html: string)
    ensures HitFree(AssetPrefix(AssetsDir), RewriteLinks(html))
    ensures HitFree(AssetPrefix(ImgDir), RewriteLinks(html))
    ensures HitFree(AssetPrefix(FontsDir), RewriteLinks(html))
  {
    ChainRuleHitFree(html, 4);
    ChainRuleHitFree(html, 5);
    ChainRuleHitFree(html, 6);
  }

  /** A page in which no rule matches anywhere is left exactly as it is by the chain. */
  lemma {:induction false} ApplyRulesFixed(rules: seq<Rule>, s: string)
    requires forall k :: 0 <= k < |rules| ==> HitFree(rules[k], s)
    ensures ApplyRules(rules, s) == s
    decreases |rules|
  {
    if rules != [] {
      FixedWhenHitFree(rules[0], s);
      assert forall k :: 0 <= k < |rules[1..]| ==> rules[1..][k] == rules[k + 1];
      ApplyRulesFixed(rules[1..], s);
    }
  }

  lemma RewriteLinksFixed(html: string)
    requires forall k :: 0 <= k < |LinkRules| ==> HitFree(LinkRules[k], html)
    ensures RewriteLinks(html) == html
  {
    ApplyRulesFixed(LinkRules, html);
  }

  /** Every match of every rule begins with an attribute head `href="` or `src="`. */
  lemma MatchHead(rule: Rule, s: string)
    requires MatchAt(rule, s).Some?
    ensures StartsWith(s, "href=\"") || StartsWith(s, "src=\"")
  {
    match rule
    case AssetPrefix(a) =>
      if StartsWith(s, "href=\"" + RootDir(a)) {
        assert s[..6] == s[..6 + |RootDir(a)|][..6];
      } else {
        assert s[..5] == s[..5 + |RootDir(a)|][..5];
      }
    case RootAnchor =>
      assert s[..6] == s[..8][..6];
    case RootIndex =>
      assert s[..6] == s[..8][..6];
    case _ =>
      assert s[..6] == s[..7][..6];
  }

  /** A text with no `href="` and no `src="` anywhere gives no rule a place to match. */
  lemma HeadlessHitFree(rule: Rule, s: string)
    requires forall k :: 0 <= k < |s| ==> !StartsWith(s[k..], "href=\"") && !StartsWith(s[k..], "src=\"")
    ensures HitFree(rule, s)
  {
    forall i | 0 <= i < |s| ensures MatchAt(rule, s[i..]).None? {
      if MatchAt(rule, s[i..]).Some? {
        MatchHead(rule, s[i..]);
        assert false;
      }
    }
  }

  /** A page with no `href="` and no `src="` anywhere is left exactly as it is by the chain. */
  lemma {:induction false} HeadlessUnchanged(rules: seq<Rule>, html: string)
    requires forall k :: 0 <= k < |html| ==> !StartsWith(html[k..], "href=\"") && !StartsWith(html[k..], "src=\"")
    ensures ApplyRules(rules, html) == html
    decreases |rules|
  {
    if rules != [] {
      HeadlessHitFree(rules[0], html);
      FixedWhenHitFree(rules[0], html);
      HeadlessUnchanged(rules[1..], html);
    }
  }

  // ---------------------------------------------------------------------------------------
  // What each rule writes in place of what it matched

  lemma RootPageRewrite(name: string, t: string)
    requires name != [] && forall i :: 0 <= i < |name| ==> IsNameChar(name[i])
    ensures MatchAt(RootPage, "href=\"/" + name + ".html\"" + t)
         == Some(Hit(|name| + 13, "href=\"" + name + ".html\""))
  {
    var s := "href=\"/" + name + ".html\"" + t;
    assert s[..7] == HrefRooted;
    assert s[7..] == name + (".html\"" + t);
    NameRunExact(s[7..], |name|);
    assert s[7 + |name|..][..6] == ".html\"";
    assert s[7..7 + |name|] == name;
  }

  lemma RootNestedRewrite(dir: string, rest: string, t: string)
    requires dir != [] && forall i :: 0 <= i < |dir| ==> IsNameChar(dir[i])
    requires rest != [] && forall i :: 0 <= i < |rest| ==> rest[i] != '"'
    ensures MatchAt(RootNested, "href=\"/" + dir + "/" + rest + "\"" + t)
         == Some(Hit(|dir| + |rest| + 9, "href=\"" + dir + "/" + rest + "\""))
  {
    var s := "href=\"/" + dir + "/" + rest + "\"" + t;
    var n := |dir|;
    assert s[..7] == HrefRooted;
    assert s[7..] == dir + ("/" + rest + "\"" + t);
    NameRunExact(s[7..], n);
    assert s[7 + n] == '/';
    assert s[8 + n..] == rest + ("\"" + t);
    UnquotedRunExact(s[8 + n..], |rest|);
    NestedLinkText(s, dir, rest, t);
  }

  lemma NestedLinkText(s: string, dir: string, rest: string, t: string)
    requires s == "href=\"/" + dir + "/" + rest + "\"" + t
    ensures "href=\"" + s[7..8 + |dir| + |rest|] + "\"" == "href=\"" + dir + "/" + rest + "\""
  {
    assert s[7..8 + |dir| + |rest|] == dir + "/" + rest;
  }

  lemma RootAnchorRewrite(frag: string, t: string)
    requires frag != [] && forall i :: 0 <= i < |frag| ==> frag[i] != '"'
    ensures MatchAt(RootAnchor, "href=\"/#" + frag + "\"" + t)
         == Some(Hit(|frag| + 9, "href=\"index.html#" + frag + "\""))
  {
    var s := "href=\"/#" + frag + "\"" + t;
    assert s[..8] == "href=\"/#";
    assert s[8..] == frag + ("\"" + t);
    UnquotedRunExact(s[8..], |frag|);
    assert s[8..8 + |frag|] == frag;
  }

  /** The attribute names the asset rules recognise. */
  predicate IsLinkAttr(attr: string)
  {
    attr == "href" || attr == "src"
  }

  /** An asset rule keeps the attribute name and puts exactly one `../` before the folder. */
  lemma AssetRewrite(a: AssetRoot, attr: string, t: string)
    requires IsLinkAttr(attr)
    ensures MatchAt(AssetPrefix(a), attr + "=\"" + RootDir(a) + t)
         == Some(Hit(|attr| + 2 + |RootDir(a)|, attr + "=\"../" + RootDir(a)))
  {
    var d := RootDir(a);
    var s := attr + "=\"" + d + t;
    if attr == "href" {
      assert attr + "=\"../" == "href=\"../";
      assert s[..6 + |d|] == "href=\"" + d;
    } else {
      assert attr + "=\"../" == "src=\"../";
      assert s[..5 + |d|] == "src=\"" + d;
      DiffersAt(s, "href=\"" + d, 0);
    }
  }

  /** A value that already starts with `../` is not matched by an asset rule. */
  lemma AssetSkipsPrefixed(a: AssetRoot, attr: string, t: string)
    requires IsLinkAttr(attr)
    ensures MatchAt(AssetPrefix(a), attr + "=\"../" + t).None?
  {
    var s := attr + "=\"../" + t;
    var d := RootDir(a);
    if attr == "href" {
      DiffersAt(s, "href=\"" + d, 6);
      DiffersAt(s, "src=\"" + d, 0);
    } else {
      DiffersAt(s, "href=\"" + d, 0);
      DiffersAt(s, "src=\"" + d, 5);
    }
  }

  lemma RootIndexRewrite(t: string)
    ensures MatchAt(RootIndex, "href=\"/\"" + t) == Some(Hit(8, "href=\"index.html\""))
  {
    assert ("href=\"/\"" + t)[..8] == "href=\"/\"";
  }

  // ---------------------------------------------------------------------------------------
  // What each rule matches: a match has the shape of the rule's regular expression

  /** A match of `href="\/"` is that text, rewritten to `href="index.html"`. */
  lemma RootIndexSound(s: string)
    requires MatchAt(RootIndex, s).Some?
    ensures StartsWith(s, "href=\"/\"")
    ensures MatchAt(RootIndex, s).value == Hit(8, "href=\"index.html\"")
  {
  }

  /** A match of `href="\/([a-zA-Z0-9_-]+\.html)"` is a non-empty name between `href="/` and `.html"`. */
  lemma RootPageSound(s: string)
    requires MatchAt(RootPage, s).Some?
    ensures var h := MatchAt(RootPage, s).value; var n := h.len - 13;
            0 < n && StartsWith(s, "href=\"/" + s[7..7 + n] + ".html\"") &&
            (forall i :: 7 <= i < 7 + n ==> IsNameChar(s[i])) &&
            h.out == "href=\"" + s[7..7 + n] + ".html\""
  {
    var n := NameRun(s[7..]);
    assert s[..13 + n] == s[..7] + s[7..7 + n] + s[7 + n..][..6];
    forall i | 7 <= i < 7 + n ensures IsNameChar(s[i]) {
      assert s[i] == s[7..][i - 7];
    }
  }

  /**
   * A match of `href="\/([a-zA-Z0-9_-]+\/[^"]+)"` is a non-empty name, a `/` and a
   * non-empty run without `"` between `href="/` and the closing quote.
   */
  lemma RootNestedSound(s: string)
    requires MatchAt(RootNested, s).Some?
    ensures var h := MatchAt(RootNested, s).value; var n := NameRun(s[7..]); var k := h.len - 9 - n;
            0 < n && 0 < k && StartsWith(s, "href=\"/" + s[7..8 + n + k] + "\"") &&
            (forall i :: 7 <= i < 7 + n ==> IsNameChar(s[i])) && s[7 + n] == '/' &&
            (forall i :: 8 + n <= i < 8 + n + k ==> s[i] != '"') &&
            h.out == "href=\"" + s[7..8 + n + k] + "\""
  {
    var n := NameRun(s[7..]);
    var k := UnquotedRun(s[8 + n..]);
    assert s[..9 + n + k] == s[..7] + s[7..8 + n + k] + [s[8 + n + k]];
    forall i | 7 <= i < 7 + n ensures IsNameChar(s[i]) {
      assert s[i] == s[7..][i - 7];
    }
    forall i | 8 + n <= i < 8 + n + k ensures s[i] != '"' {
      assert s[i] == s[8 + n..][i - 8 - n];
    }
  }

  /** A match of `href="\/#([^"]+)"` is a non-empty run without `"` between `href="/#` and the closing quote. */
  lemma RootAnchorSound(s: string)
    requires MatchAt(RootAnchor, s).Some?
    ensures var h := MatchAt(RootAnchor, s).value; var k := h.len - 9;
            0 < k && StartsWith(s, "href=\"/#" + s[8..8 + k] + "\"") &&
            (forall i :: 8 <= i < 8 + k ==> s[i] != '"') &&
            h.out == "href=\"index.html#" + s[8..8 + k] + "\""
  {
    var k := UnquotedRun(s[8..]);
    assert s[..9 + k] == s[..8] + s[8..8 + k] + [s[8 + k]];
    forall i | 8 <= i < 8 + k ensures s[i] != '"' {
      assert s[i] == s[8..][i - 8];
    }
  }

  /** A match of `(href|src)="<root>` is one of the two attributes, a quote and the folder. */
  lemma AssetSound(a: AssetRoot, s: string)
    requires MatchAt(AssetPrefix(a), s).Some?
    ensures var h := MatchAt(AssetPrefix(a), s).value; var attr := s[..h.len - 2 - |RootDir(a)|];
            IsLinkAttr(attr) && StartsWith(s, attr + "=\"" + RootDir(a)) &&
            h.out == attr + "=\"../" + RootDir(a)
  {
    var d := RootDir(a);
    if StartsWith(s, "href=\"" + d) {
      assert s[..4] == (s[..6 + |d|])[..4] == "href";
      assert s[..4] + "=\"" + d == s[..6 + |d|];
    } else {
      assert s[..3] == (s[..5 + |d|])[..3] == "src";
      assert s[..3] + "=\"" + d == s[..5 + |d|];
    }
  }

  /** The two rooted-folder rules never write an href that starts with `/`. */
  lemma DeRootedOutput(k: Rule, s: string)
    requires k == RootNested || k == RootAnchor
    requires MatchAt(k, s).Some?
    ensures StartsWith(MatchAt(k, s).value.out, "href=\"")
    ensures MatchAt(k, s).value.out[6] != '/'
  {
    if k == RootNested {
      var n := NameRun(s[7..]);
      assert MatchAt(k, s).value.out[6] == s[7] == s[7..][0];
    }
  }

  /**
   * The text a match replaced, recovered from what the rule wrote: every rewrite is
   * reversible, so it loses nothing from the original link.
   */
  function Restore(rule: Rule, out: string): string
  {
    match rule
    case RootIndex => "href=\"/\""
    case RootPage => if |out| < 6 then out else "href=\"/" + out[6..]
    case RootNested => if |out| < 6 then out else "href=\"/" + out[6..]
    case RootAnchor => if |out| < 17 then out else "href=\"/#" + out[17..]
    case AssetPrefix(a) =>
      if |out| < |RootDir(a)| + 3 then out else out[..|out| - |RootDir(a)| - 3] + RootDir(a)
  }

  lemma RestoreMatched(rule: Rule, s: string)
    requires MatchAt(rule, s).Some?
    ensures Restore(rule, MatchAt(rule, s).value.out) == s[..MatchAt(rule, s).value.len]
  {
    match rule
    case RootIndex =>
    case RootPage => RestorePage(s);
    case RootNested => RestoreNested(s);
    case RootAnchor => RestoreAnchor(s);
    case AssetPrefix(a) => RestoreAsset(a, s);
  }

  lemma RestorePage(s: string)
    requires MatchAt(RootPage, s).Some?
    ensures Restore(RootPage, MatchAt(RootPage, s).value.out) == s[..MatchAt(RootPage, s).value.len]
  {
    var h := MatchAt(RootPage, s).value;
    var n := NameRun(s[7..]);
    assert h.out[6..] == s[7..7 + n] + ".html\"";
    assert s[..h.len] == s[..7] + s[7..7 + n] + s[7 + n..][..6];
  }

  lemma RestoreNested(s: string)
    requires MatchAt(RootNested, s).Some?
    ensures Restore(RootNested, MatchAt(RootNested, s).value.out) == s[..MatchAt(RootNested, s).value.len]
  {
    var h := MatchAt(RootNested, s).value;
    var n := NameRun(s[7..]);
    var k := UnquotedRun(s[8 + n..]);
    assert s[8 + n + k] == s[8 + n..][k];
    assert h.out[6..] == s[7..8 + n + k] + "\"";
    assert s[..h.len] == s[..7] + s[7..8 + n + k] + [s[8 + n + k]];
  }

  lemma RestoreAnchor(s: string)
    requires MatchAt(RootAnchor, s).Some?
    ensures Restore(RootAnchor, MatchAt(RootAnchor, s).value.out) == s[..MatchAt(RootAnchor, s).value.len]
  {
    var h := MatchAt(RootAnchor, s).value;
    var k := UnquotedRun(s[8..]);
    assert s[8 + k] == s[8..][k];
    assert h.out[17..] == s[8..8 + k] + "\"";
    assert s[..h.len] == s[..8] + s[8..8 + k] + [s[8 + k]];
  }

  lemma RestoreAsset(a: AssetRoot, s: string)
    requires MatchAt(AssetPrefix(a), s).Some?
    ensures Restore(AssetPrefix(a), MatchAt(AssetPrefix(a), s).value.out)
         == s[..MatchAt(AssetPrefix(a), s).value.len]
  {
    var h := MatchAt(AssetPrefix(a), s).value;
    var d := RootDir(a);
    if StartsWith(s, "href=\"" + d) {
      assert h.out[..|h.out| - |d| - 3] == "href=\"";
    } else {
      assert h.out[..|h.out| - |d| - 3] == "src=\"";
    }
  }

  /**
   * Everything outside the matched spans is preserved: when no match starts in `p`,
   * and a match starts at `m`, the pass writes `p`, then the replacement, then goes on
   * after the matched text.
   */
  lemma SpliceAt(rule: Rule, p: string, m: string, t: string)
    requires forall i :: 0 <= i < |p| ==> MatchAt(rule, (p + (m + t))[i..]).None?
    requires MatchAt(rule, m + t).Some? && MatchAt(rule, m + t).value.len == |m|
    ensures ReplaceAll(rule, p + m + t)
         == p + MatchAt(rule, m + t).value.out + ReplaceAll(rule, t)
  {
    KeepsUnmatchedPrefix(rule, p, m + t);
    ScanReplaces(rule, m + t);
    SuffixPastConcat(m, t, |m|);
    ConcatAssoc(p, m, t);
    ConcatAssoc(p, MatchAt(rule, m + t).value.out, ReplaceAll(rule, t));
  }
}
