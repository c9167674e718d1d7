/** Discovery of category pages and article links from the hrefs the browser reports
    (`get_categories`, `fallback_categories`, `get_article_links`). An href the page
    gives that is not a string is `None`. */
module ScraperLinks {
  import opened Wrappers
  import opened Text
  import opened ScraperText

  /** The section slugs used when no allow-list is configured. */
  const DEFAULT_VALID_CATEGORIES: set<string> := {
    "india", "world", "business", "sports", "technology", "tech", "health-fitness",
    "science", "environment", "education"
  }

  /** Substrings that disqualify a navigation link from being a category. */
  const EXCLUDED: seq<string> := ["/topic/", "/search", "/videos", "/photos", "?utm", "#"]

  /** The slug `get_categories` checks against the allow-list: the href without its
      slashes, lower-cased. */
  function HrefSlug(href: string): string {
    Lower(StripChars(href, {'/'}))
  }

  /** The whitelist `get_categories` applies to one href: none of the excluded
      substrings, exactly one "/", not the root, and an allowed slug unless the
      allow-list is empty or holds "*". */
  predicate IsCategoryHref(href: string, allowed: set<string>) {
    && (forall k :: 0 <= k < |EXCLUDED| ==> !Contains(href, EXCLUDED[k]))
    && CountChar(href, '/') == 1
    && href != "/"
    && (allowed == {} || "*" in allowed || HrefSlug(href) in allowed)
  }

  /** The set of category URLs `get_categories` accumulates over hrefs. */
  function CategorySet(hrefs: seq<Option<string>>, allowed: set<string>): set<string>
    decreases |hrefs|
  {
    if hrefs == [] then {}
    else
      var last := hrefs[|hrefs| - 1];
      CategorySet(hrefs[..|hrefs| - 1], allowed)
        + (if last.Some? && IsCategoryHref(last.value, allowed) then {BASE_URL + last.value} else {})
  }

  /** A URL is collected exactly when some href passes the whitelist and the URL is
      the site prefix followed by that href. */
  lemma {:induction false} CategorySetMembers(hrefs: seq<Option<string>>, allowed: set<string>, u: string)
    ensures u in CategorySet(hrefs, allowed) <==>
      exists i :: 0 <= i < |hrefs| && hrefs[i].Some? && IsCategoryHref(hrefs[i].value, allowed) && u == BASE_URL + hrefs[i].value
    decreases |hrefs|
  {
    if hrefs != [] {
      var prefix := hrefs[..|hrefs| - 1];
      CategorySetMembers(prefix, allowed, u);
      assert forall i :: 0 <= i < |prefix| ==> prefix[i] == hrefs[i];
    }
  }

  /** The list `get_categories` returns. */
  function CategoryUrls(hrefs: seq<Option<string>>, allowed: set<string>): seq<string> {
    SortedSet(CategorySet(hrefs, allowed))
  }

  /** `get_categories` after navigation: whitelist the hrefs, collect the category
      URLs in a set, return them sorted. */
  method GetCategories(hrefs: seq<Option<string>>, allowed: set<string>) returns (r: seq<string>)
    ensures r == CategoryUrls(hrefs, allowed)
    ensures StrictlySorted(r)
    ensures forall u :: u in r <==> u in CategorySet(hrefs, allowed)
  {
    var categories: set<string> := {};
    for i := 0 to |hrefs|
      invariant categories == CategorySet(hrefs[..i], allowed)
    {
      assert hrefs[..i + 1][..i] == hrefs[..i];
      if hrefs[i].None? {
        continue;
      }
      var href := hrefs[i].value;
      if exists k :: 0 <= k < |EXCLUDED| && Contains(href, EXCLUDED[k]) {
        continue;
      }
      if CountChar(href, '/') == 1 && href != "/" {
        var slug := Lower(StripChars(href, {'/'}));
        if allowed == {} || "*" in allowed || slug in allowed {
          categories := categories + {BASE_URL + href};
        }
      }
    }
    assert hrefs[..|hrefs|] == hrefs;
    r := SortedSet(categories);
  }

  lemma BaseUrlSlashes()
    ensures CountChar(BASE_URL, '/') >= 2
  {
    assert BASE_URL[6] == '/' && BASE_URL[7] == '/';
    CountCharPair(BASE_URL, 6, '/');
  }

  lemma {:induction false} CountCharZero(s: string, c: char)
    requires CountChar(s, c) == 0
    ensures c !in s
    decreases |s|
  {
    if s != [] {
      CountCharZero(s[1..], c);
    }
  }

  lemma {:induction false} CountCharAbsent(s: string, c: char)
    requires c !in s
    ensures CountChar(s, c) == 0
    decreases |s|
  {
    if s != [] {
      CountCharAbsent(s[1..], c);
    }
  }

  /** A href with a single slash cannot hold the site prefix, which has two. */
  lemma HrefLacksBaseUrl(href: string)
    requires CountChar(href, '/') == 1
    ensures !Contains(href, BASE_URL)
  {
    BaseUrlSlashes();
    if Contains(href, BASE_URL) {
      CountCharContains(href, BASE_URL, '/');
    }
  }

  /** The part of a one-slash root-relative href after its slash is non-empty and
      slash-free. */
  lemma RootHrefRest(href: string)
    requires StartsWith(href, "/") && CountChar(href, '/') == 1 && href != "/"
    ensures href == "/" + href[1..]
    ensures href[1..] != [] && '/' !in href[1..]
  {
    assert href[..1] == "/";
    assert CountChar(href, '/') == 1 + CountChar(href[1..], '/');
    CountCharZero(href[1..], '/');
  }

  /** Stripping c off c followed by a c-free, non-empty string leaves that string. */
  lemma StripOneLeading(c: char, rest: string)
    requires rest != [] && c !in rest
    ensures StripChars([c] + rest, {c}) == rest
  {
    assert ([c] + rest)[1..] == rest;
    assert TrimLeft(rest, {c}) == rest;
    assert rest[|rest| - 1] != c;
  }

  /** A one-slash root-relative href strips to its slash-free, non-empty remainder. */
  lemma StripRootSlash(href: string)
    requires StartsWith(href, "/") && CountChar(href, '/') == 1 && href != "/"
    ensures href[1..] != [] && '/' !in href[1..]
    ensures StripChars(href, {'/'}) == href[1..]
  {
    RootHrefRest(href);
    StripOneLeading('/', href[1..]);
  }

  /** `_category_slug_from_url` recovers the lower-cased slug of a one-slash
      root-relative href from the URL built on it. */
  lemma SlugOfRootHref(href: string)
    requires StartsWith(href, "/") && CountChar(href, '/') == 1 && href != "/"
    ensures CategorySlugFromUrl(BASE_URL + href) == HrefSlug(href) == Lower(href[1..])
  {
    HrefLacksBaseUrl(href);
    ReplaceLeading(BASE_URL, href);
    StripRootSlash(href);
    var rest := href[1..];
    var segment := BeforeFirst(rest, '/');
    assert |segment| == |rest|;
  }

  /** Each category URL `get_categories` builds from a root-relative href leads back,
      through `_category_slug_from_url`, to the href's own lower-cased slug, and that
      slug is one the allow-list admits. */
  lemma CategoryUrlSlug(href: string, allowed: set<string>)
    requires StartsWith(href, "/") && IsCategoryHref(href, allowed)
    ensures CategorySlugFromUrl(BASE_URL + href) == HrefSlug(href) == Lower(href[1..])
    ensures allowed != {} && "*" !in allowed ==> CategorySlugFromUrl(BASE_URL + href) in allowed
  {
    SlugOfRootHref(href);
  }

  /** Each fallback URL `BASE_URL/s` leads back, through `_category_slug_from_url`,
      to the lower-cased slug s. */
  lemma FallbackUrlSlug(s: string)
    requires s != [] && '/' !in s
    ensures CategorySlugFromUrl(BASE_URL + "/" + s) == Lower(s)
  {
    var href := "/" + s;
    assert href[1..] == s;
    assert BASE_URL + "/" + s == BASE_URL + href;
    CountCharAbsent(s, '/');
    assert href[1..] == s;
    SlugOfRootHref(href);
  }

  /** The slugs `fallback_categories` uses: the allow-list, or the defaults when it is
      empty. */
  function FallbackSlugs(allowed: set<string>): set<string> {
    if allowed != {} then allowed else DEFAULT_VALID_CATEGORIES
  }

  /** `fallback_categories(allowed)`: one URL per fallback slug, in ascending order;
      never empty. */
  function FallbackCategories(allowed: set<string>): (r: seq<string>)
    ensures r != [] && |r| == |FallbackSlugs(allowed)|
    ensures StrictlySorted(r)
    ensures forall s :: s in FallbackSlugs(allowed) <==> BASE_URL + "/" + s in r
  {
    assert "india" in DEFAULT_VALID_CATEGORIES;
    var slugs := SortedSet(FallbackSlugs(allowed));
    var r := seq(|slugs|, i requires 0 <= i < |slugs| => BASE_URL + "/" + slugs[i]);
    FallbackFacts(slugs, r, FallbackSlugs(allowed));
    r
  }

  lemma FallbackFacts(slugs: seq<string>, r: seq<string>, s: set<string>)
    requires StrictlySorted(slugs) && (forall x :: x in slugs <==> x in s)
    requires |r| == |slugs| && forall i :: 0 <= i < |r| ==> r[i] == BASE_URL + "/" + slugs[i]
    ensures StrictlySorted(r)
    ensures forall x :: x in s <==> BASE_URL + "/" + x in r
  {
    var p := BASE_URL + "/";
    forall i, j | 0 <= i < j < |r|
      ensures StrLess(r[i], r[j])
    {
      StrLessCommonPrefix(p, slugs[i], slugs[j]);
    }
    forall x
      ensures x in s <==> p + x in r
    {
      if p + x in r {
        var i :| 0 <= i < |r| && r[i] == p + x;
        assert (p + x)[|p|..] == x && (p + slugs[i])[|p|..] == slugs[i];
      }
      if x in s {
        var i :| 0 <= i < |slugs| && slugs[i] == x;
        assert r[i] == p + x;
      }
    }
  }

  /** What `get_article_links` keeps of one href: a root-relative href gets the site
      prefix, an absolute one stays, both cut at the first "?"; anything else is
      dropped. */
  function LinkOf(href: Option<string>): (r: Option<string>)
    ensures r.Some? ==> '?' !in r.value && StartsWith(r.value, "http")
    ensures r.None? <==> href.None? || (!StartsWith(href.value, "/") && !StartsWith(href.value, "http"))
    ensures r.Some? && StartsWith(href.value, "/") ==> StartsWith(r.value, BASE_URL + "/")
    ensures href.Some? && StartsWith(href.value, "/") ==> r == Some(BASE_URL + BeforeFirst(href.value, '?'))
    ensures href.Some? && !StartsWith(href.value, "/") && StartsWith(href.value, "http") ==>
      r == Some(BeforeFirst(href.value, '?'))
  {
    match href
    case None => None
    case Some(h) =>
      if StartsWith(h, "/") then
        var path := BeforeFirst(h, '?');
        assert path != [] && path[0] == '/';
        PrefixedLink(path);
        Some(BASE_URL + path)
      else if StartsWith(h, "http") then
        var u := BeforeFirst(h, '?');
        assert u[..4] == h[..4];
        Some(u)
      else None
  }

  lemma PrefixedLink(path: string)
    requires path != [] && path[0] == '/' && '?' !in path
    ensures '?' !in BASE_URL + path
    ensures StartsWith(BASE_URL + path, "http") && StartsWith(BASE_URL + path, BASE_URL + "/")
  {
    var u := BASE_URL + path;
    assert '?' !in BASE_URL;
    assert u[..|BASE_URL| + 1] == BASE_URL + "/";
    assert u[..4] == BASE_URL[..4] == "http";
  }

  /** The article URLs of a section page, each once, in order of first appearance. */
  function ArticleLinks(hrefs: seq<Option<string>>): (r: seq<string>)
    ensures forall i, j :: 0 <= i < j < |r| ==> r[i] != r[j]
    ensures forall u :: u in r <==> exists i :: 0 <= i < |hrefs| && LinkOf(hrefs[i]) == Some(u)
    decreases |hrefs|
  {
    if hrefs == [] then []
    else
      var prefix := hrefs[..|hrefs| - 1];
      var prev := ArticleLinks(prefix);
      assert forall i :: 0 <= i < |prefix| ==> prefix[i] == hrefs[i];
      match LinkOf(hrefs[|hrefs| - 1])
      case None => prev
      case Some(u) => if u in prev then prev else prev + [u]
  }

  /** `get_article_links` after the page query: normalise every href and collect the
      distinct URLs. Python returns `list(set)`, whose order CPython leaves open; the
      model fixes it to the order of first appearance. */
  method GetArticleLinks(hrefs: seq<Option<string>>) returns (links: seq<string>)
    ensures links == ArticleLinks(hrefs)
  {
    var urls: set<string> := {};
    links := [];
    for i := 0 to |hrefs|
      invariant links == ArticleLinks(hrefs[..i])
      invariant forall u :: u in urls <==> u in links
    {
      assert hrefs[..i + 1][..i] == hrefs[..i];
      var url: Option<string> := None;
      if hrefs[i].Some? && StartsWith(hrefs[i].value, "/") {
        url := Some(BASE_URL + BeforeFirst(hrefs[i].value, '?'));
      } else if hrefs[i].Some? && StartsWith(hrefs[i].value, "http") {
        url := Some(BeforeFirst(hrefs[i].value, '?'));
      }
      if url.Some? {
        if url.value !in urls {
          links := links + [url.value];
        }
        urls := urls + {url.value};
      }
    }
    assert hrefs[..|hrefs|] == hrefs;
  }
}
