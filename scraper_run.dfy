/** The filtering loop of `scrape`: pick the categories, visit each section, and
    write the articles that pass the seen-set, path, time and length filters, at
    most `max_articles_per_category` per section. The browser is a `Site` whose
    answers are given; the CSV writer is the sequence of rows written. */
module ScraperRun {
  import opened Wrappers
  import opened Text
  import opened Json
  import opened ScraperText
  import opened ScraperLinks
  import opened ScraperExtract
  import opened Seqs

  const SOURCE := "timesofindia"
  const SECONDS_PER_HOUR := 3600
  const SECONDS_PER_DAY := 86400
  const DEFAULT_WINDOW_DAYS := 7

  /** The command-line settings `scrape` filters with. */
  datatype Config = Config(
    windowHours: Option<int>,
    windowDays: Option<int>,
    allowed: set<string>,
    maxPerCategory: int,
    minChars: int)

  /** What the browser reports while scraping: the hrefs of the home page, the
      hrefs of each section page (None when opening it fails), and each article
      page (None when opening or reading it raises). */
  datatype Site = Site(
    navHrefs: seq<Option<string>>,
    section: string -> Option<seq<Option<string>>>,
    article: string -> Option<Page>)

  /** One CSV row; the publication time stays a timestamp. */
  datatype Row = Row(source: string, category: string, url: string, published: int, content: string)

  /** Everything one run depends on. */
  datatype Env = Env(site: Site, parsers: Parsers, cfg: Config, cutoff: int)

  /** The state the loop carries: the seen-set, the rows written so far, and every
      article URL opened so far, in order. */
  datatype Progress = Progress(seen: set<string>, rows: seq<Row>, fetched: seq<string>)

  /** What the loop consults about a run: the section pages, which article URLs
      the filters admit (with their time and text), and the per-section cap. */
  datatype Scanner = Scanner(
    section: string -> Option<seq<Option<string>>>,
    admit: string -> Option<(int, string)>,
    maxPerCategory: int)

  /** The length of the time window: hours when given, else days, else a week. */
  function WindowSeconds(hours: Option<int>, days: Option<int>): int {
    match hours
    case Some(h) => h * SECONDS_PER_HOUR
    case None =>
      match days
      case Some(d) => d * SECONDS_PER_DAY
      case None => DEFAULT_WINDOW_DAYS * SECONDS_PER_DAY
  }

  /** The cutoff time of `scrape`: the window counted back from now. Hours take
      precedence over days; with neither the window is seven days. */
  function Cutoff(now: int, hours: Option<int>, days: Option<int>): (c: int)
    ensures hours.Some? ==> c == now - hours.value * 3600
    ensures hours.None? && days.Some? ==> c == now - days.value * 86400
    ensures hours.None? && days.None? ==> c == now - 604800
    ensures (hours.Some? ==> hours.value >= 0) && (days.Some? ==> days.value >= 0) ==> c <= now
  {
    now - WindowSeconds(hours, days)
  }

  /** The section path filter: the URL, with the site prefix removed, starts with
      "/slug/". */
  predicate InSection(url: string, slug: string) {
    StartsWith(ReplaceAll(url, BASE_URL, ""), "/" + slug + "/")
  }

  /** What an opened article yields when it passes the filters: a publication time
      not before the cutoff and a text of at least the minimum length. */
  function Admit(env: Env, url: string): (r: Option<(int, string)>)
    ensures r.Some? ==> r.value.0 >= env.cutoff && |r.value.1| >= env.cfg.minChars && Normalized(r.value.1)
    ensures r.Some? ==> env.site.article(url).Some?
    ensures env.site.article(url).Some? ==>
      var page := env.site.article(url).value;
      var obj := PageArticle(page, env.parsers);
      var t := PublishedTime(obj, page.bodyText, env.parsers);
      var text := ArticleText(obj, page);
      && (r.Some? <==> t.Some? && t.value >= env.cutoff && |text| >= env.cfg.minChars)
      && (r.Some? ==> r.value == (t.value, text))
  {
    match env.site.article(url)
    case None => None
    case Some(page) =>
      var obj := PageArticle(page, env.parsers);
      match PublishedTime(obj, page.bodyText, env.parsers)
      case None => None
      case Some(t) =>
        if t < env.cutoff then None
        else
          var content := ArticleText(obj, page);
          if |content| < env.cfg.minChars then None else Some((t, content))
  }

  /** The inner loop over the links still to visit, with `count` rows already
      written for this section. */
  function ScanLinks(sc: Scanner, category: string, slug: string, links: seq<string>, count: int, st: Progress): Progress
    decreases |links|
  {
    if links == [] || count >= sc.maxPerCategory then st
    else
      var url := links[0];
      if url in st.seen || !InSection(url, slug) then
        ScanLinks(sc, category, slug, links[1..], count, st)
      else
        var visited := st.(fetched := st.fetched + [url]);
        match sc.admit(url)
        case None => ScanLinks(sc, category, slug, links[1..], count, visited)
        case Some(found) =>
          var row := Row(SOURCE, category, url, found.0, found.1);
          ScanLinks(sc, category, slug, links[1..], count + 1,
            visited.(seen := visited.seen + {url}, rows := visited.rows + [row]))
  }

  /** One section: its slug and bucket, its article links, then the inner loop. */
  function ScanCategory(sc: Scanner, categoryUrl: string, st: Progress): Progress {
    var slug := CategorySlugFromUrl(categoryUrl);
    match sc.section(categoryUrl)
    case None => st
    case Some(hrefs) => ScanLinks(sc, NormalizeCategory(slug), slug, ArticleLinks(hrefs), 0, st)
  }

  /** The outer loop over the sections still to visit. */
  function ScanSections(sc: Scanner, categories: seq<string>, st: Progress): Progress
    decreases |categories|
  {
    if categories == [] then st
    else ScanSections(sc, categories[1..], ScanCategory(sc, categories[0], st))
  }

  /** The sections `scrape` visits: those found on the home page, or the fallback
      list when none is found. */
  function Categories(site: Site, allowed: set<string>): (r: seq<string>)
    ensures r != []
  {
    var found := CategoryUrls(site.navHrefs, allowed);
    if found != [] then found else FallbackCategories(allowed)
  }

  /** The environment of a run started at `now`. */
  function EnvAt(site: Site, parsers: Parsers, cfg: Config, now: int): Env {
    Env(site, parsers, cfg, Cutoff(now, cfg.windowHours, cfg.windowDays))
  }

  /** What the loop consults in a given environment. */
  function ScannerOf(env: Env): Scanner {
    Scanner(env.site.section, url => Admit(env, url), env.cfg.maxPerCategory)
  }

  /** A whole run, from an empty seen-set and an empty file. */
  function Run(env: Env): Progress {
    ScanSections(ScannerOf(env), Categories(env.site, env.cfg.allowed), Progress({}, [], []))
  }

  // ---------------------------------------------------------------------------
  // The invariant of the loop

  function UrlsOf(rows: seq<Row>): set<string> {
    set k | 0 <= k < |rows| :: rows[k].url
  }

  lemma UrlsOfAppend(rows: seq<Row>, row: Row)
    ensures UrlsOf(rows + [row]) == UrlsOf(rows) + {row.url}
  {
    var all := rows + [row];
    assert all[|rows|].url == row.url;
    forall u | u in UrlsOf(rows)
      ensures u in UrlsOf(all)
    {
      var k :| 0 <= k < |rows| && rows[k].url == u;
      assert all[k] == rows[k];
    }
  }

  /** A row is one `scrape` may write: the source tag, and the time and text its
      article page admits. */
  predicate RowOk(sc: Scanner, row: Row) {
    row.source == SOURCE && sc.admit(row.url) == Some((row.published, row.content))
  }

  /** The seen-set is exactly the set of URLs written, no URL is written twice,
      and every row is one the filters admit. */
  predicate Inv(sc: Scanner, st: Progress) {
    && st.seen == UrlsOf(st.rows)
    && (forall i, j :: 0 <= i < j < |st.rows| ==> st.rows[i].url != st.rows[j].url)
    && (forall k :: 0 <= k < |st.rows| ==> RowOk(sc, st.rows[k]))
  }

  /** The rows `st'` added after those of `st`, each of the section's bucket and
      inside its path. */
  predicate AddsSectionRows(st: Progress, st': Progress, category: string, slug: string) {
    && |st.rows| <= |st'.rows| && st'.rows[..|st.rows|] == st.rows
    && forall k :: |st.rows| <= k < |st'.rows| ==> st'.rows[k].category == category && InSection(st'.rows[k].url, slug)
  }

  lemma InvStep(sc: Scanner, st: Progress, row: Row)
    requires Inv(sc, st) && row.url !in st.seen && RowOk(sc, row)
    ensures Inv(sc, Progress(st.seen + {row.url}, st.rows + [row], st.fetched + [row.url]))
  {
    UrlsOfAppend(st.rows, row);
    var rows := st.rows + [row];
    forall i, j | 0 <= i < j < |rows|
      ensures rows[i].url != rows[j].url
    {
      if j == |st.rows| {
        assert rows[i].url in UrlsOf(st.rows);
      } else {
        assert rows[i] == st.rows[i] && rows[j] == st.rows[j];
      }
    }
  }

  /** The inner loop keeps the invariant, keeps the rows already written, and adds
      only rows of its section. */
  lemma {:induction false} ScanLinksFacts(sc: Scanner, category: string, slug: string, links: seq<string>, count: int, st: Progress)
    requires Inv(sc, st)
    ensures Inv(sc, ScanLinks(sc, category, slug, links, count, st))
    ensures AddsSectionRows(st, ScanLinks(sc, category, slug, links, count, st), category, slug)
    decreases |links|
  {
    if links != [] && count < sc.maxPerCategory {
      var url := links[0];
      if url in st.seen || !InSection(url, slug) {
        ScanLinksFacts(sc, category, slug, links[1..], count, st);
      } else {
        var visited := st.(fetched := st.fetched + [url]);
        match sc.admit(url)
        case None =>
          ScanLinksFacts(sc, category, slug, links[1..], count, visited);
        case Some(found) =>
          var row := Row(SOURCE, category, url, found.0, found.1);
          var next := visited.(seen := visited.seen + {url}, rows := visited.rows + [row]);
          InvStep(sc, st, row);
          ScanLinksFacts(sc, category, slug, links[1..], count + 1, next);
          var r := ScanLinks(sc, category, slug, links[1..], count + 1, next);
          assert r.rows[..|next.rows|] == next.rows;
          assert r.rows[..|st.rows|] == next.rows[..|st.rows|] == st.rows;
          assert r.rows[|st.rows|] == next.rows[|st.rows|] == row;
          forall k | |st.rows| <= k < |r.rows|
            ensures r.rows[k].category == category && InSection(r.rows[k].url, slug)
          {
            if k == |st.rows| {
              assert r.rows[k] == row;
            }
          }
      }
    }
  }

  /** Each section keeps the invariant and writes only rows tagged with the
      section's bucket and under its "/slug/" path. */
  lemma ScanCategoryFacts(sc: Scanner, categoryUrl: string, st: Progress)
    requires Inv(sc, st)
    ensures var slug := CategorySlugFromUrl(categoryUrl);
      var r := ScanCategory(sc, categoryUrl, st);
      && Inv(sc, r)
      && AddsSectionRows(st, r, NormalizeCategory(slug), slug)
  {
    var slug := CategorySlugFromUrl(categoryUrl);
    match sc.section(categoryUrl)
    case None =>
      assert st.rows[..|st.rows|] == st.rows;
    case Some(hrefs) =>
      ScanLinksFacts(sc, NormalizeCategory(slug), slug, ArticleLinks(hrefs), 0, st);
  }

  /** Every row the sections add belongs to one of them: it carries that section's
      bucket and lies under that section's path. */
  predicate FromSomeSection(row: Row, categories: seq<string>) {
    exists c :: c in categories && row.category == NormalizeCategory(CategorySlugFromUrl(c))
      && InSection(row.url, CategorySlugFromUrl(c))
  }

  /** The outer loop keeps the invariant and the rows already written. */
  lemma {:induction false} ScanSectionsFacts(sc: Scanner, categories: seq<string>, st: Progress)
    requires Inv(sc, st)
    ensures var r := ScanSections(sc, categories, st);
      && Inv(sc, r)
      && |st.rows| <= |r.rows| && r.rows[..|st.rows|] == st.rows
    decreases |categories|
  {
    if categories == [] {
      assert st.rows[..|st.rows|] == st.rows;
    } else {
      var mid := ScanCategory(sc, categories[0], st);
      ScanCategoryFacts(sc, categories[0], st);
      ScanSectionsFacts(sc, categories[1..], mid);
      var r := ScanSections(sc, categories[1..], mid);
      assert r.rows[..|st.rows|] == mid.rows[..|st.rows|] == st.rows;
    }
  }

  /** n sections' worth of m rows each, added up. */
  function Times(n: nat, m: nat): nat {
    if n == 0 then 0 else m + Times(n - 1, m)
  }

  lemma {:induction false} TimesIsProduct(n: nat, m: nat)
    ensures Times(n, m) == n * m
  {
    if n > 0 {
      TimesIsProduct(n - 1, m);
    }
  }

  /** The inner loop writes at most `max - count` rows and keeps those already
      written. */
  lemma {:induction false} ScanLinksCap(sc: Scanner, category: string, slug: string, links: seq<string>, count: int, st: Progress)
    ensures |st.rows| <= |ScanLinks(sc, category, slug, links, count, st).rows|
    ensures ScanLinks(sc, category, slug, links, count, st).rows[..|st.rows|] == st.rows
    ensures |ScanLinks(sc, category, slug, links, count, st).rows| - |st.rows| <= Max0(sc.maxPerCategory - count)
    decreases |links|
  {
    if links != [] && count < sc.maxPerCategory {
      var url := links[0];
      if url in st.seen || !InSection(url, slug) {
        ScanLinksCap(sc, category, slug, links[1..], count, st);
      } else {
        var visited := st.(fetched := st.fetched + [url]);
        match sc.admit(url)
        case None =>
          ScanLinksCap(sc, category, slug, links[1..], count, visited);
        case Some(found) =>
          var row := Row(SOURCE, category, url, found.0, found.1);
          var next := visited.(seen := visited.seen + {url}, rows := visited.rows + [row]);
          ScanLinksCap(sc, category, slug, links[1..], count + 1, next);
          var r := ScanLinks(sc, category, slug, links[1..], count + 1, next);
          assert r.rows[..|st.rows|] == next.rows[..|st.rows|] == st.rows;
          assert Max0(sc.maxPerCategory - count) == 1 + Max0(sc.maxPerCategory - (count + 1));
      }
    }
  }

  /** One section adds at most `max` rows. */
  lemma ScanCategoryCap(sc: Scanner, categoryUrl: string, st: Progress)
    ensures |st.rows| <= |ScanCategory(sc, categoryUrl, st).rows| <= |st.rows| + Max0(sc.maxPerCategory)
  {
    var slug := CategorySlugFromUrl(categoryUrl);
    if sc.section(categoryUrl).Some? {
      ScanLinksCap(sc, NormalizeCategory(slug), slug, ArticleLinks(sc.section(categoryUrl).value), 0, st);
    }
  }

  /** The row `scrape` writes for an article it admits. */
  function RowFor(sc: Scanner, category: string, url: string): Row
    requires sc.admit(url).Some?
  {
    Row(SOURCE, category, url, sc.admit(url).value.0, sc.admit(url).value.1)
  }

  /** The inner loop misses no article: a link not yet seen, under the section's
      path and admitted by the filters is written, unless the section's cap is
      reached first. */
  lemma {:induction false} ScanLinksComplete(sc: Scanner, category: string, slug: string, links: seq<string>, count: int, st: Progress, url: string)
    requires url in links && url !in st.seen && InSection(url, slug) && sc.admit(url).Some?
    requires |ScanLinks(sc, category, slug, links, count, st).rows| - |st.rows| < sc.maxPerCategory - count
    ensures RowFor(sc, category, url) in ScanLinks(sc, category, slug, links, count, st).rows
    decreases |links|
  {
    ScanLinksCap(sc, category, slug, links, count, st);
    assert count < sc.maxPerCategory;
    if links[0] == url {
      var visited := st.(fetched := st.fetched + [url]);
      var next := visited.(seen := visited.seen + {url}, rows := visited.rows + [RowFor(sc, category, url)]);
      ScanLinksCap(sc, category, slug, links[1..], count + 1, next);
      var r := ScanLinks(sc, category, slug, links[1..], count + 1, next);
      assert r.rows[..|next.rows|] == next.rows;
      assert r.rows[|st.rows|] == next.rows[|st.rows|];
    } else {
      assert url in links[1..];
      var u := links[0];
      if u in st.seen || !InSection(u, slug) {
        ScanLinksComplete(sc, category, slug, links[1..], count, st, url);
      } else {
        var visited := st.(fetched := st.fetched + [u]);
        match sc.admit(u)
        case None =>
          ScanLinksComplete(sc, category, slug, links[1..], count, visited, url);
        case Some(found) =>
          var row := Row(SOURCE, category, u, found.0, found.1);
          ScanLinksComplete(sc, category, slug, links[1..], count + 1,
            visited.(seen := visited.seen + {u}, rows := visited.rows + [row]), url);
      }
    }
  }

  /** One section misses no article among its links unless it fills its cap. */
  lemma ScanCategoryComplete(sc: Scanner, categoryUrl: string, st: Progress, url: string)
    requires sc.section(categoryUrl).Some? && url in ArticleLinks(sc.section(categoryUrl).value)
    requires url !in st.seen && InSection(url, CategorySlugFromUrl(categoryUrl)) && sc.admit(url).Some?
    requires |ScanCategory(sc, categoryUrl, st).rows| - |st.rows| < sc.maxPerCategory
    ensures RowFor(sc, NormalizeCategory(CategorySlugFromUrl(categoryUrl)), url) in ScanCategory(sc, categoryUrl, st).rows
  {
    var slug := CategorySlugFromUrl(categoryUrl);
    ScanLinksComplete(sc, NormalizeCategory(slug), slug, ArticleLinks(sc.section(categoryUrl).value), 0, st, url);
  }

  /** Visiting sections one list after another is visiting their concatenation. */
  lemma {:induction false} ScanSectionsAppend(sc: Scanner, first: seq<string>, rest: seq<string>, st: Progress)
    ensures ScanSections(sc, first + rest, st) == ScanSections(sc, rest, ScanSections(sc, first, st))
    decreases |first|
  {
    if first != [] {
      assert (first + rest)[1..] == first[1..] + rest;
      ScanSectionsAppend(sc, first[1..], rest, ScanCategory(sc, first[0], st));
    } else {
      assert first + rest == rest;
    }
  }

  /** The outer loop at section i: the sections before it, then it, then the rest. */
  lemma ScanSectionsSplit(sc: Scanner, cats: seq<string>, st: Progress, i: int)
    requires 0 <= i < |cats|
    ensures ScanSections(sc, cats, st)
      == ScanSections(sc, cats[i + 1..], ScanCategory(sc, cats[i], ScanSections(sc, cats[..i], st)))
  {
    assert cats == cats[..i] + cats[i..];
    ScanSectionsAppend(sc, cats[..i], cats[i..], st);
    assert cats[i..][1..] == cats[i + 1..];
  }

  lemma UrlsOfPrefix(rows: seq<Row>, rows': seq<Row>)
    requires |rows| <= |rows'| && rows'[..|rows|] == rows
    ensures UrlsOf(rows) <= UrlsOf(rows')
  {
    forall u | u in UrlsOf(rows)
      ensures u in UrlsOf(rows')
    {
      var k :| 0 <= k < |rows| && rows[k].url == u;
      assert rows'[k] == rows[k];
    }
  }

  /** A section leaves its article's URL among those written: written by it, or
      already written before it. */
  lemma ScanCategoryWrites(sc: Scanner, categoryUrl: string, st: Progress, url: string)
    requires Inv(sc, st)
    requires sc.section(categoryUrl).Some? && url in ArticleLinks(sc.section(categoryUrl).value)
    requires InSection(url, CategorySlugFromUrl(categoryUrl)) && sc.admit(url).Some?
    requires |ScanCategory(sc, categoryUrl, st).rows| - |st.rows| < sc.maxPerCategory
    ensures url in UrlsOf(ScanCategory(sc, categoryUrl, st).rows)
  {
    var r := ScanCategory(sc, categoryUrl, st);
    if url in st.seen {
      ScanCategoryFacts(sc, categoryUrl, st);
      UrlsOfPrefix(st.rows, r.rows);
    } else {
      ScanCategoryComplete(sc, categoryUrl, st, url);
      var k :| 0 <= k < |r.rows| && r.rows[k] == RowFor(sc, NormalizeCategory(CategorySlugFromUrl(categoryUrl)), url);
      assert r.rows[k].url == url;
    }
  }

  /** The outer loop loses no URL already written. */
  lemma ScanSectionsKeepsUrls(sc: Scanner, cats: seq<string>, st: Progress)
    requires Inv(sc, st)
    ensures UrlsOf(st.rows) <= UrlsOf(ScanSections(sc, cats, st).rows)
  {
    ScanSectionsFacts(sc, cats, st);
    UrlsOfPrefix(st.rows, ScanSections(sc, cats, st).rows);
  }

  /** The outer loop misses no article: when section i links to an article under
      its path that the filters admit, and that section writes fewer rows than its
      cap, the article's URL ends up among those written (by this section or an
      earlier one). */
  lemma ScanSectionsComplete(sc: Scanner, cats: seq<string>, st: Progress, i: int, url: string)
    requires Inv(sc, st) && 0 <= i < |cats|
    requires sc.section(cats[i]).Some? && url in ArticleLinks(sc.section(cats[i]).value)
    requires InSection(url, CategorySlugFromUrl(cats[i])) && sc.admit(url).Some?
    requires var before := ScanSections(sc, cats[..i], st);
      |ScanCategory(sc, cats[i], before).rows| - |before.rows| < sc.maxPerCategory
    ensures url in UrlsOf(ScanSections(sc, cats, st).rows)
  {
    var before := ScanSections(sc, cats[..i], st);
    var mid := ScanCategory(sc, cats[i], before);
    ScanSectionsSplit(sc, cats, st, i);
    ScanSectionsFacts(sc, cats[..i], st);
    ScanCategoryWrites(sc, cats[i], before, url);
    ScanCategoryFacts(sc, cats[i], before);
    ScanSectionsKeepsUrls(sc, cats[i + 1..], mid);
  }

  /** A run misses no article: an article linked from a visited section, under its
      path and admitted by the filters, is written unless that section fills its
      cap. */
  lemma RunComplete(env: Env, i: int, url: string)
    requires 0 <= i < |Categories(env.site, env.cfg.allowed)|
    requires var c := Categories(env.site, env.cfg.allowed)[i];
      && env.site.section(c).Some? && url in ArticleLinks(env.site.section(c).value)
      && InSection(url, CategorySlugFromUrl(c)) && Admit(env, url).Some?
    requires var cats := Categories(env.site, env.cfg.allowed);
      var before := ScanSections(ScannerOf(env), cats[..i], Progress({}, [], []));
      |ScanCategory(ScannerOf(env), cats[i], before).rows| - |before.rows| < env.cfg.maxPerCategory
    ensures url in UrlsOf(Run(env).rows)
  {
    assert UrlsOf([]) == {};
    assert ScannerOf(env).admit(url) == Admit(env, url);
    ScanSectionsComplete(ScannerOf(env), Categories(env.site, env.cfg.allowed), Progress({}, [], []), i, url);
  }

  /** The outer loop adds at most `max` rows per section. */
  lemma {:induction false} ScanSectionsCap(sc: Scanner, categories: seq<string>, st: Progress)
    ensures |st.rows| <= |ScanSections(sc, categories, st).rows|
    ensures |ScanSections(sc, categories, st).rows| - |st.rows| <= Times(|categories|, Max0(sc.maxPerCategory))
    decreases |categories|
  {
    if categories != [] {
      var mid := ScanCategory(sc, categories[0], st);
      ScanCategoryCap(sc, categories[0], st);
      ScanSectionsCap(sc, categories[1..], mid);
    }
  }

  /** The rows the outer loop adds each come from one of its sections. */
  lemma {:induction false} ScanSectionsFromSections(sc: Scanner, categories: seq<string>, st: Progress)
    requires Inv(sc, st)
    ensures var r := ScanSections(sc, categories, st);
      forall k :: |st.rows| <= k < |r.rows| ==> FromSomeSection(r.rows[k], categories)
    decreases |categories|
  {
    if categories != [] {
      var c := categories[0];
      var mid := ScanCategory(sc, c, st);
      ScanCategoryFacts(sc, c, st);
      ScanSectionsFacts(sc, categories[1..], mid);
      ScanSectionsFromSections(sc, categories[1..], mid);
      var r := ScanSections(sc, categories[1..], mid);
      forall k | |st.rows| <= k < |r.rows|
        ensures FromSomeSection(r.rows[k], categories)
      {
        if k < |mid.rows| {
          assert r.rows[k] == mid.rows[k];
          assert c in categories;
        } else {
          var row := r.rows[k];
          var c' :| c' in categories[1..] && row.category == NormalizeCategory(CategorySlugFromUrl(c'))
            && InSection(row.url, CategorySlugFromUrl(c'));
          assert c' in categories;
        }
      }
    }
  }

  /** What a whole run writes: no URL twice, every row admitted by the filters and
      from one of the visited sections, and the seen-set equal to the set of
      written URLs. */
  lemma RunFacts(env: Env)
    ensures var r := Run(env);
      && Inv(ScannerOf(env), r)
      && forall k :: 0 <= k < |r.rows| ==> FromSomeSection(r.rows[k], Categories(env.site, env.cfg.allowed))
  {
    assert UrlsOf([]) == {};
    ScanSectionsFacts(ScannerOf(env), Categories(env.site, env.cfg.allowed), Progress({}, [], []));
    ScanSectionsFromSections(ScannerOf(env), Categories(env.site, env.cfg.allowed), Progress({}, [], []));
  }

  /** A run writes at most `max_articles_per_category` rows per visited section. */
  lemma RunCap(env: Env)
    ensures |Run(env).rows| <= |Categories(env.site, env.cfg.allowed)| * Max0(env.cfg.maxPerCategory)
  {
    assert UrlsOf([]) == {};
    ScanSectionsCap(ScannerOf(env), Categories(env.site, env.cfg.allowed), Progress({}, [], []));
    TimesIsProduct(|Categories(env.site, env.cfg.allowed)|, Max0(env.cfg.maxPerCategory));
  }

  /** Every row of a run was published no earlier than the cutoff and has a
      normalised text of at least the minimum length. */
  lemma RunRowsFiltered(env: Env)
    ensures var rows := Run(env).rows;
      forall k :: 0 <= k < |rows| ==>
        rows[k].published >= env.cutoff && |rows[k].content| >= env.cfg.minChars && Normalized(rows[k].content)
  {
    RunFacts(env);
    var rows := Run(env).rows;
    forall k | 0 <= k < |rows|
      ensures rows[k].published >= env.cutoff && |rows[k].content| >= env.cfg.minChars && Normalized(rows[k].content)
    {
      assert RowOk(ScannerOf(env), rows[k]);
      assert ScannerOf(env).admit(rows[k].url) == Admit(env, rows[k].url);
    }
  }

  /** An article that fails a filter is not marked as seen, so a later section with
      the same slug opens it again: two passes over the same link fetch it twice. */
  lemma RejectedLinkRefetched(sc: Scanner, category: string, category': string, slug: string, url: string, st: Progress)
    requires sc.maxPerCategory > 0
    requires url !in st.seen && InSection(url, slug) && sc.admit(url).None?
    ensures var first := ScanLinks(sc, category, slug, [url], 0, st);
      && url !in first.seen
      && ScanLinks(sc, category', slug, [url], 0, first).fetched == st.fetched + [url, url]
  {
    var first := ScanLinks(sc, category, slug, [url], 0, st);
    assert first == st.(fetched := st.fetched + [url]);
    assert ScanLinks(sc, category', slug, [url], 0, first) == first.(fetched := first.fetched + [url]);
  }

  /** The promises of `scrape` about the rows of a run started at `now`. */
  lemma RunPromises(site: Site, parsers: Parsers, cfg: Config, now: int)
    ensures var rows := Run(EnvAt(site, parsers, cfg, now)).rows;
      && (forall i, j :: 0 <= i < j < |rows| ==> rows[i].url != rows[j].url)
      && forall k :: 0 <= k < |rows| ==>
        && rows[k].published >= Cutoff(now, cfg.windowHours, cfg.windowDays)
        && |rows[k].content| >= cfg.minChars
        && Normalized(rows[k].content)
  {
    RunFacts(EnvAt(site, parsers, cfg, now));
    RunRowsFiltered(EnvAt(site, parsers, cfg, now));
  }

  // ---------------------------------------------------------------------------
  // The loop itself

  /** One pass of the outer loop of `scrape`: open the section, collect its
      article links, and run the inner loop over them, updating the seen-set, the
      rows, the fetch log and the written counter. */
  method ScrapeSection(env: Env, categoryUrl: string, seen0: set<string>, rows0: seq<Row>, fetched0: seq<string>, written0: int)
    returns (seen: set<string>, rows: seq<Row>, fetched: seq<string>, written: int)
    ensures Progress(seen, rows, fetched) == ScanCategory(ScannerOf(env), categoryUrl, Progress(seen0, rows0, fetched0))
    ensures written - written0 == |rows| - |rows0|
  {
    seen, rows, fetched, written := seen0, rows0, fetched0, written0;
    var slug := CategorySlugFromUrl(categoryUrl);
    var category := NormalizeCategory(slug);
    var hrefs := env.site.section(categoryUrl);
    if hrefs.None? {
      return;
    }
    var links := GetArticleLinks(hrefs.value);
    var count := 0;
    var li := 0;
    while li < |links|
      invariant li <= |links|
      invariant ScanLinks(ScannerOf(env), category, slug, links[li..], count, Progress(seen, rows, fetched))
        == ScanCategory(ScannerOf(env), categoryUrl, Progress(seen0, rows0, fetched0))
      invariant written - written0 == |rows| - |rows0|
    {
      assert links[li..][1..] == links[li + 1..];
      if count >= env.cfg.maxPerCategory {
        break;
      }
      var url := links[li];
      li := li + 1;
      if url in seen {
        continue;
      }
      var path := ReplaceAll(url, BASE_URL, "");
      if !StartsWith(path, "/" + slug + "/") {
        continue;
      }
      fetched := fetched + [url];
      assert ScannerOf(env).admit(url) == Admit(env, url);
      var page := env.site.article(url);
      if page.None? {
        continue;
      }
      var dt := ExtractPublishedDt(page.value, env.parsers);
      if dt.None? || dt.value < env.cutoff {
        continue;
      }
      var content := ExtractArticleText(page.value, env.parsers);
      if |content| < env.cfg.minChars {
        continue;
      }
      rows := rows + [Row(SOURCE, category, url, dt.value, content)];
      seen := seen + {url};
      written := written + 1;
      count := count + 1;
    }
  }

  /** The start of `scrape`: the categories from the home page, or the fallback
      list when the page yields none. */
  method PickCategories(site: Site, allowed: set<string>) returns (categories: seq<string>)
    ensures categories == Categories(site, allowed)
    ensures categories != []
  {
    categories := GetCategories(site.navHrefs, allowed);
    if categories == [] {
      categories := FallbackCategories(allowed);
    }
  }

  /** `scrape`: returns the number of rows written, the rows in the order written
      and the article URLs opened; these are exactly those of `Run`, and the rows
      meet the filters. */
  method Scrape(site: Site, parsers: Parsers, cfg: Config, now: int) returns (written: int, rows: seq<Row>, fetched: seq<string>)
    ensures rows == Run(EnvAt(site, parsers, cfg, now)).rows
    ensures fetched == Run(EnvAt(site, parsers, cfg, now)).fetched
    ensures written == |rows|
    ensures forall i, j :: 0 <= i < j < |rows| ==> rows[i].url != rows[j].url
    ensures forall k :: 0 <= k < |rows| ==>
      && rows[k].published >= Cutoff(now, cfg.windowHours, cfg.windowDays)
      && |rows[k].content| >= cfg.minChars
      && Normalized(rows[k].content)
  {
    var env := EnvAt(site, parsers, cfg, now);
    written := 0;
    var seen: set<string> := {};
    rows := [];
    fetched := [];
    var categories := PickCategories(site, cfg.allowed);
    for ci := 0 to |categories|
      invariant ScanSections(ScannerOf(env), categories[ci..], Progress(seen, rows, fetched)) == Run(env)
      invariant written == |rows|
    {
      assert categories[ci..][1..] == categories[ci + 1..];
      seen, rows, fetched, written := ScrapeSection(env, categories[ci], seen, rows, fetched, written);
    }
    RunPromises(site, parsers, cfg, now);
  }
}
