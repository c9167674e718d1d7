/** What the scraper reads off one article page: the JSON-LD blocks
    (`_jsonld_candidates`), the NewsArticle object among them
    (`_find_newsarticle_jsonld`), the publication time (`extract_published_dt`) and
    the article text (`extract_article_text`). The browser's answers are the fields
    of a `Page`; the date and JSON parsers, which the model does not re-implement,
    are the partial functions of a `Parsers` value. */
module ScraperExtract {
  import opened Wrappers
  import opened Text
  import opened Json
  import opened ScraperText

  /** What the browser reports of one article page. */
  datatype Page = Page(
    jsonLd: seq<Option<string>>,     // text of each ld+json script; None when not a string
    bodyText: string,                // inner text of <body>
    articleParagraphs: seq<string>,  // inner texts of "article p"
    divParagraphs: seq<string>)      // inner texts of "div p"

  /** The parsers the scraper calls; None stands for the exception they raise. Times
      are seconds since the epoch, UTC; a naive `datetime` counts as UTC, which is
      what the scraper does with one. */
  datatype Parsers = Parsers(
    json: string -> Option<Json>,     // json.loads of the text after str.strip()
    date: string -> Option<int>,      // dateutil's parser.parse
    istDate: string -> Option<int>)   // strptime with "%b %d, %Y, %H:%M IST"

  // ---------------------------------------------------------------------------
  // _jsonld_candidates

  /** The objects one script block contributes: a top-level object itself, or the
      objects directly inside a top-level array. Unparsable text contributes
      nothing. */
  function CandidatesOf(raw: Option<string>, parse: string -> Option<Json>): seq<Object> {
    match raw
    case None => []
    case Some(s) =>
      match parse(s)
      case Some(JObj(o)) => [o]
      case Some(JArr(items)) => ObjectsIn(items)
      case _ => []
  }

  /** The candidates of all blocks, block by block. */
  function Candidates(raws: seq<Option<string>>, parse: string -> Option<Json>): seq<Object>
    decreases |raws|
  {
    if raws == [] then []
    else Candidates(raws[..|raws| - 1], parse) + CandidatesOf(raws[|raws| - 1], parse)
  }

  /** An object is a candidate exactly when some block parses to it, or to an array
      holding it. */
  lemma {:induction false} CandidatesMembers(raws: seq<Option<string>>, parse: string -> Option<Json>, o: Object)
    ensures o in Candidates(raws, parse) <==>
      exists i :: 0 <= i < |raws| && raws[i].Some? && ParsesTo(parse, raws[i].value, o)
    decreases |raws|
  {
    if raws != [] {
      var n := |raws| - 1;
      var prefix := raws[..n];
      CandidatesMembers(prefix, parse, o);
      CandidatesOfMembers(raws[n], parse, o);
      assert Candidates(raws, parse) == Candidates(prefix, parse) + CandidatesOf(raws[n], parse);
      if o in Candidates(prefix, parse) {
        var i :| 0 <= i < |prefix| && prefix[i].Some? && ParsesTo(parse, prefix[i].value, o);
        assert raws[i] == prefix[i];
      }
      if exists i :: 0 <= i < |raws| && raws[i].Some? && ParsesTo(parse, raws[i].value, o) {
        var i :| 0 <= i < |raws| && raws[i].Some? && ParsesTo(parse, raws[i].value, o);
        if i < n {
          assert prefix[i] == raws[i];
        }
      }
    }
  }

  lemma CandidatesOfMembers(raw: Option<string>, parse: string -> Option<Json>, o: Object)
    ensures o in CandidatesOf(raw, parse) <==> raw.Some? && ParsesTo(parse, raw.value, o)
  {
  }

  /** The text parses to o itself or to an array with o among its items. */
  predicate ParsesTo(parse: string -> Option<Json>, raw: string, o: Object) {
    var d := parse(raw);
    d == Some(JObj(o)) || (d.Some? && d.value.JArr? && JObj(o) in d.value.items)
  }

  /** `_jsonld_candidates`: parse each script block, keep the objects. */
  method JsonLdCandidates(raws: seq<Option<string>>, parse: string -> Option<Json>) returns (out: seq<Object>)
    ensures out == Candidates(raws, parse)
  {
    out := [];
    for i := 0 to |raws|
      invariant out == Candidates(raws[..i], parse)
    {
      assert raws[..i + 1][..i] == raws[..i];
      if raws[i].None? {
        continue;
      }
      var data := parse(raws[i].value);
      if data.None? {
        continue;
      }
      ghost var added := CandidatesOf(raws[i], parse);
      if data.value.JObj? {
        assert added == [data.value.fields];
        out := out + [data.value.fields];
      } else if data.value.JArr? {
        assert added == ObjectsIn(data.value.items);
        out := out + ObjectsIn(data.value.items);
      } else {
        assert added == [];
      }
    }
    assert raws[..|raws|] == raws;
  }

  // ---------------------------------------------------------------------------
  // _find_newsarticle_jsonld

  /** An "@type" that is "NewsArticle" or a list naming it. */
  predicate IsNewsArticleType(t: Option<Json>) {
    t == Some(JStr("NewsArticle")) || (t.Some? && t.value.JArr? && JStr("NewsArticle") in t.value.items)
  }

  predicate IsNewsArticle(o: Object) {
    IsNewsArticleType(Get(o, "@type"))
  }

  /** The "@graph" list of an object; anything else counts as no graph. */
  function GraphOf(o: Object): seq<Json> {
    match Get(o, "@graph")
    case Some(JArr(items)) => items
    case _ => []
  }

  /** The first NewsArticle object of a graph list. */
  function FindInGraph(gs: seq<Json>): (r: Option<Object>)
    ensures r.Some? ==> IsNewsArticle(r.value) && JObj(r.value) in gs
    decreases |gs|
  {
    if gs == [] then None
    else if gs[0].JObj? && IsNewsArticle(gs[0].fields) then Some(gs[0].fields)
    else FindInGraph(gs[1..])
  }

  /** The search of `_find_newsarticle_jsonld`: each candidate is tested before its
      own graph, and a graph before the next candidate. */
  function FindNewsArticle(cands: seq<Object>): (r: Option<Object>)
    ensures r.Some? ==> IsNewsArticle(r.value) && "@type" in r.value
    decreases |cands|
  {
    if cands == [] then None
    else if IsNewsArticle(cands[0]) then Some(cands[0])
    else
      match FindInGraph(GraphOf(cands[0]))
      case Some(g) => Some(g)
      case None => FindNewsArticle(cands[1..])
  }

  /** The objects in the order the search looks at them. */
  function SearchOrder(cands: seq<Object>): seq<Object>
    decreases |cands|
  {
    if cands == [] then []
    else [cands[0]] + ObjectsIn(GraphOf(cands[0])) + SearchOrder(cands[1..])
  }

  /** o is the first NewsArticle of xs. */
  predicate IsFirstNewsArticle(xs: seq<Object>, o: Object) {
    exists k :: 0 <= k < |xs| && xs[k] == o && IsNewsArticle(o) && NoNewsArticle(xs[..k])
  }

  predicate NoNewsArticle(xs: seq<Object>) {
    forall j :: 0 <= j < |xs| ==> !IsNewsArticle(xs[j])
  }

  lemma FirstInLeft(a: seq<Object>, b: seq<Object>, o: Object)
    requires IsFirstNewsArticle(a, o)
    ensures IsFirstNewsArticle(a + b, o)
  {
    var k :| 0 <= k < |a| && a[k] == o && IsNewsArticle(o) && NoNewsArticle(a[..k]);
    assert (a + b)[k] == o && (a + b)[..k] == a[..k];
  }

  lemma FirstInRight(a: seq<Object>, b: seq<Object>, o: Object)
    requires NoNewsArticle(a) && IsFirstNewsArticle(b, o)
    ensures IsFirstNewsArticle(a + b, o)
  {
    var k :| 0 <= k < |b| && b[k] == o && IsNewsArticle(o) && NoNewsArticle(b[..k]);
    var ab := a + b;
    assert ab[|a| + k] == o;
    assert ab[..|a| + k] == a + b[..k];
  }

  lemma NoneInBoth(a: seq<Object>, b: seq<Object>)
    requires NoNewsArticle(a) && NoNewsArticle(b)
    ensures NoNewsArticle(a + b)
  {
  }

  /** `FindInGraph` returns the first NewsArticle among the graph's objects, and
      nothing only when there is none. */
  lemma {:induction false} FindInGraphFirst(gs: seq<Json>)
    ensures FindInGraph(gs).None? ==> NoNewsArticle(ObjectsIn(gs))
    ensures FindInGraph(gs).Some? ==> IsFirstNewsArticle(ObjectsIn(gs), FindInGraph(gs).value)
    decreases |gs|
  {
    if gs != [] {
      var head := if gs[0].JObj? then [gs[0].fields] else [];
      assert ObjectsIn(gs) == head + ObjectsIn(gs[1..]);
      if gs[0].JObj? && IsNewsArticle(gs[0].fields) {
        assert ObjectsIn(gs)[0] == gs[0].fields && ObjectsIn(gs)[..0] == [];
      } else {
        FindInGraphFirst(gs[1..]);
        if FindInGraph(gs[1..]).Some? {
          FirstInRight(head, ObjectsIn(gs[1..]), FindInGraph(gs[1..]).value);
        } else {
          NoneInBoth(head, ObjectsIn(gs[1..]));
        }
      }
    }
  }

  /** `_find_newsarticle_jsonld` returns the first NewsArticle in search order, and
      nothing only when no candidate or graph member is one. */
  lemma {:induction false} FindNewsArticleFirst(cands: seq<Object>)
    ensures FindNewsArticle(cands).None? ==> NoNewsArticle(SearchOrder(cands))
    ensures FindNewsArticle(cands).Some? ==> IsFirstNewsArticle(SearchOrder(cands), FindNewsArticle(cands).value)
    decreases |cands|
  {
    if cands != [] {
      var c := cands[0];
      var graph := ObjectsIn(GraphOf(c));
      var rest := SearchOrder(cands[1..]);
      assert SearchOrder(cands) == [c] + graph + rest;
      if IsNewsArticle(c) {
        assert SearchOrder(cands)[0] == c && SearchOrder(cands)[..0] == [];
      } else {
        FindInGraphFirst(GraphOf(c));
        match FindInGraph(GraphOf(c))
        case Some(g) =>
          FirstInRight([c], graph, g);
          FirstInLeft([c] + graph, rest, g);
        case None =>
          NoneInBoth([c], graph);
          FindNewsArticleFirst(cands[1..]);
          if FindNewsArticle(cands[1..]).Some? {
            FirstInRight([c] + graph, rest, FindNewsArticle(cands[1..]).value);
          } else {
            NoneInBoth([c] + graph, rest);
          }
      }
    }
  }

  // ---------------------------------------------------------------------------
  // The "(Updated|Published):\s*(.*?IST)" search in the page text

  /** An "IST" starts at position m of the text. */
  predicate IstAt(text: string, m: int) {
    0 <= m && m + 3 <= |text| && text[m] == 'I' && text[m + 1] == 'S' && text[m + 2] == 'T'
  }

  /** No newline lies in text[a..b]. */
  predicate SameLine(text: string, a: int, b: int) {
    0 <= a <= b <= |text| && forall q :: a <= q < b ==> text[q] != '\n'
  }

  /** Some "IST" starts at or after e with no newline before it: `.*?IST` can match
      from e (`.` does not match a newline). */
  predicate IstReachable(text: string, e: nat) {
    exists m :: e <= m <= |text| && IstAt(text, m) && SameLine(text, e, m)
  }

  /** The index just past "Updated:" or "Published:" when one starts at i. */
  function KeywordEnd(text: string, i: nat): (r: Option<nat>)
    requires i <= |text|
    ensures r.Some? ==> i < r.value <= |text|
    ensures StartsWith(text[i..], "Updated:") ==> r == Some(i + 8)
    ensures StartsWith(text[i..], "Published:") ==> r == Some(i + 10)
    ensures r.None? <==> !StartsWith(text[i..], "Updated:") && !StartsWith(text[i..], "Published:")
  {
    if StartsWith(text[i..], "Updated:") then
      assert text[i] == 'U';
      Some(i + 8)
    else if StartsWith(text[i..], "Published:") then Some(i + 10)
    else None
  }

  /** The index just past the first "IST" at or after e that is reached without
      crossing a newline: the end of the lazy `.*?IST`. */
  function IstEnd(text: string, e: nat): (r: Option<nat>)
    requires e <= |text|
    ensures r.Some? ==> e + 3 <= r.value <= |text| && IstAt(text, r.value - 3)
    ensures r.Some? ==> SameLine(text, e, r.value)
    decreases |text| - e
  {
    if StartsWith(text[e..], "IST") then
      assert text[e..][0] == 'I' && text[e..][1] == 'S' && text[e..][2] == 'T';
      Some(e + 3)
    else if e < |text| && text[e] != '\n' then
      IstEnd(text, e + 1)
    else None
  }

  /** The "IST" `IstEnd` stops at is the first one from e, and `IstEnd` finds none
      exactly when no "IST" follows e on the same line. */
  lemma {:induction false} IstEndFirst(text: string, e: nat)
    requires e <= |text|
    ensures IstEnd(text, e).Some? ==> forall m :: e <= m < IstEnd(text, e).value - 3 ==> !IstAt(text, m)
    ensures IstEnd(text, e).None? <==> !IstReachable(text, e)
    decreases |text| - e
  {
    if StartsWith(text[e..], "IST") {
      assert text[e..][0] == 'I' && text[e..][1] == 'S' && text[e..][2] == 'T';
      assert IstAt(text, e) && SameLine(text, e, e);
    } else {
      assert !IstAt(text, e);
      if e < |text| && text[e] != '\n' {
        IstEndFirst(text, e + 1);
        IstReachableStep(text, e);
      } else {
        IstUnreachable(text, e);
      }
    }
  }

  /** Past a character that is neither a newline nor the start of "IST", the lazy
      `.*?IST` can match exactly when it can from the next position. */
  lemma IstReachableStep(text: string, e: nat)
    requires e < |text| && text[e] != '\n' && !IstAt(text, e)
    ensures IstReachable(text, e) <==> IstReachable(text, e + 1)
  {
    if IstReachable(text, e) {
      var m :| e <= m <= |text| && IstAt(text, m) && SameLine(text, e, m);
      assert SameLine(text, e + 1, m);
    }
    if IstReachable(text, e + 1) {
      var m :| e + 1 <= m <= |text| && IstAt(text, m) && SameLine(text, e + 1, m);
      assert SameLine(text, e, m);
    }
  }

  /** At a newline, or at the end, with no "IST" there, `.*?IST` cannot match. */
  lemma IstUnreachable(text: string, e: nat)
    requires e <= |text| && (e == |text| || text[e] == '\n') && !IstAt(text, e)
    ensures !IstReachable(text, e)
  {
    forall m | e <= m <= |text| && IstAt(text, m)
      ensures !SameLine(text, e, m)
    {
      assert m != e;
    }
  }

  /** The end of the maximal run of whitespace starting at j: the greedy `\s*`. */
  function SkipSpace(text: string, j: nat): (r: nat)
    requires j <= |text|
    ensures j <= r <= |text| && (r == |text| || !IsSpace(text[r]))
    ensures forall m :: j <= m < r ==> IsSpace(text[m])
    decreases |text| - j
  {
    if j < |text| && IsSpace(text[j]) then SkipSpace(text, j + 1) else j
  }

  /** The timestamp group of a match of `(Updated|Published):\s*(.*?IST)` that
      starts at i: after the keyword, the maximal whitespace run (a backtracking
      `\s*` cannot find a different match, as no whitespace character starts "IST"),
      then the shortest run ending in "IST". A match starts at i exactly when a
      keyword does and an "IST" follows on the same line. */
  function StampAt(text: string, i: nat): (r: Option<string>)
    requires i <= |text|
    ensures r.Some? ==> |r.value| >= 3 && r.value[|r.value| - 3..] == "IST"
    ensures r.Some? ==> '\n' !in r.value && !IsSpace(r.value[0])
  {
    match KeywordEnd(text, i)
    case None => None
    case Some(j) =>
      var k := SkipSpace(text, j);
      match IstEnd(text, k)
      case None => None
      case Some(e) =>
        var g := text[k..e];
        assert k + |g| == e;
        StampShape(text, k, e);
        Some(g)
  }

  /** A group that runs from a visible character to an "IST" on the same line. */
  lemma StampShape(text: string, k: nat, e: nat)
    requires k + 3 <= e <= |text| && IstAt(text, e - 3) && SameLine(text, k, e)
    requires !IsSpace(text[k])
    ensures var g := text[k..e]; |g| >= 3 && g[|g| - 3..] == "IST" && '\n' !in g && !IsSpace(g[0])
  {
    var g := text[k..e];
    assert g[|g| - 3..] == "IST";
    forall q | 0 <= q < |g|
      ensures g[q] != '\n'
    {
      assert g[q] == text[k + q];
    }
  }

  /** A match of `(Updated|Published):\s*(.*?IST)` starts at i exactly when a
      keyword starts there and an "IST" follows the whitespace after it on the same
      line; its group runs from the end of that whitespace through the first such
      "IST" (the lazy `.*?`). */
  lemma StampAtMatches(text: string, i: nat)
    requires i <= |text|
    ensures StampAt(text, i).Some? <==>
      KeywordEnd(text, i).Some? && IstReachable(text, SkipSpace(text, KeywordEnd(text, i).value))
    ensures StampAt(text, i).Some? ==>
      var g := StampAt(text, i).value;
      var k := SkipSpace(text, KeywordEnd(text, i).value);
      && k + |g| <= |text| && g == text[k..k + |g|]
      && IstAt(text, k + |g| - 3)
      && forall m :: k <= m < k + |g| - 3 ==> !IstAt(text, m)
  {
    if KeywordEnd(text, i).Some? {
      var k := SkipSpace(text, KeywordEnd(text, i).value);
      IstEndFirst(text, k);
      if IstEnd(text, k).Some? {
        var e := IstEnd(text, k).value;
        assert StampAt(text, i) == Some(text[k..e]);
      } else {
        assert StampAt(text, i).None?;
      }
    } else {
      assert StampAt(text, i).None?;
    }
  }

  /** `re.search`: the match that starts leftmost, at or after i. */
  function FindStamp(text: string, i: nat): (r: Option<string>)
    requires i <= |text|
    ensures r.Some? ==> |r.value| >= 3 && r.value[|r.value| - 3..] == "IST"
    ensures r.Some? ==> '\n' !in r.value && !IsSpace(r.value[0])
    decreases |text| - i
  {
    match StampAt(text, i)
    case Some(g) => Some(g)
    case None => if i < |text| then FindStamp(text, i + 1) else None
  }

  /** The first present entry of xs at or after i. */
  function FirstSome(xs: seq<Option<string>>, i: nat): Option<string>
    requires i <= |xs|
    decreases |xs| - i
  {
    if i == |xs| then None else if xs[i].Some? then xs[i] else FirstSome(xs, i + 1)
  }

  lemma {:induction false} FirstSomeLeftmost(xs: seq<Option<string>>, i: nat)
    requires i <= |xs|
    ensures FirstSome(xs, i).None? ==> forall p :: i <= p < |xs| ==> xs[p].None?
    ensures FirstSome(xs, i).Some? ==>
      exists p :: i <= p < |xs| && xs[p] == FirstSome(xs, i) && forall q :: i <= q < p ==> xs[q].None?
    decreases |xs| - i
  {
    if i < |xs| && xs[i].None? {
      FirstSomeLeftmost(xs, i + 1);
      if FirstSome(xs, i).Some? {
        var p :| i + 1 <= p < |xs| && xs[p] == FirstSome(xs, i + 1) && forall q :: i + 1 <= q < p ==> xs[q].None?;
        assert forall q :: i <= q < p ==> xs[q].None?;
      }
    }
  }

  /** The match each position of the text would start. */
  function MatchesOf(text: string): (ms: seq<Option<string>>)
    ensures |ms| == |text| + 1
  {
    seq(|text| + 1, p requires 0 <= p <= |text| => StampAt(text, p))
  }

  lemma {:induction false} FindStampScans(text: string, i: nat)
    requires i <= |text|
    ensures FindStamp(text, i) == FirstSome(MatchesOf(text), i)
    decreases |text| - i
  {
    var ms := MatchesOf(text);
    assert ms[i] == StampAt(text, i);
    if ms[i].None? && i < |text| {
      FindStampScans(text, i + 1);
    } else if ms[i].None? {
      assert FirstSome(ms, i + 1) == None;
    }
  }

  /** The match `re.search` reports is the one at the leftmost position where a
      match starts, and there is none when no position starts one. */
  lemma FindStampLeftmost(text: string)
    ensures FindStamp(text, 0).None? ==> forall p :: 0 <= p <= |text| ==> MatchesOf(text)[p].None?
    ensures FindStamp(text, 0).Some? ==>
      exists p :: 0 <= p <= |text| && MatchesOf(text)[p] == FindStamp(text, 0) &&
        forall q :: 0 <= q < p ==> MatchesOf(text)[q].None?
  {
    FindStampScans(text, 0);
    FirstSomeLeftmost(MatchesOf(text), 0);
  }

  /** The `.strip()` the scraper applies to the matched timestamp changes nothing. */
  lemma StampIsStripped(text: string)
    requires FindStamp(text, 0).Some?
    ensures Strip(FindStamp(text, 0).value) == FindStamp(text, 0).value
  {
    StripUnchanged(FindStamp(text, 0).value);
  }

  // ---------------------------------------------------------------------------
  // extract_published_dt

  /** The time a string-valued metadata field parses to. A present key already
      makes the object non-empty, as the source's truthiness test asks. */
  function DateField(obj: Option<Object>, key: string, p: Parsers): Option<int> {
    if obj.Some? && key in obj.value && obj.value[key].JStr? then p.date(obj.value[key].s) else None
  }

  /** The metadata keys tried in order, stopping at the first that parses. */
  function FromMetadata(obj: Option<Object>, keys: seq<string>, p: Parsers): (r: Option<int>)
    ensures r.Some? ==> exists k :: 0 <= k < |keys| && DateField(obj, keys[k], p) == r
    ensures r.None? <==> forall k :: 0 <= k < |keys| ==> DateField(obj, keys[k], p).None?
    decreases |keys|
  {
    if keys == [] then None
    else
      match DateField(obj, keys[0], p)
      case Some(t) => Some(t)
      case None =>
        var r := FromMetadata(obj, keys[1..], p);
        assert forall k :: 1 <= k < |keys| ==> keys[k] == keys[1..][k - 1];
        r
  }

  /** The time written in the page text, parsed in the site's fixed format. */
  function TextStampTime(bodyText: string, p: Parsers): Option<int> {
    match FindStamp(bodyText, 0)
    case None => None
    case Some(g) => p.istDate(Strip(g))
  }

  const DATE_KEYS: seq<string> := ["datePublished", "dateModified"]

  /** `extract_published_dt` once the NewsArticle object and the body text are
      known: a parsable "datePublished" wins, then a parsable "dateModified", then
      the time written in the page; failing all three, no time. */
  function PublishedTime(obj: Option<Object>, bodyText: string, p: Parsers): (r: Option<int>)
    ensures DateField(obj, "datePublished", p).Some? ==> r == DateField(obj, "datePublished", p)
    ensures DateField(obj, "datePublished", p).None? && DateField(obj, "dateModified", p).Some? ==>
      r == DateField(obj, "dateModified", p)
    ensures DateField(obj, "datePublished", p).None? && DateField(obj, "dateModified", p).None? ==>
      r == TextStampTime(bodyText, p)
  {
    var meta := FromMetadata(obj, DATE_KEYS, p);
    assert DATE_KEYS[0] == "datePublished" && DATE_KEYS[1] == "dateModified";
    if meta.Some? then meta else TextStampTime(bodyText, p)
  }

  // ---------------------------------------------------------------------------
  // extract_article_text

  /** The "articleBody" of the object when it is a string with a visible character. */
  function ArticleBody(obj: Option<Object>): (r: Option<string>)
    ensures r.Some? ==> Strip(r.value) != ""
    ensures r.Some? <==>
      (obj.Some? && "articleBody" in obj.value && obj.value["articleBody"].JStr?
       && Strip(obj.value["articleBody"].s) != "")
    ensures r.Some? ==> r.value == obj.value["articleBody"].s
  {
    if obj.Some? && "articleBody" in obj.value && obj.value["articleBody"].JStr?
      && Strip(obj.value["articleBody"].s) != ""
    then Some(obj.value["articleBody"].s)
    else None
  }

  /** The paragraphs inside <article>, or every <div> paragraph when there are none. */
  function Paragraphs(page: Page): seq<string> {
    if page.articleParagraphs != [] then page.articleParagraphs else page.divParagraphs
  }

  /** `extract_article_text` once the NewsArticle object is known: the normalised
      article body when it has visible text, otherwise the normalised paragraphs
      joined by spaces. Either way no visible character is lost or added. */
  function ArticleText(obj: Option<Object>, page: Page): (r: string)
    ensures Normalized(r)
    ensures ArticleBody(obj).Some? ==> r != "" && Without(r, WHITESPACE) == Without(ArticleBody(obj).value, WHITESPACE)
    ensures ArticleBody(obj).None? ==> Without(r, WHITESPACE) == Without(Join(Paragraphs(page), " "), WHITESPACE)
    ensures ArticleBody(obj).Some? ==> r == Join(Words(ArticleBody(obj).value), " ")
    ensures ArticleBody(obj).None? ==> r == Join(Words(Join(Paragraphs(page), " ")), " ")
  {
    match ArticleBody(obj)
    case Some(body) =>
      StripNonEmpty(body);
      CleanWs(body)
    case None => CleanWs(Join(Paragraphs(page), " "))
  }

  /** The NewsArticle object of a page. */
  function PageArticle(page: Page, p: Parsers): Option<Object> {
    FindNewsArticle(Candidates(page.jsonLd, p.json))
  }

  /** `extract_published_dt(page)` */
  method ExtractPublishedDt(page: Page, p: Parsers) returns (dt: Option<int>)
    ensures dt == PublishedTime(PageArticle(page, p), page.bodyText, p)
  {
    var cands := JsonLdCandidates(page.jsonLd, p.json);
    var obj := FindNewsArticle(cands);
    dt := PublishedTime(obj, page.bodyText, p);
  }

  /** `extract_article_text(page)` */
  method ExtractArticleText(page: Page, p: Parsers) returns (text: string)
    ensures text == ArticleText(PageArticle(page, p), page)
    ensures Normalized(text)
  {
    var cands := JsonLdCandidates(page.jsonLd, p.json);
    var obj := FindNewsArticle(cands);
    text := ArticleText(obj, page);
  }
}
