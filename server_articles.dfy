/** The article store of the API server: `load_articles` turns the records of the
    news CSV into article rows, filling in defaults, and `/articles` lists them,
    filtered by category and cut to a limit. */
module ServerArticles {
  import opened Wrappers
  import opened Text
  import opened Seqs

  /** One article as the server holds it; every field is text. */
  datatype ArticleRow = ArticleRow(source: string, category: string, url: string, publishedTime: string, content: string)

  /** One record of the CSV reader: header name to field value. A column missing
      from the header, or a field the line does not reach, is absent. */
  type CsvRecord = map<string, string>

  /** The columns the scraper writes, in order. */
  const COLUMNS := ["source", "category", "url", "published_time", "content"]

  /** The default for a missing or empty source or category. */
  const UNKNOWN := "unknown"

  /** `row.get(key) or default`: the field when present and non-empty, else the
      default. */
  function FieldOr(rec: CsvRecord, key: string, default: string): (r: string)
    ensures key in rec && rec[key] != "" ==> r == rec[key]
    ensures key !in rec || rec[key] == "" ==> r == default
  {
    if key in rec && rec[key] != "" then rec[key] else default
  }

  /** The row `load_articles` builds from one record (both of its schema branches
      build the same row). Source and category are never empty; the other fields
      are the record's, or "" when missing. */
  function ToArticleRow(rec: CsvRecord): (r: ArticleRow)
    ensures r.source != "" && r.category != ""
    ensures r.source == (if "source" in rec && rec["source"] != "" then rec["source"] else UNKNOWN)
    ensures r.category == (if "category" in rec && rec["category"] != "" then rec["category"] else UNKNOWN)
    ensures r.url == (if "url" in rec then rec["url"] else "")
    ensures r.publishedTime == (if "published_time" in rec then rec["published_time"] else "")
    ensures r.content == (if "content" in rec then rec["content"] else "")
  {
    ArticleRow(
      FieldOr(rec, "source", UNKNOWN),
      FieldOr(rec, "category", UNKNOWN),
      FieldOr(rec, "url", ""),
      FieldOr(rec, "published_time", ""),
      FieldOr(rec, "content", ""))
  }

  /** The record the CSV writer and reader carry for a row with these fields. */
  function RecordOf(a: ArticleRow): CsvRecord {
    map["source" := a.source, "category" := a.category, "url" := a.url,
        "published_time" := a.publishedTime, "content" := a.content]
  }

  /** A row written with a source and a category loads back unchanged; one written
      with an empty source or category loads back as "unknown" there. */
  lemma RecordRoundTrip(a: ArticleRow)
    ensures var r := ToArticleRow(RecordOf(a));
      && r.url == a.url && r.publishedTime == a.publishedTime && r.content == a.content
      && r.source == (if a.source != "" then a.source else UNKNOWN)
      && r.category == (if a.category != "" then a.category else UNKNOWN)
    ensures a.source != "" && a.category != "" ==> ToArticleRow(RecordOf(a)) == a
  {
  }

  /** `load_articles`: one row per record, in file order. */
  method LoadArticles(records: seq<CsvRecord>) returns (rows: seq<ArticleRow>)
    ensures |rows| == |records|
    ensures forall k :: 0 <= k < |rows| ==> rows[k] == ToArticleRow(records[k])
  {
    rows := [];
    for i := 0 to |records|
      invariant |rows| == i
      invariant forall k :: 0 <= k < i ==> rows[k] == ToArticleRow(records[k])
    {
      rows := rows + [ToArticleRow(records[i])];
    }
  }

  /** One entry of the `/articles` listing: the row without its text, and the text's
      length. */
  datatype Summary = Summary(source: string, category: string, url: string, publishedTime: string, contentChars: nat)

  function SummaryOf(a: ArticleRow): Summary {
    Summary(a.source, a.category, a.url, a.publishedTime, |a.content|)
  }

  /** The category filter: equal once lower-cased. */
  predicate SameCategory(a: ArticleRow, category: string) {
    Lower(a.category) == Lower(category)
  }

  /** The category filter as a test on rows. */
  function InCategory(category: string): ArticleRow -> bool {
    a => SameCategory(a, category)
  }

  /** The rows `/articles` considers: those of the requested category when one is
      given and non-empty, else all of them. */
  function Selected(rows: seq<ArticleRow>, category: Option<string>): seq<ArticleRow> {
    if category.Some? && category.value != "" then
      Filter(rows, InCategory(category.value))
    else
      rows
  }

  /** The listing of `/articles` for a parsed limit: the first `max(0, limit)`
      selected rows, summarised. */
  function ArticlesView(rows: seq<ArticleRow>, category: Option<string>, limit: int): (r: seq<Summary>)
    ensures |r| == Min(|Selected(rows, category)|, Max0(limit))
    ensures forall k :: 0 <= k < |r| ==> r[k] == SummaryOf(Selected(rows, category)[k])
  {
    var selected := Selected(rows, category);
    var shown := selected[..Min(|selected|, Max0(limit))];
    seq(|shown|, k requires 0 <= k < |shown| => SummaryOf(shown[k]))
  }

  /** The `/articles` handler: the limit argument defaults to "50"; a limit that is
      not an integer fails the request (None). */
  function Articles(rows: seq<ArticleRow>, limitArg: Option<string>, category: Option<string>,
                    parseInt: string -> Option<int>): (r: Option<seq<Summary>>)
    ensures limitArg.None? ==> r == Some(ArticlesView(rows, category, 50))
    ensures limitArg.Some? ==> (r.None? <==> parseInt(limitArg.value).None?)
    ensures forall limit :: limitArg.Some? && parseInt(limitArg.value) == Some(limit) ==>
      r == Some(ArticlesView(rows, category, limit))
  {
    match limitArg
    case None => Some(ArticlesView(rows, category, 50))
    case Some(text) =>
      match parseInt(text)
      case None => None
      case Some(limit) => Some(ArticlesView(rows, category, limit))
  }

  /** The positions in `rows` of the entries the listing shows. */
  function ShownPositions(rows: seq<ArticleRow>, category: Option<string>, limit: int): seq<nat> {
    var n := |ArticlesView(rows, category, limit)|;
    if category.Some? && category.value != "" then
      FilterFromAt(rows, InCategory(category.value), 0);
      PositionsFrom(rows, InCategory(category.value), 0)[..n]
    else
      seq(n, k requires 0 <= k < n => k as nat)
  }

  /** The listing keeps the file order: its entries are the summaries of rows at
      increasing positions, each of the requested category (compared without
      ASCII case) when one is given. It lists at most `max(0, limit)` entries,
      and when it lists fewer, it lists every row of the category. */
  lemma ArticlesViewSpec(rows: seq<ArticleRow>, category: Option<string>, limit: int)
    ensures var r := ArticlesView(rows, category, limit);
      var idx := ShownPositions(rows, category, limit);
      var filtered := category.Some? && category.value != "";
      && |r| <= Max0(limit)
      && |idx| == |r|
      && Increasing(idx)
      && (forall k :: 0 <= k < |r| ==> idx[k] < |rows| && r[k] == SummaryOf(rows[idx[k]]))
      && (filtered ==> forall k :: 0 <= k < |r| ==> SameCategory(rows[idx[k]], category.value))
      && (|r| < Max0(limit) ==>
            forall j :: 0 <= j < |rows| && (filtered ==> SameCategory(rows[j], category.value)) ==> j in idx)
  {
    var r := ArticlesView(rows, category, limit);
    var idx := ShownPositions(rows, category, limit);
    if category.Some? && category.value != "" {
      FilterPositions(rows, InCategory(category.value));
      if |r| < Max0(limit) {
        assert idx == PositionsFrom(rows, InCategory(category.value), 0);
      }
    } else if |r| < Max0(limit) {
      forall j | 0 <= j < |rows|
        ensures j in idx
      {
        assert idx[j] == j;
      }
    }
  }

  /** A limit of zero or less lists nothing. */
  lemma ArticlesViewNonPositiveLimit(rows: seq<ArticleRow>, category: Option<string>, limit: int)
    requires limit <= 0
    ensures ArticlesView(rows, category, limit) == []
  {
  }

  /** The URL test of the `/embed` lookup. */
  function HasUrl(url: string): ArticleRow -> bool {
    (a: ArticleRow) => a.url == url
  }

  /** `next((r for r in rows if r.url == url), None)`: the first row with this URL. */
  function FirstWithUrl(rows: seq<ArticleRow>, url: string): (r: Option<ArticleRow>) {
    var matching := Filter(rows, HasUrl(url));
    if matching == [] then None else Some(matching[0])
  }

  /** The lookup finds nothing exactly when no row has the URL; otherwise it finds
      a row with the URL, and no earlier row has it. */
  lemma FirstWithUrlSpec(rows: seq<ArticleRow>, url: string)
    ensures FirstWithUrl(rows, url).None? <==> forall j :: 0 <= j < |rows| ==> rows[j].url != url
    ensures FirstWithUrl(rows, url).Some? ==> exists i ::
      && 0 <= i < |rows| && rows[i] == FirstWithUrl(rows, url).value && rows[i].url == url
      && (forall j :: 0 <= j < i ==> rows[j].url != url)
  {
    var keep := HasUrl(url);
    FilterEmpty(rows, keep);
    if Filter(rows, keep) != [] {
      FilterFirst(rows, keep);
    }
  }
}
