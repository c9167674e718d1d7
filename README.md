# News authenticity checker: the scraper, the article server and the line cleaner

This project models three parts of the news authenticity checker in Dafny.

**The scraping pipeline** (`news_scraper.py`) visits the Times of India portal:
- It picks the category (section) pages, from the home page's navigation links or from a fallback list of slugs.
- On each section page it collects the article links.
- It keeps an article only if all of these hold:
  - its URL was not written before in this run;
  - it lies under the section's path;
  - its publication time (from JSON-LD metadata, or an "Updated:/Published: … IST" stamp in the page text) is not before the cutoff;
  - its whitespace-normalised text is long enough.
- It writes at most `max_articles_per_category` rows per section.

**The Flask server** (`server.py`) has two endpoints:
- `/articles` lists CSV rows, optionally filtered by category (ignoring case) and cut to a limit.
- `/embed` embeds a request's text, or the content of the CSV row with the request's URL. For requests with a URL it keeps an append-only JSON-lines cache keyed by `sha256(model|url)`.

**The line cleaner** (`clean_text` in `data_Extracter.py`) keeps the stripped lines longer than 40 characters and joins them with spaces.

The modules are:
- **Wrappers**: the `Option` datatype.
- **Text**: the Python string operations the code uses: `str.strip`, `lower`, `replace`, `split`, `splitlines`, `join`, and string ordering with `sorted`.
- **Json**: parsed JSON values.
- **Seqs**: list comprehensions with a condition, with the positions of the kept items.
- **ScraperText**, **ScraperLinks**, **ScraperExtract**, **ScraperRun**: the scraper's pure helpers, link discovery, page extraction and the filtering loop. The loop is the method `Scrape`, proved equal to the fold `Run` over the same inputs; the lemmas about `Run` state what the loop promises.
- **ServerArticles**: CSV loading and `/articles`.
- **EmbedCache**: `/embed` and its cache. The class `EmbedService` holds the cache file and a log of backend calls; its `Embed` method is proved equal to the function `EmbedSpec`, which the lemmas describe case by case.
- **LineCleaner**: `clean_text`.

The external world becomes parameters:
- The browser is a `Site`: the home page's hrefs, the hrefs of each section page, and each article page's JSON-LD blocks, paragraphs and body text. A page that fails to open is `None`.
- The parsers (`json.loads`, `dateutil.parser.parse`, `datetime.strptime`) are a `Parsers` value. An exception is `None`, and a time is an integer timestamp in seconds.
- The current time is the parameter `now`.
- The CSV file, as `csv.DictReader` yields it, is a sequence of records.
- The cache file is `None` while it does not exist, and otherwise a sequence of lines. An append adds one new line; this presumes the file is empty or ends with a newline (see `EmbedCache.Appended` under "## Left out").
- `sha256` is the uninterpreted function `digest`, which gives 64-character strings.
- The embedding backend's answer is the parameter `reply`, where `None` means the call raised.

`news_scraper.py:283` adds a URL to the seen-set only when its row is written. So an article rejected by a filter is opened again when another section with the same slug lists it; `ScraperRun.RejectedLinkRefetched` states this.

## Model

| member | source | states |
|---|---|---|
| ScraperText.Collapse | news_scraper.py:44 | `re.sub(r"\s+", " ", s)` leaves no whitespace other than single spaces, never two whitespace characters in a row, is empty only for empty input, and keeps every non-whitespace character in order |
| ScraperText.CollapseWords | news_scraper.py:44 | `re.sub(r"\s+", " ", s)` is the words of s (its maximal non-whitespace runs) joined by single spaces, with one space in front when s starts with whitespace and one behind when s ends with whitespace after a word |
| ScraperText.CleanWs | news_scraper.py:43-44 | `_clean_ws(s)` is exactly `" ".join(s.split())`: the words of s, in order, joined by single spaces; it is normalised (single inner spaces, no whitespace at either end) |
| ScraperText.CleanWsNormalized | news_scraper.py:43-44 | an already normalised string is a fixed point of `_clean_ws` |
| ScraperText.CleanWsIdempotent | news_scraper.py:43-44 | applying `_clean_ws` twice equals applying it once |
| ScraperText.CategorySlugFromUrl | news_scraper.py:178-180 | the slug of a category URL is never empty, holds no '/', and is lower case ("unknown" stands in for an empty segment) |
| ScraperText.NormalizeCategory | news_scraper.py:183-200 | after lower-casing, "world", "business" and "sports" map to themselves, "technology", "tech" and "science" to "technology", "health" and "health-fitness" to "health", "india" and "politics" to "politics"; any other non-empty slug passes through lower-cased, and the empty slug becomes "unknown" |
| ScraperText.NormalizeCategoryIdempotent | news_scraper.py:183-200 | normalising a bucket again returns it unchanged |
| ScraperText.NormalizeCategoryIgnoresCase | news_scraper.py:187 | slugs that differ only in letter case land in the same bucket |
| ScraperLinks.CategorySetMembers | news_scraper.py:66-75 | a URL is collected exactly when some string href passes the exclusion list, has one '/' and is not "/", its slug is allowed (or the allow-list is empty or holds "*"), and the URL is the site prefix plus that href |
| ScraperLinks.GetCategories | news_scraper.py:64-77 | the returned list is strictly ascending (sorted, no duplicates) and holds exactly the collected URLs |
| ScraperLinks.CategoryUrlSlug | news_scraper.py:72-75 | the slug recovered from a category URL built from a root href is the lower-cased href without its '/', and it is in the allow-list when the list is non-empty and has no "*" |
| ScraperLinks.FallbackUrlSlug | news_scraper.py:178-180 | the slug `_category_slug_from_url` recovers from a fallback URL `BASE_URL/s` is the lower-cased s, for a non-empty s without '/' |
| ScraperLinks.FallbackCategories | news_scraper.py:80-86 | the fallback list is non-empty, strictly ascending, and holds the URL of each allowed slug (or each default slug when none is allowed) and nothing else |
| ScraperLinks.LinkOf | news_scraper.py:95-99 | an href is kept exactly when it starts with "/" or "http"; a root-relative href becomes the site prefix plus the href up to its first '?', an absolute one becomes the href up to its first '?' |
| ScraperLinks.PrefixedLink | news_scraper.py:96-97 | a root-relative path without a query gives a site URL with no '?' |
| ScraperLinks.ArticleLinks | news_scraper.py:94-100 | the links have no duplicates, and a URL is among them exactly when some href normalises to it |
| ScraperLinks.GetArticleLinks | news_scraper.py:89-100 | the loop returns the deduplicated, normalised links |
| ScraperExtract.CandidatesMembers | news_scraper.py:109-121 | an object is a candidate exactly when some script block parses to that object, or to an array holding it |
| ScraperExtract.JsonLdCandidates | news_scraper.py:103-122 | the loop returns the candidates of all blocks, block by block |
| ScraperExtract.FindInGraph | news_scraper.py:131-137 | a graph match is a NewsArticle object that appears in the graph list |
| ScraperExtract.FindInGraphFirst | news_scraper.py:133-137 | the graph search returns the first NewsArticle object of the graph, or nothing when there is none |
| ScraperExtract.FindNewsArticle | news_scraper.py:125-138 | a result is a NewsArticle object |
| ScraperExtract.FindNewsArticleFirst | news_scraper.py:125-138 | the search returns the first NewsArticle in the order it looks (each candidate, then its graph), or nothing when no object there is one |
| ScraperExtract.KeywordEnd | news_scraper.py:154 | the keyword alternative `(Updated\|Published):` matches at a position exactly when "Updated:" or "Published:" starts there, and ends 8 or 10 characters later |
| ScraperExtract.IstEnd | news_scraper.py:154 | the end `.*?IST` reaches from a position lies past an "IST", with no newline crossed |
| ScraperExtract.IstEndFirst | news_scraper.py:154 | the lazy `.*?IST` stops at the first "IST" from its start, and fails exactly when no "IST" follows on the same line |
| ScraperExtract.StampAt | news_scraper.py:154 | a match of `(Updated\|Published):\s*(.*?IST)` at a position gives a group that ends in "IST", holds no newline and starts with a visible character |
| ScraperExtract.StampAtMatches | news_scraper.py:154 | a match starts at a position exactly when a keyword starts there and an "IST" follows the whitespace after it on the same line; the group runs from the end of that whitespace through the first such "IST" |
| ScraperExtract.FindStamp | news_scraper.py:154 | `re.search` gives a group with the same shape; `FindStampLeftmost` pins it to the match at the leftmost position |
| ScraperExtract.FindStampLeftmost | news_scraper.py:154-156 | the reported match is the one at the leftmost position where a match starts; there is none exactly when no position starts one |
| ScraperExtract.StampIsStripped | news_scraper.py:158 | the `.strip()` applied to the matched group leaves it unchanged |
| ScraperExtract.FromMetadata | news_scraper.py:146-151 | the metadata keys are tried in order; a result comes from one of them, and none comes back exactly when no key's string value parses |
| ScraperExtract.PublishedTime | news_scraper.py:141-160 | "datePublished" is used when it parses, then "dateModified", and only then the parsed IST stamp from the page text |
| ScraperExtract.ArticleBody | news_scraper.py:168-169 | the "articleBody" is used exactly when the object has it as a string with a visible character, and then it is that string |
| ScraperExtract.ArticleText | news_scraper.py:163-175 | the text is the words of the usable "articleBody" joined by single spaces, or else the words of the paragraphs joined with spaces; it is normalised, and non-empty with a usable body |
| ScraperExtract.ExtractPublishedDt | news_scraper.py:141-160 | on a page, the publication time is that of the page's NewsArticle object and body text |
| ScraperExtract.ExtractArticleText | news_scraper.py:163-175 | on a page, the text is that of the page's NewsArticle object and paragraphs, and is normalised |
| ScraperRun.Cutoff | news_scraper.py:214-220 | the cutoff is now minus the hour window when given, else the day window, else seven days, and is not after now when the windows are non-negative |
| ScraperRun.Admit | news_scraper.py:266-280 | an article is admitted exactly when its page opens, its publication time exists and is not before the cutoff, and its extracted text has at least `min_chars` characters; it is admitted with that time and text |
| ScraperRun.Categories | news_scraper.py:237-239 | the list of sections visited is never empty |
| ScraperRun.InvStep | news_scraper.py:282-285 | writing an unseen admitted row keeps the loop invariant: distinct URLs, the seen-set equal to the written URLs, every row admitted |
| ScraperRun.ScanLinksFacts | news_scraper.py:256-289 | the inner loop keeps the invariant, and only appends rows of this section's bucket under this section's path |
| ScraperRun.ScanCategoryFacts | news_scraper.py:242-289 | one section keeps the invariant and appends only its own rows |
| ScraperRun.ScanSectionsFacts | news_scraper.py:242-289 | the outer loop keeps the invariant and never changes rows already written |
| ScraperRun.ScanLinksCap | news_scraper.py:256-259 | the inner loop keeps the rows already written and adds no more rows than the cap minus the current count |
| ScraperRun.ScanCategoryCap | news_scraper.py:256-259 | one section adds at most `max_articles_per_category` rows |
| ScraperRun.ScanSectionsCap | news_scraper.py:242-259 | n sections add at most n times the per-section cap |
| ScraperRun.ScanLinksComplete | news_scraper.py:257-285 | the inner loop misses nothing: a link not yet seen, under the section's path and admitted by the filters, is written with its time and text unless the cap is reached first |
| ScraperRun.ScanCategoryComplete | news_scraper.py:242-285 | a section writes every unseen admitted article among its links that lies under its path, unless it fills its cap |
| ScraperRun.ScanSectionsAppend | news_scraper.py:242 | visiting two lists of sections one after the other is visiting their concatenation |
| ScraperRun.ScanSectionsSplit | news_scraper.py:242 | the outer loop is the sections before a given one, then that one, then the rest |
| ScraperRun.ScanCategoryWrites | news_scraper.py:242-285 | after a section that does not fill its cap, each admitted article it links to under its path is among the written URLs |
| ScraperRun.ScanSectionsKeepsUrls | news_scraper.py:242-289 | the outer loop never loses a URL already written |
| ScraperRun.ScanSectionsComplete | news_scraper.py:242-285 | when a section links to an admitted article under its path and writes fewer rows than its cap, the article's URL is among those written by the end of the loop |
| ScraperRun.RunComplete | news_scraper.py:222-289 | a run writes every article that a visited section links to, under its path and admitted by the filters, unless that section fills its cap |
| ScraperRun.ScanSectionsFromSections | news_scraper.py:242-265 | each row written comes from one of the visited sections: it carries that section's bucket and lies under its path |
| ScraperRun.RunFacts | news_scraper.py:222-289 | a whole run writes no URL twice, its seen-set is the set of written URLs, and each row comes from a visited section |
| ScraperRun.RunCap | news_scraper.py:256-259 | a run writes at most the number of sections times `max_articles_per_category` rows |
| ScraperRun.RunRowsFiltered | news_scraper.py:270-280 | every written row has a time not before the cutoff and a normalised text of at least `min_chars` characters |
| ScraperRun.RejectedLinkRefetched | news_scraper.py:260-283 | an article rejected by a filter is not marked seen, so a second pass over it opens it again |
| ScraperRun.RunPromises | news_scraper.py:214-289 | the rows of a run started at `now` have distinct URLs, times not before the cutoff, and normalised texts of at least `min_chars` characters |
| ScraperRun.ScrapeSection | news_scraper.py:242-289 | one pass of the outer loop gives exactly the seen-set, rows and fetches of the section fold, and counts one write per row |
| ScraperRun.PickCategories | news_scraper.py:237-239 | the sections are those found on the home page, or the fallback list when none is found, and never empty |
| ScraperRun.Scrape | news_scraper.py:203-294 | `scrape` writes exactly the rows of the run and returns their number; they have distinct URLs, times not before the cutoff, and long enough normalised texts |
| ServerArticles.ToArticleRow | server.py:29-50 | each field is the record's value; an empty or missing source or category becomes "unknown", and other missing fields become "" |
| ServerArticles.RecordRoundTrip | server.py:25-51 | writing a row as a record and reading it back gives the row, when its source and category are non-empty |
| ServerArticles.LoadArticles | server.py:25-51 | the loaded rows correspond one to one, in order, to the CSV records |
| ServerArticles.ArticlesView | server.py:86-99 | the listing has min(number of matching rows, max(0, limit)) entries, the summaries of the first matching rows |
| ServerArticles.Articles | server.py:81-100 | without a limit the limit is 50; a limit that does not parse as an integer gives an error, and any other limit gives the listing for that limit |
| ServerArticles.ArticlesViewSpec | server.py:86-88 | the listing shows rows in CSV order, at most max(0, limit) of them, each matching the category ignoring case; when it is shorter than the limit, every matching row is shown |
| ServerArticles.ArticlesViewNonPositiveLimit | server.py:88 | a limit of zero or less lists nothing |
| ServerArticles.FirstWithUrlSpec | server.py:144 | the URL lookup fails exactly when no row has the URL; otherwise it returns a row with the URL, and no earlier row has it |
| EmbedCache.ReadLine | server.py:107-117 | a blank line or one that does not parse is skipped, a line is read as an object only when it parses to that object, it is unreadable exactly when it parses to something other than an object, and a logged entry is read back as itself |
| EmbedCache.Appended | server.py:120-123 | appending makes the file exist and adds one line with the entry after the existing ones |
| EmbedCache.LoadFails | server.py:106-118 | loading the cache fails exactly when some line parses to JSON that is not an object |
| EmbedCache.LoadIsLastWrite | server.py:115-117 | a loaded cache holds a key exactly when some object line has it, and then maps it to the last such line |
| EmbedCache.LoadSkips | server.py:108-116 | a skipped line, or an object without a string key, leaves the loaded cache unchanged |
| EmbedCache.LoadAppended | server.py:115-123 | appending an entry with a key adds or overwrites exactly that key in the loaded cache |
| EmbedCache.LoadMissing | server.py:103-105 | a missing cache file loads as the empty cache |
| EmbedCache.EntryOf | server.py:158-164 | the entry has exactly the fields key, model, dims, embedding and url: the given key (or null), the backend's model, the vector's length, the vector's values in order, and the given url (or null) |
| EmbedCache.EmbedBadRequest | server.py:140-142 | the answer is 400 exactly when the request has neither text nor url; nothing is embedded or appended then |
| EmbedCache.EmbedNotFound | server.py:143-146 | the answer is 404 exactly when there is no text, there is a url, and no CSV row has that url; nothing is embedded or appended then |
| EmbedCache.EmbedHit | server.py:149-153 | a cache hit happens exactly for a resolvable request with a url, without force, whose key the cache holds; it returns the last entry logged for the key and neither embeds nor appends |
| EmbedCache.EmbedTextOnly | server.py:154-157 | a request without a url never appends, and its text is embedded with the request's model or the default |
| EmbedCache.EmbedBackendFailure | server.py:157 | when the backend fails nothing is appended |
| EmbedCache.EmbedMissAppends | server.py:149-166 | a miss or a forced request with a url embeds the text once and appends one entry keyed by the url and the model; its "dims" is the vector length; the text embedded is the request's own when given |
| EmbedCache.EmbedSecondRequestHits | server.py:149-166 | once an entry is appended, the same request without force is answered from the cache with that entry |
| EmbedCache.EmbedService.constructor | server.py:59-67 | the service starts with its configuration, the cache file as found, and no backend calls |
| EmbedCache.EmbedService.ReadOne | server.py:108-114 | reading one cache line gives its reading |
| EmbedCache.EmbedService.LoadCache | server.py:102-118 | `_load_cache` returns the loaded cache of the current file, and fails when that does |
| EmbedCache.EmbedService.AppendCache | server.py:120-123 | `_append_cache` adds the entry as the file's last line and changes nothing else |
| EmbedCache.EmbedService.Embed | server.py:125-167 | the answer, the backend call logged and the cache file's new contents are those `EmbedSpec` gives for the request and the file as it stood |
| EmbedCache.EmbedService.CallBackend | server.py:157-167 | the backend call is logged, and the entry is appended exactly when it has a key |
| LineCleaner.PiecesAreLongLines | data_Extracter.py:14-15 | the kept pieces are the stripped lines, in order, and a line is kept exactly when it is longer than 40 characters once stripped |
| LineCleaner.CleanTextEmpty | data_Extracter.py:13-16 | the result is empty exactly when no line is longer than 40 characters once stripped |
| LineCleaner.CleanTextSingleLine | data_Extracter.py:13-16 | the result holds no line break |
| LineCleaner.CleanTextTrimmed | data_Extracter.py:15-16 | the result is empty or longer than 40 characters, and has no whitespace at either end |
| LineCleaner.CleanTextIdempotent | data_Extracter.py:13-16 | cleaning cleaned text changes nothing |

## Left out

- Browser control (launching, navigation, waits, timeouts) and `time.sleep` are left out. Their outcomes are the `Site` answers; an exception while opening an article is a `None` page.
- `print`, `argparse`, `main` and the CSV writer's file handling are left out. The CSV file is the sequence of rows written.
- Publication times are integer timestamps in seconds. Timezones and `_safe_iso` are not modelled, and neither is the ISO text written in the `published_time` column.
- The date parsers are parameters. `timedelta` overflow for huge windows is not modelled.
- `json.loads` is a parameter. The `_jsonld_candidates` parser receives the block after `.strip()`.
- `str.lower` is modelled for the ASCII letters only: `Text.Lower` leaves other characters unchanged.
- ScraperLinks.ArticleLinks: `list(set)` in CPython has no specified order. The model fixes the order of first appearance, and its contract does not depend on that order beyond distinctness and membership.
- ScraperRun.Run and ScraperRun.Scrape: because of that fixed link order, the rows they give are those of one of the orders CPython may produce. The order decides which admitted articles a section writes once it reaches its cap, and the order of the rows written. The statements of the invariant, cap and completeness lemmas (`RunFacts`, `RunCap`, `RunComplete`, `RunPromises`) do not mention the order.
- The CSV parsing of `csv.DictReader` is left out. A record is the map it yields.
- The Flask routing, JSON responses, `/health` and environment variables are left out. The default model, the digest and the JSON parser are a `ServiceConfig`.
- ServerArticles.Articles: `int()` is a parameter `parseInt`. A limit that does not parse is `None`, standing for the 500 the server answers.
- Parsing the request body is left out; a `Request` holds optional string fields and `force` as its truth value. A body that is not JSON makes `request.get_json` (server.py:134) raise, and Flask answers 400. A JSON body that is a non-empty non-object (such as `[1]`, `"x"` or `5`) makes `body.get` (server.py:135) raise, and the server answers 500. A falsy JSON body (`null`, `[]`, `0`, `""`) becomes `{}` and gets the 400 of server.py:140-142, which the model gives for a `Request` with no fields. Request fields that are not strings are left out too.
- `ollama_embeddings.py` (the HTTP client for the embedding backend) is not part of this model. Its answer is a parameter.
- EmbedCache.Appended: the cache file is assumed empty or newline-terminated, so an append adds a line of its own. When the file's last line lacks its newline, the code glues the new entry onto it; `json.loads` then fails on that line and `_load_cache` skips both entries (server.py:111-114, server.py:122-123). `EmbedCache.LoadAppended`, `EmbedCache.EmbedService.AppendCache` and `EmbedCache.EmbedSecondRequestHits` rely on the same assumption.
- EmbedCache.ReadLine: an entry appended by the service is assumed to read back as the same object (`json.loads(json.dumps(obj)) == obj`); appended lines are `Entry` lines.
- EmbedCache.EmbedSpec: a JSON line that parses to something other than an object makes `obj.get` raise. The model gives `CacheUnreadable` (the server's 500) and does not model the exception's message.
- Exceptions outside any `try` abort the whole run or request, and are not modelled. In the scraper, the home page's `goto` and `eval_on_selector_all` (news_scraper.py:57-63) have no `try`, and neither does the call to `get_article_links` at news_scraper.py:253 (its `eval_on_selector_all` at news_scraper.py:90). In the server, `open(csv_path)` in `load_articles` (server.py:27) raises when the CSV file is missing, so `/articles`, and `/embed` when it looks a URL up (server.py:143), answer 500. The model treats the home page's hrefs, a section's hrefs and the CSV records as always available.
- The module-level script of `data_Extracter.py` (the browser loop over `NEWS_SITES`) is left out; only `clean_text` is modelled.
