/** The embedding cache of the API server and its `/embed` handler. The cache file
    is an append-only log of JSON lines; `_load_cache` folds it into a map in which
    the last entry for a key wins, `_append_cache` adds one line, and `/embed`
    answers a request from the cache or from the embedding backend. */
module EmbedCache {
  import opened Wrappers
  import opened Text
  import opened Json
  import opened ServerArticles

  // ---------------------------------------------------------------------------
  // The cache file and `_load_cache`

  /** One line of the cache file: one that `_append_cache` wrote (the JSON text of an
      object, which reads back as that object), or any other text. */
  datatype LogLine = Entry(obj: Object) | Raw(text: string)

  /** What `_load_cache` makes of one line: nothing, an object, or a JSON value that
      is not an object (on which `obj.get` raises). */
  datatype Reading = Skip | Obj(obj: Object) | NotObject

  /** Reading one line: strip it, skip it when blank or not JSON, otherwise take
      the parsed value. `parse` is `json.loads`. */
  function ReadLine(line: LogLine, parse: string -> Option<Json>): (r: Reading)
    ensures line.Entry? ==> r == Obj(line.obj)
    ensures line.Raw? && Strip(line.text) == "" ==> r == Skip
    ensures line.Raw? && Strip(line.text) != "" && parse(Strip(line.text)).None? ==> r == Skip
    ensures line.Raw? && r.Obj? ==> parse(Strip(line.text)) == Some(JObj(r.obj))
    ensures r.NotObject? <==>
      (line.Raw? && Strip(line.text) != "" && parse(Strip(line.text)).Some? && !parse(Strip(line.text)).value.JObj?)
  {
    match line
    case Entry(o) => Obj(o)
    case Raw(text) =>
      var s := Strip(text);
      if s == "" then Skip
      else
        match parse(s)
        case None => Skip
        case Some(JObj(o)) => Obj(o)
        case Some(_) => NotObject
  }

  /** `obj.get("key")` when it is a string. */
  function KeyOf(o: Object): Option<string> {
    match Get(o, "key")
    case Some(JStr(k)) => Some(k)
    case _ => None
  }

  type Cache = map<string, Object>

  /** One step of the loop of `_load_cache`; None when the line raises. */
  function Step(c: Cache, reading: Reading): Option<Cache> {
    match reading
    case Skip => Some(c)
    case NotObject => None
    case Obj(o) =>
      match KeyOf(o)
      case Some(k) => Some(c[k := o])
      case None => Some(c)
  }

  /** The loop of `_load_cache` over the lines of the file, in order. */
  function Load(lines: seq<LogLine>, parse: string -> Option<Json>): Option<Cache>
    decreases |lines|
  {
    if lines == [] then Some(map[])
    else
      match Load(lines[..|lines| - 1], parse)
      case None => None
      case Some(c) => Step(c, ReadLine(lines[|lines| - 1], parse))
  }

  /** `_load_cache()`: an empty map when the file does not exist. */
  function LoadFile(file: Option<seq<LogLine>>, parse: string -> Option<Json>): Option<Cache> {
    match file
    case None => Some(map[])
    case Some(lines) => Load(lines, parse)
  }

  /** The lines of the file, none when it does not exist. */
  function LinesOf(file: Option<seq<LogLine>>): seq<LogLine> {
    match file
    case None => []
    case Some(lines) => lines
  }

  /** `_append_cache(obj)`: the file, created when missing, with one more line. */
  function Appended(file: Option<seq<LogLine>>, obj: Object): (r: Option<seq<LogLine>>)
    ensures r.Some? && LinesOf(r) == LinesOf(file) + [Entry(obj)]
  {
    Some(LinesOf(file) + [Entry(obj)])
  }

  /** The object of the last line that reads as an object with this key: the entry
      the cache should hold for it. */
  function LastWith(lines: seq<LogLine>, key: string, parse: string -> Option<Json>): Option<Object>
    decreases |lines|
  {
    if lines == [] then None
    else
      var reading := ReadLine(lines[|lines| - 1], parse);
      if reading.Obj? && KeyOf(reading.obj) == Some(key) then Some(reading.obj)
      else LastWith(lines[..|lines| - 1], key, parse)
  }

  /** A line that is JSON but not an object makes the whole load fail. */
  lemma BadLineFails(lines: seq<LogLine>, i: nat, parse: string -> Option<Json>)
    requires i < |lines| && ReadLine(lines[i], parse).NotObject?
    ensures Load(lines, parse).None?
  {
    if Load(lines[..i], parse).None? {
      LoadFailedStays(lines, i, parse);
    } else {
      LoadNext(lines, i, parse);
      LoadFailedStays(lines, i + 1, parse);
    }
  }

  /** A load fails only at a line that is JSON but not an object. */
  lemma {:induction false} FailureHasBadLine(lines: seq<LogLine>, parse: string -> Option<Json>)
    requires Load(lines, parse).None?
    ensures exists i :: 0 <= i < |lines| && ReadLine(lines[i], parse).NotObject?
    decreases |lines|
  {
    var init := lines[..|lines| - 1];
    if Load(init, parse).None? {
      FailureHasBadLine(init, parse);
      var i :| 0 <= i < |init| && ReadLine(init[i], parse).NotObject?;
      assert lines[i] == init[i];
    } else {
      assert ReadLine(lines[|lines| - 1], parse).NotObject?;
    }
  }

  /** Loading fails exactly when some line is JSON but not an object. */
  lemma LoadFails(lines: seq<LogLine>, parse: string -> Option<Json>)
    ensures Load(lines, parse).None? <==> exists i :: 0 <= i < |lines| && ReadLine(lines[i], parse).NotObject?
  {
    if Load(lines, parse).None? {
      FailureHasBadLine(lines, parse);
    } else {
      forall i | 0 <= i < |lines|
        ensures !ReadLine(lines[i], parse).NotObject?
      {
        if ReadLine(lines[i], parse).NotObject? {
          BadLineFails(lines, i, parse);
        }
      }
    }
  }

  /** Last write wins: a loaded cache holds a key exactly when some line reads as an
      object with that key, and then it holds the last such object. */
  lemma {:induction false} LoadIsLastWrite(lines: seq<LogLine>, parse: string -> Option<Json>, key: string)
    requires Load(lines, parse).Some?
    ensures key in Load(lines, parse).value <==> LastWith(lines, key, parse).Some?
    ensures key in Load(lines, parse).value ==> Load(lines, parse).value[key] == LastWith(lines, key, parse).value
    decreases |lines|
  {
    if lines != [] {
      LoadIsLastWrite(lines[..|lines| - 1], parse, key);
    }
  }

  /** A blank line, a line that is not JSON, and an object without a string "key"
      leave the cache as it was. */
  lemma LoadSkips(lines: seq<LogLine>, line: LogLine, parse: string -> Option<Json>)
    requires ReadLine(line, parse).Skip? || (ReadLine(line, parse).Obj? && KeyOf(ReadLine(line, parse).obj).None?)
    ensures Load(lines + [line], parse) == Load(lines, parse)
  {
    assert (lines + [line])[..|lines|] == lines;
  }

  /** Appending an entry with a key and loading again yields the old cache with that
      key bound to the entry. */
  lemma LoadAppended(file: Option<seq<LogLine>>, obj: Object, parse: string -> Option<Json>)
    requires LoadFile(file, parse).Some? && KeyOf(obj).Some?
    ensures LoadFile(Appended(file, obj), parse) == Some(LoadFile(file, parse).value[KeyOf(obj).value := obj])
  {
    var lines := LinesOf(file);
    var all := lines + [Entry(obj)];
    assert all[..|all| - 1] == lines;
    assert Load(lines, parse) == LoadFile(file, parse);
    assert Load(all, parse) == Step(Load(lines, parse).value, Obj(obj));
  }

  /** A file that does not exist loads as the empty cache. */
  lemma LoadMissing(parse: string -> Option<Json>)
    ensures LoadFile(None, parse) == Some(map[])
  {
  }

  // ---------------------------------------------------------------------------
  // The `/embed` decision

  /** The body of an `/embed` request. */
  datatype Request = Request(url: Option<string>, text: Option<string>, model: Option<string>, force: bool)

  /** A field that is present and not the empty string (Python truthiness). */
  predicate Given(s: Option<string>) {
    s.Some? && s.value != ""
  }

  /** What the embedding backend answers: the model it used and the vector. */
  datatype Embedding = Embedding(model: string, vector: seq<real>)

  /** A sha256 hex digest. */
  type HexDigest = s: string | |s| == 64
    witness "0000000000000000000000000000000000000000000000000000000000000000"

  /** What the server is configured with: the default model, the hash behind
      `_cache_key` (sha256 of the text, not interpreted further) and `json.loads`. */
  datatype ServiceConfig = ServiceConfig(
    defaultModel: string,
    digest: string -> HexDigest,
    parse: string -> Option<Json>)

  /** `_cache_key(url, model)`: the digest of "model|url". */
  function CacheKey(cfg: ServiceConfig, url: string, model: string): HexDigest {
    cfg.digest(model + "|" + url)
  }

  /** The responses of `/embed`. */
  datatype Response =
    | BadRequest              // 400: neither text nor url
    | NotFound(url: string)   // 404: the url is not in the CSV
    | Cached(entry: Object)   // `cached: True` and the stored entry
    | Fresh(entry: Object)    // `cached: False` and the new entry
    | CacheUnreadable         // a cache line is JSON but not an object: `obj.get` raises
    | BackendFailed           // the embedding backend raised

  /** The effects of one request: the response, the backend call made (text and
      model), and the entry appended to the cache file. */
  datatype Outcome = Outcome(response: Response, call: Option<(string, string)>, append: Option<Object>)

  /** The model of a request: the one it names, else the default. */
  function ModelOf(cfg: ServiceConfig, req: Request): string {
    if Given(req.model) then req.model.value else cfg.defaultModel
  }

  /** The object `/embed` builds from a backend answer. */
  function EntryOf(key: Option<string>, e: Embedding, url: Option<string>): (out: Object)
    ensures "dims" in out && out["dims"] == JNum(|e.vector| as real)
    ensures "embedding" in out && out["embedding"].JArr? && |out["embedding"].items| == |e.vector|
    ensures forall i :: 0 <= i < |e.vector| ==> out["embedding"].items[i] == JNum(e.vector[i])
    ensures "model" in out && out["model"] == JStr(e.model)
    ensures "url" in out && (url.Some? ==> out["url"] == JStr(url.value)) && (url.None? ==> out["url"] == JNull)
    ensures "key" in out && (key.Some? ==> out["key"] == JStr(key.value)) && (key.None? ==> out["key"] == JNull)
    ensures out.Keys == {"key", "model", "dims", "embedding", "url"}
    ensures KeyOf(out) == key
  {
    map["key" := (if key.Some? then JStr(key.value) else JNull),
        "model" := JStr(e.model),
        "dims" := JNum(|e.vector| as real),
        "embedding" := JArr(seq(|e.vector|, i requires 0 <= i < |e.vector| => JNum(e.vector[i]))),
        "url" := (if url.Some? then JStr(url.value) else JNull)]
  }

  /** The backend call of `/embed` and what follows it. */
  function Compute(text: string, model: string, key: Option<string>, url: Option<string>, reply: Option<Embedding>): Outcome {
    match reply
    case None => Outcome(BackendFailed, Some((text, model)), None)
    case Some(e) =>
      var out := EntryOf(key, e, url);
      Outcome(Fresh(out), Some((text, model)), if key.Some? then Some(out) else None)
  }

  /** The text `/embed` embeds: the request's, else the content of the first CSV
      row with the request's URL. */
  function TextOf(req: Request, rows: seq<ArticleRow>): Option<string> {
    if Given(req.text) then Some(req.text.value)
    else if !Given(req.url) then None
    else
      match FirstWithUrl(rows, req.url.value)
      case None => None
      case Some(a) => Some(a.content)
  }

  /** The `/embed` handler on the CSV rows it loads, the cache file as it stands
      and the answer the backend would give. */
  function EmbedSpec(cfg: ServiceConfig, rows: seq<ArticleRow>, file: Option<seq<LogLine>>,
                     req: Request, reply: Option<Embedding>): Outcome {
    var model := ModelOf(cfg, req);
    if !Given(req.text) && !Given(req.url) then Outcome(BadRequest, None, None)
    else if TextOf(req, rows).None? then Outcome(NotFound(req.url.value), None, None)
    else
      var text := TextOf(req, rows).value;
      if Given(req.url) then
        var key := CacheKey(cfg, req.url.value, model);
        match LoadFile(file, cfg.parse)
        case None => Outcome(CacheUnreadable, None, None)
        case Some(cache) =>
          if !req.force && key in cache then Outcome(Cached(cache[key]), None, None)
          else Compute(text, model, Some(key), req.url, reply)
      else
        Compute(text, model, None, req.url, reply)
  }

  /** 400 exactly when the request has neither text nor url. */
  lemma EmbedBadRequest(cfg: ServiceConfig, rows: seq<ArticleRow>, file: Option<seq<LogLine>>,
                        req: Request, reply: Option<Embedding>)
    ensures var o := EmbedSpec(cfg, rows, file, req, reply);
      && (o.response == BadRequest <==> !Given(req.text) && !Given(req.url))
      && (o.response == BadRequest ==> o.call.None? && o.append.None?)
  {
  }

  /** 404 exactly when the request has a url but no text and no CSV row has that
      url; nothing is embedded or appended then. */
  lemma EmbedNotFound(cfg: ServiceConfig, rows: seq<ArticleRow>, file: Option<seq<LogLine>>,
                      req: Request, reply: Option<Embedding>)
    ensures var o := EmbedSpec(cfg, rows, file, req, reply);
      && (o.response.NotFound? <==>
            !Given(req.text) && Given(req.url) && forall j :: 0 <= j < |rows| ==> rows[j].url != req.url.value)
      && (o.response.NotFound? ==> o.call.None? && o.append.None?)
  {
    if !Given(req.text) && Given(req.url) {
      FirstWithUrlSpec(rows, req.url.value);
    }
  }

  /** A cache hit happens exactly for a request with a url, without `force`, whose
      key the loaded cache holds; it returns the last entry logged for that key and
      neither calls the backend nor appends. */
  lemma EmbedHit(cfg: ServiceConfig, rows: seq<ArticleRow>, file: Option<seq<LogLine>>,
                 req: Request, reply: Option<Embedding>)
    ensures var o := EmbedSpec(cfg, rows, file, req, reply);
      var cache := LoadFile(file, cfg.parse);
      && (o.response.Cached? <==>
            && Given(req.url) && TextOf(req, rows).Some? && !req.force
            && cache.Some? && CacheKey(cfg, req.url.value, ModelOf(cfg, req)) in cache.value)
      && (o.response.Cached? ==> o.call.None? && o.append.None?)
      && (Given(req.url) && o.response.Cached? && file.Some? ==>
            LastWith(file.value, CacheKey(cfg, req.url.value, ModelOf(cfg, req)), cfg.parse) == Some(o.response.entry))
  {
    var o := EmbedSpec(cfg, rows, file, req, reply);
    if Given(req.url) && o.response.Cached? && file.Some? {
      LoadIsLastWrite(file.value, cfg.parse, CacheKey(cfg, req.url.value, ModelOf(cfg, req)));
    }
  }

  /** A request without a url never writes to the cache. */
  lemma EmbedTextOnly(cfg: ServiceConfig, rows: seq<ArticleRow>, file: Option<seq<LogLine>>,
                      req: Request, reply: Option<Embedding>)
    requires !Given(req.url)
    ensures var o := EmbedSpec(cfg, rows, file, req, reply);
      && o.append.None?
      && (Given(req.text) ==> o.call == Some((req.text.value, ModelOf(cfg, req))))
  {
  }

  /** When the backend fails nothing is appended, so the loaded cache, and every
      entry in it, stays as it was. */
  lemma EmbedBackendFailure(cfg: ServiceConfig, rows: seq<ArticleRow>, file: Option<seq<LogLine>>, req: Request)
    ensures var o := EmbedSpec(cfg, rows, file, req, None);
      && o.append.None?
      && (o.call.Some? ==> o.response == BackendFailed)
  {
  }

  /** A miss or a forced request with a url embeds the text once and appends exactly
      one entry, keyed by the url and the model, whose "dims" is the length of the
      vector; the text embedded is the request's when it has one, even though the key
      comes from the url. */
  lemma EmbedMissAppends(cfg: ServiceConfig, rows: seq<ArticleRow>, file: Option<seq<LogLine>>,
                         req: Request, e: Embedding)
    requires Given(req.url) && TextOf(req, rows).Some?
    requires LoadFile(file, cfg.parse).Some?
    requires req.force || CacheKey(cfg, req.url.value, ModelOf(cfg, req)) !in LoadFile(file, cfg.parse).value
    ensures var o := EmbedSpec(cfg, rows, file, req, Some(e));
      && o.call == Some((TextOf(req, rows).value, ModelOf(cfg, req)))
      && (Given(req.text) ==> o.call.value.0 == req.text.value)
      && o.append.Some? && o.response == Fresh(o.append.value)
      && KeyOf(o.append.value) == Some(CacheKey(cfg, req.url.value, ModelOf(cfg, req)))
      && o.append.value["dims"] == JNum(|e.vector| as real)
  {
  }

  /** After a request with a url has appended its entry, the same request without
      `force` is answered from the cache with that entry. */
  lemma EmbedSecondRequestHits(cfg: ServiceConfig, rows: seq<ArticleRow>, file: Option<seq<LogLine>>,
                               req: Request, reply: Option<Embedding>, reply': Option<Embedding>)
    requires EmbedSpec(cfg, rows, file, req, reply).append.Some?
    ensures var first := EmbedSpec(cfg, rows, file, req, reply);
      var second := EmbedSpec(cfg, rows, Appended(file, first.append.value), req.(force := false), reply');
      second == Outcome(Cached(first.append.value), None, None)
  {
    var first := EmbedSpec(cfg, rows, file, req, reply);
    assert Given(req.url) && TextOf(req, rows).Some? && LoadFile(file, cfg.parse).Some? && reply.Some?;
    var key := CacheKey(cfg, req.url.value, ModelOf(cfg, req));
    var obj := EntryOf(Some(key), reply.value, req.url);
    assert first.append == Some(obj);
    var again := req.(force := false);
    assert ModelOf(cfg, again) == ModelOf(cfg, req) && TextOf(again, rows) == TextOf(req, rows);
    LoadAppended(file, obj, cfg.parse);
    assert LoadFile(Appended(file, obj), cfg.parse) == Some(LoadFile(file, cfg.parse).value[key := obj]);
  }

  // ---------------------------------------------------------------------------
  // The server's state

  /** The `/embed` side of the server: its configuration, the cache file (None until
      it exists) and the log of calls made to the embedding backend. */
  class EmbedService {
    const cfg: ServiceConfig
    var cacheFile: Option<seq<LogLine>>
    var backendCalls: seq<(string, string)>

    constructor (cfg: ServiceConfig, cacheFile: Option<seq<LogLine>>)
      ensures this.cfg == cfg && this.cacheFile == cacheFile && backendCalls == []
    {
      this.cfg := cfg;
      this.cacheFile := cacheFile;
      backendCalls := [];
    }

    /** The body of the loop of `_load_cache` up to `obj.get`: strip the line, skip
        it when blank, try `json.loads` and skip it when that raises. */
    method ReadOne(line: LogLine) returns (reading: Reading)
      ensures reading == ReadLine(line, cfg.parse)
    {
      match line
      case Entry(o) =>
        return Obj(o);
      case Raw(text) =>
        var stripped := Strip(text);
        if stripped == "" {
          return Skip;
        }
        var parsed := cfg.parse(stripped);
        if parsed.None? {
          return Skip;
        }
        if !parsed.value.JObj? {
          return NotObject;
        }
        return Obj(parsed.value.fields);
    }

    /** `_load_cache()` */
    method LoadCache() returns (cache: Option<Cache>)
      ensures cache == LoadFile(cacheFile, cfg.parse)
    {
      if cacheFile.None? {
        return Some(map[]);
      }
      var lines := cacheFile.value;
      var c: Cache := map[];
      for i := 0 to |lines|
        invariant Load(lines[..i], cfg.parse) == Some(c)
      {
        LoadNext(lines, i, cfg.parse);
        var reading := ReadOne(lines[i]);
        if reading.NotObject? {
          LoadFailedStays(lines, i + 1, cfg.parse);
          return None;
        }
        if reading.Obj? {
          var k := KeyOf(reading.obj);
          if k.Some? {
            c := c[k.value := reading.obj];
          }
        }
      }
      assert lines[..|lines|] == lines;
      cache := Some(c);
    }

    /** `_append_cache(obj)` */
    method AppendCache(obj: Object)
      modifies this
      ensures cacheFile == Appended(old(cacheFile), obj)
      ensures backendCalls == old(backendCalls)
    {
      cacheFile := Some(LinesOf(cacheFile) + [Entry(obj)]);
    }

    /** The `/embed` handler: `rows` are the CSV rows `load_articles` returns and
        `reply` what the embedding backend answers (None when it raises). */
    method Embed(req: Request, rows: seq<ArticleRow>, reply: Option<Embedding>) returns (response: Response)
      modifies this
      ensures var o := EmbedSpec(cfg, rows, old(cacheFile), req, reply);
        && response == o.response
        && backendCalls == old(backendCalls) + (if o.call.Some? then [o.call.value] else [])
        && cacheFile == (if o.append.Some? then Appended(old(cacheFile), o.append.value) else old(cacheFile))
    {
      var url := req.url;
      var text := req.text;
      var model := if Given(req.model) then req.model.value else cfg.defaultModel;
      if !Given(text) {
        if !Given(url) {
          return BadRequest;
        }
        var found := FirstWithUrl(rows, url.value);
        if found.None? {
          return NotFound(url.value);
        }
        text := Some(found.value.content);
      }
      var key: Option<string> := None;
      if Given(url) {
        key := Some(CacheKey(cfg, url.value, model));
        var cache := LoadCache();
        if cache.None? {
          return CacheUnreadable;
        }
        if !req.force && key.value in cache.value {
          return Cached(cache.value[key.value]);
        }
      }
      response := CallBackend(text.value, model, key, url, reply);
    }

    /** The end of `/embed`: call the backend, build the entry, append it when there
        is a key. */
    method CallBackend(text: string, model: string, key: Option<string>, url: Option<string>,
                       reply: Option<Embedding>) returns (response: Response)
      modifies this
      ensures var o := Compute(text, model, key, url, reply);
        && response == o.response
        && backendCalls == old(backendCalls) + [(text, model)]
        && cacheFile == (if o.append.Some? then Appended(old(cacheFile), o.append.value) else old(cacheFile))
    {
      backendCalls := backendCalls + [(text, model)];
      if reply.None? {
        return BackendFailed;
      }
      var out := EntryOf(key, reply.value, url);
      if key.Some? {
        AppendCache(out);
      }
      response := Fresh(out);
    }
  }

  /** Loading one more line is one more step. */
  lemma LoadNext(lines: seq<LogLine>, i: nat, parse: string -> Option<Json>)
    requires i < |lines| && Load(lines[..i], parse).Some?
    ensures Load(lines[..i + 1], parse) == Step(Load(lines[..i], parse).value, ReadLine(lines[i], parse))
  {
    assert lines[..i + 1][..i] == lines[..i];
  }

  /** Once a prefix of the file fails to load, the whole file does. */
  lemma {:induction false} LoadFailedStays(lines: seq<LogLine>, n: nat, parse: string -> Option<Json>)
    requires n <= |lines| && Load(lines[..n], parse).None?
    ensures Load(lines, parse).None?
    decreases |lines| - n
  {
    if n < |lines| {
      assert lines[..n + 1][..n] == lines[..n];
      LoadFailedStays(lines, n + 1, parse);
    } else {
      assert lines[..n] == lines;
    }
  }
}
