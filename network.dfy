/**
 * `NetworkMonitor`: which captured browser requests count as API calls, the cursor
 * that makes each capture return only the requests made since the previous one,
 * and the per-method summary. The browser's request log is passed in; `urlparse`
 * is a given function from a URL to its path and query (sections 3.3 and 3.4 of
 * RFC 3986).
 */
module Network {
  import opened Wrappers
  import opened Text
  import opened Models

  /** One entry of the browser's request log; absent keys are `None`. */
  datatype Request = Request(url: Option<string>, httpMethod: Option<string>, status: Option<int>, duration: Option<int>)

  /** The two parts of a parsed URL the monitor reads. */
  datatype UrlParts = UrlParts(path: string, query: string)

  type UrlParser = string -> UrlParts

  const StaticExtensions: seq<string> :=
    [".css", ".js", ".png", ".jpg", ".jpeg", ".gif", ".svg", ".ico", ".woff", ".woff2",
     ".ttf", ".eot", ".otf", ".webp", ".avif"]

  const ApiIndicators: seq<string> := ["/api/", "/v1/", "/v2/", "/v3/", "/graphql", "/rest/"]

  /** `req.get(key, default)`. */
  function Or<T>(o: Option<T>, default: T): (r: T)
    ensures o.Some? ==> r == o.value
    ensures o.None? ==> r == default
  {
    if o.Some? then o.value else default
  }

  /** Inline data and object URLs are never API calls. */
  predicate IsInlineUrl(url: string) {
    StartsWith(url, "data:") || StartsWith(url, "blob:")
  }

  /** The lower-cased path ends in a static-file extension. */
  predicate IsStaticPath(path: string) {
    exists ext | ext in StaticExtensions :: EndsWith(Lower(path), ext)
  }

  /** The path, with `?query` appended when the query is not empty. */
  function Endpoint(parts: UrlParts): (r: string)
    ensures parts.query == "" ==> r == parts.path
    ensures parts.query != "" ==> r == parts.path + "?" + parts.query
  {
    if parts.query != "" then parts.path + "?" + parts.query else parts.path
  }

  /** The call a kept request becomes: method GET, status and timing 0 when absent. */
  function CallOf(req: Request, parts: UrlParts): (c: ApiCall)
    ensures c.httpMethod == Or(req.httpMethod, "GET") && c.endpoint == Endpoint(parts)
    ensures c.status == Or(req.status, 0) && c.timing == Or(req.duration, 0)
  {
    ApiCall(Or(req.httpMethod, "GET"), Endpoint(parts), Or(req.status, 0), Or(req.duration, 0))
  }

  /**
   * `_parse_api_call`, with `parts` the parse of the request's URL (the empty URL
   * when absent): inline URLs and static-file paths are dropped, every other request
   * becomes a call.
   */
  function ParseApiCall(req: Request, parts: UrlParts): (r: Option<ApiCall>)
    ensures r.None? <==> IsInlineUrl(Or(req.url, "")) || IsStaticPath(parts.path)
    ensures r.Some? ==> r.value == CallOf(req, parts)
  {
    var url := Or(req.url, "");
    if IsInlineUrl(url) then None
    else if IsStaticPath(parts.path) then None
    else Some(CallOf(req, parts))
  }

  /** A plain request for `/api/user.js`. */
  const ApiScript: Request := Request(Some("/api/user.js"), None, None, None)
  const ApiScriptParts: UrlParts := UrlParts("/api/user.js", "")

  /**
   * As written, the request for `/api/user.js` is dropped as a static file, though
   * the documentation of `_parse_api_call` names it as an endpoint that is kept.
   */
  lemma ApiScriptDropped()
    ensures ParseApiCall(ApiScript, ApiScriptParts).None?
  {
    assert IsStaticPath(ApiScriptParts.path) by {
      StaticScript();
    }
  }

  /** `/api/user.js` ends in `.js` once lower-cased. */
  lemma StaticScript()
    ensures EndsWith(Lower("/api/user.js"), ".js") && ".js" in StaticExtensions
  {
    LowerKeepsLowercase("/api/user.js");
  }

  /** A text with no ASCII capital is its own lower-case form. */
  lemma LowerKeepsLowercase(s: string)
    requires forall i :: 0 <= i < |s| ==> !IsUpperAscii(s[i])
    ensures Lower(s) == s
  {
  }

  /** The path contains one of the markers of an API route. */
  predicate HasApiIndicator(path: string) {
    ContainsAny(Lower(path), ApiIndicators)
  }

  /**
   * `_parse_api_call` as its documentation describes it: a static-file extension
   * drops a request only when its path carries no API marker.
   */
  function ParseApiCallIntended(req: Request, parts: UrlParts): (r: Option<ApiCall>)
    ensures r.None? <==>
      IsInlineUrl(Or(req.url, "")) || (IsStaticPath(parts.path) && !HasApiIndicator(parts.path))
    ensures r.Some? ==> r.value == CallOf(req, parts)
  {
    var url := Or(req.url, "");
    if IsInlineUrl(url) then None
    else if IsStaticPath(parts.path) && !HasApiIndicator(parts.path) then None
    else Some(CallOf(req, parts))
  }

  /**
   * The corrected parser keeps everything the written one keeps, and differs from
   * it only on static-looking paths under an API route.
   */
  lemma IntendedKeepsMore(req: Request, parts: UrlParts)
    ensures ParseApiCall(req, parts).Some? ==> ParseApiCallIntended(req, parts) == ParseApiCall(req, parts)
    ensures ParseApiCallIntended(req, parts) != ParseApiCall(req, parts) ==>
      IsStaticPath(parts.path) && HasApiIndicator(parts.path) && ParseApiCallIntended(req, parts).Some?
  {
  }

  /** The corrected parser keeps `/api/user.js` as a GET call. */
  lemma IntendedKeepsApiScript()
    ensures ParseApiCallIntended(ApiScript, ApiScriptParts) == Some(ApiCall("GET", "/api/user.js", 0, 0))
  {
    assert "/api/user.js"[..5] == "/api/";
    ApiPrefixMarked("/api/user.js");
    ScriptNotInline();
    IntendedKeepsApiRoutes(ApiScript, ApiScriptParts);
  }

  /** A non-inline request under an API route is always kept by the corrected parser. */
  lemma IntendedKeepsApiRoutes(req: Request, parts: UrlParts)
    requires !IsInlineUrl(Or(req.url, "")) && HasApiIndicator(parts.path)
    ensures ParseApiCallIntended(req, parts) == Some(CallOf(req, parts))
  {
  }

  lemma ScriptNotInline()
    ensures !IsInlineUrl("/api/user.js")
  {
    assert "/api/user.js"[..5] == "/api/";
  }

  /** Every path that starts with `/api/` carries the `/api/` marker. */
  lemma ApiPrefixMarked(path: string)
    requires StartsWith(path, "/api/")
    ensures HasApiIndicator(path)
  {
    var l := Lower(path);
    forall i | 0 <= i < 5
      ensures l[i] == "/api/"[i]
    {
      assert path[i] == path[..5][i];
    }
    assert l[0..5] == "/api/";
    assert OccursAt(l, "/api/", 0);
    assert Contains(l, "/api/");
    assert "/api/" in ApiIndicators by { assert ApiIndicators[0] == "/api/"; }
  }

  /** What the monitor does with one log entry: parse its URL, then `_parse_api_call`. */
  type RequestParser = Request -> Option<ApiCall>

  /**
   * `_parse_api_call` applied to a log entry, with `urlparse` splitting its URL (the
   * empty URL when absent): the parser the monitor uses.
   */
  function Parser(urlparse: UrlParser): RequestParser {
    (r: Request) => ParseApiCall(r, urlparse(Or(r.url, "")))
  }

  /** The calls `parse` makes of `requests`, in order, skipping the entries it drops. */
  function Calls(requests: seq<Request>, parse: RequestParser): seq<ApiCall> {
    if requests == [] then []
    else Calls(requests[..|requests| - 1], parse) + Kept(parse(requests[|requests| - 1]))
  }

  /** A parse result as a list of zero or one call. */
  function Kept(call: Option<ApiCall>): seq<ApiCall> {
    if call.Some? then [call.value] else []
  }

  /** Captures of consecutive slices add up to the capture of their concatenation. */
  lemma {:induction false} CallsAppend(a: seq<Request>, b: seq<Request>, parse: RequestParser)
    ensures Calls(a + b, parse) == Calls(a, parse) + Calls(b, parse)
    decreases |b|
  {
    if b == [] {
      assert a + b == a;
    } else {
      var init, last := b[..|b| - 1], b[|b| - 1];
      assert a + b == (a + init) + [last];
      assert b == init + [last];
      CallsPush(a + init, last, parse);
      CallsPush(init, last, parse);
      CallsAppend(a, init, parse);
      SeqAssoc(Calls(a, parse), Calls(init, parse), Kept(parse(last)));
    }
  }

  lemma SeqAssoc<T>(x: seq<T>, y: seq<T>, z: seq<T>)
    ensures (x + y) + z == x + (y + z)
  {
  }

  /** Capturing one more request adds its call, if the filter keeps it. */
  lemma CallsPush(s: seq<Request>, r: Request, parse: RequestParser)
    ensures Calls(s + [r], parse) == Calls(s, parse) + Kept(parse(r))
  {
    assert (s + [r])[..|s|] == s;
  }

  /** Each captured call is the parse of a request that the filter keeps. */
  lemma {:induction false} CallsAreKept(requests: seq<Request>, parse: RequestParser, c: ApiCall)
    requires c in Calls(requests, parse)
    ensures exists r | r in requests :: parse(r) == Some(c)
  {
    var init := requests[..|requests| - 1];
    var last := requests[|requests| - 1];
    if c in Calls(init, parse) {
      CallsAreKept(init, parse, c);
      var r :| r in init && parse(r) == Some(c);
      assert r in requests;
    } else {
      assert last in requests;
    }
  }

  /** The summary's method buckets; every other method is counted as OTHER. */
  const SummaryKeys: seq<string> := ["GET", "POST", "PUT", "DELETE", "PATCH", "OTHER"]

  function SummaryKey(httpMethod: string): (k: string)
    ensures k in SummaryKeys
    ensures httpMethod in SummaryKeys ==> k == httpMethod
    ensures httpMethod !in SummaryKeys ==> k == "OTHER"
  {
    if httpMethod in SummaryKeys then httpMethod else "OTHER"
  }

  /** The calls of `apis` whose summary bucket is `key`, in order. */
  function InBucket(apis: seq<ApiCall>, key: string): seq<ApiCall> {
    if apis == [] then []
    else
      var last := apis[|apis| - 1];
      InBucket(apis[..|apis| - 1], key) + (if SummaryKey(last.httpMethod) == key then [last] else [])
  }

  /** A call sits in a bucket exactly when that bucket is its method's. */
  lemma {:induction false} InBucketMembers(apis: seq<ApiCall>, key: string, c: ApiCall)
    ensures c in InBucket(apis, key) <==> c in apis && SummaryKey(c.httpMethod) == key
  {
    if apis != [] {
      var init := apis[..|apis| - 1];
      assert apis == init + [apis[|apis| - 1]];
      InBucketMembers(init, key, c);
    }
  }

  /** The six buckets hold every call exactly once. */
  lemma {:induction false} BucketsCoverAll(apis: seq<ApiCall>)
    ensures |InBucket(apis, "GET")| + |InBucket(apis, "POST")| + |InBucket(apis, "PUT")|
          + |InBucket(apis, "DELETE")| + |InBucket(apis, "PATCH")| + |InBucket(apis, "OTHER")| == |apis|
  {
    if apis != [] {
      BucketsCoverAll(apis[..|apis| - 1]);
    }
  }

  /** The loop of `capture_new_requests`: the calls among the log entries from `start` on, in order. */
  method ParseFrom(requests: seq<Request>, start: nat, parse: RequestParser) returns (apis: seq<ApiCall>)
    requires start <= |requests|
    ensures apis == Calls(requests[start..], parse)
  {
    apis := [];
    assert requests[start..start] == [];
    for i := start to |requests|
      invariant apis == Calls(requests[start..i], parse)
    {
      CallsStep(requests, start, i, parse);
      var api := parse(requests[i]);
      if api.Some? {
        apis := apis + [api.value];
      }
    }
    assert requests[start..|requests|] == requests[start..];
  }

  lemma CallsStep(requests: seq<Request>, start: nat, i: nat, parse: RequestParser)
    requires start <= i < |requests|
    ensures Calls(requests[start..i + 1], parse) == Calls(requests[start..i], parse) + Kept(parse(requests[i]))
  {
    assert requests[start..i + 1] == requests[start..i] + [requests[i]];
    CallsPush(requests[start..i], requests[i], parse);
  }

  class NetworkMonitor {
    /** `request_count`: how many entries of the request log earlier captures have seen. */
    var requestCount: nat
    /** `all_apis`: every call captured since the monitor was made. */
    var allApis: seq<ApiCall>

    constructor()
      ensures requestCount == 0 && allApis == []
    {
      requestCount := 0;
      allApis := [];
    }

    /** `start_recording`: the browser log is cleared, so the cursor goes back to 0; captured calls are kept. */
    method StartRecording()
      modifies this
      ensures requestCount == 0 && allApis == old(allApis)
    {
      requestCount := 0;
    }

    /**
     * `capture_new_requests`: parses the log entries from the cursor on, returns the
     * calls among them, adds them to `allApis`, and moves the cursor to the end of the log.
     */
    method CaptureNewRequests(requests: seq<Request>, urlparse: UrlParser) returns (newApis: seq<ApiCall>)
      modifies this
      ensures old(requestCount) <= |requests| ==> newApis == Calls(requests[old(requestCount)..], Parser(urlparse))
      ensures old(requestCount) > |requests| ==> newApis == []
      ensures allApis == old(allApis) + newApis
      ensures requestCount == |requests|
    {
      newApis := [];
      if requestCount < |requests| {
        newApis := ParseFrom(requests, requestCount, Parser(urlparse));
      }
      allApis := allApis + newApis;
      requestCount := |requests|;
    }

    /** `get_api_summary`: the captured calls sorted by method into the six buckets, in capture order. */
    method ApiSummary() returns (summary: map<string, seq<ApiCall>>)
      ensures summary.Keys == set k | k in SummaryKeys
      ensures forall k :: k in summary ==> summary[k] == InBucket(allApis, k)
    {
      summary := map["GET" := [], "POST" := [], "PUT" := [], "DELETE" := [], "PATCH" := [], "OTHER" := []];
      EmptySummary();
      for i := 0 to |allApis|
        invariant Summarised(summary, allApis[..i])
      {
        var api := allApis[i];
        var key := SummaryKey(api.httpMethod);
        SummaryStep(allApis, i, summary);
        summary := summary[key := summary[key] + [api]];
      }
      assert allApis[..|allApis|] == allApis;
    }
  }

  /** `summary` holds one bucket per summary key, each with the calls of `apis` that belong to it. */
  ghost predicate Summarised(summary: map<string, seq<ApiCall>>, apis: seq<ApiCall>) {
    && summary.Keys == (set k | k in SummaryKeys)
    && forall k :: k in summary ==> summary[k] == InBucket(apis, k)
  }

  lemma EmptySummary()
    ensures Summarised(map["GET" := [], "POST" := [], "PUT" := [], "DELETE" := [], "PATCH" := [], "OTHER" := []], [])
  {
  }

  /** Appending one call to its bucket summarises one more call. */
  lemma SummaryStep(apis: seq<ApiCall>, i: nat, summary: map<string, seq<ApiCall>>)
    requires i < |apis| && Summarised(summary, apis[..i])
    ensures var key := SummaryKey(apis[i].httpMethod);
      Summarised(summary[key := summary[key] + [apis[i]]], apis[..i + 1])
  {
    assert apis[..i + 1][..i] == apis[..i];
  }

  /**
   * Two captures against a log that only grew return, together, exactly the calls
   * of the whole new part of the log: the cursor neither skips nor repeats an entry.
   */
  lemma CapturesChain(log1: seq<Request>, log2: seq<Request>, seen: nat, parse: RequestParser)
    requires seen <= |log1| && log1 <= log2
    ensures Calls(log1[seen..], parse) + Calls(log2[|log1|..], parse) == Calls(log2[seen..], parse)
  {
    assert log2[seen..] == log1[seen..] + log2[|log1|..];
    CallsAppend(log1[seen..], log2[|log1|..], parse);
  }
}
