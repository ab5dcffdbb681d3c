/** The HTTP API (`api.Server`): the route table and the request handling that
    sits between a request and the store: body defaulting for `POST /urls`,
    query defaulting for `GET /checks`, and the JSON responses. */
module Api {
  import opened Wrappers
  import opened GoInt
  import Store
  import Sorting

  const DefaultExpectedStatus: int := 200
  const DefaultSlowMs: int := 2000
  const DefaultLimit: string := "50"

  datatype Handler = Health | AddUrl | ListUrls | RecentChecks | LatestStatus

  datatype Route = Route(verb: string, path: string, handler: Handler)

  /** The routes registered by `Routes`, in registration order. */
  const Routes: seq<Route> := [
    Route("GET", "/health", Health),
    Route("POST", "/urls", AddUrl),
    Route("GET", "/urls", ListUrls),
    Route("GET", "/checks", RecentChecks),
    Route("GET", "/status", LatestStatus)
  ]

  /** The handler for a request line; every registered path is static, so a
      path matches only itself. The query string is not part of `path`. */
  function Lookup(verb: string, path: string): (h: Option<Handler>)
    ensures h.Some? <==> exists k | 0 <= k < |Routes| :: Routes[k].verb == verb && Routes[k].path == path
    ensures h.Some? ==> exists k | 0 <= k < |Routes| :: Routes[k] == Route(verb, path, h.value)
  {
    LookupIn(Routes, verb, path)
  }

  function LookupIn(rs: seq<Route>, verb: string, path: string): (h: Option<Handler>)
    ensures h.Some? <==> exists k | 0 <= k < |rs| :: rs[k].verb == verb && rs[k].path == path
    ensures h.Some? ==> exists k | 0 <= k < |rs| :: rs[k] == Route(verb, path, h.value)
    decreases |rs|
  {
    if |rs| == 0 then None
    else if rs[0].verb == verb && rs[0].path == path then Some(rs[0].handler)
    else
      var h := LookupIn(rs[1..], verb, path);
      assert forall k | 1 <= k < |rs| :: rs[k] == rs[1..][k - 1];
      h
  }

  /** No route deletes a URL: `DELETE /urls/{id}`, which the web client issues,
      finds no handler, and neither does any other DELETE path. */
  lemma NoDeleteRoute(path: string)
    ensures Lookup("DELETE", path) == None
  {
    forall k | 0 <= k < |Routes| ensures Routes[k].verb != "DELETE" {
    }
  }

  /** No registered path ends in a slash, so a path that does is never routed
      as written. */
  lemma NoSlashRoute(verb: string, path: string)
    requires |path| > 0 && path[|path| - 1] == '/'
    ensures Lookup(verb, path) == None
  {
    forall k | 0 <= k < |Routes| ensures Routes[k].path != path {
      assert Routes[k].path[|Routes[k].path| - 1] != '/';
    }
  }

  /** The four reads and writes the dashboard's client issues do have handlers. */
  lemma ClientReadsAndAddAreRouted()
    ensures Lookup("GET", "/urls") == Some(ListUrls)
    ensures Lookup("GET", "/checks") == Some(RecentChecks)
    ensures Lookup("POST", "/urls") == Some(AddUrl)
    ensures Lookup("GET", "/status") == Some(LatestStatus)
  {
    RoutedAt(1);
    RoutedAt(2);
    RoutedAt(3);
    RoutedAt(4);
  }

  /** The route at index `k` is the one found for its method and path: no
      earlier route shares both. */
  lemma RoutedAt(k: int)
    requires 0 <= k < |Routes|
    ensures Lookup(Routes[k].verb, Routes[k].path) == Some(Routes[k].handler)
  {
    assert Routes[0].path[1] != Routes[4].path[1] && Routes[3].path[1] != Routes[4].path[1];
    assert Routes[0].path[1] != Routes[3].path[1];
    FirstMatch(Routes, k);
  }

  lemma {:induction false} FirstMatch(rs: seq<Route>, k: int)
    requires 0 <= k < |rs|
    requires forall j | 0 <= j < k :: rs[j].verb != rs[k].verb || rs[j].path != rs[k].path
    ensures LookupIn(rs, rs[k].verb, rs[k].path) == Some(rs[k].handler)
    decreases k
  {
    if k > 0 {
      FirstMatch(rs[1..], k - 1);
    }
  }

  /** A store read as `c.JSON` writes it. Every read builds its result by
      appending to a nil slice, and a nil slice is encoded as `null`: no rows
      go out as `null`, not as `[]`. `None` stands for that `null`. */
  function JsonList<T>(rows: seq<T>): (j: Option<seq<T>>)
    ensures j.None? <==> |rows| == 0
    ensures j.Some? ==> j.value == rows
  {
    if |rows| == 0 then None else Some(rows)
  }

  /** The rows a JSON list carries, `null` read as none (`data ?? []`). */
  function Rows<T>(j: Option<seq<T>>): seq<T> {
    j.GetOr([])
  }

  /** A JSON response: status code and body. List bodies are `None` for `null`. */
  datatype Body =
    | IdBody(id: int)
    | ErrorBody(message: string)
    | UrlsBody(urls: Option<seq<Store.URL>>)
    | ChecksBody(checks: Option<seq<Store.Check>>)
    | StatusBody(rows: Option<seq<Store.Latest>>)
    | HealthBody
    | NotFoundBody
    | RedirectBody(location: string)

  datatype Response = Response(code: int, body: Body)

  /** The `POST /urls` body as decoded JSON: absent numbers are `None`. */
  datatype AddUrlJson = AddUrlJson(url: string, expectedStatus: Option<int>, slowMs: Option<int>)

  /** The Go struct the body binds to, before defaulting. */
  datatype AddUrlBody = AddUrlBody(url: string, expected: int, slowMs: int)

  /** Binding an optional JSON number to an `int32` field: absent leaves the
      zero value, an out-of-range number is a binding error. */
  function BindInt32(v: Option<int>): (r: Result<int, string>)
    ensures v.None? ==> r == Success(0)
    ensures v.Some? && InInt32(v.value) ==> r == Success(v.value)
    ensures v.Some? && !InInt32(v.value) ==> r.Failure?
  {
    match v
    case None => Success(0)
    case Some(n) => if InInt32(n) then Success(n) else Failure("json: cannot unmarshal number into int32")
  }

  /** `c.BindJSON` into the request struct: succeeds exactly when every given
      number fits `int32`; absent numbers bind as 0. */
  function Bind(j: AddUrlJson): (r: Result<AddUrlBody, string>)
    ensures r.Success? <==>
      (j.expectedStatus.None? || InInt32(j.expectedStatus.value)) && (j.slowMs.None? || InInt32(j.slowMs.value))
    ensures r.Success? ==>
      r.value == AddUrlBody(j.url, j.expectedStatus.GetOr(0), j.slowMs.GetOr(0))
  {
    match BindInt32(j.expectedStatus)
    case Failure(e) => Failure(e)
    case Success(exp) =>
      match BindInt32(j.slowMs)
      case Failure(e) => Failure(e)
      case Success(slow) => Success(AddUrlBody(j.url, exp, slow))
  }

  /** Binding undoes the JSON encoding of a struct whose numbers fit `int32`. */
  lemma BindRoundTrip(b: AddUrlBody)
    requires InInt32(b.expected) && InInt32(b.slowMs)
    ensures Bind(AddUrlJson(b.url, Some(b.expected), Some(b.slowMs))) == Success(b)
  {
  }

  /** Zero means "not given": expected status 0 becomes 200, slow threshold 0
      becomes 2000; anything else, negative values included, passes through. */
  function Defaulted(b: AddUrlBody): (r: AddUrlBody)
    ensures r.url == b.url
    ensures r.expected == (if b.expected == 0 then DefaultExpectedStatus else b.expected)
    ensures r.slowMs == (if b.slowMs == 0 then DefaultSlowMs else b.slowMs)
    ensures r.expected != 0 && r.slowMs != 0
  {
    AddUrlBody(b.url,
               if b.expected == 0 then DefaultExpectedStatus else b.expected,
               if b.slowMs == 0 then DefaultSlowMs else b.slowMs)
  }

  /** Defaulting is idempotent. */
  lemma DefaultedIdempotent(b: AddUrlBody)
    ensures Defaulted(Defaulted(b)) == Defaulted(b)
  {
  }

  /** `addURL`: bind (400 on failure), default, upsert, answer with the id. The
      store's database error path (500) does not arise in the in-memory store. */
  function AddUrlHandler(s: Store.State, body: Result<AddUrlJson, string>, freshId: int, now: int): (r: (Response, Store.State))
    requires Store.UrlIdFree(s, freshId)
    ensures body.Failure? ==> r == (Response(400, ErrorBody(body.error)), s)
    ensures body.Success? && Bind(body.value).Failure? ==> r.0.code == 400 && r.1 == s
    ensures body.Success? && Bind(body.value).Success? ==>
      var b := Defaulted(Bind(body.value).value);
      var a := Store.AddURL(s, b.url, b.expected, b.slowMs, freshId, now);
      r == (Response(200, IdBody(a.id)), a.state)
  {
    match body
    case Failure(e) => (Response(400, ErrorBody(e)), s)
    case Success(j) =>
      match Bind(j)
      case Failure(e) => (Response(400, ErrorBody(e)), s)
      case Success(raw) =>
        var b := Defaulted(raw);
        var a := Store.AddURL(s, b.url, b.expected, b.slowMs, freshId, now);
        (Response(200, IdBody(a.id)), a.state)
  }

  /** A new URL posted with only its address is stored expecting 200 and slow
      above 2000 ms. */
  lemma AddUrlDefaultsStored(s: Store.State, url: string, freshId: int, now: int)
    requires Store.UrlIdFree(s, freshId)
    requires forall j | 0 <= j < |s.urls| :: s.urls[j].url != url
    ensures
      var r := AddUrlHandler(s, Success(AddUrlJson(url, None, None)), freshId, now);
      r.0 == Response(200, IdBody(freshId))
      && r.1.urls == s.urls + [Store.URL(freshId, url, DefaultExpectedStatus, DefaultSlowMs, now)]
  {
  }

  /** gin's `c.Query(key)`: the value, or "" when the key is absent. */
  function Query(q: map<string, string>, key: string): (r: string)
    // an empty answer does not tell an absent key from an empty value
    ensures r == "" <==> key !in q || q[key] == ""
    ensures r != "" ==> key in q && r == q[key]
  {
    if key in q then q[key] else ""
  }

  /** gin's `c.DefaultQuery(key, def)`: the default only when the key is
      absent; a present but empty value stays "". */
  function DefaultQuery(q: map<string, string>, key: string, def: string): (r: string)
    ensures key in q ==> r == Query(q, key)
    ensures key !in q ==> r == def
  {
    if key in q then q[key] else def
  }

  datatype ChecksQuery = ChecksQuery(urlId: int, limit: int)

  /** The arguments `recentChecks` passes to the store: both parameters go
      through Atoi with the error discarded, and the id is then cut to int32.
      A numeral reads as its value (clamped to 64 bits first). A `url_id` that
      is not a numeral reads as 0, or as -1 when its leading digits already
      overflow 64 bits (Atoi's clamp to MaxInt64, wrapped). */
  function ParseChecksQuery(q: map<string, string>): (r: ChecksQuery)
    ensures InInt32(r.urlId) && InInt64(r.limit)
    // url_id: a numeral's value cut to int32; garbage reads as 0
    ensures IsNumeral(Query(q, "url_id")) && InInt64(NumeralValue(Query(q, "url_id"))) ==>
      r.urlId == Wrap32(NumeralValue(Query(q, "url_id")))
    ensures IsNumeral(Query(q, "url_id")) && NumeralValue(Query(q, "url_id")) > MaxInt64 ==> r.urlId == -1
    ensures IsNumeral(Query(q, "url_id")) && NumeralValue(Query(q, "url_id")) < MinInt64 ==> r.urlId == 0
    ensures NoLeadingDigit(Query(q, "url_id")) ==> r.urlId == 0
    ensures !IsNumeral(Query(q, "url_id")) ==> r.urlId == 0 || r.urlId == -1
    // limit: 50 when absent, else a numeral's value clamped to 64 bits; garbage reads as 0
    ensures "limit" !in q ==> r.limit == 50
    ensures IsNumeral(DefaultQuery(q, "limit", DefaultLimit)) && InInt64(NumeralValue(DefaultQuery(q, "limit", DefaultLimit))) ==>
      r.limit == NumeralValue(DefaultQuery(q, "limit", DefaultLimit))
    ensures IsNumeral(DefaultQuery(q, "limit", DefaultLimit)) && NumeralValue(DefaultQuery(q, "limit", DefaultLimit)) > MaxInt64 ==>
      r.limit == MaxInt64
    ensures IsNumeral(DefaultQuery(q, "limit", DefaultLimit)) && NumeralValue(DefaultQuery(q, "limit", DefaultLimit)) < MinInt64 ==>
      r.limit == MinInt64
    ensures NoLeadingDigit(DefaultQuery(q, "limit", DefaultLimit)) ==> r.limit == 0
    ensures "limit" in q && !IsNumeral(q["limit"]) ==> r.limit == 0 || r.limit == MaxInt64 || r.limit == MinInt64
  {
    assert Atoi(DefaultLimit) == Parsed(50, NoError) by {
      AtoiFormatInt(50);
    }
    assert Wrap32(MaxInt64) == -1 && Wrap32(MinInt64) == 0 && Wrap32(0) == 0;
    ChecksQuery(Wrap32(Atoi(Query(q, "url_id")).value), Atoi(DefaultQuery(q, "limit", DefaultLimit)).value)
  }

  /** A numeric `url_id` in int32 range and `limit` in 64-bit range are passed
      through as written in decimal. */
  lemma ChecksQueryReadsFormatted(q: map<string, string>, id: int, limit: int)
    requires InInt32(id) && InInt64(limit)
    requires q == map["url_id" := FormatInt(id), "limit" := FormatInt(limit)]
    ensures ParseChecksQuery(q) == ChecksQuery(id, limit)
  {
    AtoiFormatInt(id);
    AtoiFormatInt(limit);
  }

  /** `recentChecks`: 200 with the checks, or 500 when the store refuses
      (a negative limit). An empty selection is sent as `null`. */
  function RecentChecksHandler(s: Store.State, q: map<string, string>): (r: Response)
    ensures r.code == 200 || r.code == 500
    ensures r.code == 500 <==> ParseChecksQuery(q).limit < 0
    ensures r.code == 200 ==> r.body.ChecksBody? && |Rows(r.body.checks)| <= ParseChecksQuery(q).limit
    ensures r.code == 200 ==> forall k | 0 <= k < |Rows(r.body.checks)| ::
      Rows(r.body.checks)[k].urlId == ParseChecksQuery(q).urlId && Rows(r.body.checks)[k] in s.checks
    // the newest checks of the URL, newest first, as many as the limit allows
    ensures r.code == 200 ==>
      ParseChecksQuery(q).limit >= 0
      && Store.NewestSelection(Rows(r.body.checks), Store.ChecksOf(s.checks, ParseChecksQuery(q).urlId), ParseChecksQuery(q).limit)
    // `null` exactly when nothing is selected: a zero limit, or a URL without checks
    ensures r.code == 200 ==>
      (r.body.checks.None? <==>
         ParseChecksQuery(q).limit == 0 || forall c | c in s.checks :: c.urlId != ParseChecksQuery(q).urlId)
  {
    var p := ParseChecksQuery(q);
    ChecksResponse(s, p.urlId, p.limit)
  }

  /** The store's answer for one URL and limit, as JSON. */
  function ChecksResponse(s: Store.State, urlId: int, limit: int): (r: Response)
    ensures r.code == 200 || r.code == 500
    ensures r.code == 500 <==> limit < 0
    ensures r.code == 200 ==> r.body.ChecksBody? && 0 <= |Rows(r.body.checks)| <= limit
    ensures r.code == 200 ==> forall k | 0 <= k < |Rows(r.body.checks)| ::
      Rows(r.body.checks)[k].urlId == urlId && Rows(r.body.checks)[k] in s.checks
    ensures r.code == 200 ==> Store.NewestSelection(Rows(r.body.checks), Store.ChecksOf(s.checks, urlId), limit)
    ensures r.code == 200 ==>
      (r.body.checks.None? <==> limit == 0 || forall c | c in s.checks :: c.urlId != urlId)
  {
    match Store.RecentChecks(s, urlId, limit)
    case Failure(e) => Response(500, ErrorBody(e))
    case Success(cs) =>
      Store.ChecksOfEmpty(s.checks, urlId);
      Response(200, ChecksBody(JsonList(cs)))
  }

  /** Without a `limit` parameter at most 50 checks come back; a garbled
      `url_id` asks for URL 0. */
  lemma RecentChecksDefaultLimit(s: Store.State, q: map<string, string>)
    requires "limit" !in q
    ensures RecentChecksHandler(s, q).code == 200
    ensures |Rows(RecentChecksHandler(s, q).body.checks)| <= 50
  {
  }

  /** `listURLs`: every stored URL by ascending id; an empty store is sent
      as `null`. */
  function ListUrlsHandler(s: Store.State): (r: Response)
    ensures r.code == 200 && r.body.UrlsBody?
    ensures r.body.urls.None? <==> |s.urls| == 0
    ensures multiset(Rows(r.body.urls)) == multiset(s.urls)
    ensures Sorting.Ascending(Rows(r.body.urls), Store.UrlId)
    ensures Store.Valid(s) ==> Sorting.StrictlyAscending(Rows(r.body.urls), Store.UrlId)
  {
    var us := Store.ListURLs(s);
    assert |us| == |multiset(us)| == |multiset(s.urls)| == |s.urls|;
    Response(200, UrlsBody(JsonList(us)))
  }

  /** `latestStatus`: the latest check of every URL that has one; when no
      URL has a check the answer is `null`. */
  function LatestStatusHandler(s: Store.State): (r: Response)
    ensures r.code == 200 && r.body.StatusBody? && |Rows(r.body.rows)| <= |s.urls|
    // each row is a newest check of a stored URL, every URL with checks has a
    // row, and over distinct ids no URL has two
    ensures forall k | 0 <= k < |Rows(r.body.rows)| :: Rows(r.body.rows)[k].url in s.urls
    ensures Store.AllSound(Rows(r.body.rows), s.checks)
    ensures Store.Covers(Rows(r.body.rows), s.urls, s.checks)
    ensures Store.Valid(s) ==> Sorting.StrictlyAscending(Rows(r.body.rows), (l: Store.Latest) => l.url.id)
    ensures r.body.rows.None? <==> forall u, c | u in s.urls && c in s.checks :: c.urlId != u.id
  {
    Store.LatestStatusEmpty(s);
    Response(200, StatusBody(JsonList(Store.LatestStatus(s))))
  }

  /** The path gin's trailing-slash redirect tries for an unmatched path: the
      path with its trailing slash dropped, or with one added. */
  function SlashVariant(path: string): (p: string)
    ensures p + "/" == path || p == path + "/"
    ensures |path| > 1 && path[|path| - 1] == '/' ==> p + "/" == path
  {
    if |path| > 1 && path[|path| - 1] == '/' then path[..|path| - 1] else path + "/"
  }

  /** One request through the engine: the route's handler; for an unmatched
      path that a route of the same method matches once a trailing slash is
      dropped or added, the redirect `gin.Default` turns on (301 for GET, 307
      otherwise); else gin's 404. `body` is the JSON decoding of the request
      body. Only `POST /urls` changes the store. */
  function Serve(s: Store.State, verb: string, path: string, q: map<string, string>,
                 body: Result<AddUrlJson, string>, freshId: int, now: int): (r: (Response, Store.State))
    requires Store.UrlIdFree(s, freshId)
    // unmatched: the store is untouched, and the answer is a 404 or a
    // redirect to a routed path of the same method, one slash away
    ensures Lookup(verb, path).None? ==> r.1 == s
    ensures Lookup(verb, path).None? ==>
      r.0 == Response(404, NotFoundBody)
      || (&& r.0.body.RedirectBody?
          && (r.0.body.location + "/" == path || r.0.body.location == path + "/")
          && Lookup(verb, r.0.body.location).Some?
          && r.0.code == (if verb == "GET" then 301 else 307))
    ensures Lookup(verb, path).None? && |path| > 1 && path[|path| - 1] == '/' ==>
      (r.0.code == 404 <==> Lookup(verb, path[..|path| - 1]).None?)
    ensures Lookup(verb, path).Some? ==> !r.0.body.RedirectBody? && r.0.code != 404
    ensures Lookup(verb, path) != Some(AddUrl) ==> r.1 == s
    ensures Lookup(verb, path) == Some(AddUrl) ==> r == AddUrlHandler(s, body, freshId, now)
    ensures Lookup(verb, path) == Some(RecentChecks) ==> r.0 == RecentChecksHandler(s, q)
    ensures Lookup(verb, path) == Some(ListUrls) ==> r.0 == ListUrlsHandler(s)
    ensures Lookup(verb, path) == Some(LatestStatus) ==> r.0 == LatestStatusHandler(s)
    ensures Lookup(verb, path) == Some(Health) ==> r.0 == Response(200, HealthBody)
    ensures Lookup(verb, path).Some? && Lookup(verb, path) != Some(RecentChecks) ==> r.0.code == 200 || r.0.code == 400
  {
    match Lookup(verb, path)
    case None =>
      var p := SlashVariant(path);
      if path != "/" && Lookup(verb, p).Some? then
        (Response(if verb == "GET" then 301 else 307, RedirectBody(p)), s)
      else
        (Response(404, NotFoundBody), s)
    case Some(Health) => (Response(200, HealthBody), s)
    case Some(AddUrl) => AddUrlHandler(s, body, freshId, now)
    case Some(ListUrls) => (ListUrlsHandler(s), s)
    case Some(RecentChecks) => (RecentChecksHandler(s, q), s)
    case Some(LatestStatus) => (LatestStatusHandler(s), s)
  }

  /** The web client's delete request gets a 404 and leaves the store as it was. */
  lemma ClientDeleteIsNotFound(s: Store.State, id: string, q: map<string, string>,
                               body: Result<AddUrlJson, string>, freshId: int, now: int)
    requires Store.UrlIdFree(s, freshId)
    ensures Serve(s, "DELETE", "/urls/" + id, q, body, freshId, now) == (Response(404, NotFoundBody), s)
  {
    NoDeleteRoute("/urls/" + id);
    NoDeleteRoute(SlashVariant("/urls/" + id));
  }

  /** The list and add requests with a trailing slash are redirected to the
      routed path: 301 for the read, 307 (method and body kept) for the add. */
  lemma TrailingSlashRedirects(s: Store.State, q: map<string, string>,
                               body: Result<AddUrlJson, string>, freshId: int, now: int)
    requires Store.UrlIdFree(s, freshId)
    ensures Serve(s, "GET", "/urls/", q, body, freshId, now) == (Response(301, RedirectBody("/urls")), s)
    ensures Serve(s, "POST", "/urls/", q, body, freshId, now) == (Response(307, RedirectBody("/urls")), s)
    ensures Serve(s, "GET", "/status/", q, body, freshId, now) == (Response(301, RedirectBody("/status")), s)
  {
    NoSlashRoute("GET", "/urls/");
    NoSlashRoute("POST", "/urls/");
    NoSlashRoute("GET", "/status/");
    assert SlashVariant("/urls/") == "/urls";
    assert SlashVariant("/status/") == "/status";
    ClientReadsAndAddAreRouted();
  }

  /** Following a redirect once reaches a handler: the redirected request is
      neither a 404 nor another redirect. */
  lemma RedirectReachesHandler(s: Store.State, verb: string, path: string, q: map<string, string>,
                               body: Result<AddUrlJson, string>, freshId: int, now: int)
    requires Store.UrlIdFree(s, freshId)
    requires Serve(s, verb, path, q, body, freshId, now).0.body.RedirectBody?
    ensures
      var next := Serve(s, verb, Serve(s, verb, path, q, body, freshId, now).0.body.location, q, body, freshId, now);
      next.0.code != 404 && !next.0.body.RedirectBody?
  {
  }
}
