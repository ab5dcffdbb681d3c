/** The dashboard page (`web/app/page.tsx`) as pure view rules: the status
    badge of the selected URL, the selection rule applied when the URL list
    is refreshed, and the add-URL form submission. Rendering, polling timers
    and the asynchronous interleaving are not modelled; each awaited call is
    an argument carrying its outcome. */
module Dashboard {
  import opened Wrappers
  import opened GoInt
  import Store
  import Api
  import Sorting

  /** Threshold used when no URL is selected. */
  const NoSelectionThreshold: int := 999999
  const FormExpectedDefault: int := 200
  const FormSlowMsDefault: int := 1500

  datatype Badge = Unknown | Ok | Slow | Down

  /** The page state. The two numeric form fields hold `None` when the input
      parsed to NaN; `JSON.stringify` sends NaN as `null`. */
  datatype View = View(
    urls: seq<Store.URL>,
    selected: Option<Store.URL>,
    checks: seq<Store.Check>,
    formUrl: string,
    formExpected: Option<int>,
    formSlowMs: Option<int>)

  const Initial: View := View([], None, [], "", Some(FormExpectedDefault), Some(FormSlowMsDefault))

  /** Latency of a check as the badge reads it: absent counts as 0. */
  function LatencyOrZero(c: Store.Check): int {
    c.latencyMs.GetOr(0)
  }

  function Threshold(selected: Option<Store.URL>): int {
    match selected
    case None => NoSelectionThreshold
    case Some(u) => u.thresholdSlowMs
  }

  /** `statusBadge`: classify the first element of the check list (the API
      returns the newest first) against the selected URL's threshold. */
  function StatusBadge(checks: seq<Store.Check>, selected: Option<Store.URL>): (b: Badge)
    ensures b == Unknown <==> |checks| == 0
    ensures b == Down <==> |checks| > 0 && !checks[0].ok
    ensures b == Ok <==> |checks| > 0 && checks[0].ok && LatencyOrZero(checks[0]) <= Threshold(selected)
    ensures b == Slow <==> |checks| > 0 && checks[0].ok && LatencyOrZero(checks[0]) > Threshold(selected)
  {
    if |checks| == 0 then Unknown
    else
      var latest := checks[0];
      if latest.ok && LatencyOrZero(latest) <= Threshold(selected) then Ok
      else if latest.ok then Slow
      else Down
  }

  /** Only the newest check decides the badge; older history is ignored. */
  lemma BadgeReadsHeadOnly(c: Store.Check, rest1: seq<Store.Check>, rest2: seq<Store.Check>, selected: Option<Store.URL>)
    ensures StatusBadge([c] + rest1, selected) == StatusBadge([c] + rest2, selected)
  {
    assert ([c] + rest1)[0] == c == ([c] + rest2)[0];
  }

  /** Raising the slow threshold can turn SLOW into OK but never the reverse,
      and never touches UNKNOWN or DOWN. */
  lemma BadgeThresholdMonotone(checks: seq<Store.Check>, u: Store.URL, higher: int)
    requires u.thresholdSlowMs <= higher
    ensures var before := StatusBadge(checks, Some(u));
            var after := StatusBadge(checks, Some(u.(thresholdSlowMs := higher)));
            (before == Ok ==> after == Ok)
            && (after == Slow ==> before == Slow)
            && (before == Unknown <==> after == Unknown)
            && (before == Down <==> after == Down)
  {
  }

  /** Concrete classifications of the badge rule. */
  lemma BadgeExamples(base: Store.Check, u: Store.URL)
    requires u.thresholdSlowMs == 1500
    ensures StatusBadge([base.(ok := false)], Some(u)) == Down
    ensures StatusBadge([base.(ok := true, latencyMs := Some(2000))], Some(u)) == Slow
    ensures StatusBadge([base.(ok := true, latencyMs := Some(100))], Some(u)) == Ok
    ensures StatusBadge([], Some(u)) == Unknown
    ensures StatusBadge([base.(ok := true, latencyMs := None)], Some(u)) == Ok
  {
  }

  /** The badge shown in a row of the URL table: only the selected row carries
      one, and it is the selection's badge. */
  function RowBadge(v: View, u: Store.URL): (b: Option<Badge>)
    ensures b.Some? <==> v.selected.Some? && v.selected.value.id == u.id
    ensures b.Some? ==> b.value == StatusBadge(v.checks, v.selected)
  {
    if v.selected.Some? && v.selected.value.id == u.id then Some(StatusBadge(v.checks, v.selected)) else None
  }

  /** With distinct ids in the table, at most one row shows a badge. */
  lemma AtMostOneBadgedRow(v: View, i: int, j: int)
    requires Sorting.StrictlyAscending(v.urls, Store.UrlId)
    requires 0 <= i < |v.urls| && 0 <= j < |v.urls|
    requires RowBadge(v, v.urls[i]).Some? && RowBadge(v, v.urls[j]).Some?
    ensures i == j
  {
  }

  /** A successful `fetchURLs` in the refresh loop, with a `null` body read
      as an empty list: the list is replaced; a first URL is selected only
      when nothing is selected yet. */
  function UrlsLoaded(v: View, data: Option<seq<Store.URL>>): (r: View)
    ensures r.urls == Api.Rows(data)
    ensures v.selected.None? && |Api.Rows(data)| > 0 ==> r.selected == Some(Api.Rows(data)[0])
    ensures v.selected.Some? || |Api.Rows(data)| == 0 ==> r.selected == v.selected
    ensures r.checks == v.checks && r.formUrl == v.formUrl
    ensures r.formExpected == v.formExpected && r.formSlowMs == v.formSlowMs
  {
    var rows := data.GetOr([]);
    var selected := if v.selected.None? && |rows| > 0 then Some(rows[0]) else v.selected;
    v.(urls := rows, selected := selected)
  }

  /** The same refresh as page.tsx writes it, which stores `data` and then
      reads `data.length`. A `null` list throws there (or, with a selection,
      at the next render's `urls.map`), and nothing catches it: `None` is the
      crashed page. On a real list it is `UrlsLoaded`. */
  function UrlsLoadedAsWritten(v: View, data: Option<seq<Store.URL>>): (r: Option<View>)
    ensures r.None? <==> data.None?
    ensures r.Some? ==> r.value == UrlsLoaded(v, data)
  {
    match data
    case None => None
    case Some(rows) =>
      Some(v.(urls := rows, selected := if v.selected.None? && |rows| > 0 then Some(rows[0]) else v.selected))
  }

  /** An empty store crashes the page as written: `GET /urls` answers `null`. */
  lemma EmptyStoreCrashesPage(v: View, s: Store.State)
    requires |s.urls| == 0
    ensures UrlsLoadedAsWritten(v, Api.ListUrlsHandler(s).body.urls).None?
  {
  }

  /** With `null` read as empty, an empty store shows an empty table and
      leaves the selection alone. */
  lemma EmptyStoreKeepsPage(v: View, s: Store.State)
    requires |s.urls| == 0
    ensures var r := UrlsLoaded(v, Api.ListUrlsHandler(s).body.urls);
      r.urls == [] && r.selected == v.selected && r.checks == v.checks
  {
  }

  /** The existing selection is a snapshot: a refreshed list, even one that no
      longer holds that URL, does not replace it. */
  lemma SelectionSurvivesRefresh(v: View, data: Option<seq<Store.URL>>)
    requires v.selected.Some?
    ensures UrlsLoaded(v, data).selected == v.selected
  {
  }

  /** A run of refreshes: the last list wins, and once something is
      selected the selection stays what it was. */
  function Refreshes(v: View, loads: seq<Option<seq<Store.URL>>>): (r: View)
    ensures r.urls == (if |loads| == 0 then v.urls else Api.Rows(loads[|loads| - 1]))
    ensures v.selected.Some? ==> r.selected == v.selected
    decreases |loads|
  {
    if |loads| == 0 then v else UrlsLoaded(Refreshes(v, loads[..|loads| - 1]), loads[|loads| - 1])
  }

  /** Clicking a row selects it. The check list is left as it is until the
      next `fetchChecks` answers, so the new row's badge is computed from the
      previous URL's checks in the meantime. */
  function Pick(v: View, u: Store.URL): (r: View)
    ensures r.selected == Some(u)
    ensures r.checks == v.checks && r.urls == v.urls
    ensures r.formUrl == v.formUrl && r.formExpected == v.formExpected && r.formSlowMs == v.formSlowMs
  {
    v.(selected := Some(u))
  }

  /** Right after a pick the badge is the old head check judged against the
      new URL's threshold. */
  lemma PickKeepsStaleChecks(v: View, u: Store.URL)
    ensures RowBadge(Pick(v, u), u) == Some(StatusBadge(v.checks, Some(u)))
  {
  }

  /** A successful `fetchChecks` for the selection replaces the list, a
      `null` body read as no checks. */
  function ChecksLoaded(v: View, data: Option<seq<Store.Check>>): (r: View)
    ensures r.checks == Api.Rows(data)
    ensures r.urls == v.urls && r.selected == v.selected
    ensures r.formUrl == v.formUrl && r.formExpected == v.formExpected && r.formSlowMs == v.formSlowMs
  {
    v.(checks := data.GetOr([]))
  }

  /** The same step as page.tsx writes it: `setChecks(data)`, after which
      every render reads `checks[0]`. A `null` list makes that throw, so
      `None` is the crashed page. On a real list it is `ChecksLoaded`. */
  function ChecksLoadedAsWritten(v: View, data: Option<seq<Store.Check>>): (r: Option<View>)
    ensures r.None? <==> data.None?
    ensures r.Some? ==> r.value == ChecksLoaded(v, data)
  {
    match data
    case None => None
    case Some(cs) => Some(v.(checks := cs))
  }

  /** The number of checks the page asks for. */
  const PageLimit: int := 50

  /** The query `fetchChecks(id, 50)` sends. */
  function ChecksRequest(id: int): (q: map<string, string>)
    ensures Api.Query(q, "url_id") == FormatInt(id) && Api.Query(q, "limit") == FormatInt(PageLimit)
  {
    map["url_id" := FormatInt(id), "limit" := FormatInt(PageLimit)]
  }

  /** Selecting a URL that has no checks yet crashes the page as written:
      `GET /checks` answers `null`. */
  lemma UncheckedUrlCrashesPage(v: View, s: Store.State, id: int)
    requires InInt32(id)
    requires forall c | c in s.checks :: c.urlId != id
    ensures var r := Api.RecentChecksHandler(s, ChecksRequest(id));
      r.code == 200 && ChecksLoadedAsWritten(v, r.body.checks).None?
  {
    Api.ChecksQueryReadsFormatted(ChecksRequest(id), id, PageLimit);
  }

  /** With `null` read as empty, the same URL shows "No checks yet." and an
      unknown badge. */
  lemma UncheckedUrlShowsUnknown(v: View, s: Store.State, id: int)
    requires InInt32(id)
    requires forall c | c in s.checks :: c.urlId != id
    ensures var r := ChecksLoaded(v, Api.RecentChecksHandler(s, ChecksRequest(id)).body.checks);
      r.checks == [] && StatusBadge(r.checks, r.selected) == Unknown
      && (v.selected.Some? ==> RowBadge(r, v.selected.value) == Some(Unknown))
  {
    Api.ChecksQueryReadsFormatted(ChecksRequest(id), id, PageLimit);
  }

  /** `data.find(u => u.url === text)`: the first row with that address. */
  function FindByUrl(data: seq<Store.URL>, text: string): (r: Option<Store.URL>)
    ensures r.None? <==> forall k | 0 <= k < |data| :: data[k].url != text
    ensures r.Some? ==> exists k | 0 <= k < |data| ::
      data[k] == r.value && r.value.url == text && forall j | 0 <= j < k :: data[j].url != text
    decreases |data|
  {
    if |data| == 0 then None
    else if data[0].url == text then Some(data[0])
    else
      var r := FindByUrl(data[1..], text);
      assert forall k | 1 <= k < |data| :: data[k] == data[1..][k - 1];
      if r.Some? then
        var k' :| 0 <= k' < |data[1..]| && data[1..][k'] == r.value && r.value.url == text
                   && forall j | 0 <= j < k' :: data[1..][j].url != text;
        assert data[k' + 1] == r.value;
        r
      else r
  }

  /** The JSON body `addURL` posts for the current form. */
  function Payload(v: View): Api.AddUrlJson {
    Api.AddUrlJson(v.formUrl, v.formExpected, v.formSlowMs)
  }

  /** What submitting the form did: the resulting view and the request it
      sent, if any. */
  datatype Submitted = Submitted(view: View, request: Option<Api.AddUrlJson>)

  /** `onAdd`. An empty address does nothing. Otherwise the form is posted;
      a failed post aborts with nothing changed. After a successful post the
      address field is cleared, then the list is refetched: a failed fetch
      stops there; a successful one replaces the list and selects the first
      row whose address equals the submitted text, if there is one. */
  function OnAdd(v: View, addOk: bool, refreshed: Option<seq<Store.URL>>): (r: Submitted)
    ensures v.formUrl == "" ==> r == Submitted(v, None)
    ensures v.formUrl != "" ==> r.request == Some(Payload(v))
    ensures v.formUrl != "" && !addOk ==> r.view == v
    ensures v.formUrl != "" && addOk ==>
      r.view.formUrl == "" && r.view.checks == v.checks
      && r.view.formExpected == v.formExpected && r.view.formSlowMs == v.formSlowMs
    ensures v.formUrl != "" && addOk && refreshed.None? ==> r.view == v.(formUrl := "")
    ensures v.formUrl != "" && addOk && refreshed.Some? ==>
      r.view.urls == refreshed.value
      && r.view.selected == (match FindByUrl(refreshed.value, v.formUrl)
                             case Some(u) => Some(u)
                             case None => v.selected)
  {
    if v.formUrl == "" then Submitted(v, None)
    else if !addOk then Submitted(v, Some(Payload(v)))
    else
      var cleared := v.(formUrl := "");
      match refreshed
      case None => Submitted(cleared, Some(Payload(v)))
      case Some(data) =>
        var selected := match FindByUrl(data, v.formUrl)
                        case Some(u) => Some(u)
                        case None => v.selected;
        Submitted(cleared.(urls := data, selected := selected), Some(Payload(v)))
  }

  /** When the refreshed list holds the submitted address, the selection
      becomes a row with exactly that address, and it is the first such row. */
  lemma OnAddSelectsSubmitted(v: View, data: seq<Store.URL>, k: int)
    requires v.formUrl != ""
    requires 0 <= k < |data| && data[k].url == v.formUrl
    ensures var s := OnAdd(v, true, Some(data)).view.selected;
      s.Some? && s.value.url == v.formUrl && s.value in data
      && forall j | 0 <= j < |data| && data[j].url == v.formUrl :: s.value == data[j] || exists i | 0 <= i < j :: data[i] == s.value
  {
    var r := FindByUrl(data, v.formUrl);
    assert r.Some?;
    var i :| 0 <= i < |data| && data[i] == r.value && r.value.url == v.formUrl
             && forall j | 0 <= j < i :: data[j].url != v.formUrl;
    forall j | 0 <= j < |data| && data[j].url == v.formUrl
      ensures r.value == data[j] || exists i' | 0 <= i' < j :: data[i'] == r.value
    {
      if j != i {
        assert i < j;
      }
    }
  }
}
