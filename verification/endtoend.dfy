/** Properties that connect the pieces: the runner's classification against
    the dashboard badge computed from the row it stores, and the add-URL form
    carried through the API handler, the store and the page. */
module EndToEnd {
  import opened Wrappers
  import opened GoInt
  import opened Throttle
  import Store
  import Sorting
  import Api
  import Monitor
  import Dashboard

  /** Badge of the stored row as the dashboard shows it once that row is the
      newest check of the selected URL `u`. */
  function BadgeOf(o: Monitor.Outcome, u: Store.URL): Dashboard.Badge {
    Dashboard.StatusBadge([o.check], Some(u))
  }

  /** When the URL's own threshold equals the runner-wide one and the latency
      fits in int32, the badge and the runner name the same state. */
  lemma RunnerAgreesWithBadge(u: Store.URL, probe: Monitor.Probe, latency: int, flag: string,
                              t: Table, ttl: int, now: int)
    requires InInt32(latency)
    ensures var o := Monitor.CheckOne(u, probe, latency, u.thresholdSlowMs, flag, t, ttl, now);
      && (o.state == StateOK <==> BadgeOf(o, u) == Dashboard.Ok)
      && (o.state == StateSlow <==> BadgeOf(o, u) == Dashboard.Slow)
      && (o.state == StateDown <==> BadgeOf(o, u) == Dashboard.Down)
  {
    var o := Monitor.CheckOne(u, probe, latency, u.thresholdSlowMs, flag, t, ttl, now);
    assert Dashboard.LatencyOrZero(o.check) == latency;
  }

  /** The runner judges slowness by SLOW_MS, the badge by the URL's
      threshold: a latency between the two makes them disagree. Here the
      runner alerts SLOW while the dashboard shows OK. */
  lemma SlowAlertUnderOkBadge(u: Store.URL, latency: int, slowMs: int, flag: string,
                              t: Table, ttl: int, now: int)
    requires InInt32(latency)
    requires slowMs < latency <= u.thresholdSlowMs
    ensures var o := Monitor.CheckOne(u, Monitor.Response(u.expectedStatus), latency, slowMs, flag, t, ttl, now);
      o.state == StateSlow && BadgeOf(o, u) == Dashboard.Ok
  {
    var o := Monitor.CheckOne(u, Monitor.Response(u.expectedStatus), latency, slowMs, flag, t, ttl, now);
    assert Dashboard.LatencyOrZero(o.check) == latency;
  }

  /** The other direction: the runner is content (OK, no alert) while the
      dashboard shows SLOW. */
  lemma OkRunnerUnderSlowBadge(u: Store.URL, latency: int, slowMs: int, flag: string,
                               t: Table, ttl: int, now: int)
    requires InInt32(latency)
    requires u.thresholdSlowMs < latency <= slowMs
    ensures var o := Monitor.CheckOne(u, Monitor.Response(u.expectedStatus), latency, slowMs, flag, t, ttl, now);
      o.state == StateOK && BadgeOf(o, u) == Dashboard.Slow
  {
    var o := Monitor.CheckOne(u, Monitor.Response(u.expectedStatus), latency, slowMs, flag, t, ttl, now);
    assert Dashboard.LatencyOrZero(o.check) == latency;
  }

  /** A latency past the int32 range is stored wrapped: 2^31 ms is judged
      SLOW by the runner and stored as a negative number, which the badge
      reads as OK. */
  lemma WrappedLatencyLooksFast(u: Store.URL, flag: string, t: Table, ttl: int, now: int)
    requires 0 <= u.thresholdSlowMs <= MaxInt32
    ensures var o := Monitor.CheckOne(u, Monitor.Response(u.expectedStatus), MaxInt32 + 1, u.thresholdSlowMs, flag, t, ttl, now);
      o.state == StateSlow && o.check.latencyMs == Some(MinInt32) && BadgeOf(o, u) == Dashboard.Ok
  {
    assert Wrap32(MaxInt32 + 1) == MinInt32;
  }

  /** Submitting the form: an empty address sends nothing; otherwise the
      page's payload goes through the handler, the post succeeds exactly when
      the handler answers 200, and the refetch sees the store after the insert. */
  function SubmitForm(v: Dashboard.View, s: Store.State, freshId: int, now: int)
    : (r: (Dashboard.Submitted, Option<Api.Response>, Store.State))
    requires Store.UrlIdFree(s, freshId)
    ensures v.formUrl == "" <==> r.1.None?
    ensures v.formUrl == "" ==> r.2 == s && r.0 == Dashboard.Submitted(v, None)
    ensures r.1.Some? ==>
      && r.0.request == Some(Dashboard.Payload(v))
      && r.1.value == Api.AddUrlHandler(s, Success(Dashboard.Payload(v)), freshId, now).0
    ensures r.1.Some? && r.1.value.code != 200 ==> r.2 == s && r.0.view == v
    ensures r.1.Some? ==> r.2 == Api.AddUrlHandler(s, Success(Dashboard.Payload(v)), freshId, now).1
    // after a 200 the refetched list is never `null`: the store holds the new row
    ensures r.1.Some? && r.1.value.code == 200 ==>
      && Api.ListUrlsHandler(r.2).body.urls.Some?
      && r.0.view.formUrl == ""
      && r.0.view.urls == Api.Rows(Api.ListUrlsHandler(r.2).body.urls)
  {
    if v.formUrl == "" then (Dashboard.OnAdd(v, false, None), None, s)
    else
      var h := Api.AddUrlHandler(s, Success(Dashboard.Payload(v)), freshId, now);
      var ok := h.0.code == 200;
      var listed := Api.ListUrlsHandler(h.1).body.urls;
      (Dashboard.OnAdd(v, ok, if ok then Some(Api.Rows(listed)) else None), Some(h.0), h.1)
  }

  /** After a successful add the page selects the very row the server
      answered with: same address, same id. */
  lemma SubmitSelectsReturnedId(v: Dashboard.View, s: Store.State, freshId: int, now: int)
    requires Store.Valid(s) && Store.UrlIdFree(s, freshId)
    requires v.formUrl != ""
    ensures var r := SubmitForm(v, s, freshId, now);
      r.1.Some? && r.1.value.code == 200 ==>
        && r.1.value.body.IdBody?
        && r.0.view.selected.Some?
        && r.0.view.selected.value.id == r.1.value.body.id
        && r.0.view.selected.value.url == v.formUrl
        && r.0.view.selected.value in r.2.urls
  {
    var r := SubmitForm(v, s, freshId, now);
    if r.1.value.code == 200 {
      var b := Api.Defaulted(Api.Bind(Dashboard.Payload(v)).value);
      assert b.url == v.formUrl;
      var a := Store.AddURL(s, b.url, b.expected, b.slowMs, freshId, now);
      assert r.2 == a.state && r.1.value.body == Api.IdBody(a.id);
      var i :| 0 <= i < |a.state.urls| && a.state.urls[i].url == v.formUrl && a.state.urls[i].id == a.id
               && a.state.urls[i].expectedStatus == b.expected;
      var listed := Store.ListURLs(a.state);
      InList(a.state.urls, listed, i);
      var k :| 0 <= k < |listed| && listed[k] == a.state.urls[i];
      Dashboard.OnAddSelectsSubmitted(v, listed, k);
      var sel := r.0.view.selected.value;
      assert sel in listed && sel.url == v.formUrl;
      assert sel in multiset(listed);
      assert sel in a.state.urls;
      var m :| 0 <= m < |a.state.urls| && a.state.urls[m] == sel;
      SameUrlSameRow(a.state.urls, m, i);
    }
  }

  /** The add flow as page.tsx writes it ends in a crash. The page selects
      the new row, which has no checks until the runner's next pass, so the
      first `fetchChecks` for it answers `null`. Read as empty, the same
      answer shows the unknown badge. */
  lemma AddedUrlCrashesPage(v: Dashboard.View, s: Store.State, freshId: int, now: int)
    requires Store.Valid(s) && Store.UrlIdFree(s, freshId) && InInt32(freshId)
    requires v.formUrl != ""
    requires forall j | 0 <= j < |s.urls| :: s.urls[j].url != v.formUrl
    requires forall c | c in s.checks :: c.urlId != freshId
    ensures var r := SubmitForm(v, s, freshId, now);
      r.1.Some? && r.1.value.code == 200 ==>
        && r.0.view.selected.Some?
        && r.0.view.selected.value.id == freshId
        && var answer := Api.RecentChecksHandler(r.2, Dashboard.ChecksRequest(freshId)).body.checks;
           && Dashboard.ChecksLoadedAsWritten(r.0.view, answer).None?
           && Dashboard.RowBadge(Dashboard.ChecksLoaded(r.0.view, answer), r.0.view.selected.value) == Some(Dashboard.Unknown)
  {
    var r := SubmitForm(v, s, freshId, now);
    if r.1.Some? && r.1.value.code == 200 {
      SubmitSelectsReturnedId(v, s, freshId, now);
      assert r.2.checks == s.checks;
      Dashboard.UncheckedUrlCrashesPage(r.0.view, r.2, freshId);
      Dashboard.UncheckedUrlShowsUnknown(r.0.view, r.2, freshId);
    }
  }

  lemma SameUrlSameRow(us: seq<Store.URL>, m: int, i: int)
    requires Store.UrlStringsDistinct(us)
    requires 0 <= m < |us| && 0 <= i < |us| && us[m].url == us[i].url
    ensures m == i
  {
  }

  lemma InList(us: seq<Store.URL>, listed: seq<Store.URL>, i: int)
    requires multiset(listed) == multiset(us)
    requires 0 <= i < |us|
    ensures exists k | 0 <= k < |listed| :: listed[k] == us[i]
  {
    assert us[i] in multiset(us);
    assert us[i] in listed;
  }

  /** A form left at the page's defaults stores a URL expecting 200 with a
      1500 ms threshold; the server-side defaults (200, 2000) apply only to
      fields the page sends as zero or null (NaN). */
  lemma FormDefaultsReachStore(s: Store.State, url: string, freshId: int, now: int)
    requires Store.UrlIdFree(s, freshId)
    requires url != ""
    requires forall j | 0 <= j < |s.urls| :: s.urls[j].url != url
    ensures var r := SubmitForm(Dashboard.Initial.(formUrl := url), s, freshId, now);
      r.1 == Some(Api.Response(200, Api.IdBody(freshId)))
      && r.2.urls == s.urls + [Store.URL(freshId, url, 200, 1500, now)]
  {
  }

  lemma NaNFieldsGetServerDefaults(s: Store.State, url: string, freshId: int, now: int)
    requires Store.UrlIdFree(s, freshId)
    requires url != ""
    requires forall j | 0 <= j < |s.urls| :: s.urls[j].url != url
    ensures var v := Dashboard.Initial.(formUrl := url, formExpected := None, formSlowMs := None);
      var r := SubmitForm(v, s, freshId, now);
      r.2.urls == s.urls + [Store.URL(freshId, url, Api.DefaultExpectedStatus, Api.DefaultSlowMs, now)]
  {
  }
}
