/** The Postgres-backed store as an in-memory state: the `urls` rows and the
    `checks` rows, each in storage order. Every SQL statement of the store
    becomes a pure function over that state. Identifiers handed out by the
    database sequences are parameters: the only thing assumed of them is that
    they are not in use yet. */
module Store {
  import opened Wrappers
  import Sorting

  /** A row of `urls`. */
  datatype URL = URL(id: int, url: string, expectedStatus: int, thresholdSlowMs: int, createdAt: int)

  /** A row of `checks`; status code, latency and error are nullable columns. */
  datatype Check = Check(id: int, urlId: int, statusCode: Option<int>, latencyMs: Option<int>,
                         ok: bool, error: Option<string>, checkedAt: int)

  /** A row of the latest-status query. */
  datatype Latest = Latest(url: URL, check: Check)

  datatype State = State(urls: seq<URL>, checks: seq<Check>)

  const Empty := State([], [])

  function UrlId(u: URL): int { u.id }

  function CheckId(c: Check): int { c.id }

  /** Key that orders checks newest first. */
  function NewestKey(c: Check): int { -c.checkedAt }

  predicate UrlIdFree(s: State, id: int) {
    forall i | 0 <= i < |s.urls| :: s.urls[i].id != id
  }

  predicate CheckIdFree(s: State, id: int) {
    forall i | 0 <= i < |s.checks| :: s.checks[i].id != id
  }

  ghost predicate UrlStringsDistinct(urls: seq<URL>) {
    forall i, j | 0 <= i < j < |urls| :: urls[i].url != urls[j].url
  }

  /** What the schema guarantees: primary keys are unique and `urls.url` carries
      the unique constraint that `ON CONFLICT(url)` relies on. */
  ghost predicate Valid(s: State) {
    && Sorting.KeysDistinct(s.urls, UrlId)
    && UrlStringsDistinct(s.urls)
    && Sorting.KeysDistinct(s.checks, CheckId)
  }

  /** Position of the row holding `url`, if any. */
  function FindUrl(urls: seq<URL>, url: string): (r: Option<nat>)
    ensures r.Some? ==> r.value < |urls| && urls[r.value].url == url
    ensures r.Some? ==> forall j | 0 <= j < r.value :: urls[j].url != url
    ensures r.None? ==> forall j | 0 <= j < |urls| :: urls[j].url != url
    decreases |urls|
  {
    if |urls| == 0 then None
    else if urls[0].url == url then Some(0)
    else
      match FindUrl(urls[1..], url)
      case None => None
      case Some(i) => Some(i + 1)
  }

  datatype Added = Added(id: int, state: State)

  /** `INSERT ... ON CONFLICT(url) DO UPDATE SET expected_status=... RETURNING id`.
      `freshId` is the next value of the id sequence and `now` the `created_at`
      default. */
  function AddURL(s: State, url: string, exp: int, slow: int, freshId: int, now: int): (r: Added)
    requires UrlIdFree(s, freshId)
    ensures r.state.checks == s.checks
    ensures |r.state.urls| == |s.urls| || |r.state.urls| == |s.urls| + 1
    // a new url gets exactly one new row, holding all the given values
    ensures (forall j | 0 <= j < |s.urls| :: s.urls[j].url != url) ==>
      r.id == freshId && r.state.urls == s.urls + [URL(freshId, url, exp, slow, now)]
    // a known url keeps its id, threshold and creation time; only expected_status changes
    ensures forall i | 0 <= i < |s.urls| && s.urls[i].url == url && Valid(s) ::
      && r.id == s.urls[i].id
      && |r.state.urls| == |s.urls|
      && r.state.urls[i] == s.urls[i].(expectedStatus := exp)
      && (forall j | 0 <= j < |s.urls| && j != i :: r.state.urls[j] == s.urls[j])
    ensures exists i | 0 <= i < |r.state.urls| :: r.state.urls[i].url == url && r.state.urls[i].id == r.id
                                                && r.state.urls[i].expectedStatus == exp
    ensures Valid(s) ==> Valid(r.state)
    // rows already present keep their position, address and id
    ensures forall j | 0 <= j < |s.urls| ::
      j < |r.state.urls| && r.state.urls[j].url == s.urls[j].url && r.state.urls[j].id == s.urls[j].id
    // an id neither in use nor handed out stays unused
    ensures forall id | UrlIdFree(s, id) && id != freshId :: UrlIdFree(r.state, id)
  {
    match FindUrl(s.urls, url)
    case None =>
      var row := URL(freshId, url, exp, slow, now);
      var s' := State(s.urls + [row], s.checks);
      assert s'.urls[|s.urls|] == row;
      Added(freshId, s')
    case Some(i) =>
      var s' := State(s.urls[i := s.urls[i].(expectedStatus := exp)], s.checks);
      assert s'.urls[i].url == url;
      Added(s.urls[i].id, s')
  }

  /** One `POST /urls` worth of arguments. */
  datatype AddRequest = AddRequest(url: string, exp: int, slow: int)

  ghost predicate HasUrl(s: State, url: string) {
    exists j | 0 <= j < |s.urls| :: s.urls[j].url == url
  }

  ghost predicate AllFree(s: State, ids: seq<int>) {
    forall k | 0 <= k < |ids| :: UrlIdFree(s, ids[k])
  }

  ghost predicate Distinct(ids: seq<int>) {
    forall i, j | 0 <= i < j < |ids| :: ids[i] != ids[j]
  }

  /** A run of `AddURL` calls, the `k`-th offered the sequence value `ids[k]`.
      Whatever the requests, the schema's guarantees hold afterwards. */
  function AddAll(s: State, reqs: seq<AddRequest>, ids: seq<int>, now: int): (r: State)
    requires |ids| == |reqs| && Valid(s) && AllFree(s, ids) && Distinct(ids)
    ensures Valid(r) && r.checks == s.checks
    decreases |reqs|
  {
    if |reqs| == 0 then s
    else
      var a := AddURL(s, reqs[0].url, reqs[0].exp, reqs[0].slow, ids[0], now);
      AddAllFresh(s, a.state, ids);
      AddAll(a.state, reqs[1..], ids[1..], now)
  }

  lemma AddAllFresh(s: State, s': State, ids: seq<int>)
    requires |ids| > 0 && AllFree(s, ids) && Distinct(ids)
    requires forall id | UrlIdFree(s, id) && id != ids[0] :: UrlIdFree(s', id)
    ensures AllFree(s', ids[1..]) && Distinct(ids[1..])
  {
    forall k | 0 <= k < |ids[1..]| ensures UrlIdFree(s', ids[1..][k]) {
      assert ids[1..][k] == ids[k + 1] && ids[k + 1] != ids[0];
      assert UrlIdFree(s, ids[k + 1]);
    }
  }

  /** Rows present before a run of adds keep their position, address and id. */
  lemma {:induction false} AddAllKeepsRows(s: State, reqs: seq<AddRequest>, ids: seq<int>, now: int, j: int)
    requires |ids| == |reqs| && Valid(s) && AllFree(s, ids) && Distinct(ids)
    requires 0 <= j < |s.urls|
    ensures var r := AddAll(s, reqs, ids, now);
      j < |r.urls| && r.urls[j].url == s.urls[j].url && r.urls[j].id == s.urls[j].id
    decreases |reqs|
  {
    if |reqs| > 0 {
      var a := AddURL(s, reqs[0].url, reqs[0].exp, reqs[0].slow, ids[0], now);
      AddAllFresh(s, a.state, ids);
      assert j < |a.state.urls| && a.state.urls[j].url == s.urls[j].url && a.state.urls[j].id == s.urls[j].id;
      AddAllKeepsRows(a.state, reqs[1..], ids[1..], now, j);
    }
  }

  /** After a run of adds, every requested address has a row. */
  lemma {:induction false} AddAllHasRequested(s: State, reqs: seq<AddRequest>, ids: seq<int>, now: int, k: int)
    requires |ids| == |reqs| && Valid(s) && AllFree(s, ids) && Distinct(ids)
    requires 0 <= k < |reqs|
    ensures HasUrl(AddAll(s, reqs, ids, now), reqs[k].url)
    decreases |reqs|
  {
    var a := AddURL(s, reqs[0].url, reqs[0].exp, reqs[0].slow, ids[0], now);
    AddAllFresh(s, a.state, ids);
    var r := AddAll(s, reqs, ids, now);
    assert r == AddAll(a.state, reqs[1..], ids[1..], now);
    if k == 0 {
      var i :| 0 <= i < |a.state.urls| && a.state.urls[i].url == reqs[0].url && a.state.urls[i].id == a.id
               && a.state.urls[i].expectedStatus == reqs[0].exp;
      AddAllKeepsRows(a.state, reqs[1..], ids[1..], now, i);
      assert 0 <= i < |r.urls| && r.urls[i].url == reqs[k].url;
      assert HasUrl(r, reqs[k].url);
    } else {
      AddAllHasRequested(a.state, reqs[1..], ids[1..], now, k - 1);
      assert reqs[1..][k - 1] == reqs[k];
    }
  }

  /** `SELECT ... FROM urls ORDER BY id`. */
  function ListURLs(s: State): (r: seq<URL>)
    ensures multiset(r) == multiset(s.urls)
    ensures Sorting.Ascending(r, UrlId)
    ensures Valid(s) ==> Sorting.StrictlyAscending(r, UrlId)
  {
    SortedUrlsStrict(s);
    Sorting.SortBy(s.urls, UrlId)
  }

  lemma SortedUrlsStrict(s: State)
    ensures Valid(s) ==> Sorting.StrictlyAscending(Sorting.SortBy(s.urls, UrlId), UrlId)
  {
    if Valid(s) {
      Sorting.SortByStrict(s.urls, UrlId);
    }
  }

  /** `INSERT INTO checks(...)`: the id given in `c` is ignored and the
      sequence's `freshId` is stored instead. */
  function InsertCheck(s: State, c: Check, freshId: int): (r: State)
    requires CheckIdFree(s, freshId)
    ensures r.urls == s.urls
    ensures |r.checks| == |s.checks| + 1 && r.checks[..|s.checks|] == s.checks
    ensures r.checks[|s.checks|] == c.(id := freshId)
    ensures Valid(s) ==> Valid(r)
  {
    var r := State(s.urls, s.checks + [c.(id := freshId)]);
    assert r.checks[..|s.checks|] == s.checks;
    r
  }

  /** The checks of one URL, in storage order (`WHERE url_id = id`). */
  function ChecksOf(cs: seq<Check>, urlId: int): (r: seq<Check>)
    ensures forall k | 0 <= k < |r| :: r[k].urlId == urlId && r[k] in cs
    ensures forall c | c in multiset(cs) :: multiset(r)[c] == if c.urlId == urlId then multiset(cs)[c] else 0
    ensures forall c | c in multiset(r) :: c in multiset(cs) && c.urlId == urlId
    ensures |r| <= |cs|
    decreases |cs|
  {
    if |cs| == 0 then []
    else
      assert cs == [cs[0]] + cs[1..];
      var head := if cs[0].urlId == urlId then [cs[0]] else [];
      var rest := ChecksOf(cs[1..], urlId);
      var r := head + rest;
      assert multiset(r) == multiset(head) + multiset(rest);
      assert multiset(cs) == multiset{cs[0]} + multiset(cs[1..]);
      forall k | 0 <= k < |r| ensures r[k].urlId == urlId && r[k] in cs {
        if k >= |head| {
          assert r[k] == rest[k - |head|];
          assert r[k] in cs[1..];
        }
      }
      forall c | c in multiset(cs) ensures multiset(r)[c] == if c.urlId == urlId then multiset(cs)[c] else 0 {
        assert multiset(cs)[c] == multiset{cs[0]}[c] + multiset(cs[1..])[c];
        assert multiset(head)[c] == if c.urlId == urlId then multiset{cs[0]}[c] else 0;
        if c !in multiset(cs[1..]) {
          assert multiset(rest)[c] == 0;
        }
      }
      r
  }

  /** A URL has no checks exactly when no stored check carries its id. */
  lemma ChecksOfEmpty(cs: seq<Check>, urlId: int)
    ensures |ChecksOf(cs, urlId)| == 0 <==> forall c | c in cs :: c.urlId != urlId
  {
    var pool := ChecksOf(cs, urlId);
    if |pool| > 0 {
      assert pool[0] in cs;
    }
  }

  function Min(a: int, b: int): int { if a <= b then a else b }

  /** `r` holds the `limit` newest checks of `pool` (all of them if fewer),
      newest first: every check left out is no newer than the oldest one kept.
      Among equal timestamps any may be chosen. */
  ghost predicate NewestSelection(r: seq<Check>, pool: seq<Check>, limit: nat) {
    && multiset(r) <= multiset(pool)
    && |r| == Min(limit, |pool|)
    && Sorting.Ascending(r, NewestKey)
    && (|r| > 0 ==> forall c | c in multiset(pool) - multiset(r) :: c.checkedAt <= r[|r| - 1].checkedAt)
  }

  lemma TakeMultiset(sorted: seq<Check>, pool: seq<Check>, n: nat)
    requires multiset(sorted) == multiset(pool) && n <= |sorted|
    ensures multiset(sorted[..n]) <= multiset(pool)
    ensures multiset(pool) - multiset(sorted[..n]) == multiset(sorted[n..])
  {
    assert sorted == sorted[..n] + sorted[n..];
    assert multiset(sorted) == multiset(sorted[..n]) + multiset(sorted[n..]);
  }

  lemma TakeAscending(sorted: seq<Check>, n: nat)
    requires Sorting.Ascending(sorted, NewestKey) && n <= |sorted|
    ensures Sorting.Ascending(sorted[..n], NewestKey)
  {
    var r := sorted[..n];
    forall i, j | 0 <= i < j < |r| ensures NewestKey(r[i]) <= NewestKey(r[j]) {
      assert r[i] == sorted[i] && r[j] == sorted[j];
    }
  }

  lemma DropNoNewer(sorted: seq<Check>, n: nat)
    requires Sorting.Ascending(sorted, NewestKey) && 0 < n <= |sorted|
    ensures forall c | c in multiset(sorted[n..]) :: c.checkedAt <= sorted[n - 1].checkedAt
  {
    var rest := sorted[n..];
    forall c: Check | c in multiset(rest) ensures c.checkedAt <= sorted[n - 1].checkedAt {
      var m :| 0 <= m < |rest| && rest[m] == c;
      assert sorted[n + m] == c;
      assert NewestKey(sorted[n - 1]) <= NewestKey(sorted[n + m]);
    }
  }

  lemma TakeNewest(sorted: seq<Check>, pool: seq<Check>, n: nat)
    requires multiset(sorted) == multiset(pool) && |sorted| == |pool|
    requires Sorting.Ascending(sorted, NewestKey)
    requires n <= |pool|
    ensures NewestSelection(sorted[..n], pool, n)
  {
    TakeMultiset(sorted, pool, n);
    TakeAscending(sorted, n);
    if n > 0 {
      DropNoNewer(sorted, n);
      assert sorted[..n][n - 1] == sorted[n - 1];
    }
  }

  lemma SelectionMembers(r: seq<Check>, pool: seq<Check>, cs: seq<Check>, urlId: int)
    requires multiset(r) <= multiset(pool)
    requires forall k | 0 <= k < |pool| :: pool[k].urlId == urlId && pool[k] in cs
    ensures forall k | 0 <= k < |r| :: r[k].urlId == urlId && r[k] in cs
  {
    forall k | 0 <= k < |r| ensures r[k].urlId == urlId && r[k] in cs {
      assert r[k] in multiset(r);
      assert r[k] in multiset(pool);
      var m :| 0 <= m < |pool| && pool[m] == r[k];
    }
  }

  /** `SELECT ... FROM checks WHERE url_id=$1 ORDER BY checked_at DESC LIMIT $2`.
      PostgreSQL rejects a negative LIMIT, which surfaces as an error. */
  function RecentChecks(s: State, urlId: int, limit: int): (r: Result<seq<Check>, string>)
    ensures r.Failure? <==> limit < 0
    ensures r.Success? ==> NewestSelection(r.value, ChecksOf(s.checks, urlId), limit)
    ensures r.Success? ==> forall k | 0 <= k < |r.value| :: r.value[k].urlId == urlId && r.value[k] in s.checks
  {
    if limit < 0 then Failure("LIMIT must not be negative")
    else
      var pool := ChecksOf(s.checks, urlId);
      var sorted := Sorting.SortBy(pool, NewestKey);
      var n := Min(limit, |pool|);
      TakeNewest(sorted, pool, n);
      SelectionMembers(sorted[..n], pool, s.checks, urlId);
      Success(sorted[..n])
  }

  /** A newest check of URL `urlId` (`ORDER BY checked_at DESC LIMIT 1`), or
      nothing when the URL has no checks. */
  function NewestOf(cs: seq<Check>, urlId: int): (r: Option<Check>)
    ensures r.Some? ==> r.value in cs && r.value.urlId == urlId
    ensures r.Some? ==> forall k | 0 <= k < |cs| && cs[k].urlId == urlId :: cs[k].checkedAt <= r.value.checkedAt
    ensures r.None? ==> forall k | 0 <= k < |cs| :: cs[k].urlId != urlId
    decreases |cs|
  {
    if |cs| == 0 then None
    else
      var rest := NewestOf(cs[1..], urlId);
      assert forall k | 1 <= k < |cs| :: cs[k] == cs[1..][k - 1];
      if cs[0].urlId != urlId then rest
      else if rest.Some? && rest.value.checkedAt > cs[0].checkedAt then rest
      else Some(cs[0])
  }

  /** The lateral join, row by row over the URLs in `us`: a URL without checks
      yields no row. The join never selects `c.url_id`, so the scanned check
      keeps url_id 0. */
  function LatestRows(us: seq<URL>, cs: seq<Check>): (r: seq<Latest>)
    ensures |r| <= |us|
    ensures forall k | 0 <= k < |r| :: r[k].url in us && r[k].check.urlId == 0
    decreases |us|
  {
    if |us| == 0 then []
    else
      var rest := LatestRows(us[1..], cs);
      match NewestOf(cs, us[0].id)
      case None => rest
      case Some(c) => [Latest(us[0], c.(urlId := 0))] + rest
  }

  /** A row of the latest-status join is sound against `cs`: its check, with
      url_id put back, is a check of its URL, and no check of that URL is newer. */
  ghost predicate SoundRow(row: Latest, cs: seq<Check>) {
    && row.check.(urlId := row.url.id) in cs
    && forall c | c in cs && c.urlId == row.url.id :: c.checkedAt <= row.check.checkedAt
  }

  ghost predicate AllSound(rows: seq<Latest>, cs: seq<Check>) {
    forall k | 0 <= k < |rows| :: SoundRow(rows[k], cs)
  }

  lemma {:induction false} LatestRowsNewest(us: seq<URL>, cs: seq<Check>)
    ensures AllSound(LatestRows(us, cs), cs)
    decreases |us|
  {
    if |us| > 0 {
      LatestRowsNewest(us[1..], cs);
      var r := LatestRows(us, cs);
      var rest := LatestRows(us[1..], cs);
      match NewestOf(cs, us[0].id)
      case None =>
        assert r == rest;
      case Some(c) =>
        assert c.(urlId := 0).(urlId := us[0].id) == c;
        forall d | d in cs && d.urlId == us[0].id ensures d.checkedAt <= c.checkedAt {
          var m :| 0 <= m < |cs| && cs[m] == d;
        }
        assert SoundRow(r[0], cs);
        assert forall k | 1 <= k < |r| :: r[k] == rest[k - 1];
    }
  }

  /** Every URL of `us` that has a check in `cs` has a row in `rows`. */
  ghost predicate Covers(rows: seq<Latest>, us: seq<URL>, cs: seq<Check>) {
    forall u | u in us && (exists c | c in cs :: c.urlId == u.id) :: exists k | 0 <= k < |rows| :: rows[k].url == u
  }

  lemma {:induction false} LatestRowsComplete(us: seq<URL>, cs: seq<Check>)
    ensures Covers(LatestRows(us, cs), us, cs)
    decreases |us|
  {
    if |us| > 0 {
      LatestRowsComplete(us[1..], cs);
      var r := LatestRows(us, cs);
      var rest := LatestRows(us[1..], cs);
      match NewestOf(cs, us[0].id)
      case None =>
        assert r == rest;
        forall u | u in us && (exists c | c in cs :: c.urlId == u.id) ensures exists k | 0 <= k < |r| :: r[k].url == u {
          var c :| c in cs && c.urlId == u.id;
          var m :| 0 <= m < |cs| && cs[m] == c;
          assert u != us[0];
          assert u in us[1..];
        }
      case Some(c) =>
        assert r[0].url == us[0];
        assert forall k | 0 <= k < |rest| :: r[k + 1] == rest[k];
        forall u | u in us && u != us[0] ensures u in us[1..] {
        }
    }
  }

  /** Rows follow the order of `us`. */
  lemma {:induction false} LatestRowsOrdered(us: seq<URL>, cs: seq<Check>)
    requires Sorting.Ascending(us, UrlId)
    ensures Sorting.Ascending(LatestRows(us, cs), (l: Latest) => l.url.id)
    decreases |us|
  {
    if |us| > 0 {
      LatestRowsOrdered(us[1..], cs);
      var rest := LatestRows(us[1..], cs);
      forall k | 0 <= k < |rest| ensures us[0].id <= rest[k].url.id {
        var m :| 0 <= m < |us[1..]| && us[1..][m] == rest[k].url;
        assert us[m + 1] == rest[k].url;
      }
    }
  }

  /** Over URLs in strictly increasing id order, rows keep that order, so no
      URL gets two rows. */
  lemma {:induction false} LatestRowsOrderedStrict(us: seq<URL>, cs: seq<Check>)
    ensures Sorting.StrictlyAscending(us, UrlId) ==>
      Sorting.StrictlyAscending(LatestRows(us, cs), (l: Latest) => l.url.id)
    decreases |us|
  {
    if |us| > 0 && Sorting.StrictlyAscending(us, UrlId) {
      assert Sorting.StrictlyAscending(us[1..], UrlId);
      LatestRowsOrderedStrict(us[1..], cs);
      var rest := LatestRows(us[1..], cs);
      forall k | 0 <= k < |rest| ensures us[0].id < rest[k].url.id {
        var m :| 0 <= m < |us[1..]| && us[1..][m] == rest[k].url;
        assert us[m + 1] == rest[k].url;
      }
    }
  }

  /** The query finds no row exactly when no stored URL has a check. */
  lemma LatestStatusEmpty(s: State)
    ensures |LatestStatus(s)| == 0 <==> forall u, c | u in s.urls && c in s.checks :: c.urlId != u.id
  {
    var rows := LatestStatus(s);
    if |rows| > 0 {
      assert SoundRow(rows[0], s.checks);
      assert rows[0].check.(urlId := rows[0].url.id) in s.checks;
    }
  }

  /** `GET /status`'s query: one row per URL that has checks, ordered by URL id,
      pairing it with a newest check of that URL. */
  function LatestStatus(s: State): (r: seq<Latest>)
    ensures |r| <= |s.urls|
    ensures forall k | 0 <= k < |r| :: r[k].url in s.urls && r[k].check.urlId == 0
    ensures AllSound(r, s.checks)
    ensures Covers(r, s.urls, s.checks)
    ensures Sorting.Ascending(r, (l: Latest) => l.url.id)
    // over a store with distinct ids, at most one row per URL
    ensures Valid(s) ==> Sorting.StrictlyAscending(r, (l: Latest) => l.url.id)
  {
    var us := ListURLs(s);
    LatestRowsOrderedStrict(us, s.checks);
    SameElements(us, s.urls);
    LatestRowsNewest(us, s.checks);
    LatestRowsComplete(us, s.checks);
    CoversSubset(LatestRows(us, s.checks), us, s.urls, s.checks);
    LatestRowsOrdered(us, s.checks);
    LatestRows(us, s.checks)
  }

  lemma SameElements<T>(a: seq<T>, b: seq<T>)
    requires multiset(a) == multiset(b)
    ensures forall x :: x in a <==> x in b
  {
    forall x ensures x in a <==> x in b {
      assert x in a <==> x in multiset(a);
      assert x in b <==> x in multiset(b);
    }
  }

  lemma CoversSubset(rows: seq<Latest>, us: seq<URL>, vs: seq<URL>, cs: seq<Check>)
    requires Covers(rows, us, cs)
    requires forall u | u in vs :: u in us
    ensures Covers(rows, vs, cs)
  {
  }

  /** Re-adding a known url with the same expected status changes nothing and
      returns the same id, whatever slow threshold comes with it. */
  lemma AddURLAgain(s: State, url: string, exp: int, slow1: int, slow2: int,
                    f1: int, f2: int, now1: int, now2: int)
    requires Valid(s) && UrlIdFree(s, f1)
    requires UrlIdFree(AddURL(s, url, exp, slow1, f1, now1).state, f2)
    ensures
      var a := AddURL(s, url, exp, slow1, f1, now1);
      var b := AddURL(a.state, url, exp, slow2, f2, now2);
      b.id == a.id && b.state == a.state
  {
    var a := AddURL(s, url, exp, slow1, f1, now1);
    var i :| 0 <= i < |a.state.urls| && a.state.urls[i].url == url && a.state.urls[i].id == a.id
                                     && a.state.urls[i].expectedStatus == exp;
    var b := AddURL(a.state, url, exp, slow2, f2, now2);
    assert b.id == a.id;
    assert a.state.urls[i := a.state.urls[i].(expectedStatus := exp)] == a.state.urls;
  }

  lemma SingleNewest(r: seq<Check>, pool: seq<Check>, stored: Check)
    requires NewestSelection(r, pool, 1)
    requires stored in multiset(pool)
    requires forall e | e in multiset(pool) && e != stored :: e.checkedAt < stored.checkedAt
    ensures r == [stored]
  {
    assert |r| == 1;
    var e := r[0];
    assert r == [e];
    assert e in multiset(pool) by {
      assert e in multiset(r);
    }
  }

  /** A check newer than every earlier check of its URL is what a limit-1
      query returns right after it is stored. */
  lemma InsertedCheckIsNewest(s: State, c: Check, freshId: int)
    requires CheckIdFree(s, freshId)
    requires forall k | 0 <= k < |s.checks| && s.checks[k].urlId == c.urlId :: s.checks[k].checkedAt < c.checkedAt
    ensures RecentChecks(InsertCheck(s, c, freshId), c.urlId, 1) == Success([c.(id := freshId)])
  {
    var s' := InsertCheck(s, c, freshId);
    var stored := c.(id := freshId);
    var pool := ChecksOf(s'.checks, c.urlId);
    assert s'.checks == s.checks + [stored];
    assert stored in multiset(pool) by {
      assert stored in multiset(s'.checks);
    }
    forall e | e in multiset(pool) && e != stored ensures e.checkedAt < stored.checkedAt {
      assert e in multiset(s'.checks) && e.urlId == c.urlId;
      var m :| 0 <= m < |s'.checks| && s'.checks[m] == e;
      assert m < |s.checks| && s.checks[m] == e;
    }
    SingleNewest(RecentChecks(s', c.urlId, 1).value, pool, stored);
  }
}
