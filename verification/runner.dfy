/** One probe of one URL by the monitor (`checkOne`): the check row it stores,
    the state it derives, and the alerts and recovery messages it emits,
    driven by the throttle. The HTTP probe itself is an input (transport error
    or status code, plus the measured latency), the ALERT_ON_RECOVERY variable
    is a parameter, and one `now` stands for every clock reading of the call. */
module Monitor {
  import opened Wrappers
  import opened GoInt
  import opened Throttle
  import Store

  /** Outcome of the timed HTTP GET. */
  datatype Probe = TransportError(message: string) | Response(statusCode: int)

  /** A message handed to the email and Discord senders: subject line, plain
      text body, and the line posted to Discord. */
  datatype Notice =
    | Alert(kind: string, subject: string, text: string, chat: string)
    | Recovered(kind: string, subject: string, text: string, chat: string)

  datatype Outcome = Outcome(
    check: Store.Check,     // the row passed to InsertCheck (id and url_id as the store assigns)
    state: string,          // OK, DOWN or SLOW
    kind: string,           // "" for OK, else DOWN or SLOW
    reason: string,
    notices: seq<Notice>,
    table: Table)

  const KindDown: string := "DOWN"
  const KindSlow: string := "SLOW"
  const RedIcon: string := "\U{1F534}"
  const YellowIcon: string := "\U{1F7E1}"
  const GreenIcon: string := "\U{1F7E2}"
  const CheckMark: string := "\U{2705}"
  const ReasonError: string := "timeout/error"
  const ReasonSlow: string := "slow response"

  /** The row to persist: status only when a response arrived, error text only
      on transport error, `ok` exactly when the status is the expected one, and
      the latency always, truncated to int32. */
  function Observation(u: Store.URL, probe: Probe, latency: int, now: int): (c: Store.Check)
    ensures c.urlId == u.id && c.checkedAt == now
    ensures c.latencyMs == Some(Wrap32(latency))
    ensures probe.TransportError? ==>
      c.statusCode == None && c.error == Some(probe.message) && !c.ok
    ensures probe.Response? ==>
      c.statusCode == Some(Wrap32(probe.statusCode)) && c.error == None
      && (c.ok <==> probe.statusCode == u.expectedStatus)
  {
    match probe
    case TransportError(msg) =>
      Store.Check(0, u.id, None, Some(Wrap32(latency)), false, Some(msg), now)
    case Response(code) =>
      Store.Check(0, u.id, Some(Wrap32(code)), Some(Wrap32(latency)), code == u.expectedStatus, None, now)
  }

  /** State, kind and reason, derived in the runner's order: transport error,
      then unexpected status, then latency above the runner-wide `slowMs`. */
  function Classify(probe: Probe, ok: bool, storedStatus: Option<int>, latency: int, slowMs: int): (r: (string, string, string))
  {
    if probe.TransportError? then (StateDown, KindDown, ReasonError)
    else if !ok then (StateDown, KindDown, "unexpected status " + FormatInt(storedStatus.GetOr(0)))
    else if latency > slowMs then (StateSlow, KindSlow, ReasonSlow)
    else (StateOK, "", "")
  }

  function StatusText(status: Option<int>): string {
    match status
    case Some(v) => FormatInt(v)
    case None => "unknown"
  }

  /** The plain-text body of a DOWN/SLOW alert. */
  function AlertText(url: string, kind: string, reason: string, status: Option<int>, latency: int): string {
    url + " | " + kind + " | reason=" + reason + " status=" + StatusText(status)
      + " latency=" + FormatInt(latency) + "ms"
  }

  function Icon(kind: string): (icon: string)
    ensures icon == YellowIcon <==> kind == KindSlow
    ensures icon == RedIcon <==> kind != KindSlow
  {
    if kind == KindSlow then YellowIcon else RedIcon
  }

  /** An alert as the runner words it: the icon, kind, URL and reason in the
      subject; URL, kind, reason, status and latency in the text; the chat
      line is the icon and the text. */
  predicate AlertWorded(n: Notice, url: string, kind: string, reason: string, status: Option<int>, latency: int) {
    && n.Alert?
    && n.kind == kind
    && n.subject == Icon(kind) + " [" + kind + "] " + url + " - " + reason
    && n.text == url + " | " + kind + " | reason=" + reason + " status=" + StatusText(status)
                 + " latency=" + FormatInt(latency) + "ms"
    && n.chat == Icon(kind) + " " + n.text
  }

  /** A recovery as the runner words it: a check mark and the URL in the
      subject; URL, recovered kind, status and latency in the text; the chat
      line is the green icon and the text. */
  predicate RecoveryWorded(n: Notice, url: string, status: Option<int>, latency: int) {
    && n.Recovered?
    && n.subject == CheckMark + " [RECOVERED] " + url + " - Your website is back online"
    && n.text == url + " | RECOVERED from " + n.kind + " | status=" + StatusText(status)
                 + " latency=" + FormatInt(latency) + "ms"
    && n.chat == GreenIcon + " " + n.text
  }

  /** `checkOne` for URL `u`: `latency` is the measured milliseconds (int64),
      `slowMs` the runner-wide threshold, `alertOnRecovery` the value of
      ALERT_ON_RECOVERY, `t` the throttle table and `ttl` its repeat window. */
  function CheckOne(u: Store.URL, probe: Probe, latency: int, slowMs: int, alertOnRecovery: string,
                    t: Table, ttl: int, now: int): (o: Outcome)
    // the stored row
    ensures o.check == Observation(u, probe, latency, now)
    // transport error: DOWN with the fixed reason
    ensures probe.TransportError? ==> o.state == StateDown && o.kind == KindDown && o.reason == ReasonError
    // wrong status: DOWN, reason names the status code
    ensures probe.Response? && probe.statusCode != u.expectedStatus ==>
      o.state == StateDown && o.kind == KindDown
      && o.reason == "unexpected status " + FormatInt(Wrap32(probe.statusCode))
    // expected status: SLOW exactly above the runner-wide threshold, the URL's own threshold unused
    ensures probe.Response? && probe.statusCode == u.expectedStatus ==>
      (o.state == StateSlow <==> latency > slowMs)
      && (o.state == StateOK <==> latency <= slowMs)
    // SLOW carries the slow kind and its fixed reason; DOWN carries the down kind
    ensures o.state == StateSlow ==> o.kind == KindSlow && o.reason == ReasonSlow
    ensures o.state == StateDown ==> o.kind == KindDown
    ensures o.state == StateOK <==> o.kind == ""
    // DOWN/SLOW: one throttle decision, for this URL and this kind only
    ensures o.kind != "" ==>
      var d := Decide(t, ttl, now, u.url, o.kind, o.state);
      && o.table == d.table
      && (d.shouldNotify <==> exists n | n in o.notices :: n.Alert?)
      && (forall n | n in o.notices :: n.Alert? && n.kind == o.kind && Icon(n.kind) + " " + n.text == n.chat)
      && |o.notices| <= 1
    // an alert's subject, text and chat line, as the runner words them
    ensures o.kind != "" ==> forall n | n in o.notices ::
      AlertWorded(n, u.url, o.kind, o.reason, o.check.statusCode, latency)
    // OK: both kinds are told "OK"; a recovery notice exactly when one of them recovers and the flag is "true"
    ensures o.kind == "" ==>
      var dDown := Decide(t, ttl, now, u.url, KindDown, StateOK);
      var dSlow := Decide(dDown.table, ttl, now, u.url, KindSlow, StateOK);
      && o.table == dSlow.table
      && (forall n | n in o.notices :: n.Recovered?)
      && (|o.notices| > 0 <==> (dDown.isRecovery || dSlow.isRecovery) && alertOnRecovery == "true")
      && |o.notices| <= 1
      && (|o.notices| == 1 ==> o.notices[0].kind == (if dSlow.isRecovery && !dDown.isRecovery then KindSlow else KindDown))
    // a recovery's subject, text and chat line
    ensures o.kind == "" ==> forall n | n in o.notices :: RecoveryWorded(n, u.url, o.check.statusCode, latency)
  {
    var check := Observation(u, probe, latency, now);
    var cls := Classify(probe, check.ok, check.statusCode, latency, slowMs);
    var r := Respond(u.url, cls.0, cls.1, cls.2, check.statusCode, latency, alertOnRecovery, t, ttl, now);
    if cls.1 != "" then
      var d := Decide(t, ttl, now, u.url, cls.1, cls.0);
      assert d.shouldNotify ==> r.1[0] in r.1;
      Outcome(check, cls.0, cls.1, cls.2, r.1, r.0)
    else
      Outcome(check, cls.0, cls.1, cls.2, r.1, r.0)
  }

  /** The throttle consultation and the messages it leads to, for an
      observation already classified as (`state`, `kind`, `reason`). */
  function Respond(url: string, state: string, kind: string, reason: string, status: Option<int>, latency: int,
                   alertOnRecovery: string, t: Table, ttl: int, now: int): (r: (Table, seq<Notice>))
    ensures kind != "" ==> forall n | n in r.1 && n.Alert? :: AlertWorded(n, url, kind, reason, status, latency)
    ensures kind == "" ==> forall n | n in r.1 :: RecoveryWorded(n, url, status, latency)
  {
    if kind != "" then
      var d := Decide(t, ttl, now, url, kind, state);
      (d.table, FailureNotices(url, kind, reason, status, latency, d.shouldNotify, d.isRecovery, alertOnRecovery))
    else
      var dDown := Decide(t, ttl, now, url, KindDown, StateOK);
      var dSlow := Decide(dDown.table, ttl, now, url, KindSlow, StateOK);
      (dSlow.table, RecoveryNotices(url, status, latency, dDown.isRecovery, dSlow.isRecovery, alertOnRecovery))
  }

  /** What a DOWN/SLOW observation sends, given the throttle's answer. */
  function FailureNotices(url: string, kind: string, reason: string, status: Option<int>, latency: int,
                          shouldNotify: bool, isRecovery: bool, alertOnRecovery: string): (ns: seq<Notice>)
    ensures shouldNotify ==> |ns| > 0 && ns[0].Alert?
    ensures forall n | n in ns && n.Alert? :: AlertWorded(n, url, kind, reason, status, latency)
  {
    var text := AlertText(url, kind, reason, status, latency);
    var icon := Icon(kind);
    var alert :=
      if shouldNotify
      then [Alert(kind, icon + " [" + kind + "] " + url + " - " + reason, text, icon + " " + text)]
      else [];
    // The runner also sends a recovery here when Decide reports one; for a
    // non-OK state Decide never does.
    var recovery :=
      if isRecovery && alertOnRecovery == "true"
      then [Recovered(kind, "[RECOVERED] " + url, text + " | RECOVERED", text + " | RECOVERED")]
      else [];
    alert + recovery
  }

  /** What an OK observation sends, given whether DOWN and SLOW recovered. */
  function RecoveryNotices(url: string, status: Option<int>, latency: int,
                           recDown: bool, recSlow: bool, alertOnRecovery: string): (ns: seq<Notice>)
    ensures |ns| <= 1
    ensures |ns| == 1 <==> (recDown || recSlow) && alertOnRecovery == "true"
    ensures forall n | n in ns ::
      && n.kind == (if recSlow && !recDown then KindSlow else KindDown)
      && RecoveryWorded(n, url, status, latency)
  {
    if (recDown || recSlow) && alertOnRecovery == "true" then
      var recoveryType := if recSlow && !recDown then KindSlow else KindDown;
      var text := url + " | RECOVERED from " + recoveryType + " | status=" + StatusText(status)
                    + " latency=" + FormatInt(latency) + "ms";
      [Recovered(recoveryType, CheckMark + " [RECOVERED] " + url + " - Your website is back online",
                 text, GreenIcon + " " + text)]
    else []
  }

  /** A check of `u` touches only the throttle entries of `u.url`. */
  lemma CheckOneFrame(u: Store.URL, probe: Probe, latency: int, slowMs: int, flag: string,
                      t: Table, ttl: int, now: int)
    ensures SameElsewhere(CheckOne(u, probe, latency, slowMs, flag, t, ttl, now).table, t, u.url)
  {
  }

  lemma RespondLocal(url: string, state: string, kind: string, reason: string, status: Option<int>, latency: int,
                     flag: string, t1: Table, t2: Table, ttl: int, now: int)
    requires SameFor(t1, t2, url)
    ensures
      var r1 := Respond(url, state, kind, reason, status, latency, flag, t1, ttl, now);
      var r2 := Respond(url, state, kind, reason, status, latency, flag, t2, ttl, now);
      r1.1 == r2.1 && SameFor(r1.0, r2.0, url)
  {
    if kind != "" {
      DecideSameFor(t1, t2, ttl, now, url, kind, state);
    } else {
      DecideSameFor(t1, t2, ttl, now, url, KindDown, StateOK);
      var e1 := Decide(t1, ttl, now, url, KindDown, StateOK);
      var e2 := Decide(t2, ttl, now, url, KindDown, StateOK);
      DecideSameFor(e1.table, e2.table, ttl, now, url, KindSlow, StateOK);
    }
  }

  /** A check of `u` reads only the throttle entries of `u.url`. */
  lemma CheckOneLocal(u: Store.URL, probe: Probe, latency: int, slowMs: int, flag: string,
                      t1: Table, t2: Table, ttl: int, now: int)
    requires SameFor(t1, t2, u.url)
    ensures
      var o1 := CheckOne(u, probe, latency, slowMs, flag, t1, ttl, now);
      var o2 := CheckOne(u, probe, latency, slowMs, flag, t2, ttl, now);
      o1.notices == o2.notices && SameFor(o1.table, o2.table, u.url)
  {
    var check := Observation(u, probe, latency, now);
    var cls := Classify(probe, check.ok, check.statusCode, latency, slowMs);
    RespondLocal(u.url, cls.0, cls.1, cls.2, check.statusCode, latency, flag, t1, t2, ttl, now);
  }

  /** The runner probes URLs concurrently; two different URLs touch disjoint
      throttle entries, so the order in which their checks run changes neither
      the final table nor what either of them emits. */
  lemma CheckOneCommutes(u1: Store.URL, p1: Probe, l1: int, now1: int,
                         u2: Store.URL, p2: Probe, l2: int, now2: int,
                         slowMs: int, flag: string, t: Table, ttl: int)
    requires u1.url != u2.url
    ensures
      var a1 := CheckOne(u1, p1, l1, slowMs, flag, t, ttl, now1);
      var a2 := CheckOne(u2, p2, l2, slowMs, flag, a1.table, ttl, now2);
      var b2 := CheckOne(u2, p2, l2, slowMs, flag, t, ttl, now2);
      var b1 := CheckOne(u1, p1, l1, slowMs, flag, b2.table, ttl, now1);
      a2.table == b1.table && a1.notices == b1.notices && a2.notices == b2.notices
  {
    var a1 := CheckOne(u1, p1, l1, slowMs, flag, t, ttl, now1);
    var b2 := CheckOne(u2, p2, l2, slowMs, flag, t, ttl, now2);
    var a2 := CheckOne(u2, p2, l2, slowMs, flag, a1.table, ttl, now2);
    var b1 := CheckOne(u1, p1, l1, slowMs, flag, b2.table, ttl, now1);
    CheckOneFrame(u1, p1, l1, slowMs, flag, t, ttl, now1);
    CheckOneFrame(u2, p2, l2, slowMs, flag, t, ttl, now2);
    CheckOneFrame(u2, p2, l2, slowMs, flag, a1.table, ttl, now2);
    CheckOneFrame(u1, p1, l1, slowMs, flag, b2.table, ttl, now1);
    assert SameFor(b2.table, t, u1.url);
    CheckOneLocal(u1, p1, l1, slowMs, flag, b2.table, t, ttl, now1);
    assert SameFor(a1.table, t, u2.url);
    CheckOneLocal(u2, p2, l2, slowMs, flag, a1.table, t, ttl, now2);
    TablesCommute(t, a1.table, a2.table, b2.table, b1.table, u1.url, u2.url);
  }

  /** From any table, a failed probe followed by a healthy one sends exactly one
      recovery message, of type DOWN, when ALERT_ON_RECOVERY is "true". */
  lemma DownThenUpRecovers(u: Store.URL, msg: string, l1: int, l2: int, slowMs: int,
                           t: Table, ttl: int, now1: int, now2: int)
    requires l2 <= slowMs
    ensures
      var down := CheckOne(u, TransportError(msg), l1, slowMs, "true", t, ttl, now1);
      var up := CheckOne(u, Response(u.expectedStatus), l2, slowMs, "true", down.table, ttl, now2);
      up.state == StateOK && |up.notices| == 1 && up.notices[0].Recovered? && up.notices[0].kind == KindDown
  {
    var down := CheckOne(u, TransportError(msg), l1, slowMs, "true", t, ttl, now1);
    assert down.table[Key(u.url, KindDown)].lastState == StateDown;
  }

  /** The first healthy probe of a URL the throttle has never seen sends nothing
      and records OK for both kinds. */
  lemma FirstHealthyProbeSilent(u: Store.URL, code: int, l: int, slowMs: int, flag: string,
                                t: Table, ttl: int, now: int)
    requires Key(u.url, KindDown) !in t && Key(u.url, KindSlow) !in t
    requires code == u.expectedStatus && l <= slowMs
    ensures
      var o := CheckOne(u, Response(code), l, slowMs, flag, t, ttl, now);
      o.notices == [] && o.table == t[Key(u.url, KindDown) := Entry(StateOK, now)][Key(u.url, KindSlow) := Entry(StateOK, now)]
  {
  }
}
