/** The alert throttle: per (URL, kind) it remembers the last observed state and
    when an alert was last sent, and decides whether an observation notifies
    now and whether it is a recovery. The Go throttle's mutex is dropped
    (every operation here is a pure state transformer) and the clock is an
    explicit `now`. */
module Throttle {

  const StateOK: string := "OK"
  const StateDown: string := "DOWN"
  const StateSlow: string := "SLOW"

  /** Kind is "DOWN" or "SLOW" at every call site, but any string is accepted. */
  datatype Key = Key(url: string, kind: string)

  datatype Entry = Entry(lastState: string, lastSent: int)

  type Table = map<Key, Entry>

  /** Answer of one decision plus the table after it. */
  datatype Decision = Decision(shouldNotify: bool, isRecovery: bool, table: Table)

  /** `Decide(u, kind, nowState)` at time `now`, with repeat window `ttl`. */
  function Decide(t: Table, ttl: int, now: int, u: string, kind: string, nowState: string): (d: Decision)
    // only the entry of this key can change, and it always exists afterwards
    ensures d.table.Keys == t.Keys + {Key(u, kind)}
    ensures forall k | k in t && k != Key(u, kind) :: d.table[k] == t[k]
    // the entry always records the state just observed
    ensures d.table[Key(u, kind)].lastState == nowState
    // notification: first sighting, a change of state, or a non-OK repeat past the window
    ensures d.shouldNotify <==>
      (Key(u, kind) !in t
       || t[Key(u, kind)].lastState != nowState
       || (nowState != StateOK && now - t[Key(u, kind)].lastSent >= ttl))
    ensures d.shouldNotify ==> d.table[Key(u, kind)].lastSent == now
    ensures !d.shouldNotify ==> d.table == t
    // recovery: there was an entry, it was not OK, and now it is OK
    ensures d.isRecovery <==>
      (Key(u, kind) in t && t[Key(u, kind)].lastState != StateOK && nowState == StateOK)
    ensures d.isRecovery ==> d.shouldNotify
  {
    var k := Key(u, kind);
    if k !in t || t[k].lastState != nowState then
      var wasNotOK := k in t && t[k].lastState != StateOK;
      Decision(true, wasNotOK && nowState == StateOK, t[k := Entry(nowState, now)])
    else if now - t[k].lastSent >= ttl && nowState != StateOK then
      Decision(true, false, t[k := t[k].(lastSent := now)])
    else
      Decision(false, false, t)
  }

  /** Decisions on different keys commute: the runner checks URLs concurrently,
      and the order in which their decisions take the lock does not matter. */
  lemma DecideCommutes(t: Table, ttl: int, now1: int, now2: int,
                       u1: string, kind1: string, s1: string,
                       u2: string, kind2: string, s2: string)
    requires Key(u1, kind1) != Key(u2, kind2)
    ensures
      var a1 := Decide(t, ttl, now1, u1, kind1, s1);
      var a2 := Decide(a1.table, ttl, now2, u2, kind2, s2);
      var b2 := Decide(t, ttl, now2, u2, kind2, s2);
      var b1 := Decide(b2.table, ttl, now1, u1, kind1, s1);
      a2.table == b1.table
      && a1.shouldNotify == b1.shouldNotify && a1.isRecovery == b1.isRecovery
      && a2.shouldNotify == b2.shouldNotify && a2.isRecovery == b2.isRecovery
  {
    var a1 := Decide(t, ttl, now1, u1, kind1, s1);
    var a2 := Decide(a1.table, ttl, now2, u2, kind2, s2);
    var b2 := Decide(t, ttl, now2, u2, kind2, s2);
    var b1 := Decide(b2.table, ttl, now1, u1, kind1, s1);
    assert a2.table.Keys == b1.table.Keys;
    forall k | k in a2.table ensures a2.table[k] == b1.table[k] {
    }
  }

  /** A decision reads only its own key's entry: two tables that agree there
      give the same answers and the same new entry. */
  lemma DecideLocal(t1: Table, t2: Table, ttl: int, now: int, u: string, kind: string, s: string)
    requires Key(u, kind) in t1 <==> Key(u, kind) in t2
    requires Key(u, kind) in t1 ==> t1[Key(u, kind)] == t2[Key(u, kind)]
    ensures
      var d1 := Decide(t1, ttl, now, u, kind, s);
      var d2 := Decide(t2, ttl, now, u, kind, s);
      d1.shouldNotify == d2.shouldNotify && d1.isRecovery == d2.isRecovery
      && d1.table[Key(u, kind)] == d2.table[Key(u, kind)]
  {
  }

  /** The entries of `t1` and `t2` for URL `url` coincide. */
  ghost predicate SameFor(t1: Table, t2: Table, url: string) {
    forall k: Key | k.url == url :: (k in t1 <==> k in t2) && (k in t1 ==> t1[k] == t2[k])
  }

  /** The entries of `t1` and `t2` for every URL other than `url` coincide. */
  ghost predicate SameElsewhere(t1: Table, t2: Table, url: string) {
    forall k: Key | k.url != url :: (k in t1 <==> k in t2) && (k in t1 ==> t1[k] == t2[k])
  }

  /** Tables that agree on a URL's entries still agree on them after the same
      decision about that URL, and the decision answers the same on both. */
  lemma DecideSameFor(t1: Table, t2: Table, ttl: int, now: int, u: string, kind: string, s: string)
    requires SameFor(t1, t2, u)
    ensures
      var d1 := Decide(t1, ttl, now, u, kind, s);
      var d2 := Decide(t2, ttl, now, u, kind, s);
      d1.shouldNotify == d2.shouldNotify && d1.isRecovery == d2.isRecovery
      && SameFor(d1.table, d2.table, u)
  {
    var d1 := Decide(t1, ttl, now, u, kind, s);
    var d2 := Decide(t2, ttl, now, u, kind, s);
    var key := Key(u, kind);
    assert (key in t1 <==> key in t2) && (key in t1 ==> t1[key] == t2[key]);
    DecideLocal(t1, t2, ttl, now, u, kind, s);
    forall k: Key | k.url == u ensures (k in d1.table <==> k in d2.table) && (k in d1.table ==> d1.table[k] == d2.table[k]) {
      if k != key {
        assert (k in t1 <==> k in t2) && (k in t1 ==> t1[k] == t2[k]);
      }
    }
  }

  /** Two updates confined to different URLs, applied in either order, end in
      the same table. */
  lemma TablesCommute(t: Table, a1: Table, a2: Table, b2: Table, b1: Table, url1: string, url2: string)
    requires url1 != url2
    requires SameElsewhere(a1, t, url1) && SameElsewhere(a2, a1, url2)
    requires SameElsewhere(b2, t, url2) && SameElsewhere(b1, b2, url1)
    requires SameFor(a1, b1, url1) && SameFor(a2, b2, url2)
    ensures a2 == b1
  {
    forall k: Key ensures (k in a2 <==> k in b1) && (k in a2 ==> a2[k] == b1[k]) {
      if k.url == url1 {
        assert k.url != url2;
      } else if k.url == url2 {
      }
    }
  }

  /** Right after a notification, an identical observation inside the window
      stays silent; a repeat is never a recovery. */
  lemma RepeatInsideWindowSilent(t: Table, ttl: int, now1: int, now2: int,
                                 u: string, kind: string, s: string)
    requires now1 <= now2 < now1 + ttl
    ensures
      var d1 := Decide(t, ttl, now1, u, kind, s);
      var d2 := Decide(d1.table, ttl, now2, u, kind, s);
      !d2.isRecovery
      && (d1.shouldNotify ==> !d2.shouldNotify && d2.table == d1.table)
  {
  }

  /** Feeding the same (url, kind, state) at the successive instants `times`:
      the table at the end, and for each instant whether it notified. */
  function Replay(t: Table, ttl: int, u: string, kind: string, s: string, times: seq<int>): (r: (Table, seq<bool>))
    ensures |r.1| == |times|
    decreases |times|
  {
    if |times| == 0 then (t, [])
    else
      var prev := Replay(t, ttl, u, kind, s, times[..|times| - 1]);
      var d := Decide(prev.0, ttl, times[|times| - 1], u, kind, s);
      (d.table, prev.1 + [d.shouldNotify])
  }

  ghost predicate NonDecreasing(times: seq<int>) {
    forall i, j | 0 <= i < j < |times| :: times[i] <= times[j]
  }

  lemma {:induction false} ReplayLastSent(t: Table, ttl: int, u: string, kind: string, s: string, times: seq<int>)
    requires |times| > 0 && NonDecreasing(times)
    ensures
      var r := Replay(t, ttl, u, kind, s, times);
      Key(u, kind) in r.0 && r.0[Key(u, kind)].lastState == s
      && (forall i | 0 <= i < |times| && r.1[i] :: times[i] <= r.0[Key(u, kind)].lastSent)
    decreases |times|
  {
    var n := |times| - 1;
    var r := Replay(t, ttl, u, kind, s, times);
    var prev := Replay(t, ttl, u, kind, s, times[..n]);
    var d := Decide(prev.0, ttl, times[n], u, kind, s);
    assert r.0 == d.table && r.1 == prev.1 + [d.shouldNotify];
    if n > 0 {
      ReplayLastSent(t, ttl, u, kind, s, times[..n]);
      forall i | 0 <= i < |times| && r.1[i] ensures times[i] <= r.0[Key(u, kind)].lastSent {
        if i < n {
          assert prev.1[i];
          assert times[..n][i] == times[i];
          assert times[i] <= prev.0[Key(u, kind)].lastSent;
          if d.shouldNotify {
            assert times[i] <= times[n];
          }
        }
      }
    }
  }

  /** The throttle's promise: while one (url, kind) keeps reporting the same
      state, two alerts are at least `ttl` apart. */
  lemma {:induction false} AlertsSpacedByTtl(t: Table, ttl: int, u: string, kind: string, s: string,
                                             times: seq<int>, i: int, j: int)
    requires NonDecreasing(times)
    requires 0 <= i < j < |times|
    requires Replay(t, ttl, u, kind, s, times).1[i] && Replay(t, ttl, u, kind, s, times).1[j]
    ensures times[j] - times[i] >= ttl
  {
    var pre := times[..j];
    var prev := Replay(t, ttl, u, kind, s, pre);
    var suffixStart := times[..j + 1];
    assert suffixStart[..j] == pre;
    var upto := Replay(t, ttl, u, kind, s, suffixStart);
    ReplayPrefix(t, ttl, u, kind, s, times, j + 1);
    assert upto.1[j] && upto.1[i];
    ReplayLastSent(t, ttl, u, kind, s, pre);
    assert prev.1[i];
    assert times[i] <= prev.0[Key(u, kind)].lastSent;
    var d := Decide(prev.0, ttl, times[j], u, kind, s);
    assert d.shouldNotify;
    assert prev.0[Key(u, kind)].lastState == s;
  }

  /** The flags of a prefix of the instants are a prefix of the flags. */
  lemma {:induction false} ReplayPrefix(t: Table, ttl: int, u: string, kind: string, s: string, times: seq<int>, n: int)
    requires 0 <= n <= |times|
    ensures Replay(t, ttl, u, kind, s, times[..n]).1 == Replay(t, ttl, u, kind, s, times).1[..n]
    decreases |times|
  {
    if n < |times| {
      var m := |times| - 1;
      assert times[..m][..n] == times[..n];
      ReplayPrefix(t, ttl, u, kind, s, times[..m], n);
    } else {
      assert times[..n] == times;
    }
  }
}
