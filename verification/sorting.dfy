/** Ordering by an integer key, the way the store's `ORDER BY` clauses order
    rows. Ties keep no particular order: the store's SQL does not fix one. */
module Sorting {

  ghost predicate Ascending<T>(s: seq<T>, key: T -> int) {
    forall i, j | 0 <= i < j < |s| :: key(s[i]) <= key(s[j])
  }

  ghost predicate StrictlyAscending<T>(s: seq<T>, key: T -> int) {
    forall i, j | 0 <= i < j < |s| :: key(s[i]) < key(s[j])
  }

  /** No two elements share a key. */
  ghost predicate KeysDistinct<T>(s: seq<T>, key: T -> int) {
    forall i, j | 0 <= i < j < |s| :: key(s[i]) != key(s[j])
  }

  function Insert<T>(x: T, s: seq<T>, key: T -> int): (r: seq<T>)
    requires Ascending(s, key)
    ensures Ascending(r, key)
    ensures multiset(r) == multiset(s) + multiset{x}
    ensures forall k | 0 <= k < |r| :: r[k] == x || r[k] in s
    ensures |r| == |s| + 1
    decreases |s|
  {
    if |s| == 0 || key(x) <= key(s[0]) then
      AscendingCons(x, s, key);
      var r := [x] + s;
      assert forall k | 1 <= k < |r| :: r[k] == s[k - 1];
      r
    else
      var tail := Insert(x, s[1..], key);
      assert s == [s[0]] + s[1..];
      InsertTailAbove(x, s, tail, key);
      AscendingCons(s[0], tail, key);
      var r := [s[0]] + tail;
      assert multiset(r) == multiset{s[0]} + multiset(tail);
      forall k | 1 <= k < |r| ensures r[k] == x || r[k] in s {
        if r[k] != x {
          assert r[k] == tail[k - 1];
          var m :| 0 <= m < |s[1..]| && s[1..][m] == r[k];
          assert s[m + 1] == r[k];
        }
      }
      r
  }

  /** A head whose key is at or below the first key of an ascending sequence
      keeps it ascending. */
  lemma AscendingCons<T>(h: T, s: seq<T>, key: T -> int)
    requires Ascending(s, key) && (|s| == 0 || key(h) <= key(s[0]))
    ensures Ascending([h] + s, key)
  {
    var r := [h] + s;
    forall i, j | 0 <= i < j < |r| ensures key(r[i]) <= key(r[j]) {
      assert r[j] == s[j - 1];
      if i > 0 {
        assert r[i] == s[i - 1];
      } else if j > 1 {
        assert key(s[0]) <= key(s[j - 1]);
      }
    }
  }

  /** Inserting into the tail of an ascending sequence keeps every key at or
      above its head's. */
  lemma InsertTailAbove<T>(x: T, s: seq<T>, tail: seq<T>, key: T -> int)
    requires |s| > 0 && Ascending(s, key) && key(s[0]) < key(x)
    requires forall k | 0 <= k < |tail| :: tail[k] == x || tail[k] in s[1..]
    ensures |tail| == 0 || key(s[0]) <= key(tail[0])
    ensures forall k | 0 <= k < |tail| :: key(s[0]) <= key(tail[k])
  {
    forall k | 0 <= k < |tail| ensures key(s[0]) <= key(tail[k]) {
      if tail[k] != x {
        var m :| 0 <= m < |s[1..]| && s[1..][m] == tail[k];
        assert s[m + 1] == tail[k];
      }
    }
  }

  /** The elements of `s` rearranged into ascending key order. */
  function SortBy<T>(s: seq<T>, key: T -> int): (r: seq<T>)
    ensures Ascending(r, key)
    ensures multiset(r) == multiset(s)
    ensures forall k | 0 <= k < |r| :: r[k] in s
    ensures |r| == |s|
    decreases |s|
  {
    if |s| == 0 then []
    else
      assert s == [s[0]] + s[1..];
      Insert(s[0], SortBy(s[1..], key), key)
  }

  lemma {:induction false} InsertDistinct<T>(x: T, s: seq<T>, key: T -> int)
    requires Ascending(s, key) && KeysDistinct(s, key)
    requires forall k | 0 <= k < |s| :: key(s[k]) != key(x)
    ensures KeysDistinct(Insert(x, s, key), key)
    decreases |s|
  {
    if |s| > 0 && key(x) > key(s[0]) {
      InsertDistinct(x, s[1..], key);
      var tail := Insert(x, s[1..], key);
      assert forall k | 0 <= k < |tail| :: key(tail[k]) != key(s[0]) by {
        forall k | 0 <= k < |tail| ensures key(tail[k]) != key(s[0]) {
          if tail[k] != x {
            var m :| 0 <= m < |s[1..]| && s[1..][m] == tail[k];
            assert s[m + 1] == tail[k];
          }
        }
      }
    }
  }

  /** Sorting elements with distinct keys orders them strictly. */
  lemma {:induction false} SortByStrict<T>(s: seq<T>, key: T -> int)
    requires KeysDistinct(s, key)
    ensures StrictlyAscending(SortBy(s, key), key)
    ensures KeysDistinct(SortBy(s, key), key)
    decreases |s|
  {
    if |s| > 0 {
      SortByStrict(s[1..], key);
      var rest := SortBy(s[1..], key);
      assert forall k | 0 <= k < |rest| :: key(rest[k]) != key(s[0]) by {
        forall k | 0 <= k < |rest| ensures key(rest[k]) != key(s[0]) {
          var m :| 0 <= m < |s[1..]| && s[1..][m] == rest[k];
          assert s[m + 1] == rest[k];
        }
      }
      InsertDistinct(s[0], rest, key);
    }
  }
}
