/** Configuration read from the environment (`config.Load`). The environment
    is a map; an unset variable reads as "". */
module Config {
  import opened GoInt

  type Env = map<string, string>

  const DefaultSmtpPort: int := 1025
  const DefaultCheckIntervalSec: int := 60
  const DefaultTimeoutMs: int := 5000
  const DefaultSlowMs: int := 2000

  datatype Cfg = Cfg(
    databaseUrl: string,
    smtpHost: string,
    smtpPort: int,
    smtpUser: string,
    smtpPass: string,
    smtpFrom: string,
    alertEmails: seq<string>,
    checkIntervalSec: int,
    timeoutMs: int,
    slowMs: int)

  /** `os.Getenv`. */
  function Getenv(env: Env, key: string): string {
    if key in env then env[key] else ""
  }

  /** `asInt`: the variable parsed with Atoi, or `def` when it is unset, empty,
      not a numeral, or out of the 64-bit range. */
  function AsInt(env: Env, key: string, def: int): (r: int)
    ensures Getenv(env, key) == "" ==> r == def
    ensures !IsNumeral(Getenv(env, key)) ==> r == def
    ensures r == def || (IsNumeral(Getenv(env, key)) && InInt64(r))
    // a numeral is read as its value when that fits 64 bits, else the default
    ensures IsNumeral(Getenv(env, key)) && InInt64(NumeralValue(Getenv(env, key))) ==>
      r == NumeralValue(Getenv(env, key))
    ensures IsNumeral(Getenv(env, key)) && !InInt64(NumeralValue(Getenv(env, key))) ==> r == def
  {
    var v := Getenv(env, key);
    if v != "" then
      var p := Atoi(v);
      if p.err == NoError then p.value else def
    else def
  }

  /** A variable holding the decimal form of a 64-bit value reads back as it. */
  lemma AsIntReadsFormatted(env: Env, key: string, def: int, n: int)
    requires InInt64(n) && key in env && env[key] == FormatInt(n)
    ensures AsInt(env, key, def) == n
  {
    AtoiFormatInt(n);
  }

  /** A digit run too large for 64 bits falls back to the default. */
  lemma AsIntOverflowDefaults(env: Env, key: string, def: int)
    requires key in env && AllDigits(env[key]) && Accumulate(0, env[key]) > MaxUint64
    ensures AsInt(env, key, def) == def
  {
    AtoiOverflowBeforeGarbage("", env[key], "");
    assert "" + env[key] + "" == env[key];
    assert env[key] + "" == env[key];
  }

  /** Go's `unicode.IsSpace`, which `strings.TrimSpace` trims: the six ASCII
      spaces, NEL, NBSP and the other characters with the Unicode White_Space
      property. */
  predicate IsSpace(c: char) {
    || c == '\t' || c == '\n' || c == '\U{000B}' || c == '\U{000C}' || c == '\r' || c == ' '
    || c == '\U{0085}' || c == '\U{00A0}'
    || c == '\U{1680}' || ('\U{2000}' <= c <= '\U{200A}')
    || c == '\U{2028}' || c == '\U{2029}' || c == '\U{202F}' || c == '\U{205F}' || c == '\U{3000}'
  }

  predicate Trimmed(s: string) {
    |s| == 0 || (!IsSpace(s[0]) && !IsSpace(s[|s| - 1]))
  }

  function TrimLeft(s: string): (r: string)
    ensures |r| <= |s| && r == s[|s| - |r|..]
    ensures forall i | 0 <= i < |s| - |r| :: IsSpace(s[i])
    ensures |r| == 0 || !IsSpace(r[0])
    decreases |s|
  {
    if |s| > 0 && IsSpace(s[0]) then TrimLeft(s[1..]) else s
  }

  function TrimRight(s: string): (r: string)
    ensures |r| <= |s| && r == s[..|r|]
    ensures forall i | |r| <= i < |s| :: IsSpace(s[i])
    ensures |r| == 0 || !IsSpace(r[|r| - 1])
    decreases |s|
  {
    if |s| > 0 && IsSpace(s[|s| - 1]) then TrimRight(s[..|s| - 1]) else s
  }

  /** `r` is `s` with the white space before offset `i` and after `r` removed. */
  ghost predicate InfixAt(r: string, s: string, i: int) {
    && 0 <= i <= |s| - |r|
    && r == s[i..i + |r|]
    && (forall j | 0 <= j < i :: IsSpace(s[j]))
    && (forall j | i + |r| <= j < |s| :: IsSpace(s[j]))
  }

  /** `r` is `s` with leading and trailing white space removed. */
  ghost predicate TrimOf(r: string, s: string) {
    exists i :: InfixAt(r, s, i)
  }

  /** `strings.TrimSpace`: `s` without its leading and trailing white space. */
  function TrimSpace(s: string): (r: string)
    ensures Trimmed(r)
    ensures TrimOf(r, s)
  {
    TrimBothInfix(s);
    TrimRight(TrimLeft(s))
  }

  lemma TrimBothInfix(s: string)
    ensures Trimmed(TrimRight(TrimLeft(s)))
    ensures InfixAt(TrimRight(TrimLeft(s)), s, |s| - |TrimLeft(s)|)
  {
    TrimBothTrimmed(s);
    TrimBothSlice(s);
  }

  lemma TrimBothTrimmed(s: string)
    ensures Trimmed(TrimRight(TrimLeft(s)))
  {
    var l := TrimLeft(s);
    var r := TrimRight(l);
    if |r| > 0 {
      assert r[0] == l[0];
    }
  }

  lemma TrimBothSlice(s: string)
    ensures InfixAt(TrimRight(TrimLeft(s)), s, |s| - |TrimLeft(s)|)
  {
    var l := TrimLeft(s);
    var r := TrimRight(l);
    var i := |s| - |l|;
    SliceOfSuffix(s, i, r);
    TrimRightTail(s, i, l, r);
    InfixFrom(r, s, i);
  }

  /** The four facts that make up `InfixAt`, assembled away from the trimming
      functions' definitions. */
  lemma InfixFrom(r: string, s: string, i: int)
    requires 0 <= i <= |s| - |r| && r == s[i..i + |r|]
    requires forall j | 0 <= j < i :: IsSpace(s[j])
    requires forall j | i + |r| <= j < |s| :: IsSpace(s[j])
    ensures InfixAt(r, s, i)
  {
  }

  /** A prefix of a suffix of `s` is a slice of `s`. */
  lemma SliceOfSuffix(s: string, i: int, r: string)
    requires 0 <= i <= |s| && |r| <= |s| - i && r == s[i..][..|r|]
    ensures r == s[i..i + |r|]
  {
  }

  /** What `TrimRight` drops from the suffix `l` of `s` is white space of `s`. */
  lemma TrimRightTail(s: string, i: int, l: string, r: string)
    requires 0 <= i <= |s| && l == s[i..] && r == TrimRight(l)
    ensures forall j | i + |r| <= j < |s| :: IsSpace(s[j])
  {
    forall j | i + |r| <= j < |s| ensures IsSpace(s[j]) {
      assert s[j] == l[j - i];
    }
  }

  lemma TrimSpaceKeepsTrimmed(s: string)
    requires Trimmed(s)
    ensures TrimSpace(s) == s
  {
  }

  /** `strings.Split(s, ",")`: the pieces between commas, including empty ones. */
  function Split(s: string): (parts: seq<string>)
    ensures |parts| >= 1
    ensures forall k | 0 <= k < |parts| :: ',' !in parts[k]
    ensures Join(parts) == s
    decreases |s|
  {
    if |s| == 0 then [""]
    else
      var rest := Split(s[1..]);
      if s[0] == ',' then
        assert s == "," + s[1..];
        [""] + rest
      else
        var parts := [[s[0]] + rest[0]] + rest[1..];
        assert parts[1..] == rest[1..];
        assert s == [s[0]] + s[1..];
        parts
  }

  /** The pieces put back together with commas. */
  function Join(parts: seq<string>): string {
    if |parts| == 0 then ""
    else if |parts| == 1 then parts[0]
    else parts[0] + "," + Join(parts[1..])
  }

  /** Trim every piece and keep the non-empty ones, in order. */
  function TrimNonEmpty(parts: seq<string>): (r: seq<string>)
    ensures |r| <= |parts|
    ensures forall k | 0 <= k < |r| :: r[k] != "" && Trimmed(r[k])
    decreases |parts|
  {
    if |parts| == 0 then []
    else
      var p := TrimSpace(parts[0]);
      var rest := TrimNonEmpty(parts[1..]);
      if p != "" then [p] + rest else rest
  }

  /** Pieces without commas stay without commas. */
  lemma {:induction false} TrimNonEmptyNoComma(parts: seq<string>)
    requires forall k | 0 <= k < |parts| :: ',' !in parts[k]
    ensures forall k | 0 <= k < |TrimNonEmpty(parts)| :: ',' !in TrimNonEmpty(parts)[k]
    decreases |parts|
  {
    if |parts| > 0 {
      var p := TrimSpace(parts[0]);
      var rest := TrimNonEmpty(parts[1..]);
      assert ',' !in parts[0];
      TrimSpaceNoComma(parts[0]);
      TrimNonEmptyNoComma(parts[1..]);
      if p != "" {
        var r := [p] + rest;
        assert TrimNonEmpty(parts) == r;
        forall k | 0 <= k < |r| ensures ',' !in r[k] {
          if k > 0 {
            assert r[k] == rest[k - 1];
          }
        }
      } else {
        assert TrimNonEmpty(parts) == rest;
      }
    }
  }

  /** Trimming removes characters, so it adds no comma. */
  lemma TrimSpaceNoComma(s: string)
    ensures ',' !in s ==> ',' !in TrimSpace(s)
  {
    TrimBothSlice(s);
    var t := TrimRight(TrimLeft(s));
    var i := |s| - |TrimLeft(s)|;
    assert t == s[i..i + |t|];
    if ',' !in s {
      forall j | 0 <= j < |t| ensures t[j] != ',' {
        assert t[j] == s[i + j];
      }
    }
  }

  /** ALERT_EMAILS: unset or empty gives no address; otherwise each
      comma-separated piece, trimmed, empty pieces dropped. */
  function ParseEmails(v: string): (r: seq<string>)
    ensures v == "" ==> r == []
    ensures forall k | 0 <= k < |r| :: r[k] != "" && Trimmed(r[k]) && ',' !in r[k]
  {
    if v == "" then []
    else
      TrimNonEmptyNoComma(Split(v));
      TrimNonEmpty(Split(v))
  }

  /** Addresses that are non-empty, trimmed and comma-free. */
  predicate PlainAddresses(xs: seq<string>) {
    forall k | 0 <= k < |xs| :: xs[k] != "" && Trimmed(xs[k]) && ',' !in xs[k]
  }

  lemma {:induction false} SplitAfterComma(a: string, b: string)
    requires ',' !in a
    ensures Split(a + "," + b) == [a] + Split(b)
    decreases |a|
  {
    if |a| == 0 {
      assert a + "," + b == "," + b;
      assert ("," + b)[1..] == b;
    } else {
      assert (a + "," + b)[1..] == a[1..] + "," + b;
      SplitAfterComma(a[1..], b);
      assert [a[0]] + a[1..] == a;
    }
  }

  lemma {:induction false} SplitJoin(xs: seq<string>)
    requires |xs| >= 1
    requires forall k | 0 <= k < |xs| :: ',' !in xs[k]
    ensures Split(Join(xs)) == xs
    decreases |xs|
  {
    if |xs| == 1 {
      SplitNoComma(xs[0]);
    } else {
      SplitAfterComma(xs[0], Join(xs[1..]));
      SplitJoin(xs[1..]);
    }
  }

  lemma {:induction false} SplitNoComma(s: string)
    requires ',' !in s
    ensures Split(s) == [s]
    decreases |s|
  {
    if |s| > 0 {
      SplitNoComma(s[1..]);
      assert [s[0]] + s[1..] == s;
    }
  }

  lemma {:induction false} TrimNonEmptyPlain(xs: seq<string>)
    requires PlainAddresses(xs)
    ensures TrimNonEmpty(xs) == xs
    decreases |xs|
  {
    if |xs| > 0 {
      TrimSpaceKeepsTrimmed(xs[0]);
      TrimNonEmptyPlain(xs[1..]);
      assert xs == [xs[0]] + xs[1..];
    }
  }

  /** `TrimNonEmpty` works piece by piece: the result for a concatenation is
      the concatenation of the results. */
  lemma {:induction false} TrimNonEmptyAppend(a: seq<string>, b: seq<string>)
    ensures TrimNonEmpty(a + b) == TrimNonEmpty(a) + TrimNonEmpty(b)
    decreases |a|
  {
    if |a| == 0 {
      assert a + b == b;
    } else {
      assert (a + b)[1..] == a[1..] + b;
      TrimNonEmptyAppend(a[1..], b);
    }
  }

  /** A single piece is kept, trimmed, exactly when it is not blank. */
  lemma TrimNonEmptyOne(p: string)
    ensures TrimNonEmpty([p]) == if TrimSpace(p) == "" then [] else [TrimSpace(p)]
  {
  }

  /** Splitting at a comma splits the pieces. */
  lemma {:induction false} SplitConcat(a: string, b: string)
    ensures Split(a + "," + b) == Split(a) + Split(b)
    decreases |a|
  {
    if |a| == 0 {
      assert a + "," + b == "," + b;
      assert ("," + b)[1..] == b;
    } else {
      assert (a + "," + b)[1..] == a[1..] + "," + b;
      SplitConcat(a[1..], b);
    }
  }

  /** ALERT_EMAILS is read piece by piece: the addresses of `a,b` are those of
      `a` followed by those of `b`, whatever `a` and `b` hold. */
  lemma ParseEmailsConcat(a: string, b: string)
    ensures ParseEmails(a + "," + b) == ParseEmails(a) + ParseEmails(b)
  {
    ParseEmailsSplit(a + "," + b);
    ParseEmailsSplit(a);
    ParseEmailsSplit(b);
    SplitConcat(a, b);
    TrimNonEmptyAppend(Split(a), Split(b));
  }

  /** Every value, the empty one included, reads as its trimmed pieces. */
  lemma ParseEmailsSplit(v: string)
    ensures ParseEmails(v) == TrimNonEmpty(Split(v))
  {
    if v == "" {
      BlankPieceDropped();
    }
  }

  /** The empty value splits into one empty piece, which is dropped. */
  lemma BlankPieceDropped()
    ensures TrimNonEmpty(Split("")) == []
  {
    assert Split("") == [""];
    assert TrimLeft("") == "" && TrimRight("") == "";
    assert TrimSpace("") == "";
  }

  /** A comma-free value gives its trimmed self, or nothing when blank. */
  lemma ParseEmailsOne(v: string)
    requires ',' !in v
    ensures ParseEmails(v) == if TrimSpace(v) == "" then [] else [TrimSpace(v)]
  {
    if v != "" {
      SplitNoComma(v);
      TrimNonEmptyOne(v);
    }
  }

  /** Writing a list of plain addresses comma-separated into ALERT_EMAILS and
      loading it gives the list back. */
  lemma ParseEmailsJoin(xs: seq<string>)
    requires PlainAddresses(xs)
    ensures ParseEmails(Join(xs)) == xs
  {
    if |xs| > 0 {
      assert |Join(xs)| > 0 by {
        if |xs| > 1 {
          assert Join(xs) == xs[0] + "," + Join(xs[1..]);
        }
      }
      SplitJoin(xs);
      TrimNonEmptyPlain(xs);
    }
  }

  /** `config.Load`. */
  function Load(env: Env): (c: Cfg)
    ensures c.databaseUrl == Getenv(env, "DATABASE_URL")
    ensures c.smtpHost == Getenv(env, "SMTP_HOST")
    ensures c.smtpUser == Getenv(env, "SMTP_USERNAME")
    ensures c.smtpPass == Getenv(env, "SMTP_PASSWORD")
    ensures c.smtpFrom == Getenv(env, "SMTP_FROM")
    ensures "SMTP_PORT" !in env ==> c.smtpPort == DefaultSmtpPort
    ensures "CHECK_INTERVAL_SECONDS" !in env ==> c.checkIntervalSec == DefaultCheckIntervalSec
    ensures "TIMEOUT_MS" !in env ==> c.timeoutMs == DefaultTimeoutMs
    ensures "SLOW_MS" !in env ==> c.slowMs == DefaultSlowMs
    ensures "ALERT_EMAILS" !in env ==> c.alertEmails == []
    ensures c.alertEmails == ParseEmails(Getenv(env, "ALERT_EMAILS"))
    ensures c.smtpPort == AsInt(env, "SMTP_PORT", DefaultSmtpPort)
    ensures c.checkIntervalSec == AsInt(env, "CHECK_INTERVAL_SECONDS", DefaultCheckIntervalSec)
    ensures c.timeoutMs == AsInt(env, "TIMEOUT_MS", DefaultTimeoutMs)
    ensures c.slowMs == AsInt(env, "SLOW_MS", DefaultSlowMs)
    ensures forall k | 0 <= k < |c.alertEmails| :: c.alertEmails[k] != "" && Trimmed(c.alertEmails[k])
  {
    Cfg(
      databaseUrl := Getenv(env, "DATABASE_URL"),
      smtpHost := Getenv(env, "SMTP_HOST"),
      smtpPort := AsInt(env, "SMTP_PORT", DefaultSmtpPort),
      smtpUser := Getenv(env, "SMTP_USERNAME"),
      smtpPass := Getenv(env, "SMTP_PASSWORD"),
      smtpFrom := Getenv(env, "SMTP_FROM"),
      alertEmails := ParseEmails(Getenv(env, "ALERT_EMAILS")),
      checkIntervalSec := AsInt(env, "CHECK_INTERVAL_SECONDS", DefaultCheckIntervalSec),
      timeoutMs := AsInt(env, "TIMEOUT_MS", DefaultTimeoutMs),
      slowMs := AsInt(env, "SLOW_MS", DefaultSlowMs))
  }
}
