/** Go's fixed-width integers and the two conversions between integers and
    decimal text that the backend relies on: `strconv.Atoi` (configuration and
    query parameters) and `%d` formatting (alert texts). */
module GoInt {

  const MaxInt32: int := 0x7fff_ffff
  const MinInt32: int := -0x8000_0000
  const MaxInt64: int := 0x7fff_ffff_ffff_ffff
  const MinInt64: int := -0x8000_0000_0000_0000
  const MaxUint64: int := 0xffff_ffff_ffff_ffff
  const TwoTo32: int := 0x1_0000_0000

  predicate InInt32(x: int) { MinInt32 <= x <= MaxInt32 }

  predicate InInt64(x: int) { MinInt64 <= x <= MaxInt64 }

  /** Go's `int32(x)`: keep the low 32 bits and read them as two's complement.
      The result is the unique value in int32 range congruent to `x`. */
  function Wrap32(x: int): (r: int)
    ensures InInt32(r)
    ensures (x - r) % TwoTo32 == 0
    ensures InInt32(x) ==> r == x
  {
    var m := x % TwoTo32;
    assert x == TwoTo32 * (x / TwoTo32) + m;
    if m <= MaxInt32 then m else m - TwoTo32
  }

  predicate IsDigit(c: char) { '0' <= c <= '9' }

  predicate AllDigits(s: string) { forall i | 0 <= i < |s| :: IsDigit(s[i]) }

  function DigitValue(c: char): (d: int)
    requires IsDigit(c)
    ensures 0 <= d <= 9
  {
    c as int - '0' as int
  }

  function DigitChar(d: int): (c: char)
    requires 0 <= d <= 9
    ensures IsDigit(c) && DigitValue(c) == d
  {
    ('0' as int + d) as char
  }

  /** Decimal digits of a natural number, most significant first, no leading zero. */
  function FormatNat(n: nat): (s: string)
    ensures |s| > 0 && AllDigits(s)
    ensures s[0] == '0' ==> n == 0
    decreases n
  {
    if n < 10 then [DigitChar(n)] else FormatNat(n / 10) + [DigitChar(n % 10)]
  }


  /** Left-to-right decimal value of a digit string, starting from `acc`. */
  function Accumulate(acc: int, ds: string): int
    requires AllDigits(ds)
    decreases |ds|
  {
    if |ds| == 0 then acc else Accumulate(acc * 10 + DigitValue(ds[0]), ds[1..])
  }

  /** A numeral in the sense of `strconv.Atoi`: optional sign, then at least one digit. */
  predicate IsNumeral(s: string) {
    if |s| > 0 && (s[0] == '+' || s[0] == '-') then |s| > 1 && AllDigits(s[1..])
    else |s| > 0 && AllDigits(s)
  }

  /** The digits of a numeral, without its sign. */
  function NumeralDigits(s: string): (ds: string)
    requires IsNumeral(s)
    ensures |ds| > 0 && AllDigits(ds)
  {
    if s[0] == '+' || s[0] == '-' then s[1..] else s
  }

  /** The mathematical value a numeral denotes, of any size. */
  function NumeralValue(s: string): int
    requires IsNumeral(s)
  {
    if s[0] == '-' then -Accumulate(0, NumeralDigits(s)) else Accumulate(0, NumeralDigits(s))
  }

  /** Go's `%d` / `strconv.Itoa`: a minus sign for negatives, then the digits.
      The result is a numeral denoting `n`, in canonical form. */
  function FormatInt(n: int): (s: string)
    ensures IsNumeral(s) && NumeralValue(s) == n
    ensures s[0] == '-' <==> n < 0
    ensures s[0] != '+' && (NumeralDigits(s)[0] == '0' ==> n == 0)
  {
    var m: nat := if n < 0 then -n else n;
    AccumulateFormatNat(m);
    if n < 0 then
      var s := "-" + FormatNat(m);
      assert s[1..] == FormatNat(m);
      s
    else FormatNat(m)
  }

  /** `Atoi` meets no digit before it fails: after the optional sign there is
      nothing, or a character that is not a digit. */
  predicate NoLeadingDigit(s: string) {
    var ds := if |s| > 0 && (s[0] == '+' || s[0] == '-') then s[1..] else s;
    |ds| == 0 || !IsDigit(ds[0])
  }

  datatype NumError = NoError | ErrSyntax | ErrRange

  /** What `strconv` hands back: a value and an error. On error the value is
      still meaningful (0 for a syntax error, the clamped bound for a range error),
      which matters where the caller discards the error. */
  datatype Parsed = Parsed(value: int, err: NumError)

  /** The digit loop of `strconv.ParseUint` for base 10: a non-digit is a syntax
      error, and the first digit that would take the value past 2^64-1 stops the
      scan with a range error, even if a non-digit follows later. */
  function ScanUint(ds: string, acc: nat): (r: Parsed)
    requires acc <= MaxUint64
    ensures 0 <= r.value <= MaxUint64
    ensures r.err == ErrRange ==> r.value == MaxUint64
    ensures r.err == ErrSyntax ==> r.value == 0 && !AllDigits(ds)
    ensures r.err == NoError ==> AllDigits(ds) && r.value == Accumulate(acc, ds)
    decreases |ds|
  {
    if |ds| == 0 then Parsed(acc, NoError)
    else if !IsDigit(ds[0]) then Parsed(0, ErrSyntax)
    else
      var n := acc * 10 + DigitValue(ds[0]);
      if n > MaxUint64 then Parsed(MaxUint64, ErrRange)
      else ScanUint(ds[1..], n)
  }

  /** Go's `strconv.Atoi` on a 64-bit platform. The short-string fast path of the
      library accepts and rejects exactly the same strings as this general path
      and cannot overflow, so one definition covers both. */
  function Atoi(s: string): (r: Parsed)
    ensures r.err == NoError ==> InInt64(r.value) && IsNumeral(s) && r.value == NumeralValue(s)
    ensures r.err == ErrSyntax ==> r.value == 0
    ensures r.err == ErrRange ==> r.value == MaxInt64 || r.value == MinInt64
    ensures IsNumeral(s) ==> r.err != ErrSyntax
    // a numeral is read as the value it denotes, or clamped with a range error
    ensures IsNumeral(s) && InInt64(NumeralValue(s)) ==> r == Parsed(NumeralValue(s), NoError)
    ensures IsNumeral(s) && NumeralValue(s) > MaxInt64 ==> r == Parsed(MaxInt64, ErrRange)
    ensures IsNumeral(s) && NumeralValue(s) < MinInt64 ==> r == Parsed(MinInt64, ErrRange)
    // text that does not start with a digit (after the sign) reads as 0
    ensures NoLeadingDigit(s) ==> r == Parsed(0, ErrSyntax)
  {
    if |s| == 0 then Parsed(0, ErrSyntax)
    else
      var neg := s[0] == '-';
      var digits := if s[0] == '+' || s[0] == '-' then s[1..] else s;
      var u := if |digits| == 0 then Parsed(0, ErrSyntax) else ScanUint(digits, 0);
      ScanUintValue(digits);
      if u.err == ErrSyntax then Parsed(0, ErrSyntax)
      else if !neg && u.value > MaxInt64 then Parsed(MaxInt64, ErrRange)
      else if neg && u.value > -MinInt64 then Parsed(MinInt64, ErrRange)
      else Parsed(if neg then -u.value else u.value, u.err)
  }

  lemma {:induction false} AccumulateSnoc(acc: int, ds: string, c: char)
    requires AllDigits(ds) && IsDigit(c)
    ensures AllDigits(ds + [c])
    ensures Accumulate(acc, ds + [c]) == Accumulate(acc, ds) * 10 + DigitValue(c)
    decreases |ds|
  {
    if |ds| == 0 {
      assert ds + [c] == [c];
    } else {
      assert (ds + [c])[1..] == ds[1..] + [c];
      AccumulateSnoc(acc * 10 + DigitValue(ds[0]), ds[1..], c);
    }
  }

  lemma {:induction false} AccumulateFormatNat(n: nat)
    ensures Accumulate(0, FormatNat(n)) == n
    decreases n
  {
    if n >= 10 {
      AccumulateFormatNat(n / 10);
      AccumulateSnoc(0, FormatNat(n / 10), DigitChar(n % 10));
    }
  }

  lemma {:induction false} AccumulateGrows(acc: nat, ds: string)
    requires AllDigits(ds)
    ensures acc <= Accumulate(acc, ds)
    decreases |ds|
  {
    if |ds| > 0 {
      AccumulateGrows(acc * 10 + DigitValue(ds[0]), ds[1..]);
    }
  }

  /** A digit string whose value fits in 64 bits scans without error to that value. */
  lemma {:induction false} ScanUintFits(ds: string, acc: nat)
    requires AllDigits(ds) && acc <= MaxUint64
    requires Accumulate(acc, ds) <= MaxUint64
    ensures ScanUint(ds, acc) == Parsed(Accumulate(acc, ds), NoError)
    decreases |ds|
  {
    if |ds| > 0 {
      var n := acc * 10 + DigitValue(ds[0]);
      AccumulateGrows(n, ds[1..]);
      ScanUintFits(ds[1..], n);
    }
  }

  /** Formatting with `%d` and parsing back with `Atoi` is the identity on the
      64-bit range. */
  lemma AtoiFormatInt(n: int)
    requires InInt64(n)
    ensures Atoi(FormatInt(n)) == Parsed(n, NoError)
  {
  }

  /** Spellings other than `%d`'s: a plus sign, leading zeros, a negative zero. */
  lemma AtoiSpellings()
    ensures Atoi("+5") == Parsed(5, NoError)
    ensures Atoi("007") == Parsed(7, NoError)
    ensures Atoi("-0") == Parsed(0, NoError)
  {
    assert NumeralDigits("+5") == "5";
    assert NumeralDigits("-0") == "0";
  }

  /** Scanning a non-empty digit string from 0 gives its value when that fits
      in 64 bits, and a range error otherwise. */
  lemma ScanUintValue(ds: string)
    ensures |ds| > 0 && AllDigits(ds) ==>
      && 0 <= Accumulate(0, ds)
      && (Accumulate(0, ds) <= MaxUint64 ==> ScanUint(ds, 0) == Parsed(Accumulate(0, ds), NoError))
      && (Accumulate(0, ds) > MaxUint64 ==> ScanUint(ds, 0) == Parsed(MaxUint64, ErrRange))
  {
    if |ds| > 0 && AllDigits(ds) {
      AccumulateGrows(0, ds);
      if Accumulate(0, ds) <= MaxUint64 {
        ScanUintFits(ds, 0);
      } else {
        ScanUintOverflow(ds, [], 0);
        assert ds + [] == ds;
      }
    }
  }

  lemma {:induction false} ScanUintOverflow(ds: string, rest: string, acc: nat)
    requires AllDigits(ds) && acc <= MaxUint64
    requires Accumulate(acc, ds) > MaxUint64
    ensures ScanUint(ds + rest, acc) == Parsed(MaxUint64, ErrRange)
    decreases |ds|
  {
    var n := acc * 10 + DigitValue(ds[0]);
    if n <= MaxUint64 {
      assert (ds + rest)[1..] == ds[1..] + rest;
      ScanUintOverflow(ds[1..], rest, n);
    }
  }

  /** Go quirk: a digit run that overflows 64 bits, after an optional sign
      and followed by anything at all (garbage included), is a range error
      rather than a syntax error, and the value Atoi hands back is the bound on
      the sign's side. */
  lemma AtoiOverflowBeforeGarbage(sign: string, ds: string, rest: string)
    requires sign == "" || sign == "+" || sign == "-"
    requires AllDigits(ds) && Accumulate(0, ds) > MaxUint64
    ensures Atoi(sign + ds + rest) == Parsed(if sign == "-" then MinInt64 else MaxInt64, ErrRange)
  {
    ScanUintOverflow(ds, rest, 0);
    if sign == "" {
      assert sign + ds + rest == ds + rest;
      UnsignedOverflow(ds + rest);
    } else {
      assert (sign + ds + rest)[1..] == ds + rest;
      SignedOverflow(sign + ds + rest);
    }
  }

  lemma UnsignedOverflow(s: string)
    requires |s| > 0 && IsDigit(s[0])
    requires ScanUint(s, 0) == Parsed(MaxUint64, ErrRange)
    ensures Atoi(s) == Parsed(MaxInt64, ErrRange)
  {
  }

  lemma SignedOverflow(s: string)
    requires |s| > 1 && (s[0] == '+' || s[0] == '-')
    requires ScanUint(s[1..], 0) == Parsed(MaxUint64, ErrRange)
    ensures Atoi(s) == Parsed(if s[0] == '-' then MinInt64 else MaxInt64, ErrRange)
  {
  }


  /** A digit run that fits in 64 bits, followed by a non-digit, scans to a
      syntax error. */
  lemma {:induction false} ScanUintSyntax(ds: string, rest: string, acc: nat)
    requires AllDigits(ds) && acc <= MaxUint64
    requires Accumulate(acc, ds) <= MaxUint64
    requires |rest| > 0 && !IsDigit(rest[0])
    ensures ScanUint(ds + rest, acc) == Parsed(0, ErrSyntax)
    decreases |ds|
  {
    if |ds| == 0 {
      assert ds + rest == rest;
    } else {
      var n := acc * 10 + DigitValue(ds[0]);
      AccumulateGrows(n, ds[1..]);
      assert (ds + rest)[1..] == ds[1..] + rest;
      ScanUintSyntax(ds[1..], rest, n);
    }
  }

  /** The other side of the quirk: when the digits before the garbage fit in
      64 bits, the error is a syntax error and the value is 0. Together with
      `AtoiOverflowBeforeGarbage` (signed or not) this fixes `Atoi` on every
      non-numeral. */
  lemma AtoiGarbageAfterDigits(sign: string, ds: string, rest: string)
    requires sign == "" || sign == "+" || sign == "-"
    requires sign != "" || |ds| > 0
    requires AllDigits(ds) && Accumulate(0, ds) <= MaxUint64
    requires |rest| > 0 && !IsDigit(rest[0])
    ensures Atoi(sign + ds + rest) == Parsed(0, ErrSyntax)
  {
    AccumulateGrows(0, ds);
    ScanUintSyntax(ds, rest, 0);
    var s := sign + ds + rest;
    if sign == "" {
      assert s == ds + rest && s[0] == ds[0];
    } else {
      assert s[1..] == ds + rest;
    }
  }
}
