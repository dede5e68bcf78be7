/**
 * `fmt.Sscanf(val, "%d", &n)` as main.go uses it for `db` and `expiration`.
 * For the verb `d` Go's scanner accepts one optional sign, then at least one
 * decimal digit, stops at the first non-digit (the rest of the text is not
 * looked at), and fails when the number does not fit the target `int`
 * (64 bits here). On failure the variable is not assigned, which `None`
 * stands for.
 *
 * Go's scanner also skips leading spaces before the number, and fails on a
 * leading newline, which `Sscanf` does not treat as a space; `ScanInt` does
 * neither. Every value main.go scans has already been through
 * `strings.TrimSpace`, which removes every character the scanner would skip
 * or stop at, newlines included, so neither case can arise.
 */
module Scan {
  import opened Wrappers

  const MinInt64: int := -0x8000_0000_0000_0000
  const MaxInt64: int := 0x7FFF_FFFF_FFFF_FFFF

  predicate IsDigit(c: char) {
    '0' <= c <= '9'
  }

  predicate AllDigits(s: string) {
    forall k :: 0 <= k < |s| ==> IsDigit(s[k])
  }

  /** Length of the run of decimal digits at the start of `s`. */
  function DigitRun(s: string): (n: nat)
    ensures n <= |s|
    ensures AllDigits(s[..n])
    ensures n == |s| || !IsDigit(s[n])
  {
    if s != [] && IsDigit(s[0]) then 1 + DigitRun(s[1..]) else 0
  }

  /** The number a string of decimal digits denotes, most significant digit first. */
  function DigitsValue(ds: string): nat
    requires AllDigits(ds)
  {
    if ds == [] then 0 else DigitsValue(ds[..|ds| - 1]) * 10 + (ds[|ds| - 1] as int - '0' as int)
  }

  /** The outcome of scanning `%d` from `s`: the integer read, or `None` when the scan fails. */
  function ScanInt(s: string): (r: Option<int>)
    ensures r.Some? ==> MinInt64 <= r.value <= MaxInt64
  {
    if s != [] && (s[0] == '-' || s[0] == '+') then ScanUnsigned(s[1..], s[0] == '-')
    else ScanUnsigned(s, false)
  }

  /** The digits after the optional sign: at least one is needed, and the signed value must fit. */
  function ScanUnsigned(body: string, negative: bool): (r: Option<int>)
    ensures r.Some? ==> MinInt64 <= r.value <= MaxInt64
    ensures r.Some? ==> body != [] && IsDigit(body[0])
  {
    var n := DigitRun(body);
    if n == 0 then None
    else
      var magnitude: int := DigitsValue(body[..n]);
      var v: int := if negative then -magnitude else magnitude;
      if MinInt64 <= v <= MaxInt64 then Some(v) else None
  }

  /** Decimal rendering of a natural number, without leading zeros. */
  function FormatNat(n: nat): (s: string)
    ensures |s| >= 1 && AllDigits(s)
    ensures s[0] == '0' ==> n == 0
  {
    if n < 10 then [('0' as int + n) as char]
    else FormatNat(n / 10) + [('0' as int + n % 10) as char]
  }

  /** Decimal rendering of an integer, with a leading `-` when negative. */
  function Format(n: int): (s: string)
    ensures |s| >= 1
  {
    if n < 0 then "-" + FormatNat(-n) else FormatNat(n)
  }

  lemma {:induction false} DigitsValueFormatNat(n: nat)
    ensures DigitsValue(FormatNat(n)) == n
  {
    if n >= 10 {
      var s := FormatNat(n);
      assert s[..|s| - 1] == FormatNat(n / 10);
      DigitsValueFormatNat(n / 10);
    }
  }

  lemma {:induction false} DigitRunPrefix(a: string, t: string)
    requires AllDigits(a)
    requires t == [] || !IsDigit(t[0])
    ensures DigitRun(a + t) == |a|
  {
    if a != [] {
      assert (a + t)[1..] == a[1..] + t;
      DigitRunPrefix(a[1..], t);
    } else {
      assert a + t == t;
    }
  }

  lemma ScanUnsignedFormat(m: nat, t: string, negative: bool)
    requires t == [] || !IsDigit(t[0])
    ensures ScanUnsigned(FormatNat(m) + t, negative)
      == (var v: int := if negative then -(m as int) else m; if MinInt64 <= v <= MaxInt64 then Some(v) else None)
  {
    var f := FormatNat(m);
    DigitRunPrefix(f, t);
    assert (f + t)[..|f|] == f;
    DigitsValueFormatNat(m);
  }

  /**
   * Scanning a rendered integer gives it back whenever it fits in 64 bits,
   * also when other text that does not start with a digit follows it; a
   * number outside that range makes the scan fail.
   */
  lemma ScanFormat(n: int, t: string)
    requires t == [] || !IsDigit(t[0])
    ensures MinInt64 <= n <= MaxInt64 ==> ScanInt(Format(n) + t) == Some(n)
    ensures !(MinInt64 <= n <= MaxInt64) ==> ScanInt(Format(n) + t) == None
  {
    if n < 0 {
      ScanNegativeFormat(n, t);
    } else {
      ScanNonNegativeFormat(n, t);
    }
  }

  lemma ScanNegativeFormat(n: int, t: string)
    requires n < 0
    requires t == [] || !IsDigit(t[0])
    ensures ScanInt(Format(n) + t) == if MinInt64 <= n then Some(n) else None
  {
    var m: nat := -n;
    var f := FormatNat(m);
    var s := Format(n) + t;
    assert s == ['-'] + (f + t);
    assert s[1..] == f + t;
    assert ScanInt(s) == ScanUnsigned(f + t, true);
    ScanUnsignedFormat(m, t, true);
  }

  lemma ScanNonNegativeFormat(n: nat, t: string)
    requires t == [] || !IsDigit(t[0])
    ensures ScanInt(Format(n) + t) == if n <= MaxInt64 then Some(n) else None
  {
    var f := FormatNat(n);
    var s := Format(n) + t;
    assert s == f + t;
    assert s[0] == f[0] && IsDigit(f[0]);
    ScanUnsignedFormat(n, t, false);
  }

  /** The scan fails on text that does not start with a digit, or with a sign followed by a digit. */
  lemma ScanNeedsDigit(s: string)
    requires s == [] || (!IsDigit(s[0]) && !((s[0] == '-' || s[0] == '+') && |s| > 1 && IsDigit(s[1])))
    ensures ScanInt(s) == None
  {
    if s != [] && (s[0] == '-' || s[0] == '+') {
      assert |s| == 1 || !IsDigit(s[1..][0]);
    }
  }
}
