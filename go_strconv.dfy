/**
 * The parts of Go's `strconv` package that the commit-log parser relies on:
 * `strconv.ParseInt(s, 10, 64)`, and `strconv.FormatInt(v, 10)`, the decimal
 * rendering that `git log --format=%ct` produces for a commit time.
 */
module GoStrconv {
  import opened Wrappers

  const MinInt64: int := -0x8000_0000_0000_0000
  const MaxInt64: int := 0x7FFF_FFFF_FFFF_FFFF

  /** Go's `int64`. */
  newtype int64 = x: int | MinInt64 <= x <= MaxInt64

  predicate IsDigit(c: char)
  {
    '0' <= c <= '9'
  }

  /** A non-empty run of decimal digits. */
  predicate IsDigits(s: string)
  {
    s != [] && forall i | 0 <= i < |s| :: IsDigit(s[i])
  }

  /** The value of a run of decimal digits, read most significant digit first. */
  function DecimalValue(s: string): nat
    requires forall i | 0 <= i < |s| :: IsDigit(s[i])
  {
    if s == [] then 0
    else
      assert IsDigit(s[|s| - 1]);
      DecimalValue(s[..|s| - 1]) * 10 + (s[|s| - 1] as int - '0' as int)
  }

  /**
   * `strconv.ParseInt(s, 10, 64)`, with `None` for a non-nil error: an optional
   * '+' or '-' followed by at least one decimal digit (leading zeros allowed, no
   * underscores, no spaces), whose value lies in the int64 range. The syntax and
   * range errors are not told apart.
   */
  function ParseInt(s: string): (r: Option<int64>)
    ensures r.Some? ==> s != [] && (IsDigit(s[0]) || s[0] == '+' || s[0] == '-')
    ensures r.Some? ==> IsDigits(if s[0] == '+' || s[0] == '-' then s[1..] else s)
    ensures r.Some? ==> IsDigit(s[|s| - 1])
  {
    if s == [] then None
    else
      var neg := s[0] == '-';
      var digits := if s[0] == '+' || s[0] == '-' then s[1..] else s;
      if !IsDigits(digits) then None
      else
        var m: int := DecimalValue(digits);
        var v := if neg then -m else m;
        if MinInt64 <= v <= MaxInt64 then Some(v as int64) else None
  }

  /** The decimal digits of `n`, without leading zeros. */
  function FormatNat(n: nat): (s: string)
    ensures IsDigits(s)
  {
    if n < 10 then ['0' + n as char]
    else FormatNat(n / 10) + ['0' + (n % 10) as char]
  }

  /** `strconv.FormatInt(v, 10)`: a '-' for negative values, then the digits of the magnitude. */
  function FormatInt(v: int64): string
  {
    if v < 0 then ['-'] + FormatNat(-(v as int)) else FormatNat(v as int)
  }

  /** Reading back the digits of `n` gives `n`. */
  lemma {:induction false} DecimalValueFormatNat(n: nat)
    ensures DecimalValue(FormatNat(n)) == n
  {
    if n >= 10 {
      DecimalValueFormatNat(n / 10);
      var s := FormatNat(n);
      assert s[..|s| - 1] == FormatNat(n / 10);
    }
  }

  /** Parsing the decimal rendering of any int64 gives that int64 back. */
  lemma ParseFormatInt(v: int64)
    ensures ParseInt(FormatInt(v)) == Some(v)
  {
    if v < 0 {
      DecimalValueFormatNat(-(v as int));
      assert FormatInt(v)[1..] == FormatNat(-(v as int));
    } else {
      DecimalValueFormatNat(v as int);
    }
  }

  /** An explicit '+' sign is accepted and changes nothing. */
  lemma ParsePlusSign(n: nat)
    requires n <= MaxInt64
    ensures ParseInt(['+'] + FormatNat(n)) == Some(n as int64)
  {
    DecimalValueFormatNat(n);
    assert (['+'] + FormatNat(n))[1..] == FormatNat(n);
  }

  /** A magnitude beyond the int64 range is rejected, with or without a sign. */
  lemma ParseOverflow(n: nat)
    requires n > MaxInt64 + 1
    ensures ParseInt(FormatNat(n)) == None
    ensures ParseInt(['+'] + FormatNat(n)) == None
    ensures ParseInt(['-'] + FormatNat(n)) == None
  {
    DecimalValueFormatNat(n);
    assert (['+'] + FormatNat(n))[1..] == FormatNat(n);
    assert (['-'] + FormatNat(n))[1..] == FormatNat(n);
  }

  /** 2^63 itself is rejected unsigned and accepted with a minus sign: the int64 range is asymmetric. */
  lemma ParseBoundary()
    ensures ParseInt(FormatNat(MaxInt64 + 1)) == None
    ensures ParseInt(['-'] + FormatNat(MaxInt64 + 1)) == Some(MinInt64 as int64)
  {
    DecimalValueFormatNat(MaxInt64 + 1);
    assert (['-'] + FormatNat(MaxInt64 + 1))[1..] == FormatNat(MaxInt64 + 1);
  }

  /**
   * Empty text, a lone sign, a non-digit inside the digits, a doubled sign, and anything
   * followed by white space or another non-digit are errors.
   */
  lemma ParseRejects(s: string, c: char)
    requires !IsDigit(c)
    ensures ParseInt([]) == None
    ensures ParseInt(['+']) == None && ParseInt(['-']) == None
    ensures ParseInt("12a3") == None && ParseInt("+-5") == None
    ensures ParseInt(s + [c]) == None
  {
    assert !IsDigit("12a3"[2]);
    assert "+-5"[1..] == "-5" && !IsDigit("-5"[0]);
  }
}
