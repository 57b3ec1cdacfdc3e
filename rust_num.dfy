/**
 * Rust's `u64` and the two conversions the handler relies on: parsing with
 * `str::parse::<u64>()` (that is, `u64::from_str`, radix 10) and the decimal
 * text of a `u64`.
 */
module RustNum {
  import opened Wrappers

  const U64_MAX: nat := 0xFFFF_FFFF_FFFF_FFFF

  /** Rust's `u64`: 0 to 2^64 - 1. */
  newtype u64 = x: int | 0 <= x <= 0xFFFF_FFFF_FFFF_FFFF

  /** The kinds of `core::num::IntErrorKind` that parsing a `u64` can report. */
  datatype IntErrorKind = Empty | InvalidDigit | PosOverflow

  predicate IsDigit(c: char) {
    '0' <= c <= '9'
  }

  function DigitValue(c: char): (v: nat)
    requires IsDigit(c)
    ensures v < 10
  {
    c as int - '0' as int
  }

  function DigitChar(v: nat): (c: char)
    requires v < 10
    ensures IsDigit(c) && DigitValue(c) == v
  {
    (v + '0' as int) as char
  }

  predicate AllDigits(d: string) {
    forall k :: 0 <= k < |d| ==> IsDigit(d[k])
  }

  /** The number that a string of decimal digits denotes (most significant digit first). */
  function Value(d: string): nat
    requires AllDigits(d)
  {
    if d == [] then 0 else 10 * Value(d[..|d| - 1]) + DigitValue(d[|d| - 1])
  }

  /** What is left of `s` after the one optional leading `+`. */
  function Unsigned(s: string): string {
    if |s| > 0 && s[0] == '+' then s[1..] else s
  }

  /** `s` is an optional `+` followed by at least one ASCII digit. */
  predicate IsLiteral(s: string) {
    |Unsigned(s)| > 0 && AllDigits(Unsigned(s))
  }

  /**
   * `u64::from_str`: the empty string is `Empty`; a lone sign is an error;
   * one leading `+` is skipped; then the digits are consumed left to right.
   * The contract leaves open which kind a lone `+` gets: Rust releases
   * have reported it both as `Empty` and as `InvalidDigit`.
   */
  function ParseU64(s: string): (r: Result<u64, IntErrorKind>)
    ensures s == [] ==> r == Err(Empty)
    ensures r == Err(Empty) ==> s == [] || s == "+"
  {
    if s == [] then Err(Empty)
    else if |s| == 1 && (s[0] == '+' || s[0] == '-') then Err(InvalidDigit)
    else Accumulate(0, Unsigned(s))
  }

  /**
   * The digit loop of `u64::from_str`, from accumulator `acc`: a non-digit is
   * `InvalidDigit`, found before the overflow of the multiplication by ten
   * is reported; an overflow of `acc * 10` or of the addition of the digit
   * is `PosOverflow`.
   */
  function Accumulate(acc: u64, d: string): (r: Result<u64, IntErrorKind>)
    ensures r != Err(Empty)
    decreases |d|
  {
    if d == [] then Ok(acc)
    else if !IsDigit(d[0]) then Err(InvalidDigit)
    else if acc as int * 10 + DigitValue(d[0]) > U64_MAX then Err(PosOverflow)
    else Accumulate((acc as int * 10 + DigitValue(d[0])) as u64, d[1..])
  }

  /** The value of the first `p + 1` digits, from the value of the first `p`. */
  lemma ValueStep(d: string, p: nat)
    requires p < |d| && AllDigits(d[..p + 1])
    ensures AllDigits(d[..p]) && IsDigit(d[p])
    ensures Value(d[..p + 1]) == 10 * Value(d[..p]) + DigitValue(d[p])
  {
    assert d[..p + 1][..p] == d[..p];
    assert d[..p + 1][p] == d[p];
  }

  /**
   * After consuming the first `p` characters, all digits and without
   * overflow, the loop holds their value.
   */
  lemma {:induction false} AccumulatePrefix(d: string, p: nat)
    requires p <= |d| && AllDigits(d[..p]) && Value(d[..p]) <= U64_MAX
    ensures Accumulate(0, d) == Accumulate(Value(d[..p]) as u64, d[p..])
    decreases p
  {
    if p == 0 {
      assert d[0..] == d;
    } else {
      var q := p - 1;
      ValueStep(d, q);
      AccumulatePrefix(d, q);
      assert d[q..][0] == d[q];
      assert d[q..][1..] == d[p..];
    }
  }

  /** A digit string whose value overflows has a first digit at which it overflows. */
  lemma {:induction false} OverflowPoint(d: string, p: nat) returns (q: nat)
    requires p <= |d| && AllDigits(d[..p]) && Value(d[..p]) > U64_MAX
    ensures q < p && AllDigits(d[..q + 1])
    ensures Value(d[..q]) <= U64_MAX < Value(d[..q + 1])
    decreases p
  {
    assert p > 0;
    ValueStep(d, p - 1);
    if Value(d[..p - 1]) > U64_MAX {
      q := OverflowPoint(d, p - 1);
      assert d[..q + 1] == d[..p - 1][..q + 1];
    } else {
      q := p - 1;
    }
  }

  /** A string that is not all digits has a first non-digit. */
  lemma {:induction false} FirstNonDigit(d: string) returns (p: nat)
    requires !AllDigits(d)
    ensures p < |d| && !IsDigit(d[p]) && AllDigits(d[..p])
  {
    if IsDigit(d[0]) {
      var p' := FirstNonDigit(d[1..]);
      p := p' + 1;
      assert forall k :: 1 <= k < p ==> d[..p][k] == d[1..][..p'][k - 1];
    } else {
      p := 0;
    }
  }

  /**
   * The outcome of a string whose first non-digit (after the optional `+`)
   * is at `p`: `InvalidDigit` when the digits before it fit in a `u64`,
   * `PosOverflow` when they do not. Never a partial value.
   */
  lemma ParseU64BadChar(s: string, p: nat)
    requires p < |Unsigned(s)| && !IsDigit(Unsigned(s)[p]) && AllDigits(Unsigned(s)[..p])
    ensures Value(Unsigned(s)[..p]) <= U64_MAX ==> ParseU64(s) == Err(InvalidDigit)
    ensures Value(Unsigned(s)[..p]) > U64_MAX ==> ParseU64(s) == Err(PosOverflow)
  {
    var d := Unsigned(s);
    if |s| == 1 && (s[0] == '+' || s[0] == '-') {
      assert d == s && p == 0;
      assert d[..0] == [];
    } else if Value(d[..p]) <= U64_MAX {
      AccumulatePrefix(d, p);
      assert d[p..][0] == d[p];
    } else {
      var q := OverflowPoint(d, p);
      ValueStep(d, q);
      AccumulatePrefix(d, q);
      assert d[q..][0] == d[q];
    }
  }

  /**
   * `u64::from_str` succeeds exactly on an optional `+` followed by one or
   * more ASCII digits whose value is at most 2^64 - 1, and then yields that
   * value; a digit string that is too large is `PosOverflow`.
   */
  lemma ParseU64Spec(s: string)
    ensures ParseU64(s).Ok? <==> IsLiteral(s) && Value(Unsigned(s)) <= U64_MAX
    ensures ParseU64(s).Ok? ==> IsLiteral(s) && ParseU64(s).value as int == Value(Unsigned(s))
    ensures IsLiteral(s) && Value(Unsigned(s)) > U64_MAX ==> ParseU64(s) == Err(PosOverflow)
  {
    var d := Unsigned(s);
    if s == [] || (|s| == 1 && (s[0] == '+' || s[0] == '-')) {
      assert !IsLiteral(s) by {
        if s != [] && s[0] == '-' {
          assert d[0] == '-';
        }
      }
    } else if !AllDigits(d) {
      var p := FirstNonDigit(d);
      ParseU64BadChar(s, p);
    } else if Value(d) <= U64_MAX {
      assert d[..|d|] == d;
      AccumulatePrefix(d, |d|);
    } else {
      assert d[..|d|] == d;
      var q := OverflowPoint(d, |d|);
      ValueStep(d, q);
      AccumulatePrefix(d, q);
      assert d[q..][0] == d[q];
    }
  }

  /** `u64`'s `Display`: decimal digits with no sign and no leading zero. */
  function Decimal(n: nat): (d: string)
    ensures |d| > 0 && AllDigits(d) && Value(d) == n
    ensures d[0] == '0' ==> d == "0"
  {
    if n < 10 then [DigitChar(n)]
    else
      var front := Decimal(n / 10);
      var d := front + [DigitChar(n % 10)];
      assert d[..|d| - 1] == front;
      d
  }

  /** Parsing the decimal text of a `u64` gives the number back. */
  lemma ParseDecimal(n: u64)
    ensures ParseU64(Decimal(n as int)) == Ok(n)
  {
    var d := Decimal(n as int);
    assert Unsigned(d) == d;
    ParseU64Spec(d);
  }
}
