/**
 * Decimal number text as Go's `strconv` reads it, on unbounded integers with the
 * 64-bit limits written out where the source depends on them.
 */
module Numeric {
  import opened Wrappers

  const MinInt64: int := -0x8000_0000_0000_0000
  const MaxInt64: int := 0x7fff_ffff_ffff_ffff
  const TwoTo64: int := 0x1_0000_0000_0000_0000

  predicate IsDigit(ch: char) {
    '0' <= ch <= '9'
  }

  predicate AllDigits(s: string) {
    forall i :: 0 <= i < |s| ==> IsDigit(s[i])
  }

  function DigitValue(ch: char): nat
    requires IsDigit(ch)
  {
    (ch as int - '0' as int) as nat
  }

  /** The number a non-empty run of decimal digits denotes, most significant first. */
  function DigitsValue(s: string): nat
    requires AllDigits(s)
  {
    if |s| == 0 then 0 else DigitsValue(s[..|s| - 1]) * 10 + DigitValue(s[|s| - 1])
  }

  /** Decimal text of `n` without leading zeros (Go `strconv.Itoa` on a non-negative int). */
  function NatToString(n: nat): (s: string)
    ensures |s| > 0 && AllDigits(s)
  {
    if n < 10 then [('0' as int + n) as char]
    else NatToString(n / 10) + [('0' as int + n % 10) as char]
  }

  /** Reading back the decimal text of `n` gives `n`. */
  lemma {:induction false} NatToStringRoundTrip(n: nat)
    ensures DigitsValue(NatToString(n)) == n
  {
    if n >= 10 {
      NatToStringRoundTrip(n / 10);
      var t := NatToString(n / 10);
      var s := NatToString(n);
      assert s[..|s| - 1] == t;
    }
  }

  /** Decimal text of any integer, with a leading `-` for a negative one (Go `%d`). */
  function IntToString(i: int): string {
    if i < 0 then "-" + NatToString(-i) else NatToString(i)
  }

  /** `s` without the one leading `+` or `-` that `strconv.ParseInt` takes off. */
  function Unsigned(s: string): (r: string)
    ensures |s| > 0 && (s[0] == '+' || s[0] == '-') ==> r == s[1..]
    ensures !(|s| > 0 && (s[0] == '+' || s[0] == '-')) ==> r == s
  {
    if |s| > 0 && (s[0] == '+' || s[0] == '-') then s[1..] else s
  }

  /** An optional `+`/`-` sign followed by at least one digit, as an unbounded integer. */
  function ParseInteger(s: string): (r: Option<int>)
    ensures AllDigits(s) && |s| > 0 ==> r == Some(DigitsValue(s))
    ensures r.Some? <==> |Unsigned(s)| > 0 && AllDigits(Unsigned(s))
    ensures r.Some? ==> r.value == if s[0] == '-' then -(DigitsValue(Unsigned(s)) as int) else DigitsValue(Unsigned(s))
  {
    if |s| > 0 && (s[0] == '+' || s[0] == '-') then
      var body := s[1..];
      if |body| > 0 && AllDigits(body) then
        Some(if s[0] == '-' then -(DigitsValue(body) as int) else DigitsValue(body))
      else None
    else if |s| > 0 && AllDigits(s) then Some(DigitsValue(s))
    else None
  }

  const MaxUint64: int := 0xffff_ffff_ffff_ffff

  /** The longest run of digits `s` opens with. */
  function LeadingDigits(s: string): (r: string)
    ensures r <= s && AllDigits(r)
    ensures |r| < |s| ==> !IsDigit(s[|r|])
    decreases |s|
  {
    if |s| > 0 && IsDigit(s[0]) then [s[0]] + LeadingDigits(s[1..]) else []
  }

  /**
   * Whether `strconv.Atoi` rejects `s` with `ErrRange`: either the whole text is a signed
   * decimal outside int64, or its leading digits already exceed uint64 before any
   * character `strconv.ParseUint` would reject, so the overflow is reported first.
   */
  predicate OutOfRange(s: string) {
    (ParseInteger(s).Some? && !(MinInt64 <= ParseInteger(s).value <= MaxInt64))
    || DigitsValue(LeadingDigits(Unsigned(s))) > MaxUint64
  }

  /** The int64 bound an out-of-range text is clamped to: the lower one after a `-`. */
  function ClampBound(s: string): int {
    if |s| > 0 && s[0] == '-' then MinInt64 else MaxInt64
  }

  /** What Go's `strconv.Atoi` hands back: the value, and whether `err` was nil. */
  datatype Atoi = Atoi(value: int, ok: bool)

  /**
   * Go `strconv.Atoi` on a 64-bit platform: an out-of-range text is clamped to the int64
   * bound of its sign, any other rejected text gives 0, and both come with a non-nil error.
   */
  function ParseAtoi(s: string): (r: Atoi)
    ensures MinInt64 <= r.value <= MaxInt64
    ensures r.ok <==> ParseInteger(s).Some? && MinInt64 <= ParseInteger(s).value <= MaxInt64
    ensures r.ok ==> r.value == ParseInteger(s).value
    ensures OutOfRange(s) ==> !r.ok && r.value == ClampBound(s)
    ensures !r.ok && !OutOfRange(s) ==> r.value == 0
  {
    match ParseInteger(s)
    case None =>
      if DigitsValue(LeadingDigits(Unsigned(s))) > MaxUint64 then Atoi(ClampBound(s), false)
      else Atoi(0, false)
    case Some(v) =>
      LeadingDigitsOf(Unsigned(s), []);
      assert Unsigned(s) + [] == Unsigned(s);
      if v < MinInt64 then Atoi(MinInt64, false)
      else if v > MaxInt64 then Atoi(MaxInt64, false)
      else Atoi(v, true)
  }

  /** Digits followed by a non-digit, or by nothing, open with exactly those digits. */
  lemma {:induction false} LeadingDigitsOf(d: string, t: string)
    requires AllDigits(d) && (|t| == 0 || !IsDigit(t[0]))
    ensures LeadingDigits(d + t) == d
    decreases |d|
  {
    if |d| > 0 {
      assert (d + t)[1..] == d[1..] + t;
      LeadingDigitsOf(d[1..], t);
    } else {
      assert d + t == t;
    }
  }

  /**
   * Digits past uint64 are out of range whatever follows them: `strconv.ParseUint` stops
   * at the overflowing digit, so a later character it would reject is never reached.
   */
  lemma AtoiOverflowFirst(sign: string, d: string, t: string)
    requires sign == "" || sign == "+" || sign == "-"
    requires AllDigits(d) && DigitsValue(d) > MaxUint64 && (|t| == 0 || !IsDigit(t[0]))
    ensures ParseAtoi(sign + d + t) == Atoi(if sign == "-" then MinInt64 else MaxInt64, false)
  {
    var s := sign + d + t;
    SignedParts(sign, d, t);
    LeadingDigitsOf(d, t);
    assert OutOfRange(s);
  }

  /** Taking the sign off `sign + d + t` leaves `d + t`, and the sign decides the bound. */
  lemma SignedParts(sign: string, d: string, t: string)
    requires sign == "" || sign == "+" || sign == "-"
    requires AllDigits(d) && |d| > 0
    ensures Unsigned(sign + d + t) == d + t
    ensures ClampBound(sign + d + t) == if sign == "-" then MinInt64 else MaxInt64
  {
    var s := sign + d + t;
    if sign == "" {
      assert s == d + t;
      assert s[0] == d[0];
    } else {
      assert s[0] == sign[0];
      assert s[1..] == d + t;
    }
  }

  /** An empty text is a syntax error, read as 0. */
  lemma AtoiEmpty()
    ensures ParseAtoi("") == Atoi(0, false)
  {
    assert LeadingDigits(Unsigned("")) == "";
  }

  /** `n` nines. */
  function Nines(n: nat): (r: string)
    ensures |r| == n && forall i :: 0 <= i < n ==> r[i] == '9'
  {
    if n == 0 then [] else Nines(n - 1) + ['9']
  }

  function Pow10(n: nat): nat {
    if n == 0 then 1 else 10 * Pow10(n - 1)
  }

  /** `n` nines denote 10^n - 1. */
  lemma {:induction false} NinesValue(n: nat)
    ensures DigitsValue(Nines(n)) + 1 == Pow10(n)
  {
    if n > 0 {
      NinesValue(n - 1);
      assert Nines(n)[..n - 1] == Nines(n - 1);
    }
  }

  /** Twenty nines already exceed uint64. */
  lemma TwentyNines()
    ensures DigitsValue("99999999999999999999") > MaxUint64
  {
    NinesValue(20);
    assert Pow10(5) == 100_000;
    assert Pow10(10) == 10_000_000_000;
    assert Pow10(15) == 1_000_000_000_000_000;
    assert Pow10(20) == 100_000_000_000_000_000_000;
    assert Nines(20) == "99999999999999999999";
  }

  /** An overlong digit run before a letter is clamped to MaxInt64, not read as 0. */
  lemma AtoiOverflowExample()
    ensures ParseAtoi("99999999999999999999x") == Atoi(MaxInt64, false)
  {
    TwentyNines();
    AtoiOverflowFirst("", "99999999999999999999", "x");
    assert "" + "99999999999999999999" + "x" == "99999999999999999999x";
  }

  /** With a `-` the same text is clamped to MinInt64. */
  lemma AtoiNegativeOverflowExample()
    ensures ParseAtoi("-99999999999999999999x") == Atoi(MinInt64, false)
  {
    var nines := "99999999999999999999";
    TwentyNines();
    assert "-" + nines + "x" == "-99999999999999999999x";
    AtoiOverflowFirst("-", nines, "x");
  }

  /** A short digit run before a letter is a syntax error, read as 0. */
  lemma AtoiSyntaxExample()
    ensures ParseAtoi("12x") == Atoi(0, false)
  {
    var s := "12x";
    assert !IsDigit(s[2]);
    assert Unsigned(s) == s;
    assert LeadingDigits(s) == "12";
    assert "12"[..1] == "1";
    assert DigitsValue("12") == 12;
  }

  /** `x` with a Go int's 64-bit two's-complement wrap-around. */
  function Wrap64(x: int): (r: int)
    ensures MinInt64 <= r <= MaxInt64
    decreases if x > MaxInt64 then x - MaxInt64 else if x < MinInt64 then MinInt64 - x else 0
  {
    if x > MaxInt64 then Wrap64(x - TwoTo64)
    else if x < MinInt64 then Wrap64(x + TwoTo64)
    else x
  }

  /** Wrapping changes a value by a multiple of 2^64. */
  lemma {:induction false} Wrap64Mod(x: int)
    ensures (Wrap64(x) - x) % TwoTo64 == 0
    decreases if x > MaxInt64 then x - MaxInt64 else if x < MinInt64 then MinInt64 - x else 0
  {
    if x > MaxInt64 {
      Wrap64Mod(x - TwoTo64);
      ModShift(Wrap64(x) - x, -1);
    } else if x < MinInt64 {
      Wrap64Mod(x + TwoTo64);
      ModShift(Wrap64(x) - x, 1);
    }
  }

  /** A multiple of 2^64 smaller than 2^64 in size is zero. */
  lemma SmallMultiple(d: int)
    requires d % TwoTo64 == 0 && -TwoTo64 < d < TwoTo64
    ensures d == 0
  {
    var k := d / TwoTo64;
    assert d == k * TwoTo64;
  }

  /** Two values that agree modulo 2^64 wrap to the same int64. */
  lemma Wrap64Congruent(x: int, y: int)
    requires (x - y) % TwoTo64 == 0
    ensures Wrap64(x) == Wrap64(y)
  {
    var a, b := Wrap64(x), Wrap64(y);
    Wrap64Mod(x);
    Wrap64Mod(y);
    var d := a - b;
    assert d == (a - x) + (x - y) - (b - y);
    ModSum(a - x, x - y, b - y);
    SmallMultiple(d);
  }

  lemma ModSum(p: int, q: int, r: int)
    requires p % TwoTo64 == 0 && q % TwoTo64 == 0 && r % TwoTo64 == 0
    ensures (p + q - r) % TwoTo64 == 0
  {
    var i, j, k := p / TwoTo64, q / TwoTo64, r / TwoTo64;
    assert p + q - r == (i + j - k) * TwoTo64;
  }

  lemma ModShift(a: int, k: int)
    ensures (a + k * TwoTo64) % TwoTo64 == a % TwoTo64
  {
  }

  /** Adding in int64 step by step is adding exactly and wrapping once at the end. */
  lemma Wrap64Add(x: int, y: int)
    ensures Wrap64(Wrap64(x) + y) == Wrap64(x + y)
  {
    Wrap64Mod(x);
    assert (Wrap64(x) + y) - (x + y) == Wrap64(x) - x;
    Wrap64Congruent(Wrap64(x) + y, x + y);
  }

  /** An int64 value is left as it is. */
  lemma Wrap64InRange(x: int)
    requires MinInt64 <= x <= MaxInt64
    ensures Wrap64(x) == x
  {
  }
}
