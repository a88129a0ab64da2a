/**
 Base-10 integer text as Go's `strconv` package reads and writes it for 64-bit
 signed integers: `strconv.FormatInt(n, 10)` and `strconv.ParseInt(s, 10, 64)`.
 The converter discards ParseInt's error, so ParseInt is modelled as the total
 function returning whatever value Go returns alongside the error: 0 for a
 syntax error, the nearest bound for an out-of-range number.
 */
module GoNumbers {
  import opened GoText

  const MaxInt64: int := 0x7FFF_FFFF_FFFF_FFFF
  const MinInt64: int := -0x8000_0000_0000_0000
  const MaxUint64: int := 0xFFFF_FFFF_FFFF_FFFF

  type int64 = x: int | MinInt64 <= x <= MaxInt64

  predicate IsDigit(c: char)
  {
    '0' <= c <= '9'
  }

  predicate AllDigits(s: string)
  {
    forall k :: 0 <= k < |s| ==> IsDigit(s[k])
  }

  function DigitChar(d: nat): (c: char)
    requires d < 10
    ensures IsDigit(c)
  {
    ('0' as int + d) as char
  }

  function DigitValue(c: char): (d: nat)
    requires IsDigit(c)
    ensures d < 10 && DigitChar(d) == c
  {
    c as int - '0' as int
  }

  /** Decimal numeral of a natural number, most significant digit first, with
      no leading zero except for the numeral "0" itself. */
  function FormatNat(n: nat): (r: string)
    ensures |r| > 0 && AllDigits(r)
    ensures r[0] == '0' ==> n == 0 && r == "0"
  {
    if n < 10 then [DigitChar(n)] else FormatNat(n / 10) + [DigitChar(n % 10)]
  }

  /** `strconv.FormatInt(n, 10)`: an optional minus sign followed by decimal
      digits. There is never a decimal point, a plus sign or a digit separator,
      and the sign is present exactly for negative numbers. */
  function FormatInt(n: int): (r: string)
    ensures |r| > 0
    ensures r[0] == '-' <==> n < 0
    ensures forall k :: 0 <= k < |r| ==> IsDigit(r[k]) || (k == 0 && r[k] == '-')
  {
    if n < 0 then "-" + FormatNat(-n) else FormatNat(n)
  }

  /** The numeral is canonical: after the sign, if any, comes a first digit
      that is '0' only in the numeral "0" itself. Together with the value of
      the digits (`FormatIntValue`) this fixes the text exactly, for every
      integer, the int64 bounds included. */
  lemma FormatIntCanonical(n: int)
    ensures var r := FormatInt(n); var d := if n < 0 then 1 else 0;
      d < |r| && (r[d] == '0' ==> r == "0")
  {
    if n < 0 {
      var m := FormatNat(-n);
      assert FormatInt(n)[1] == m[0];
    }
  }

  /** The digits after the sign, if any, spell the magnitude of `n`. Unlike
      reading back with `ParseInt`, which clamps to the int64 range, this also
      tells the numerals of the int64 bounds apart from longer ones. */
  lemma FormatIntValue(n: int)
    ensures var d := if n < 0 then 1 else 0; var r := FormatInt(n);
      d < |r| && AllDigits(r[d..]) && DigitsValue(r[d..]) == (if n < 0 then -n else n)
  {
    if n < 0 {
      assert FormatInt(n)[1..] == FormatNat(-n);
      DigitsValueFormatNat(-n);
    } else {
      assert FormatInt(n)[0..] == FormatNat(n);
      DigitsValueFormatNat(n);
    }
  }

  /** Integer text never holds a decimal point. */
  lemma FormatIntNoDot(n: int)
    ensures '.' !in FormatInt(n)
  {
    var r := FormatInt(n);
    assert forall k :: 0 <= k < |r| ==> r[k] != '.';
  }

  /** Integer text has no white space, so trimming a formatted integer is a no-op. */
  lemma FormatIntTrimmed(n: int)
    ensures Trimmed(FormatInt(n))
    ensures TrimSpace(FormatInt(n)) == FormatInt(n)
  {
    var r := FormatInt(n);
    assert !IsSpace(r[0]) && !IsSpace(r[|r| - 1]);
    TrimSpaceFixedPoints(r);
  }

  /** Value of a digit string read left to right, starting from `acc`. */
  function DigitsFrom(s: string, acc: nat): nat
    requires AllDigits(s)
  {
    if s == [] then acc else DigitsFrom(s[1..], acc * 10 + DigitValue(s[0]))
  }

  function DigitsValue(s: string): nat
    requires AllDigits(s)
  {
    DigitsFrom(s, 0)
  }

  lemma {:induction false} DigitsFromAppend(a: string, b: string, acc: nat)
    requires AllDigits(a) && AllDigits(b)
    ensures AllDigits(a + b)
    ensures DigitsFrom(a + b, acc) == DigitsFrom(b, DigitsFrom(a, acc))
    decreases |a|
  {
    assert AllDigits(a + b) by {
      forall k | 0 <= k < |a + b| ensures IsDigit((a + b)[k]) {
        if k < |a| { assert (a + b)[k] == a[k]; } else { assert (a + b)[k] == b[k - |a|]; }
      }
    }
    if a == [] {
      assert a + b == b;
    } else {
      assert (a + b)[1..] == a[1..] + b;
      DigitsFromAppend(a[1..], b, acc * 10 + DigitValue(a[0]));
    }
  }

  lemma {:induction false} DigitsFromAtLeast(s: string, acc: nat)
    requires AllDigits(s)
    ensures DigitsFrom(s, acc) >= acc
    decreases |s|
  {
    if s != [] {
      DigitsFromAtLeast(s[1..], acc * 10 + DigitValue(s[0]));
    }
  }

  /** Reading a formatted natural number gives it back. */
  lemma {:induction false} DigitsValueFormatNat(n: nat)
    ensures DigitsValue(FormatNat(n)) == n
  {
    var last := [DigitChar(n % 10)];
    assert DigitsFrom(last, n / 10) == n by {
      assert last[1..] == [];
    }
    if n < 10 {
      assert FormatNat(n) == last;
    } else {
      DigitsValueFormatNat(n / 10);
      DigitsFromAppend(FormatNat(n / 10), last, 0);
    }
  }

  /** Outcome of Go's `strconv.ParseUint` digit loop. */
  datatype ScanResult = SyntaxError | RangeError | Parsed(value: nat)

  /** The digit loop of `strconv.ParseUint(s, 10, 64)` continuing from the
      value `acc` read so far: it stops at the first character that is not a
      decimal digit (syntax error) or at the first digit that takes the value
      past the largest uint64 (range error), whichever comes first. */
  function ScanUint(s: string, acc: nat): ScanResult
    requires acc <= MaxUint64
  {
    if s == [] then Parsed(acc)
    else if !IsDigit(s[0]) then SyntaxError
    else if acc * 10 + DigitValue(s[0]) > MaxUint64 then RangeError
    else ScanUint(s[1..], acc * 10 + DigitValue(s[0]))
  }

  /** On a digit string the loop fails only by overflow, and otherwise yields
      the numeral's value. */
  lemma {:induction false} ScanDigits(s: string, acc: nat)
    requires acc <= MaxUint64 && AllDigits(s)
    ensures ScanUint(s, acc) == if DigitsFrom(s, acc) <= MaxUint64 then Parsed(DigitsFrom(s, acc)) else RangeError
    decreases |s|
  {
    if s != [] {
      var v := acc * 10 + DigitValue(s[0]);
      DigitsFromAtLeast(s[1..], v);
      if v <= MaxUint64 {
        ScanDigits(s[1..], v);
      }
    }
  }

  /** Once the digits read so far overflow, the loop reports a range error,
      whatever follows them: a later non-digit is never reached. */
  lemma {:induction false} OverflowFirst(a: string, b: string, acc: nat)
    requires acc <= MaxUint64 && AllDigits(a) && DigitsFrom(a, acc) > MaxUint64
    ensures ScanUint(a + b, acc) == RangeError
    decreases |a|
  {
    assert a != [];
    assert (a + b)[0] == a[0];
    var v := acc * 10 + DigitValue(a[0]);
    if v <= MaxUint64 {
      assert (a + b)[1..] == a[1..] + b;
      OverflowFirst(a[1..], b, v);
    }
  }

  /** `strconv.ParseUint(s, 10, 64)`, error kind included. */
  function ParseUint(s: string): ScanResult
  {
    if s == [] then SyntaxError else ScanUint(s, 0)
  }

  /** `strconv.ParseInt(s, 10, 64)` with its error discarded: the value Go
      returns. An optional sign is read first; a syntax error yields 0 and an
      out-of-range magnitude yields the nearest int64 bound. A result other
      than 0 always comes from a string that holds a digit. */
  function ParseInt(s: string): (n: int64)
    ensures n != 0 ==> exists k :: 0 <= k < |s| && IsDigit(s[k])
  {
    if s == [] then 0
    else
      var neg := s[0] == '-';
      var body := if s[0] == '+' || s[0] == '-' then s[1..] else s;
      match ParseUint(body)
      case SyntaxError => 0
      case RangeError => if neg then MinInt64 else MaxInt64
      case Parsed(u) =>
        assert body[0] in s;
        if !neg && u > MaxInt64 then MaxInt64
        else if neg && u > -MinInt64 then MinInt64
        else if neg then -(u as int)
        else u
  }

  /** A bound whose leading digits already exceed the largest uint64 reads as
      the nearest int64 bound, even when a non-digit follows: the overflow is
      reported first, and the discarded range error comes with the bound. */
  lemma OverflowReadsBound(a: string, b: string)
    requires AllDigits(a) && DigitsValue(a) > MaxUint64
    ensures ParseInt(a + b) == MaxInt64
    ensures ParseInt("-" + a + b) == MinInt64
  {
    OverflowFirst(a, b, 0);
    assert a != [] && (a + b)[0] == a[0];
    assert ("-" + a + b)[1..] == a + b;
  }

  function Pow10(n: nat): (p: nat)
    ensures p >= 1
  {
    if n == 0 then 1 else 10 * Pow10(n - 1)
  }

  /** The text ParseInt hands to the digit loop: `s` without its one optional
      leading sign. */
  function Unsigned(s: string): string
  {
    if |s| > 0 && (s[0] == '+' || s[0] == '-') then s[1..] else s
  }

  /** The digit loop reaches a non-digit before it can overflow when the value
      read so far, followed by as many nines as there are characters left,
      still fits in a uint64: it then reports a syntax error. */
  lemma {:induction false} ScanNonDigit(s: string, acc: nat)
    requires !AllDigits(s)
    requires (acc + 1) * Pow10(|s|) <= MaxUint64 + 1
    ensures acc <= MaxUint64
    ensures ScanUint(s, acc) == SyntaxError
    decreases |s|
  {
    var q := Pow10(|s| - 1);
    assert Pow10(|s|) == 10 * q;
    MultiplyAssociates(acc + 1, 10, q);
    MultiplyAtLeast(acc + 1, Pow10(|s|));
    if IsDigit(s[0]) {
      var next := acc * 10 + DigitValue(s[0]);
      assert !AllDigits(s[1..]) by {
        var k :| 0 <= k < |s| && !IsDigit(s[k]);
        assert s[1..][k - 1] == s[k];
      }
      MultiplyMonotone(next + 1, (acc + 1) * 10, q);
      MultiplyAtLeast(next + 1, q);
      ScanNonDigit(s[1..], next);
    }
  }

  lemma MultiplyAssociates(a: nat, b: nat, c: nat)
    ensures a * (b * c) == a * b * c
  {
  }

  lemma MultiplyAtLeast(a: nat, q: nat)
    requires q >= 1
    ensures a <= a * q
  {
  }

  lemma MultiplyMonotone(a: nat, b: nat, c: nat)
    requires a <= b
    ensures a * c <= b * c
  {
  }

  /** A bound that is not a (signed) numeral reads as 0, the value Go returns
      with its syntax error, as long as it is too short for the digits before
      the first bad character to overflow: "", "-", "2a", "1.5", " 3", "+-3". */
  lemma MalformedReadsZero(s: string)
    requires |Unsigned(s)| <= 19 && !(|Unsigned(s)| > 0 && AllDigits(Unsigned(s)))
    ensures ParseInt(s) == 0
  {
    var body := Unsigned(s);
    if body != [] {
      assert Pow10(19) == 10_000_000_000_000_000_000 by {
        assert Pow10(10) == 10_000_000_000;
      }
      assert Pow10(|body|) <= Pow10(19) by {
        PowMonotone(|body|, 19);
      }
      ScanNonDigit(body, 0);
    }
  }

  lemma {:induction false} PowMonotone(m: nat, n: nat)
    requires m <= n
    ensures Pow10(m) <= Pow10(n)
    decreases n
  {
    if m < n {
      PowMonotone(m, n - 1);
    }
  }

  /** Malformed range bounds of the kinds a layer list may hold all read as 0. */
  lemma MalformedExamples()
    ensures ParseInt("2a") == 0 && ParseInt("1.5") == 0 && ParseInt(" 3") == 0 && ParseInt("+-3") == 0
  {
    assert Unsigned("2a") == "2a" && !IsDigit("2a"[1]);
    MalformedReadsZero("2a");
    assert Unsigned("1.5") == "1.5" && !IsDigit("1.5"[1]);
    MalformedReadsZero("1.5");
    assert Unsigned(" 3") == " 3" && !IsDigit(" 3"[0]);
    MalformedReadsZero(" 3");
    assert Unsigned("+-3") == "-3" && !IsDigit("-3"[0]);
    MalformedReadsZero("+-3");
  }

  /** A plain or minus-signed decimal numeral parses to its value, clamped to
      the int64 range. */
  lemma ParseDecimal(digits: string)
    requires |digits| > 0 && AllDigits(digits)
    ensures ParseInt(digits) == if DigitsValue(digits) > MaxInt64 then MaxInt64 else DigitsValue(digits)
    ensures ParseInt("-" + digits) == if DigitsValue(digits) > -MinInt64 then MinInt64 else -(DigitsValue(digits) as int)
  {
    ScanDigits(digits, 0);
    assert ("-" + digits)[1..] == digits;
  }

  /** Round trip: ParseInt reads back exactly what FormatInt wrote, for every
      int64. */
  lemma FormatParseInt(n: int64)
    ensures ParseInt(FormatInt(n)) == n
  {
    var m: nat := if n < 0 then -(n as int) else n as int;
    DigitsValueFormatNat(m);
    ParseDecimal(FormatNat(m));
  }
}
