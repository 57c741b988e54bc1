/** The integer renderer itoa of src/util/stringops.h. */
module Numerals {
  import opened CTypes
  import opened NumberTheory
  import opened Reversal

  const DIGITS := "0123456789abcdefghijklmnopqrstuvwxyz"

  predicate ValidRadix(radix: int) {
    2 <= radix <= 36
  }

  function DigitChar(d: nat): (c: char)
    requires d < 36
    ensures DigitValue(c) == d
  {
    if d < 10 then (d + '0' as int) as char else (d - 10 + 'a' as int) as char
  }

  /** DigitChar is the lookup in the digit table. */
  lemma {:induction false} DigitTable(d: nat)
    requires d < 36
    ensures |DIGITS| == 36 && DIGITS[d] == DigitChar(d)
  {
  }

  function DigitValue(c: char): int {
    if '0' <= c <= '9' then c as int - '0' as int
    else if 'a' <= c <= 'z' then c as int - 'a' as int + 10
    else -1
  }

  /** The digits of v, least significant first, at least one. */
  function DigitsOf(v: nat, radix: nat): (s: string)
    requires ValidRadix(radix)
    ensures s != ""
    decreases v
  {
    Quotient(v, radix);
    [DigitChar(v % radix)] + if v / radix == 0 then "" else DigitsOf(v / radix, radix)
  }

  lemma {:induction false} Quotient(v: nat, radix: nat)
    requires radix >= 2
    ensures v == v / radix * radix + v % radix
    ensures 0 <= v / radix <= v / 2 && (v / radix != 0 ==> v / radix < v)
  {
  }

  /** The text itoa is to produce. Negating INT_MIN is undefined, so radix 10 excludes it. */
  function Render(value: int, radix: nat): string
    requires ValidRadix(radix) && IsInt(value) && (radix == 10 ==> value > INT_MIN)
  {
    if radix == 10 && value < 0 then "-" + Reversed(DigitsOf(-value, 10))
    else Reversed(DigitsOf(ToUint(value), radix))
  }

  /** The do-while loop: digits go into the buffer, least significant first. */
  method WriteDigits(str: array<char>, value: nat, radix: nat) returns (n: nat)
    requires ValidRadix(radix) && |DigitsOf(value, radix)| <= str.Length
    modifies str
    ensures n <= str.Length && str[..n] == DigitsOf(value, radix)
  {
    var v: nat, more := value, true;
    n := 0;
    while more
      invariant n <= str.Length
      invariant str[..n] + Remaining(v, radix, more) == DigitsOf(value, radix)
      decreases more, v
    {
      Quotient(v, radix);
      DigitsStep(str[..n], v, radix);
      ghost var before := str[..n];
      DigitTable(v % radix);
      var c, q := DIGITS[v % radix], v / radix;
      str[n] := c;
      n := n + 1;
      assert str[..n] == before + [c];
      v := q;
      more := v != 0;
    }
  }

  lemma {:induction false} DigitsStep(before: string, v: nat, radix: nat)
    requires ValidRadix(radix)
    ensures before + DigitsOf(v, radix) ==
            before + [DigitChar(v % radix)] + Remaining(v / radix, radix, v / radix != 0)
  {
  }

  function Remaining(v: nat, radix: nat, more: bool): string
    requires ValidRadix(radix)
  {
    if more then DigitsOf(v, radix) else ""
  }

  /** The buffer has room for 32 digits, a sign and the NUL. */
  method Itoa(value: int, radix: nat) returns (text: string)
    requires ValidRadix(radix) && IsInt(value) && (radix == 10 ==> value > INT_MIN)
    ensures text == Render(value, radix)
  {
    var str := new char[34];
    var neg, magnitude := false, value;
    if radix == 10 && value < 0 {
      magnitude := -value;
      neg := true;
    }
    var v := ToUint(magnitude);
    UnsignedDigits(v, radix);
    var n := WriteDigits(str, v, radix);
    if neg {
      str[n] := '-';
      n := n + 1;
      assert str[..n] == DigitsOf(v, radix) + "-";
      ReversedConcat(DigitsOf(v, radix), "-");
      assert Reversed("-") == "-";
    }
    SwapEnds(str, n);
    text := str[..n];
  }

  /* ---------- How many digits ---------- */

  lemma {:induction false} DigitsShort(v: nat, radix: nat, k: nat)
    requires ValidRadix(radix) && k >= 1 && v < Pow(2, k)
    ensures |DigitsOf(v, radix)| <= k
    decreases k
  {
    if v / radix != 0 {
      Quotient(v, radix);
      DigitsShort(v / radix, radix, k - 1);
    }
  }

  lemma {:induction false} UnsignedDigits(v: nat, radix: nat)
    requires ValidRadix(radix) && v < UINT_RANGE
    ensures |DigitsOf(v, radix)| <= 32
  {
    assert Pow(2, 32) == UINT_RANGE by {
      assert Pow(2, 8) == 256;
      PowAdd(2, 8, 8);
      PowAdd(2, 16, 16);
    }
    DigitsShort(v, radix, 32);
  }

  lemma {:induction false} DigitsLength(v: nat, radix: nat, q: nat)
    requires ValidRadix(radix) && q == v / radix
    ensures |DigitsOf(v, radix)| == if q == 0 then 1 else 1 + |DigitsOf(q, radix)|
  {
  }

  /** k characters are enough for the digits exactly when the value is below radix^k. */
  lemma {:induction false} DigitCount(v: nat, radix: nat, k: nat)
    requires ValidRadix(radix) && k >= 1
    ensures |DigitsOf(v, radix)| <= k <==> v < Pow(radix, k)
    decreases k
  {
    var q := v / radix;
    Quotient(v, radix);
    DigitsLength(v, radix, q);
    if k == 1 {
      SmallQuotient(v, radix);
      DigitsNotEmpty(q, radix);
    } else {
      var b := Pow(radix, k - 1);
      PowAtLeast(radix, k - 1);
      QuotientBelow(v, radix, q, b);
      if q != 0 {
        DigitCount(q, radix, k - 1);
      }
    }
  }

  lemma {:induction false} DigitsNotEmpty(v: nat, radix: nat)
    requires ValidRadix(radix)
    ensures |DigitsOf(v, radix)| >= 1
  {
  }

  lemma {:induction false} SmallQuotient(v: nat, r: nat)
    requires r > 0
    ensures v / r == 0 <==> v < r
  {
  }

  lemma {:induction false} QuotientBelow(v: nat, r: nat, q: nat, b: int)
    requires r > 0 && q == v / r
    ensures q < b <==> v < r * b
  {
    assert v == r * q + v % r;
    if q < b {
      MulMonotonic(q + 1, b, r);
    } else {
      MulMonotonic(b, q, r);
    }
  }

  lemma {:induction false} PowAtLeast(b: int, e: nat)
    requires b >= 1
    ensures Pow(b, e) >= 1
  {
    if e > 0 {
      PowAtLeast(b, e - 1);
    }
  }

  /* ---------- Reading back ---------- */

  /** The number a digit string denotes, most significant digit first. */
  function ValueOf(s: string, radix: nat): int {
    if s == "" then 0 else ValueOf(s[..|s| - 1], radix) * radix + DigitValue(s[|s| - 1])
  }

  function Read(s: string, radix: nat): int {
    if radix == 10 && s != "" && s[0] == '-' then -ValueOf(s[1..], radix) else ValueOf(s, radix)
  }

  lemma {:induction false} ReadDigits(v: nat, radix: nat)
    requires ValidRadix(radix)
    ensures ValueOf(Reversed(DigitsOf(v, radix)), radix) == v
    decreases v
  {
    var q, c := v / radix, DigitChar(v % radix);
    Quotient(v, radix);
    DigitsStep("", v, radix);
    var rest := Remaining(q, radix, q != 0);
    assert DigitsOf(v, radix) == [c] + rest;
    ReversedConcat([c], rest);
    assert Reversed([c]) == [c];
    if q != 0 {
      ReadDigits(q, radix);
    }
    ReadStep(Reversed(rest), q, c, v, radix);
  }

  lemma {:induction false} ReadStep(s: string, q: int, c: char, v: int, radix: nat)
    requires ValueOf(s, radix) == q && v == q * radix + DigitValue(c)
    ensures ValueOf(s + [c], radix) == v
  {
  }

  lemma {:induction false} LeadingDigit(v: nat, radix: nat)
    requires ValidRadix(radix)
    ensures var s := Reversed(DigitsOf(v, radix));
            s[0] != '-' && (s[0] == '0' <==> v == 0) && (v == 0 ==> s == "0")
    decreases v
  {
    if v / radix != 0 {
      LeadingDigit(v / radix, radix);
      ReversedConcat([DigitChar(v % radix)], DigitsOf(v / radix, radix));
    }
  }

  /** Reading the text back gives the int, or for other radices its unsigned value. */
  lemma {:induction false} ReadAfterItoa(value: int, radix: nat)
    requires ValidRadix(radix) && IsInt(value) && (radix == 10 ==> value > INT_MIN)
    ensures Read(Render(value, radix), radix) == if radix == 10 then value else ToUint(value)
  {
    if radix == 10 && value < 0 {
      ReadDigits(-value, 10);
      assert Render(value, 10)[1..] == Reversed(DigitsOf(-value, 10));
    } else {
      ReadDigits(ToUint(value), radix);
      LeadingDigit(ToUint(value), radix);
    }
  }

  /** Different ints have different texts, for each radix. */
  lemma {:induction false} ItoaInjective(x: int, y: int, radix: nat)
    requires ValidRadix(radix) && IsInt(x) && IsInt(y)
    requires radix == 10 ==> x > INT_MIN && y > INT_MIN
    requires Render(x, radix) == Render(y, radix)
    ensures x == y
  {
    ReadAfterItoa(x, radix);
    ReadAfterItoa(y, radix);
  }

  lemma {:induction false} DigitsInRange(v: nat, radix: nat)
    requires ValidRadix(radix)
    ensures forall c :: c in DigitsOf(v, radix) ==> 0 <= DigitValue(c) < radix
    decreases v
  {
    Quotient(v, radix);
    if v / radix != 0 {
      DigitsInRange(v / radix, radix);
    }
  }

  /** The text is a '-' exactly for negative values in radix 10, and then digits of the radix. */
  lemma {:induction false} SignAndDigits(value: int, radix: nat)
    requires ValidRadix(radix) && IsInt(value) && (radix == 10 ==> value > INT_MIN)
    ensures var s := Render(value, radix);
            var digits := if radix == 10 && value < 0 then s[1..] else s;
            && s != "" && (s[0] == '-' <==> radix == 10 && value < 0)
            && forall c :: c in digits ==> 0 <= DigitValue(c) < radix
  {
    var v := if radix == 10 && value < 0 then -value else ToUint(value);
    DigitsInRange(v, radix);
    LeadingDigit(v, radix);
    assert forall c :: c in Reversed(DigitsOf(v, radix)) ==> c in DigitsOf(v, radix);
    if radix == 10 && value < 0 {
      assert Render(value, radix)[1..] == Reversed(DigitsOf(v, radix));
    }
  }

  /** No superfluous leading zero: a text that starts with 0 is just "0". */
  lemma {:induction false} NoLeadingZero(value: int, radix: nat)
    requires ValidRadix(radix) && IsInt(value) && (radix == 10 ==> value > INT_MIN)
    ensures var s := Render(value, radix);
            var digits := if s[0] == '-' then s[1..] else s;
            digits != "" && (digits[0] == '0' ==> digits == "0")
  {
    if radix == 10 && value < 0 {
      LeadingDigit(-value, 10);
      assert Render(value, 10)[1..] == Reversed(DigitsOf(-value, 10));
    } else {
      LeadingDigit(ToUint(value), radix);
    }
  }

  /** The four bytes itoa allocates hold a decimal text and its NUL exactly from -99 to 999. */
  lemma {:induction false} DecimalFitsFourBytes(value: int)
    requires INT_MIN < value <= INT_MAX
    ensures |Render(value, 10)| + 1 <= 4 <==> -99 <= value <= 999
  {
    assert Pow(10, 2) == 100 && Pow(10, 3) == 1000;
    DigitCount(if value < 0 then -value else value, 10, if value < 0 then 2 else 3);
  }
}
