/** itoa of programs/stdlib/src/stdlib.c: decimal text built backwards in a fixed buffer. */
module Itoa {
  import opened Common
  import opened Bits

  type int32 = x: int | -0x8000_0000 <= x < 0x8000_0000

  /** C remainder: takes the sign of the dividend. */
  function TruncMod(a: int, d: int): int
    requires d > 0
  {
    a - d * TruncDiv(a, d)
  }

  // ---------- canonical decimal text ----------

  function DigitChar(d: nat): char
    requires d < 10
  {
    '0' + d as char
  }

  /** The decimal digits of n, none for 0. */
  function Digits(n: nat): string {
    if n == 0 then "" else Digits(n / 10) + [DigitChar(n % 10)]
  }

  function Decimal(i: int): string {
    if i == 0 then "0" else if i > 0 then Digits(i) else "-" + Digits(-i)
  }

  function ParseNat(s: string): nat
    requires forall k :: 0 <= k < |s| ==> IsDigit(s[k])
  {
    if s == "" then 0 else assert IsDigit(s[|s| - 1]); ParseNat(s[..|s| - 1]) * 10 + (s[|s| - 1] as int - '0' as int)
  }

  /** The integer a canonical text denotes. */
  function Parse(s: string): int
    requires Canonical(s)
  {
    if s[0] == '-' then -(ParseNat(s[1..]) as int) else ParseNat(s)
  }

  /** An optional minus sign and digits, with no leading zero but in "0" itself. */
  ghost predicate Canonical(s: string) {
    && s != "" && (s[0] == '-' ==> |s| > 1 && s[1] != '0')
    && (s[0] == '0' ==> |s| == 1)
    && (forall k :: 0 <= k < |s| ==> IsDigit(s[k]) || (k == 0 && s[k] == '-'))
  }

  lemma ParseSnoc(s: string, d: nat)
    requires d < 10 && forall k :: 0 <= k < |s| ==> IsDigit(s[k])
    ensures forall k :: 0 <= k < |s| + 1 ==> IsDigit((s + [DigitChar(d)])[k])
    ensures ParseNat(s + [DigitChar(d)]) == ParseNat(s) * 10 + d
  {
    var t := s + [DigitChar(d)];
    assert t[..|t| - 1] == s;
  }

  lemma {:induction false} DigitsParse(n: nat)
    ensures forall k :: 0 <= k < |Digits(n)| ==> IsDigit(Digits(n)[k])
    ensures ParseNat(Digits(n)) == n
    ensures n > 0 ==> Digits(n) != "" && Digits(n)[0] != '0'
  {
    if n > 0 {
      DigitsParse(n / 10);
      var front := Digits(n / 10);
      assert Digits(n) == front + [DigitChar(n % 10)];
      ParseSnoc(front, n % 10);
    }
  }

  lemma MinusSign(digits: string)
    requires digits != "" && digits[0] != '0' && forall k :: 0 <= k < |digits| ==> IsDigit(digits[k])
    ensures Canonical("-" + digits) && Parse("-" + digits) == -(ParseNat(digits) as int)
  {
    hide ParseNat;
    assert ("-" + digits)[1..] == digits;
  }

  /** The text is canonical and reads back as the number. */
  lemma DecimalRoundTrip(i: int)
    ensures Canonical(Decimal(i)) && Parse(Decimal(i)) == i
  {
    if i > 0 {
      DigitsParse(i);
    } else if i < 0 {
      DigitsParse(-i);
      MinusSign(Digits(-i));
    } else {
      ParseSnoc("", 0);
      assert "" + [DigitChar(0)] == Decimal(i);
    }
  }

  function Pow10(k: nat): nat {
    if k == 0 then 1 else 10 * Pow10(k - 1)
  }

  lemma {:induction false} DigitsLength(n: nat, k: nat)
    ensures |Digits(n)| <= k <==> n < Pow10(k)
    decreases k
  {
    if n == 0 {
      Pow10Positive(k);
    } else if k > 0 {
      DigitsLength(n / 10, k - 1);
    }
  }

  lemma {:induction false} Pow10Positive(k: nat)
    ensures Pow10(k) > 0
  {
    if k > 0 {
      Pow10Positive(k - 1);
    }
  }

  /** Eleven characters are enough for every int, and only for the ten-digit negative ones are they needed. */
  lemma TextLength(i: int32)
    ensures |Decimal(i)| <= 11
    ensures |Decimal(i)| == 11 <==> i <= -1_000_000_000
  {
    assert Pow10(5) == 100_000;
    assert Pow10(9) == 1_000_000_000;
    assert Pow10(10) == 10_000_000_000;
    var j: int := i;
    var n := if j < 0 then -j else j;
    DigitsLength(n, 9);
    DigitsLength(n, 10);
  }

  /** The result starts at text[loc] and ends before the terminator; every int, the smallest included, fits. */
  method Itoa(value: int32, text: array<char>) returns (loc: nat)
    requires text.Length == 12
    modifies text
    ensures loc == 11 - |Decimal(value)| && text[11] == '\0'
    ensures text[loc..11] == Decimal(value)
  {
    TextLength(value);
    loc := 11;
    text[11] := '\0';
    var i: int32 := value;
    var neg := true;
    if i >= 0 {
      neg := false;
      i := -i;
    }
    loc := WriteDigits(i, text);
    if loc == 11 {
      loc := loc - 1;
      text[loc] := '0';
    }
    if neg {
      ghost var rest := text[loc..11];
      loc := loc - 1;
      text[loc] := '-';
      assert text[loc..11] == "-" + rest;
    }
  }

  /** The digit loop, on a number that is not positive so that negating the minimum never comes up. */
  method WriteDigits(value: int32, text: array<char>) returns (loc: nat)
    requires text.Length == 12 && value <= 0 && |Digits(0 - value)| <= 11 && text[11] == '\0'
    modifies text
    ensures loc == 11 - |Digits(0 - value)| && text[11] == '\0'
    ensures text[loc..11] == Digits(0 - value)
  {
    hide Digits, DigitChar;
    loc := 11;
    var i: int := value;
    NoDigits();
    ghost var n: nat := 0 - value;
    while i != 0
      invariant value <= i <= 0 && text[11] == '\0'
      invariant loc <= 11 && 11 - loc + |Digits(0 - i)| == |Digits(n)|
      invariant Digits(0 - i) + text[loc..11] == Digits(n)
      decreases 0 - i
    {
      LastDigit(0 - i);
      ghost var rest, k := text[loc..11], 0 - i;
      DigitsSnoc(k, rest);
      loc := loc - 1;
      text[loc] := ('0' as int - TruncMod(i, 10)) as char;
      assert text[loc..11] == [DigitChar(k % 10)] + rest;
      i := TruncDiv(i, 10);
    }
  }

  lemma NoDigits()
    ensures Digits(0) == ""
  {
  }

  lemma {:induction false} DigitsSnoc(n: nat, rest: string)
    requires n > 0
    ensures |Digits(n)| == |Digits(n / 10)| + 1
    ensures Digits(n) + rest == Digits(n / 10) + ([DigitChar(n % 10)] + rest)
  {
    var front, last := Digits(n / 10), [DigitChar(n % 10)];
    assert Digits(n) == front + last;
    hide Digits, DigitChar;
    assert front + last + rest == front + (last + rest);
  }

  /** Dividing the negated number truncates to the same digits. */
  lemma {:induction false} LastDigit(n: nat)
    requires n > 0
    ensures TruncDiv(0 - n, 10) == 0 - n / 10 && TruncMod(0 - n, 10) == 0 - n % 10
    ensures ('0' as int + n % 10) as char == DigitChar(n % 10)
    ensures |Digits(n)| >= 1 && n / 10 < n
  {
  }
}
