/** The few `printf` conversions the dissectors use for display text: an
    uppercase hex digit, `%04x` of a 16-bit value and `%d` of a natural
    number, each with a parser that reads the text back. */
module Printf {
  import opened Bytes

  predicate IsDecimalDigit(c: char) {
    '0' <= c <= '9'
  }

  predicate IsLowerHexDigit(c: char) {
    IsDecimalDigit(c) || 'a' <= c <= 'f'
  }

  predicate IsUpperHexDigit(c: char) {
    IsDecimalDigit(c) || 'A' <= c <= 'F'
  }

  /** The value of a hex digit of either case; any other character reads as 0. */
  function HexValue(c: char): (v: nat)
    ensures v < 16
  {
    if IsDecimalDigit(c) then c as int - '0' as int
    else if 'a' <= c <= 'f' then c as int - 'a' as int + 10
    else if 'A' <= c <= 'F' then c as int - 'A' as int + 10
    else 0
  }

  /** The digit a `hex[16]` table of '0'..'9', 'A'..'F' holds at index `d`. */
  function UpperHexDigit(d: int): (c: char)
    requires 0 <= d < 16
    ensures IsUpperHexDigit(c)
    ensures HexValue(c) == d
  {
    if d < 10 then ('0' as int + d) as char else ('A' as int + d - 10) as char
  }

  /** The digit `%x` prints for a nibble `d`. */
  function LowerHexDigit(d: int): (c: char)
    requires 0 <= d < 16
    ensures IsLowerHexDigit(c)
    ensures HexValue(c) == d
  {
    if d < 10 then ('0' as int + d) as char else ('a' as int + d - 10) as char
  }

  /** The number a string of hex digits denotes, most significant first. */
  function ParseHex(s: string): (v: nat)
  {
    if s == [] then 0 else ParseHex(s[..|s| - 1]) * 16 + HexValue(s[|s| - 1])
  }

  /** Appending a digit to a hex numeral shifts its value one place. */
  lemma {:induction false} ParseHexSnoc(s: string, c: char)
    ensures ParseHex(s + [c]) == ParseHex(s) * 16 + HexValue(c)
  {
    assert (s + [c])[..|s|] == s;
  }

  /** `printf("%04x", v)` for a value that fits in 16 bits: always exactly
      four lowercase digits, and they read back as `v`. */
  function Hex04(v: int): (s: string)
    requires 0 <= v < U16_LIMIT
    ensures |s| == 4
    ensures forall i :: 0 <= i < |s| ==> IsLowerHexDigit(s[i])
    ensures ParseHex(s) == v
  {
    var q1 := v / 16;
    var q2 := q1 / 16;
    var q3 := q2 / 16;
    var s1 := [LowerHexDigit(q3)];
    var s2 := s1 + [LowerHexDigit(q2 % 16)];
    var s3 := s2 + [LowerHexDigit(q1 % 16)];
    var s4 := s3 + [LowerHexDigit(v % 16)];
    assert ParseHex(s1) == q3 by { ParseHexSnoc([], s1[0]); assert [] + s1 == s1; }
    assert ParseHex(s2) == q2 by { ParseHexSnoc(s1, LowerHexDigit(q2 % 16)); }
    assert ParseHex(s3) == q1 by { ParseHexSnoc(s2, LowerHexDigit(q1 % 16)); }
    assert ParseHex(s4) == v by { ParseHexSnoc(s3, LowerHexDigit(v % 16)); }
    s4
  }

  /** The number a string of decimal digits denotes, most significant first. */
  function ParseDecimal(s: string): (v: nat)
  {
    if s == [] then 0
    else ParseDecimal(s[..|s| - 1]) * 10 + (if IsDecimalDigit(s[|s| - 1]) then s[|s| - 1] as int - '0' as int else 0)
  }

  /** `printf("%d", n)` for a natural number. */
  function Decimal(n: nat): (s: string)
    ensures 1 <= |s|
    ensures n < 10 <==> |s| == 1
  {
    var d := ('0' as int + n % 10) as char;
    if n < 10 then [d] else Decimal(n / 10) + [d]
  }

  /** `%d` text is a non-empty run of decimal digits with no leading zero. */
  lemma {:induction false} DecimalDigits(n: nat)
    ensures forall i :: 0 <= i < |Decimal(n)| ==> IsDecimalDigit(Decimal(n)[i])
    ensures 1 < |Decimal(n)| ==> Decimal(n)[0] != '0'
  {
    if n >= 10 {
      DecimalDigits(n / 10);
    }
  }

  /** `%d` text reads back as the number it was made from. */
  lemma {:induction false} DecimalRoundTrip(n: nat)
    ensures ParseDecimal(Decimal(n)) == n
  {
    var s := Decimal(n);
    if n >= 10 {
      assert s[..|s| - 1] == Decimal(n / 10);
      DecimalRoundTrip(n / 10);
    }
  }

  /** Distinct numbers print differently under `%d`. */
  lemma {:induction false} DecimalInjective(m: nat, n: nat)
    requires Decimal(m) == Decimal(n)
    ensures m == n
  {
    DecimalRoundTrip(m);
    DecimalRoundTrip(n);
  }
}
