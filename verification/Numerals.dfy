/** Numbers as text: what printf's %x and %u print, and what Java's Long.parseLong reads. */
module Numerals {
  datatype Result<+T> = Ok(value: T) | Thrown

  /** The value of a hexadecimal digit, or 16 for any other character. */
  function DigitValue(c: char): (d: nat)
    ensures d <= 16
  {
    if '0' <= c <= '9' then c as nat - '0' as nat
    else if 'a' <= c <= 'f' then 10 + (c as nat - 'a' as nat)
    else if 'A' <= c <= 'F' then 10 + (c as nat - 'A' as nat)
    else 16
  }

  predicate IsHexDigit(c: char) {
    DigitValue(c) < 16
  }

  predicate AllHex(s: string) {
    forall i :: 0 <= i < |s| ==> IsHexDigit(s[i])
  }

  function DigitChar(d: nat): (c: char)
    requires d < 16
    ensures DigitValue(c) == d
  {
    if d < 10 then '0' + d as char else 'a' + (d - 10) as char
  }

  lemma DigitsAre(d: nat)
    requires d < 16
    ensures DigitChar(d) == "0123456789abcdef"[d]
  {
  }

  /** Hexadecimal digits without leading zeros, as %x and Long.toHexString print them. */
  function HexText(n: nat): (s: string)
    ensures s != "" && AllHex(s)
  {
    if n < 16 then [DigitChar(n)] else HexText(n / 16) + [DigitChar(n % 16)]
  }

  /** Decimal digits without leading zeros, as %u prints them. */
  function DecimalText(n: nat): (s: string)
    ensures s != "" && AllHex(s)
  {
    if n < 10 then [DigitChar(n)] else DecimalText(n / 10) + [DigitChar(n % 10)]
  }

  /** The number that a string of hexadecimal digits denotes. */
  function HexValue(s: string): nat
    requires AllHex(s)
  {
    if s == "" then 0 else HexValue(s[..|s| - 1]) * 16 + DigitValue(s[|s| - 1])
  }

  lemma HexValueSnoc(s: string, d: nat)
    requires AllHex(s) && d < 16
    ensures AllHex(s + [DigitChar(d)])
    ensures HexValue(s + [DigitChar(d)]) == HexValue(s) * 16 + d
  {
    var t := s + [DigitChar(d)];
    assert t[..|t| - 1] == s;
  }

  /** Reading back what was printed. */
  lemma {:induction false} HexValueOfText(n: nat)
    ensures HexValue(HexText(n)) == n
  {
    if n < 16 {
      HexValueSnoc("", n);
      assert "" + [DigitChar(n)] == [DigitChar(n)];
    } else {
      HexValueOfText(n / 16);
      HexValueSnoc(HexText(n / 16), n % 16);
    }
  }

  /** A decimal text read as hexadecimal denotes the number itself only when it is one digit. */
  lemma {:induction false} HexValueOfDecimal(n: nat)
    ensures HexValue(DecimalText(n)) == n <==> n <= 9
    ensures HexValue(DecimalText(n)) >= n
  {
    if n < 10 {
      HexValueSnoc("", n);
      assert "" + [DigitChar(n)] == [DigitChar(n)];
    } else {
      HexValueOfDecimal(n / 10);
      HexValueSnoc(DecimalText(n / 10), n % 10);
    }
  }

  predicate AllDecimal(s: string) {
    forall i :: 0 <= i < |s| ==> '0' <= s[i] <= '9'
  }

  /** The number that a string of decimal digits denotes. */
  function DecimalValue(s: string): nat
    requires AllDecimal(s)
  {
    if s == "" then 0 else DecimalValue(s[..|s| - 1]) * 10 + (s[|s| - 1] as nat - '0' as nat)
  }

  /** Decimal text is decimal digits that denote the number, without a leading zero. */
  lemma {:induction false} DecimalValueOfText(n: nat)
    ensures AllDecimal(DecimalText(n)) && DecimalValue(DecimalText(n)) == n
    ensures DecimalText(n)[0] == '0' <==> n == 0
  {
    var s := DecimalText(n);
    if n < 10 {
      assert s[..0] == "";
    } else {
      DecimalValueOfText(n / 10);
      assert s[..|s| - 1] == DecimalText(n / 10);
    }
  }

  /** Hexadecimal text has no leading zero and no upper-case digit. */
  lemma {:induction false} HexTextShape(n: nat)
    ensures HexText(n)[0] == '0' <==> n == 0
    ensures forall i :: 0 <= i < |HexText(n)| ==> '0' <= HexText(n)[i] <= '9' || 'a' <= HexText(n)[i] <= 'f'
  {
    if n >= 16 {
      HexTextShape(n / 16);
    }
  }

  function Power16(k: nat): nat {
    if k == 0 then 1 else 16 * Power16(k - 1)
  }

  lemma {:induction false} HexValueBelow(s: string)
    requires AllHex(s)
    ensures HexValue(s) < Power16(|s|)
  {
    if s != "" {
      HexValueBelow(s[..|s| - 1]);
    }
  }

  lemma {:induction false} HexTextLength(n: nat, k: nat)
    requires 1 <= k
    ensures |HexText(n)| <= k <==> n < Power16(k)
  {
    if n < 16 {
      PowerAtLeast(k);
    } else if k > 1 {
      HexTextLength(n / 16, k - 1);
    } else {
      assert Power16(1) == 16 * Power16(0);
    }
  }

  lemma {:induction false} PowerAtLeast(k: nat)
    requires 1 <= k
    ensures 16 <= Power16(k)
  {
    if k == 1 {
      assert Power16(0) == 1;
    } else {
      PowerAtLeast(k - 1);
    }
  }

  /** Leading zeros do not count. */
  lemma {:induction false} HexValuePadded(s: string)
    requires AllHex(s)
    ensures AllHex("0" + s) && HexValue("0" + s) == HexValue(s)
  {
    var t := "0" + s;
    if s == "" {
      assert t[..|t| - 1] == "";
    } else {
      HexValuePadded(s[..|s| - 1]);
      assert t[..|t| - 1] == "0" + s[..|s| - 1];
    }
  }

  /** The leading digit and its place. */
  lemma {:induction false} HexValueSplit(s: string)
    requires AllHex(s) && s != ""
    ensures AllHex(s[1..])
    ensures HexValue(s) == DigitValue(s[0]) * Power16(|s| - 1) + HexValue(s[1..])
  {
    var init := s[..|s| - 1];
    if |s| == 1 {
      assert init == "" && s[1..] == "";
      assert Power16(0) == 1;
    } else {
      HexValueSplit(init);
      var t := s[1..];
      assert t[..|t| - 1] == init[1..];
      Distribute(DigitValue(s[0]), Power16(|s| - 2));
    }
  }

  lemma Distribute(d: nat, p: nat)
    ensures (d * p) * 16 == d * (16 * p)
  {
  }

  // ---------------------------------------------------------------- Long.parseLong

  /** Long.parseLong(s, 16): an optional sign and at least one digit, in the range of a long. */
  function ParseLong16(s: string): Result<int> {
    if s == "" then Thrown
    else
      var negative := s[0] == '-';
      var digits := if negative || s[0] == '+' then s[1..] else s;
      if digits == "" || !AllHex(digits) then Thrown
      else
        var n: int := HexValue(digits);
        if negative then (if n <= 0x8000_0000_0000_0000 then Ok(-n) else Thrown)
        else (if n < 0x8000_0000_0000_0000 then Ok(n) else Thrown)
  }

  /** Only an optional sign and digits are read; a plus sign changes nothing. */
  lemma ParseAccepts(s: string)
    ensures ParseLong16(s).Ok? ==> exists digits ::
      digits != "" && AllHex(digits) && (s == digits || s == "+" + digits || s == "-" + digits)
    ensures s != "" && AllHex(s) ==> ParseLong16("+" + s) == ParseLong16(s)
  {
    if s != "" {
      assert s == [s[0]] + s[1..];
      assert ("+" + s)[1..] == s;
      assert AllHex(s) ==> IsHexDigit(s[0]);
    }
  }

  lemma ParseDigits(s: string)
    requires s != "" && AllHex(s)
    ensures ParseLong16(s) == if HexValue(s) < 0x8000_0000_0000_0000 then Ok(HexValue(s)) else Thrown
    ensures ParseLong16("-" + s) ==
            if HexValue(s) <= 0x8000_0000_0000_0000 then Ok(-(HexValue(s) as int)) else Thrown
  {
    assert IsHexDigit(s[0]);
    assert ("-" + s)[1..] == s;
  }
}
