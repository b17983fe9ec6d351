/** Corana's number conversions, and what they make of the text that Capstone prints. */
module Corana {
  import opened Words
  import opened Numerals
  import opened SStream

  // ---------------------------------------------------------------- java.lang.String

  predicate Contains(s: string, sub: string): (found: bool)
    ensures found ==> |sub| <= |s|
  {
    sub <= s || (s != "" && Contains(s[1..], sub))
  }

  /** `s.replace(c, "")` for a single character. */
  function Without(s: string, c: char): string {
    if s == "" then "" else (if s[0] == c then "" else [s[0]]) + Without(s[1..], c)
  }

  /** The text occurs somewhere in the other. */
  ghost predicate Occurs(sub: string, s: string) {
    exists i: nat :: OccursAt(sub, s, i)
  }

  ghost predicate OccursAt(sub: string, s: string, i: nat) {
    i + |sub| <= |s| && s[i..i + |sub|] == sub
  }

  lemma OccursLater(s: string, sub: string, i: nat)
    requires s != ""
    ensures OccursAt(sub, s[1..], i) <==> OccursAt(sub, s, i + 1)
  {
    if i + |sub| <= |s| - 1 {
      assert s[1..][i..i + |sub|] == s[i + 1..i + 1 + |sub|];
    }
  }

  lemma OccursFirst(s: string, sub: string)
    ensures OccursAt(sub, s, 0) <==> sub <= s
  {
  }

  lemma {:induction false} ContainsMeans(s: string, sub: string)
    ensures Contains(s, sub) <==> Occurs(sub, s)
  {
    OccursFirst(s, sub);
    if s != "" {
      ContainsMeans(s[1..], sub);
      if i: nat :| OccursAt(sub, s[1..], i) {
        OccursLater(s, sub, i);
      }
      if i: nat :| OccursAt(sub, s, i) && !(sub <= s) {
        OccursLater(s, sub, i - 1);
      }
    }
  }

  /** Every occurrence of the character goes, and nothing else. */
  lemma {:induction false} WithoutJoins(a: string, b: string, c: char)
    ensures Without(a + b, c) == Without(a, c) + Without(b, c)
  {
    if a == "" {
      assert a + b == b;
    } else {
      WithoutJoins(a[1..], b, c);
      assert (a + b)[1..] == a[1..] + b && (a + b)[0] == a[0];
    }
  }

  lemma WithoutOne(x: char, c: char)
    ensures Without([x], c) == if x == c then "" else [x]
  {
  }

  lemma {:induction false} WithoutLacks(s: string, c: char)
    ensures c !in Without(s, c)
  {
    if s != "" {
      WithoutLacks(s[1..], c);
    }
  }

  predicate Lacks(s: string, c: char) {
    forall i :: 0 <= i < |s| ==> s[i] != c
  }

  lemma {:induction false} LacksContains(s: string, sub: string, k: nat)
    requires k < |sub| && Lacks(s, sub[k])
    ensures !Contains(s, sub)
  {
    if s != "" {
      LacksContains(s[1..], sub, k);
    }
  }

  lemma {:induction false} WithoutAbsent(s: string, c: char)
    requires Lacks(s, c)
    ensures Without(s, c) == s
  {
    if s != "" {
      WithoutAbsent(s[1..], c);
    }
  }

  lemma WithoutHash(s: string)
    requires Lacks(s, '#')
    ensures Without("#" + s, '#') == s
  {
    assert ("#" + s)[1..] == s;
    WithoutAbsent(s, '#');
  }

  // ---------------------------------------------------------------- Arithmetic and SysUtils

  /** Arithmetic.hexToInt. */
  function HexToInt(hex: string): Result<int> {
    if Contains(hex, "SYM") then Ok(-1)
    else if Contains(hex, "-0x") then
      (match ParseLong16(hex[3..])
       case Ok(n) => Ok(Signed64(-n))
       case Thrown => Thrown)
    else ParseLong16(if Contains(hex, "0x") || Contains(hex, "#x") then hex[2..] else hex)
  }

  /** The four ways in which hexToInt reads a text, by what occurs in it. */
  lemma HexToIntReads(s: string)
    ensures Occurs("SYM", s) ==> HexToInt(s) == Ok(-1)
    ensures !Occurs("SYM", s) && Occurs("-0x", s) ==>
      |s| >= 3 && HexToInt(s) == match ParseLong16(s[3..]) case Ok(n) => Ok(Signed64(-n)) case Thrown => Thrown
    ensures !Occurs("SYM", s) && !Occurs("-0x", s) && (Occurs("0x", s) || Occurs("#x", s)) ==>
      |s| >= 2 && HexToInt(s) == ParseLong16(s[2..])
    ensures !Occurs("SYM", s) && !Occurs("0x", s) && !Occurs("#x", s) && !Occurs("-0x", s) ==>
      HexToInt(s) == ParseLong16(s)
  {
    ContainsMeans(s, "SYM");
    ContainsMeans(s, "-0x");
    ContainsMeans(s, "0x");
    ContainsMeans(s, "#x");
  }

  /** SysUtils.normalizeNumInParam. */
  function NormalizeNumInParam(s: string): Result<int> {
    match HexToInt(Without(s, '#'))
    case Ok(n) => Ok(Signed32(n))
    case Thrown => Thrown
  }

  /** Without a prefix or a sign, the text is read as hexadecimal. */
  lemma HexToIntPlain(s: string)
    requires s != "" && AllHex(s)
    ensures HexToInt(s) == ParseLong16(s) && HexToInt("-" + s) == ParseLong16("-" + s)
    ensures Lacks(s, '#') && Lacks("-" + s, '#')
  {
    assert Lacks(s, 'x') && Lacks(s, 'S');
    assert Lacks("-" + s, 'x') && Lacks("-" + s, 'S');
    LacksContains(s, "SYM", 0);
    LacksContains(s, "-0x", 2);
    LacksContains(s, "0x", 1);
    LacksContains(s, "#x", 1);
    LacksContains("-" + s, "SYM", 0);
    LacksContains("-" + s, "-0x", 2);
    LacksContains("-" + s, "0x", 1);
    LacksContains("-" + s, "#x", 1);
  }

  lemma HexToIntPrefixed(s: string)
    requires s != "" && AllHex(s)
    ensures HexToInt("0x" + s) == ParseLong16(s) && Lacks("0x" + s, '#')
  {
    var t := "0x" + s;
    assert Lacks(s, '-') && Lacks(s, 'S') && Lacks(s, '#');
    LacksContains(t, "SYM", 0);
    LacksContains(t, "-0x", 0);
    assert "0x" <= t && t[2..] == s;
  }

  lemma HexToIntNegative(s: string)
    requires s != "" && AllHex(s)
    ensures Lacks("-0x" + s, '#')
    ensures HexToInt("-0x" + s) ==
      match ParseLong16(s) case Ok(n) => Ok(Signed64(-n)) case Thrown => Thrown
  {
    var t := "-0x" + s;
    assert Lacks(s, 'S') && Lacks(s, '#');
    LacksContains(t, "SYM", 0);
    assert "-0x" <= t && t[3..] == s;
  }

  // ---------------------------------------------------------------- reading printed immediates

  /** Hexadecimal and one-digit texts, with and without a sign, once '#' is gone. */
  lemma HexBang(n: nat)
    ensures HexToInt(Without("#0x" + HexText(n), '#')) ==
            if n < 0x8000_0000_0000_0000 then Ok(n) else Thrown
  {
    var s := HexText(n);
    HexValueOfText(n);
    ParseDigits(s);
    HexToIntPrefixed(s);
    WithoutHash("0x" + s);
    assert "#0x" + s == "#" + ("0x" + s);
  }

  lemma WithoutHashNegative(s: string)
    requires AllHex(s)
    ensures Without("#-0x" + s, '#') == "-0x" + s
  {
    assert Lacks("-0x" + s, '#');
    WithoutHash("-0x" + s);
    assert "#-0x" + s == "#" + ("-0x" + s);
  }

  lemma NegatedFits(n: nat)
    requires n < 0x8000_0000_0000_0000
    ensures Signed64(-(n as int)) == -(n as int)
  {
  }

  lemma NegativeHexText(text: string, s: string, n: nat)
    requires s != "" && AllHex(s) && HexValue(s) == n && text == "-0x" + s
    ensures HexToInt(text) == if n < 0x8000_0000_0000_0000 then Ok(-(n as int)) else Thrown
  {
    HexToIntNegative(s);
    ParseDigits(s);
    if n < 0x8000_0000_0000_0000 {
      NegatedFits(n);
    }
  }

  lemma NegativeHexBang(n: nat)
    requires 0 < n
    ensures HexToInt(Without("#-0x" + HexText(n), '#')) ==
            if n < 0x8000_0000_0000_0000 then Ok(-(n as int)) else Thrown
  {
    HexValueOfText(n);
    var s := HexText(n);
    WithoutHashNegative(s);
    NegativeHexText("-0x" + s, s, n);
  }

  lemma DecimalBangReadAsHex(n: nat)
    ensures HexToInt(Without("#" + DecimalText(n), '#')) == Ok(n) <==> n <= 9
  {
    var s := DecimalText(n);
    HexValueOfDecimal(n);
    ParseDigits(s);
    HexToIntPlain(s);
    WithoutHash(s);
  }

  lemma NegativeDecimalBangReadAsHex(n: nat)
    ensures HexToInt(Without("#-" + DecimalText(n), '#')) == Ok(-(n as int)) <==> n <= 9
  {
    var s := DecimalText(n);
    HexValueOfDecimal(n);
    ParseDigits(s);
    HexToIntPlain(s);
    WithoutHash("-" + s);
    assert "#-" + s == "#" + ("-" + s);
  }

  /** What hexToInt makes of a printed number: the number itself, unless its magnitude is beyond
      what a long can hold. */
  lemma HexToIntOfBang(v: int)
    ensures HexToInt(Without(SignedBang(v), '#')) ==
      if -0x8000_0000_0000_0000 < v < 0x8000_0000_0000_0000 then Ok(v) else Thrown
  {
    var text := SignedBang(v);
    if v > HEX_THRESHOLD {
      assert text == "#0x" + HexText(v);
      HexBang(v);
    } else if v >= 0 {
      assert text == "#" + DecimalText(v);
      DecimalBangReadAsHex(v);
    } else if v < -HEX_THRESHOLD {
      assert text == "#-0x" + HexText(-v);
      NegativeHexBang(-v);
    } else {
      assert text == "#-" + DecimalText(-v);
      NegativeDecimalBangReadAsHex(-v);
    }
  }

  lemma NormalizeIs(s: string, r: Result<int>)
    requires HexToInt(Without(s, '#')) == r
    ensures NormalizeNumInParam(s) == Cut(r)
  {
  }

  /** The cast of a long to an int. */
  function Cut(r: Result<int>): Result<int> {
    match r case Ok(n) => Ok(Signed32(n)) case Thrown => Thrown
  }

  lemma CutKeeps(v: int)
    requires -0x8000_0000_0000_0000 <= v < 0x8000_0000_0000_0000
    ensures Signed32(v) == v <==> -0x8000_0000 <= v < 0x8000_0000
  {
  }

  /** Corana reads an immediate that Capstone prints as its low 32 bits, signed; so every 32-bit
      immediate of printInt32Bang is read as itself, a 64-bit one of printInt64Bang exactly when it
      fits 32 bits, and an unsigned one of printUInt32Bang exactly below 2^31. The least 64-bit
      integer makes the parser throw. */
  lemma ImmediateRoundTrip(v: int)
    requires -0x8000_0000_0000_0000 <= v < 0x8000_0000_0000_0000
    ensures var r := NormalizeNumInParam(SignedBang(v));
      && r == (if v == -0x8000_0000_0000_0000 then Thrown else Ok(Signed32(v)))
      && (r == Ok(v) <==> -0x8000_0000 <= v < 0x8000_0000)
  {
    var text := SignedBang(v);
    HexToIntOfBang(v);
    NormalizeIs(text, if v == -0x8000_0000_0000_0000 then Thrown else Ok(v));
    CutKeeps(v);
  }

  /** Decimal output is only understood for magnitudes up to 9: printInt32BangDec's text is read
      back as the number it shows exactly then. */
  lemma DecimalRoundTrip(v: int)
    ensures HexToInt(Without(DecimalBang(v), '#')) == Ok(v) <==> -9 <= v <= 9
  {
    var text := DecimalBang(v);
    if v >= 0 {
      assert text == "#" + DecimalText(v);
      DecimalBangReadAsHex(v);
    } else {
      assert text == "#-" + DecimalText(-v);
      NegativeDecimalBangReadAsHex(-v);
    }
  }

  // ---------------------------------------------------------------- hexadecimal normal form

  /** Configs.architecture / 4. */
  const WORD_DIGITS: nat := 8

  function Zeros(n: nat): string {
    seq(n, _ => '0')
  }

  /** Exactly eight characters: padded with zeros, or the last eight. */
  function Fit8(raw: string): (r: string)
    ensures |r| == 8
  {
    if |raw| < 8 then Zeros(8 - |raw|) + raw else raw[|raw| - 8..]
  }

  /** Arithmetic.intToHexSmt of a long. */
  function HexSmt(n: int): string {
    var hex := HexText(Wrap64(n));
    "#x" + if |hex| < 8 then Zeros(8 - |hex|) + hex else hex
  }

  method IntToHexSmt(n: int) returns (result: string)
    ensures result == HexSmt(n)
  {
    var hex := HexText(Wrap64(n));
    ghost var digits := hex;
    var len := |hex|;
    if len < WORD_DIGITS {
      for i := 0 to WORD_DIGITS - len
        invariant hex == Zeros(i) + digits
      {
        hex := "0" + hex;
        assert Zeros(i + 1) == "0" + Zeros(i);
      }
    }
    assert Lacks(hex, '-');
    if Contains(hex, "-") {
      LacksContains(hex, "-", 0);
      hex := Without(hex, '-');
    }
    result := "#x" + hex;
  }

  /** The regular expression `(0x|0X|#x)?[a-fA-F0-9]+`, which includes `[01][01]+`. */
  predicate IsHexLiteral(s: string) {
    || (s != "" && AllHex(s))
    || (|s| > 2 && (s[..2] == "0x" || s[..2] == "0X" || s[..2] == "#x") && AllHex(s[2..]))
  }

  /** A literal without its '#', and without an 'x' that is then in front. */
  function Raw(s: string): string {
    var raw := Without(s, '#');
    if raw != "" && raw[0] == 'x' then raw[1..] else raw
  }

  function NormalHex(s: string): string {
    if IsHexLiteral(s) then "#x" + Fit8(Raw(s)) else s
  }

  /** SysUtils.normalizeNumInHex. */
  method NormalizeNumInHex(s: string) returns (r: string)
    ensures r == NormalHex(s)
  {
    if !IsHexLiteral(s) {
      return s;
    }
    var raw := Without(s, '#');
    if raw != "" && raw[0] == 'x' {
      raw := raw[1..];
    }
    ghost var fit := Fit8(raw);
    while |raw| < 8
      invariant Fit8(raw) == fit
    {
      FitPads(raw);
      raw := "0" + raw;
    }
    while |raw| > 8
      invariant |raw| >= 8 && Fit8(raw) == fit
      decreases |raw|
    {
      FitCuts(raw);
      raw := raw[1..];
    }
    assert Fit8(raw) == raw;
    r := "#x" + raw;
  }

  lemma FitPads(raw: string)
    requires |raw| < 8
    ensures Fit8("0" + raw) == Fit8(raw)
  {
    assert Zeros(8 - |raw| - 1) + ("0" + raw) == Zeros(8 - |raw|) + raw;
  }

  lemma FitCuts(raw: string)
    requires |raw| > 8
    ensures Fit8(raw[1..]) == Fit8(raw)
  {
  }

  // ---------------------------------------------------------------- what the normal form denotes

  lemma {:induction false} ZerosValue(k: nat, s: string)
    requires AllHex(s)
    ensures AllHex(Zeros(k) + s) && HexValue(Zeros(k) + s) == HexValue(s)
  {
    if k == 0 {
      assert Zeros(0) + s == s;
    } else {
      ZerosValue(k - 1, s);
      HexValuePadded(Zeros(k - 1) + s);
      assert Zeros(k) + s == "0" + (Zeros(k - 1) + s);
    }
  }

  /** Fitting eight digits reduces the value modulo 2^32. */
  lemma {:induction false} Fit8Value(raw: string)
    requires AllHex(raw)
    ensures AllHex(Fit8(raw)) && HexValue(Fit8(raw)) == Wrap32(HexValue(raw))
  {
    if |raw| <= 8 {
      ShortValue(raw);
    } else {
      var tail := raw[1..];
      HexValueSplit(raw);
      Fit8Value(tail);
      FitCuts(raw);
      PlaceVanishes(DigitValue(raw[0]), |raw| - 1, HexValue(tail));
    }
  }

  lemma ShortValue(raw: string)
    requires AllHex(raw) && |raw| <= 8
    ensures AllHex(Fit8(raw)) && HexValue(Fit8(raw)) == Wrap32(HexValue(raw))
  {
    PaddedValue(raw, Fit8(raw));
    EightDigits(Fit8(raw));
    AlreadyWrapped(HexValue(raw));
  }

  lemma PaddedValue(raw: string, r: string)
    requires AllHex(raw) && |raw| <= 8 && r == Fit8(raw)
    ensures AllHex(r) && HexValue(r) == HexValue(raw)
  {
    var padded := Zeros(8 - |raw|) + raw;
    PaddedIs(raw);
    assert r == padded;
    ZerosValue(8 - |raw|, raw);
  }

  lemma PaddedIs(raw: string)
    requires |raw| <= 8
    ensures Fit8(raw) == Zeros(8 - |raw|) + raw
  {
  }

  lemma AlreadyWrapped(n: nat)
    requires n < 0x1_0000_0000
    ensures Wrap32(n) == n
  {
  }

  lemma EightDigits(s: string)
    requires AllHex(s) && |s| == 8
    ensures HexValue(s) < 0x1_0000_0000
  {
    HexValueBelow(s);
    Power16Of8();
  }

  lemma Power16Of8()
    ensures Power16(8) == 0x1_0000_0000
  {
    assert Power16(4) == 0x1_0000;
    assert Power16(6) == 0x100_0000;
  }

  lemma {:induction false} PowerFrom8(k: nat) returns (q: nat)
    requires 8 <= k
    ensures Power16(k) == 0x1_0000_0000 * q
  {
    if k == 8 {
      Power16Of8();
      q := 1;
    } else {
      q := PowerFrom8(k - 1);
      q := 16 * q;
    }
  }

  lemma PlaceVanishes(d: nat, k: nat, v: nat)
    requires 8 <= k
    ensures Wrap32(d * Power16(k) + v) == Wrap32(v)
  {
    var q := PowerFrom8(k);
    assert d * (0x1_0000_0000 * q) == 0x1_0000_0000 * (d * q);
  }

  /** The digits of a literal, without its prefix. */
  function LiteralDigits(s: string): string
    requires IsHexLiteral(s)
  {
    if AllHex(s) then s else s[2..]
  }

  predicate ZeroXPrefixed(s: string) {
    |s| > 2 && (s[..2] == "0x" || s[..2] == "0X")
  }

  lemma RawOfLiteral(s: string)
    requires IsHexLiteral(s)
    ensures AllHex(LiteralDigits(s)) && LiteralDigits(s) != ""
    ensures Raw(s) == if ZeroXPrefixed(s) then s else LiteralDigits(s)
  {
    var d := LiteralDigits(s);
    assert Lacks(d, '#') && Lacks(d, 'x');
    if s == d {
      WithoutAbsent(s, '#');
      assert |s| > 2 ==> s[..2][1] == s[1];
    } else if s[..2] == "#x" {
      assert s == "#" + ("x" + d);
      assert Lacks("x" + d, '#');
      WithoutHash("x" + d);
      assert ("x" + d)[1..] == d;
    } else {
      assert s == s[..2] + d;
      assert Lacks(s, '#');
      WithoutAbsent(s, '#');
    }
  }

  /** What normalizeNumInHex promises: a literal in the SMT solver's form, "#x" and eight digits. */
  predicate IsWord(s: string) {
    |s| == 10 && s[..2] == "#x" && AllHex(s[2..])
  }

  /** A literal is brought to eight digits that denote its value modulo 2^32, exactly unless it has
      a 0x prefix and fewer than eight digits: that prefix is not removed, only cut off. */
  lemma NormalHexIsWord(s: string)
    requires IsHexLiteral(s)
    ensures IsWord(NormalHex(s)) <==> !ZeroXPrefixed(s) || |LiteralDigits(s)| >= 8
    ensures IsWord(NormalHex(s)) ==>
      AllHex(LiteralDigits(s)) && HexValue(NormalHex(s)[2..]) == Wrap32(HexValue(LiteralDigits(s)))
  {
    RawOfLiteral(s);
    var d, r := LiteralDigits(s), NormalHex(s);
    assert r[2..] == Fit8(Raw(s)) && r[..2] == "#x";
    if !ZeroXPrefixed(s) {
      Fit8Value(d);
    } else {
      assert s[1] == s[..2][1] && !IsHexDigit(s[1]);
      if |d| >= 8 {
        assert Fit8(s) == Fit8(d);
        Fit8Value(d);
      } else {
        XStays(s);
      }
    }
  }

  /** The prefix of a short literal is padded along with its digits. */
  lemma ShortLiteralKeepsX(s: string)
    requires s == "0x1"
    ensures NormalHex(s) == "#x000000x1" && !IsWord(NormalHex(s))
  {
    ShortLiteral(s);
    RawOfLiteral(s);
    assert Zeros(5) == "00000" && Fit8(s) == Zeros(5) + s;
    XStays(s);
    assert NormalHex(s)[2..] == Fit8(s);
  }

  lemma ShortLiteral(s: string)
    requires s == "0x1"
    ensures IsHexLiteral(s) && ZeroXPrefixed(s)
  {
    assert s[..2] == "0x" && s[2..] == "1";
  }

  lemma XStays(s: string)
    requires 2 < |s| < 10 && !IsHexDigit(s[1])
    ensures !AllHex(Fit8(s))
  {
    var k := if |s| < 8 then 8 - |s| + 1 else 1 - (|s| - 8);
    assert Fit8(s)[k] == s[1];
  }

  /** The result is "#x" and eight digits that denote the number modulo 2^32. */
  predicate Shows32(r: string, n: nat) {
    |r| == 10 && r[..2] == "#x" && AllHex(r[2..]) && HexValue(r[2..]) == n % 0x1_0000_0000
  }

  /** What becomes of digits, alone and with each of the three prefixes. */
  lemma DigitsAreNormalized(d: string)
    requires d != "" && AllHex(d)
    ensures Shows32(NormalHex(d), HexValue(d))
  {
    NormalHexIsWord(d);
    assert !ZeroXPrefixed(d) by { assert |d| > 2 ==> d[..2][1] == d[1]; }
  }

  lemma HashedIsNormalized(d: string)
    requires d != "" && AllHex(d)
    ensures Shows32(NormalHex("#x" + d), HexValue(d))
  {
    PrefixedIsLiteral(d, "#x");
    NormalHexIsWord("#x" + d);
  }

  lemma ZeroXIsNormalized(d: string, prefix: string)
    requires d != "" && AllHex(d) && (prefix == "0x" || prefix == "0X")
    ensures Shows32(NormalHex(prefix + d), HexValue(d)) <==> |d| >= 8
    ensures IsWord(NormalHex(prefix + d)) <==> |d| >= 8
  {
    PrefixedIsLiteral(d, prefix);
    NormalHexIsWord(prefix + d);
  }

  lemma PrefixedIsLiteral(d: string, prefix: string)
    requires d != "" && AllHex(d) && (prefix == "#x" || prefix == "0x" || prefix == "0X")
    ensures var s := prefix + d;
      && s[..2] == prefix && s[2..] == d && IsHexLiteral(s) && LiteralDigits(s) == d
      && ZeroXPrefixed(s) == (prefix != "#x")
  {
    var s := prefix + d;
    assert s[..2] == prefix && s[2..] == d;
    assert !IsHexDigit(s[1]);
  }

  /** Only such texts are changed. */
  lemma OthersStay(s: string)
    requires NormalHex(s) != s
    ensures exists d :: d != "" && AllHex(d) && (s == d || s == "0x" + d || s == "0X" + d || s == "#x" + d)
  {
    var d := LiteralDigits(s);
    if !AllHex(s) {
      assert s == s[..2] + d;
    }
  }

  /** Normalizing twice is normalizing once, for every text. */
  lemma NormalHexIsIdempotent(s: string)
    ensures NormalHex(NormalHex(s)) == NormalHex(s)
  {
    if IsHexLiteral(s) {
      var r := NormalHex(s);
      var fit := Fit8(Raw(s));
      assert r[2..] == fit && r[..2] == "#x";
      assert r[1] == 'x';
      if AllHex(fit) {
        assert IsHexLiteral(r);
        RawOfLiteral(r);
        assert Fit8(fit) == fit;
      } else {
        assert !IsHexLiteral(r) by { assert !IsHexDigit(r[1]); }
      }
    }
  }

  lemma HexSmtDigits(n: int)
    ensures var s := HexSmt(n);
      && |s| >= 10 && s[..2] == "#x" && AllHex(s[2..]) && HexValue(s[2..]) == Wrap64(n)
  {
    var hex := HexText(Wrap64(n));
    HexValueOfText(Wrap64(n));
    if |hex| < 8 {
      ZerosValue(8 - |hex|, hex);
    }
    assert HexSmt(n)[2..] == if |hex| < 8 then Zeros(8 - |hex|) + hex else hex;
  }

  /** The SMT text of a long is a word of eight digits exactly when the long is an unsigned 32-bit
      number; otherwise it has more. */
  lemma SmtTextIsWord(n: int)
    requires -0x8000_0000_0000_0000 <= n < 0x8000_0000_0000_0000
    ensures IsWord(HexSmt(n)) <==> 0 <= n < 0x1_0000_0000
    ensures !IsWord(HexSmt(n)) ==> |HexSmt(n)| > 10
  {
    HexSmtDigits(n);
    Power16Of8();
    HexTextLength(Wrap64(n), 8);
    LowBits(n);
  }

  /** hexToInt of a "#x" literal. */
  lemma HexToIntSmt(s: string)
    requires |s| > 2 && s[..2] == "#x" && AllHex(s[2..])
    ensures HexToInt(s) == ParseLong16(s[2..])
  {
    var d := s[2..];
    assert s == "#x" + d;
    assert Lacks(d, 'S') && Lacks(d, '-');
    assert Lacks(s, 'S') && Lacks(s, '-');
    LacksContains(s, "SYM", 0);
    LacksContains(s, "-0x", 0);
    assert "#x" <= s;
  }

  /** For every long, the normal form of its SMT text is a word that hexToInt reads as the long's
      low 32 bits; and hexToInt reads the SMT text itself as the long exactly when the long is not
      negative, and throws otherwise. */
  lemma SmtTextRoundTrip(n: int)
    requires -0x8000_0000_0000_0000 <= n < 0x8000_0000_0000_0000
    ensures IsWord(NormalHex(HexSmt(n)))
    ensures HexToInt(NormalHex(HexSmt(n))) == Ok(Wrap32(n))
    ensures HexToInt(HexSmt(n)) == if n >= 0 then Ok(n) else Thrown
  {
    var s := HexSmt(n);
    HexSmtDigits(n);
    assert !IsHexDigit(s[0]) by { assert s[0] == s[..2][0]; }
    NormalHexIsWord(s);
    var r := NormalHex(s);
    HexToIntSmt(r);
    ParseDigits(r[2..]);
    HexToIntSmt(s);
    ParseDigits(s[2..]);
    LowBits(n);
  }

  lemma LowBits(n: int)
    ensures Wrap32(Wrap64(n)) == Wrap32(n)
    ensures -0x8000_0000_0000_0000 <= n < 0x8000_0000_0000_0000 ==>
      if n >= 0 then Wrap64(n) == n else Wrap64(n) >= 0x8000_0000_0000_0000
  {
    var q := n / 0x1_0000_0000_0000_0000;
    assert n == 0x1_0000_0000 * (0x1_0000_0000 * q) + Wrap64(n);
  }
}
