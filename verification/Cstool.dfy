/** cstool's reader of hexadecimal input, and the printers whose output it can read back. */
module Cstool {
  import opened Words
  import opened Numerals
  import opened Text
  import opened Decoding

  /** char_to_hexnum, for the characters that isxdigit accepts. */
  function CharToHexnum(c: char): (d: byte)
    requires IsHexDigit(c)
    ensures d == DigitValue(c)
  {
    if '0' <= c <= '9' then c as int - '0' as int
    else if 'a' <= c <= 'f' then 10 + c as int - 'a' as int
    else 10 + c as int - 'A' as int
  }

  /** A digit stands at its value among the sixteen, in lower or in upper case, and nowhere else. */
  lemma DigitsInOrder(c: char, d: nat)
    requires IsHexDigit(c) && d < 16
    ensures CharToHexnum(c) == d <==> c == "0123456789abcdef"[d] || c == "0123456789ABCDEF"[d]
  {
    var lower, upper := "0123456789abcdef", "0123456789ABCDEF";
    if d < 10 {
      assert lower[d] == upper[d] == '0' + d as char;
    } else {
      assert lower[d] == 'a' + (d - 10) as char && upper[d] == 'A' + (d - 10) as char;
    }
  }

  function Pair(high: char, low: char): byte
    requires IsHexDigit(high) && IsHexDigit(low)
  {
    16 * DigitValue(high) + DigitValue(low)
  }

  /** The bytes that a text spells: its pairs of hexadecimal digits, from the left. */
  function Scanned(code: string): seq<byte> {
    if |code| < 2 then []
    else if IsHexDigit(code[0]) && IsHexDigit(code[1]) then [Pair(code[0], code[1])] + Scanned(code[2..])
    else Scanned(code[1..])
  }

  /** A text of digits alone spells a byte for each two of them, the high digit first. */
  lemma {:induction false} DigitsSpell(code: string, i: nat)
    requires AllHex(code) && 2 * i + 1 < |code|
    ensures |Scanned(code)| == |code| / 2
    ensures Scanned(code)[i] == 16 * DigitValue(code[2 * i]) + DigitValue(code[2 * i + 1])
  {
    DigitsCount(code);
    if i > 0 {
      DigitsSpell(code[2..], i - 1);
    }
  }

  lemma {:induction false} DigitsCount(code: string)
    requires AllHex(code)
    ensures |Scanned(code)| == |code| / 2
  {
    if |code| >= 2 {
      DigitsCount(code[2..]);
    }
  }

  /** preprocess: `granted` says whether malloc succeeds; None stands for its null result. */
  method Preprocess(code: string, granted: bool) returns (result: Option<array<byte>>, size: nat)
    requires '\0' !in code
    ensures result.Some? <==> granted
    ensures result.Some? ==>
      && fresh(result.value) && result.value.Length == |code|
      && 2 * size <= |code| && result.value[..size] == Scanned(code)
  {
    if !granted {
      return None, 0;
    }
    var bytes := new byte[|code|];
    var i, j := 0, 0;
    while i < |code|
      invariant 2 * j <= i <= |code|
      invariant bytes[..j] + Scanned(code[i..]) == Scanned(code)
    {
      ghost var rest := code[i..];
      var next := if i + 1 < |code| then code[i + 1] else '\0';
      if IsHexDigit(code[i]) && IsHexDigit(next) {
        var high, low := 16 * CharToHexnum(code[i]), CharToHexnum(next);
        bytes[j] := high + low;
        assert rest[2..] == code[i + 2..];
        i := i + 1;
        j := j + 1;
      } else {
        assert rest[1..] == code[i + 1..];
      }
      i := i + 1;
    }
    result, size := Some(bytes), j;
  }

  /** What print_string_hex prints for the bytes. */
  function Spaced(data: seq<byte>): string {
    if data == [] then "" else HexByte(data[0]) + " " + Spaced(data[1..])
  }

  /** Five characters for each byte. */
  lemma {:induction false} SpacedAt(data: seq<byte>, i: nat)
    requires i < |data|
    ensures |Spaced(data)| == 5 * |data|
    ensures Spaced(data)[5 * i..5 * i + 5] ==
            ['0', 'x', "0123456789abcdef"[data[i] / 16], "0123456789abcdef"[data[i] % 16], ' ']
  {
    SpacedLength(data);
    var first, rest := HexByte(data[0]) + " ", Spaced(data[1..]);
    if i > 0 {
      SpacedAt(data[1..], i - 1);
      assert Spaced(data)[5 * i..5 * i + 5] == rest[5 * (i - 1)..5 * (i - 1) + 5];
    } else {
      DigitsAre(data[0] / 16);
      DigitsAre(data[0] % 16);
      assert Spaced(data)[..5] == first;
    }
  }

  lemma {:induction false} SpacedLength(data: seq<byte>)
    ensures |Spaced(data)| == 5 * |data|
  {
    if data != [] {
      SpacedLength(data[1..]);
    }
  }

  /** print_string_hex; `output` is what it writes to the standard output. */
  method PrintStringHex(comment: string, str: seq<byte>) returns (output: string)
    ensures output == comment + (Spaced(str) + "\n")
  {
    output := comment;
    for c := 0 to |str|
      invariant output + (Spaced(str[c..]) + "\n") == comment + (Spaced(str) + "\n")
    {
      ghost var rest := str[c..];
      assert rest[0] == str[c] && rest[1..] == str[c + 1..];
      assert output + (Spaced(rest) + "\n") == output + (HexByte(str[c]) + " ") + (Spaced(rest[1..]) + "\n");
      output := output + (HexByte(str[c]) + " ");
    }
    output := output + "\n";
  }

  // ---------------------------------------------------------------- reading printed bytes

  /** Scanning a text leaves its last character unpaired, and it is a digit. */
  predicate Pending(code: string) {
    if code == "" then false
    else if |code| == 1 then IsHexDigit(code[0])
    else if IsHexDigit(code[0]) && IsHexDigit(code[1]) then Pending(code[2..])
    else Pending(code[1..])
  }

  lemma {:induction false} PendingIsLast(code: string)
    requires Pending(code)
    ensures code != "" && IsHexDigit(code[|code| - 1])
  {
    if |code| > 1 {
      PendingIsLast(if IsHexDigit(code[0]) && IsHexDigit(code[1]) then code[2..] else code[1..]);
    }
  }

  lemma {:induction false} PendingJoin(code: string, rest: string)
    requires !Pending(code)
    ensures Pending(code + rest) == Pending(rest)
    decreases |code|
  {
    var all := code + rest;
    if code == "" {
      assert all == rest;
    } else if |code| == 1 {
      assert all[1..] == rest;
    } else if IsHexDigit(code[0]) && IsHexDigit(code[1]) {
      PendingJoin(code[2..], rest);
      assert all[2..] == code[2..] + rest;
    } else {
      PendingJoin(code[1..], rest);
      assert all[1..] == code[1..] + rest;
    }
  }

  /** What scanning two texts after one another yields, if a digit pending at the end of the first
      pairs with a digit that follows it. */
  function Joined(code: string, rest: string): seq<byte>
    requires Pending(code) ==> code != "" && IsHexDigit(code[|code| - 1])
  {
    Together(Scanned(code), Pending(code), if code == "" then ' ' else code[|code| - 1], rest)
  }

  function Together(data: seq<byte>, pending: bool, last: char, rest: string): seq<byte>
    requires pending ==> IsHexDigit(last)
  {
    if pending && rest != "" && IsHexDigit(rest[0])
    then data + [Pair(last, rest[0])] + Scanned(rest[1..])
    else data + Scanned(rest)
  }

  lemma {:induction false} ScanJoin(code: string, rest: string)
    ensures Pending(code) ==> code != "" && IsHexDigit(code[|code| - 1])
    ensures Scanned(code + rest) == Joined(code, rest)
    decreases |code|
  {
    if Pending(code) {
      PendingIsLast(code);
    }
    if |code| <= 1 {
      ScanJoinShort(code, rest);
    } else {
      var k := First(code);
      ScanJoin(code[k..], rest);
      assert First(code + rest) == k && (code + rest)[k..] == code[k..] + rest;
      ScanHead(code + rest);
      ScanHead(code);
      var head := if k == 2 then [Pair(code[0], code[1])] else [];
      TogetherHead(head, Scanned(code[k..]), Pending(code), code[|code| - 1], rest);
      assert code[k..] != "" ==> code[k..][|code[k..]| - 1] == code[|code| - 1];
    }
  }

  /** How many characters scanning takes at a time. */
  function First(code: string): nat
    requires |code| >= 2
  {
    if IsHexDigit(code[0]) && IsHexDigit(code[1]) then 2 else 1
  }

  lemma ScanHead(code: string)
    requires |code| >= 2
    ensures var k := First(code);
      && Scanned(code) == (if k == 2 then [Pair(code[0], code[1])] else []) + Scanned(code[k..])
      && Pending(code) == Pending(code[k..])
  {
  }

  lemma TogetherHead(head: seq<byte>, data: seq<byte>, pending: bool, last: char, rest: string)
    requires pending ==> IsHexDigit(last)
    ensures Together(head + data, pending, last, rest) == head + Together(data, pending, last, rest)
  {
  }

  lemma ScanJoinShort(code: string, rest: string)
    requires |code| <= 1
    ensures Pending(code) ==> code != "" && IsHexDigit(code[|code| - 1])
    ensures Scanned(code + rest) == Joined(code, rest)
  {
    var all := code + rest;
    if code == "" {
      assert all == rest;
    } else if rest != "" {
      assert all[1..] == rest && all[2..] == rest[1..];
    }
  }

  lemma ScanHexByte(b: byte)
    ensures Scanned(HexByte(b)) == [b] && !Pending(HexByte(b))
  {
    var s := HexByte(b);
    assert s[1..][1..] == s[2..];
    assert s[2..][2..] == "";
    assert Scanned(s[2..]) == [Pair(s[2], s[3])] + Scanned("");
    assert Pending(s[2..]) == Pending("");
  }

  /** A text of characters that are not digits spells nothing. */
  lemma {:induction false} ScanSeparators(s: string)
    requires forall i :: 0 <= i < |s| ==> !IsHexDigit(s[i])
    ensures Scanned(s) == [] && !Pending(s)
  {
    if |s| > 1 {
      ScanSeparators(s[1..]);
    }
  }

  /** A separator before or after a printed byte adds nothing to what it spells. */
  lemma ScanSeparated(sep: string, b: byte)
    requires forall i :: 0 <= i < |sep| ==> !IsHexDigit(sep[i])
    ensures Scanned(sep + HexByte(b)) == [b] && !Pending(sep + HexByte(b))
    ensures Scanned(HexByte(b) + sep) == [b] && !Pending(HexByte(b) + sep)
  {
    var s := HexByte(b);
    ScanHexByte(b);
    ScanSeparators(sep);
    ScanJoin(sep, s);
    PendingJoin(sep, s);
    ScanJoin(s, sep);
    PendingJoin(s, sep);
  }

  lemma {:induction false} ScanSpaced(data: seq<byte>)
    ensures Scanned(Spaced(data) + "\n") == data && !Pending(Spaced(data))
  {
    if data == [] {
      assert Spaced(data) + "\n" == "\n";
    } else {
      var first, rest := HexByte(data[0]) + " ", Spaced(data[1..]);
      ScanSpaced(data[1..]);
      ScanSeparated(" ", data[0]);
      ScanJoin(first, rest + "\n");
      PendingJoin(first, rest);
      assert Spaced(data) + "\n" == first + (rest + "\n");
    }
  }

  /** preprocess recovers the bytes that print_string_hex prints after a comment, and before them
      what the comment itself spells, exactly unless the comment ends in a digit that is still
      waiting for its partner. */
  lemma PrintedBytesRoundTrip(comment: string, data: seq<byte>)
    ensures Scanned(comment + (Spaced(data) + "\n")) == Scanned(comment) + data
            <==> !Pending(comment) || data == []
  {
    var body := Spaced(data) + "\n";
    ScanJoin(comment, body);
    ScanSpaced(data);
    if data != [] {
      assert body[0] == HexByte(data[0])[0] == '0';
      if Pending(comment) {
        StolenZero(comment, body, data);
      }
    }
  }

  /** The pending digit takes the first '0' as its partner, which adds a byte. */
  lemma StolenZero(comment: string, body: string, data: seq<byte>)
    requires Pending(comment) && |body| > 1 && body[0] == '0' && !IsHexDigit(body[1])
    requires Scanned(body) == data
    ensures comment != "" && IsHexDigit(comment[|comment| - 1])
    ensures Joined(comment, body) != Scanned(comment) + data
  {
    PendingIsLast(comment);
    assert Scanned(body) == Scanned(body[1..]);
    assert |Joined(comment, body)| == |Scanned(comment)| + 1 + |data|;
  }

  // ---------------------------------------------------------------- reading skipped data

  lemma {:induction false} ScanListed(data: seq<byte>)
    ensures Scanned(Listed(data)) == data && !Pending(Listed(data))
  {
    var n := |data|;
    if n == 1 {
      ScanHexByte(data[0]);
    } else if n > 1 {
      var shown, printed := Listed(data[..n - 1]), ", " + HexByte(data[n - 1]);
      ScanListed(data[..n - 1]);
      ScanSeparated(", ", data[n - 1]);
      ScanJoin(shown, printed);
      PendingJoin(shown, printed);
      assert data == data[..n - 1] + [data[n - 1]];
    }
  }

  lemma CutText(data: seq<byte>)
    requires |data| > 26
    ensures SkipText(data) == Listed(data[..26]) + (", " + HexByte(data[26])[..3])
  {
    ListedLength(data);
    ListedLength(data[..26]);
    ListedSnoc(data, 26);
    ListedPrefix(data, 27);
    var shown, printed := Listed(data[..26]), ", " + HexByte(data[26]);
    assert printed[..5] == ", " + HexByte(data[26])[..3];
    assert (shown + printed)[..159] == shown + printed[..5];
  }

  /** The operand text of skipped data spells its first 26 bytes: what fits the field, although the
      text of the 27th is begun. */
  lemma SkipTextSpells(data: seq<byte>)
    ensures Scanned(SkipText(data)) == if |data| <= 26 then data else data[..26]
  {
    ListedLength(data);
    if |data| <= 26 {
      ScanListed(data);
    } else {
      var shown, cut := Listed(data[..26]), ", " + HexByte(data[26])[..3];
      CutText(data);
      ScanListed(data[..26]);
      ScanJoin(shown, cut);
      assert cut == ", 0x" + [HexByte(data[26])[2]];
      ScanCut(HexByte(data[26])[2]);
    }
  }

  lemma ScanCut(c: char)
    ensures Scanned(", 0x" + [c]) == []
  {
    var s := ", 0x" + [c];
    ScanSeparators(", ");
    ScanJoin(", ", "0x" + [c]);
    assert s == ", " + ("0x" + [c]);
    var t := "0x" + [c];
    assert t[1..][1..] == [c];
    assert Scanned(t) == Scanned(t[1..]) == Scanned([c]) == [];
  }

  /** So preprocess recovers skipped data from its operand text exactly up to 26 bytes. */
  lemma SkippedDataRoundTrip(data: seq<byte>)
    ensures Scanned(SkipText(data)) == data <==> |data| <= 26
  {
    SkipTextSpells(data);
  }
}
