/** The string stream that instruction printers write to, and its number printers. */
module SStream {
  import opened Words
  import opened Numerals

  const CAPACITY: nat := 512
  const HEX_THRESHOLD: int := 9

  /** The text in a buffer that was last terminated at `index`, and appending to it. */
  ghost predicate Holds(buffer: seq<char>, index: int, text: string) {
    && |buffer| == CAPACITY && 0 <= index < CAPACITY - 1
    && buffer[..index] == text && buffer[index] == '\0'
  }

  /** What appending leaves: the whole text if it fits with its terminator, and otherwise as much
      as fits while the index moves on by the full length. */
  ghost predicate Appended(text: string, s: string, buffer: seq<char>, index: int) {
    && index == |text| + |s|
    && if index < CAPACITY - 1 then Holds(buffer, index, text + s)
       else |text + s| >= CAPACITY - 2 && Holds(buffer, CAPACITY - 2, (text + s)[..CAPACITY - 2])
  }

  class Stream {
    const buffer: array<char>
    var index: int

    ghost predicate Valid()
      reads this, buffer
    {
      buffer.Length == CAPACITY && Holds(buffer[..], index, Text())
    }

    ghost function Text(): string
      reads this, buffer
    {
      if 0 <= index <= buffer.Length then buffer[..index] else ""
    }

    /** SStream_Init. */
    constructor ()
      ensures Valid() && Text() == "" && fresh(buffer)
    {
      buffer := new char[CAPACITY];
      index := 0;
      new;
      buffer[0] := '\0';
    }

    /** SStream_concat of formatted text: vsnprintf into what is left of the buffer less one, and
        the index moves by the length that the text would have had. */
    method Concat(s: string)
      requires Valid()
      modifies this, buffer
      ensures Appended(old(Text()), s, buffer[..], index)
      ensures index < CAPACITY - 1 ==> Valid() && Text() == old(Text()) + s
    {
      ghost var text := Text();
      var size := CAPACITY - (index + 1);
      var n := if |s| < size then |s| else size - 1;
      for i := 0 to n
        invariant index == old(index)
        invariant buffer[..index] == text
        invariant forall j :: 0 <= j < i ==> buffer[index + j] == s[j]
      {
        buffer[index + i] := s[i];
      }
      buffer[index + n] := '\0';
      assert buffer[..index + n] == text + s[..n];
      assert n < |s| ==> (text + s)[..CAPACITY - 2] == text + s[..n];
      index := index + |s|;
    }

    /** printInt32Bang. */
    method PrintInt32Bang(val: int)
      requires Valid() && -0x8000_0000 <= val < 0x8000_0000
      modifies this, buffer
      ensures Appended(old(Text()), SignedBang(val), buffer[..], index)
    {
      var s: string;
      if val >= 0 {
        if val > HEX_THRESHOLD {
          s := "#0x" + HexText(val);
        } else {
          s := "#" + DecimalText(val);
        }
      } else {
        var magnitude := Wrap32(-val);
        assert magnitude == -val;
        if val < -HEX_THRESHOLD {
          s := "#-0x" + HexText(magnitude);
        } else {
          s := "#-" + DecimalText(magnitude);
        }
      }
      Concat(s);
    }

    /** printInt64Bang. */
    method PrintInt64Bang(val: int)
      requires Valid() && -0x8000_0000_0000_0000 <= val < 0x8000_0000_0000_0000
      modifies this, buffer
      ensures Appended(old(Text()), SignedBang(val), buffer[..], index)
    {
      var s: string;
      if val >= 0 {
        if val > HEX_THRESHOLD {
          s := "#0x" + HexText(val);
        } else {
          s := "#" + DecimalText(val);
        }
      } else {
        var magnitude := Wrap64(-val);
        assert magnitude == -val;
        if val < -HEX_THRESHOLD {
          s := "#-0x" + HexText(magnitude);
        } else {
          s := "#-" + DecimalText(magnitude);
        }
      }
      Concat(s);
    }

    /** printUInt32Bang. */
    method PrintUInt32Bang(val: nat)
      requires Valid() && val < 0x1_0000_0000
      modifies this, buffer
      ensures Appended(old(Text()), SignedBang(val), buffer[..], index)
    {
      Concat(if val > HEX_THRESHOLD then "#0x" + HexText(val) else "#" + DecimalText(val));
    }

    /** printInt32BangDec. */
    method PrintInt32BangDec(val: int)
      requires Valid() && -0x8000_0000 <= val < 0x8000_0000
      modifies this, buffer
      ensures Appended(old(Text()), DecimalBang(val), buffer[..], index)
    {
      var s: string;
      if val >= 0 {
        s := "#" + DecimalText(val);
      } else {
        var magnitude := Wrap32(-val);
        assert magnitude == -val;
        s := "#-" + DecimalText(magnitude);
      }
      Concat(s);
    }
  }

  /** A signed number as the printers show it: decimal while decimal and hexadecimal agree on the
      magnitude, hexadecimal above. */
  function SignedBang(val: int): string {
    if val > HEX_THRESHOLD then "#0x" + HexText(val)
    else if val >= 0 then "#" + DecimalText(val)
    else if val < -HEX_THRESHOLD then "#-0x" + HexText(-val)
    else "#-" + DecimalText(-val)
  }

  /** printInt32BangDec's text: decimal for every magnitude. */
  function DecimalBang(val: int): string {
    if val >= 0 then "#" + DecimalText(val) else "#-" + DecimalText(-val)
  }

  /** The printed text: a sign, and one decimal digit exactly up to magnitude 9, and otherwise 0x and
      lower-case hexadecimal digits for the magnitude, without a leading zero. */
  lemma BangShape(val: int)
    ensures var m: nat, sign := if val < 0 then -val else val, if val < 0 then "-" else "";
      if m <= 9 then SignedBang(val) == "#" + sign + ["0123456789"[m]]
      else
        && SignedBang(val) == "#" + sign + "0x" + HexText(m)
        && HexValue(HexText(m)) == m && HexText(m)[0] != '0'
        && forall i :: 0 <= i < |HexText(m)| ==> '0' <= HexText(m)[i] <= '9' || 'a' <= HexText(m)[i] <= 'f'
  {
    var m: nat := if val < 0 then -val else val;
    HexValueOfText(m);
    HexTextShape(m);
    assert m <= 9 ==> DecimalText(m) == ["0123456789"[m]];
  }

  /** The decimal printer's text: a sign and the magnitude's decimal digits. */
  lemma DecimalBangShape(val: int)
    ensures var m: nat, sign := if val < 0 then -val else val, if val < 0 then "-" else "";
      && DecimalBang(val) == "#" + sign + DecimalText(m)
      && AllDecimal(DecimalText(m)) && DecimalValue(DecimalText(m)) == m
  {
    DecimalValueOfText(if val < 0 then -val else val);
  }

  /** Appended text is there as a whole exactly when the buffer's 512 characters leave two to spare; else
      the first 510 characters are. */
  lemma AppendedMeans(text: string, s: string, buffer: seq<char>, index: int)
    requires |text| <= 510 && Appended(text, s, buffer, index)
    ensures |buffer| == 512 && index == |text + s|
    ensures var shown := if |text + s| <= 510 then text + s else (text + s)[..510];
      buffer[..|shown|] == shown && buffer[|shown|] == '\0'
  {
  }
}
