/** The text fields of an instruction: how printed text is split into mnemonic and operands, and
    how skipped data is shown. Texts are C strings, so they hold no NUL. */
module Text {
  import opened Words
  import opened Numerals

  const MNEMONIC_CAPACITY: nat := 32
  const OP_STR_CAPACITY: nat := 160

  predicate IsBlank(c: char) { c == ' ' || c == '\t' }

  /** The length of the text's first word: everything before its first blank. */
  function WordLength(text: string): (n: nat)
    ensures n <= |text|
  {
    if text == "" || IsBlank(text[0]) then 0 else 1 + WordLength(text[1..])
  }

  function BlankLength(text: string): (n: nat)
    ensures n <= |text|
  {
    if text != "" && IsBlank(text[0]) then 1 + BlankLength(text[1..]) else 0
  }

  /** '|' joins lock and rep prefixes to an x86 mnemonic; it is shown as a space. */
  function ShowPrefixes(word: string): (shown: string)
    ensures |shown| == |word|
  {
    seq(|word|, i requires 0 <= i < |word| => if word[i] == '|' then ' ' else word[i])
  }

  function Mnemonic(text: string): string {
    ShowPrefixes(text[..WordLength(text)])
  }

  function Operands(text: string): string {
    var rest := text[WordLength(text)..];
    Truncated(rest[BlankLength(rest)..], OP_STR_CAPACITY)
  }

  /** What fits a C string buffer of the given capacity, with its terminator. */
  function Truncated(text: string, capacity: nat): (t: string)
    requires 0 < capacity
    ensures t <= text && |t| < capacity
  {
    if |text| < capacity then text else text[..capacity - 1]
  }

  lemma {:induction false} WordLengthIs(text: string, n: nat)
    requires n <= |text| && (forall i :: 0 <= i < n ==> !IsBlank(text[i]))
    requires n < |text| ==> IsBlank(text[n])
    ensures WordLength(text) == n
  {
    if n > 0 {
      WordLengthIs(text[1..], n - 1);
    }
  }

  lemma {:induction false} BlankLengthIs(text: string, n: nat)
    requires n <= |text| && (forall i :: 0 <= i < n ==> IsBlank(text[i]))
    requires n < |text| ==> !IsBlank(text[n])
    ensures BlankLength(text) == n
  {
    if n > 0 {
      BlankLengthIs(text[1..], n - 1);
    }
  }

  /** Printing a word, blanks and operands, and splitting the text again, gives back the operands
      and the word with its prefixes shown; nothing is lost that fits the two fields. */
  lemma SplitText(word: string, blanks: string, operands: string)
    requires forall i :: 0 <= i < |word| ==> !IsBlank(word[i])
    requires forall i :: 0 <= i < |blanks| ==> IsBlank(blanks[i])
    requires operands != "" ==> blanks != "" && !IsBlank(operands[0])
    ensures Mnemonic(word + blanks + operands) == ShowPrefixes(word)
    ensures Operands(word + blanks + operands) == Truncated(operands, OP_STR_CAPACITY)
  {
    var text := word + blanks + operands;
    WordLengthIs(text, |word|);
    assert text[..|word|] == word;
    assert text[|word|..] == blanks + operands;
    BlankLengthIs(blanks + operands, |blanks|);
    assert (blanks + operands)[|blanks|..] == operands;
  }

  /** The splitting loops of fill_insn over the printed text. */
  method SplitPrinted(text: string) returns (mnemonic: string, opStr: string)
    ensures mnemonic == Mnemonic(text) && opStr == Operands(text)
  {
    var sp := 0;
    mnemonic := "";
    while sp < |text| && text[sp] != ' ' && text[sp] != '\t'
      invariant sp <= |text| && mnemonic == ShowPrefixes(text[..sp])
      invariant forall i :: 0 <= i < sp ==> !IsBlank(text[i])
    {
      mnemonic := mnemonic + [if text[sp] == '|' then ' ' else text[sp]];
      sp := sp + 1;
    }
    WordLengthIs(text, sp);
    ghost var rest := text[sp..];
    if sp < |text| {
      ghost var word := sp;
      sp := sp + 1;
      while sp < |text| && (text[sp] == ' ' || text[sp] == '\t')
        invariant word < sp <= |text|
        invariant forall i :: 0 <= i < sp - word ==> IsBlank(rest[i])
      {
        sp := sp + 1;
      }
      BlankLengthIs(rest, sp - word);
      assert rest[sp - word..] == text[sp..];
      opStr := Truncated(text[sp..], OP_STR_CAPACITY);
    } else {
      opStr := "";
    }
  }

  // ---------------------------------------------------------------- skipped data

  /** A byte as `0x%02x` prints it. */
  function HexByte(b: byte): (s: string)
    ensures |s| == 4
  {
    ['0', 'x', DigitChar(b / 16), DigitChar(b % 16)]
  }

  /** The bytes in hexadecimal, separated by commas. */
  function Listed(data: seq<byte>): string {
    var n := |data|;
    if n == 0 then ""
    else if n == 1 then HexByte(data[0])
    else Listed(data[..n - 1]) + (", " + HexByte(data[n - 1]))
  }

  lemma ListedSnoc(data: seq<byte>, i: nat)
    requires 0 < i < |data|
    ensures Listed(data[..i + 1]) == Listed(data[..i]) + (", " + HexByte(data[i]))
  {
    assert data[..i + 1][..i] == data[..i];
  }

  lemma ListedCut(data: seq<byte>, i: nat, printed: string, available: nat)
    requires 0 < i < |data| && printed == ", " + HexByte(data[i])
    requires available == OP_STR_CAPACITY - |Listed(data[..i])| && 0 < available <= |printed|
    ensures Listed(data[..i]) + Truncated(printed, available) == SkipText(data)
  {
    ListedSnoc(data, i);
    ListedPrefix(data, i + 1);
    var shown, cut := Listed(data[..i]), available - 1;
    assert (shown + printed)[..|shown| + cut] == shown + printed[..cut];
  }

  /** The operand text of a data instruction: as much of the list as op_str holds. */
  function SkipText(data: seq<byte>): string {
    Truncated(Listed(data), OP_STR_CAPACITY)
  }

  lemma {:induction false} ListedLength(data: seq<byte>)
    ensures |Listed(data)| == if data == [] then 0 else 6 * |data| - 2
  {
    if |data| > 1 {
      ListedLength(data[..|data| - 1]);
    }
  }

  lemma {:induction false} ListedPrefix(data: seq<byte>, n: nat)
    requires n <= |data|
    ensures Listed(data[..n]) <= Listed(data)
    decreases |data|
  {
    if n < |data| {
      var init := data[..|data| - 1];
      ListedPrefix(init, n);
      assert init[..n] == data[..n];
      assert data[..0] == [];
    } else {
      assert data[..n] == data;
    }
  }

  /** skipdata_opstr: repeated bounded prints at a moving pointer with a shrinking capacity, until
      one does not fit. The print that does not fit still leaves its beginning behind. */
  method SkipdataOpstr(buffer: seq<byte>) returns (opStr: string)
    ensures opStr == SkipText(buffer)
  {
    if |buffer| == 0 {
      return "";
    }
    var available := OP_STR_CAPACITY;
    var printed := HexByte(buffer[0]);
    opStr := Truncated(printed, available);
    available := available - |printed|;
    var i := 1;
    assert Listed(buffer[..1]) == opStr by { assert buffer[..1] == [buffer[0]]; }
    while i < |buffer|
      invariant 1 <= i <= |buffer|
      invariant opStr == Listed(buffer[..i])
      invariant available == OP_STR_CAPACITY - |opStr| && 0 < available
    {
      printed := ", " + HexByte(buffer[i]);
      if |printed| > available - 1 {
        ListedCut(buffer, i, printed, available);
        opStr := opStr + Truncated(printed, available);
        return;
      }
      ListedSnoc(buffer, i);
      opStr := opStr + printed;
      available := available - |printed|;
      i := i + 1;
    }
    assert buffer[..i] == buffer;
  }
}
