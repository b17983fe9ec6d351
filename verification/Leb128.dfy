/** Unsigned LEB128 numbers (section 7.6 of DWARF version 4), as decodeULEB128 reads them. */
module Leb128 {
  import opened Words
  import opened Bits

  /** The encoding: seven bits to a byte, low bits first, the high bit set on all but the last. */
  function Encode(v: nat): (bytes: seq<byte>)
    ensures bytes != []
  {
    if v < 128 then [v] else [v % 128 + 128] + Encode(v / 128)
  }

  /** How many bytes of a number there are from `at` on: up to the first below 128. */
  ghost predicate Ends(code: seq<byte>, at: nat) {
    exists k :: at <= k < |code| && code[k] < 128
  }

  /** `(b & 0x7f) << shift` in 32-bit signed arithmetic, then widened to 64 bits. C leaves it
      undefined when a bit is shifted into the sign or the shift reaches 32; `beyond` stands for
      what an implementation makes of the latter. */
  function Contribution(b: byte, shift: nat, beyond: (byte, nat) -> int): int {
    if shift < 32 then Signed32(b % 128 * Pow2(shift)) else beyond(b, shift)
  }

  /** The sum of the contributions of the bytes from `at` on, up to the number's end. */
  function Total(code: seq<byte>, at: nat, shift: nat, beyond: (byte, nat) -> int): int
    requires at <= |code|
    decreases |code| - at
  {
    if at == |code| then 0
    else Contribution(code[at], shift, beyond)
         + if code[at] < 128 then 0 else Total(code, at + 1, Wrap32(shift + 7), beyond)
  }

  /** How many bytes the number at `at` has. */
  function Length(code: seq<byte>, at: nat): nat
    requires at <= |code|
    decreases |code| - at
  {
    if at == |code| then 0 else if code[at] < 128 then 1 else 1 + Length(code, at + 1)
  }

  /** decodeULEB128, on a buffer in which a number ends. */
  method Decode(code: seq<byte>, beyond: (byte, nat) -> int) returns (value: nat, n: nat)
    requires Ends(code, 0)
    ensures value == Wrap64(Total(code, 0, 0, beyond)) && n == Wrap32(Length(code, 0))
  {
    var p, shift, more := 0, 0, true;
    ghost var sum := 0;
    value := 0;
    while more
      invariant p <= |code| && (more ==> Ends(code, p))
      invariant value == Wrap64(sum)
      invariant sum + (if more then Total(code, p, shift, beyond) else 0) == Total(code, 0, 0, beyond)
      invariant p + (if more then Length(code, p) else 0) == Length(code, 0)
      decreases more, |code| - p
    {
      var c := Contribution(code[p], shift, beyond);
      NextAddress(sum, 0, c);
      sum := sum + c;
      value := Wrap64(value + c);
      shift := Wrap32(shift + 7);
      more := code[p] >= 128;
      p := p + 1;
    }
    n := Wrap32(p);
  }

  // ---------------------------------------------------------------- decoding what was encoded

  /** An encoded number ends where its encoding does, whatever follows. */
  lemma {:induction false} EncodedLength(v: nat, rest: seq<byte>)
    ensures Ends(Encode(v) + rest, 0) && Length(Encode(v) + rest, 0) == |Encode(v)|
    decreases v
  {
    var code := Encode(v) + rest;
    if v < 128 {
      assert code[0] == v;
    } else {
      var tail := Encode(v / 128) + rest;
      EncodedLength(v / 128, rest);
      assert code == [v % 128 + 128] + tail;
      LengthShift(tail, code, 0);
      var k :| 0 <= k < |tail| && tail[k] < 128;
      assert code[k + 1] < 128;
    }
  }

  lemma {:induction false} LengthShift(tail: seq<byte>, code: seq<byte>, at: nat)
    requires |code| == |tail| + 1 && code[1..] == tail && at <= |tail|
    ensures Length(code, at + 1) == Length(tail, at)
    decreases |tail| - at
  {
    if at < |tail| {
      assert code[at + 1] == code[1..][at];
      LengthShift(tail, code, at + 1);
    }
  }

  /** The scale of the group at `shift`, and how many of its multiples there are below 2^31. */
  predicate Scaled(shift: nat, scale: nat, room: nat) {
    || (shift == 0 && scale == 1 && room == 0x8000_0000)
    || (shift == 7 && scale == 0x80 && room == 0x100_0000)
    || (shift == 14 && scale == 0x4000 && room == 0x2_0000)
    || (shift == 21 && scale == 0x20_0000 && room == 0x400)
    || (shift == 28 && scale == 0x1000_0000 && room == 8)
  }

  lemma EncodedFirst(v: nat)
    ensures Encode(v)[0] % 128 == v % 128 && (Encode(v)[0] < 128 <==> v < 128)
    ensures v >= 128 ==> Encode(v)[1..] == Encode(v / 128)
  {
  }

  /** The first byte of an encoding, and the encoding of the rest behind it. */
  lemma EncodedAt(v: nat, code: seq<byte>, at: nat)
    requires at + |Encode(v)| <= |code| && code[at..at + |Encode(v)|] == Encode(v)
    ensures at < |code| && code[at] % 128 == v % 128 && (code[at] < 128 <==> v < 128)
    ensures v >= 128 ==>
      && at + 1 + |Encode(v / 128)| <= |code|
      && code[at + 1..at + 1 + |Encode(v / 128)|] == Encode(v / 128)
  {
    var bytes := code[at..at + |Encode(v)|];
    EncodedFirst(v);
    assert code[at] == bytes[0];
    if v >= 128 {
      assert code[at + 1..at + 1 + |Encode(v / 128)|] == bytes[1..];
    }
  }

  /** The decoder's accumulator over an encoding at `at`, of which the lower groups are done. */
  lemma {:induction false} EncodedTotal(
      v: nat, code: seq<byte>, at: nat, shift: nat, scale: nat, room: nat, beyond: (byte, nat) -> int)
    requires at + |Encode(v)| <= |code| && code[at..at + |Encode(v)|] == Encode(v)
    requires Scaled(shift, scale, room) && v * scale < 0x1_0000_0000
    ensures Total(code, at, shift, beyond) == Signed32(v * scale)
    decreases v
  {
    EncodedAt(v, code, at);
    ScaleIs(shift, scale, room);
    GroupValue(code[at], v, shift, scale, beyond);
    TotalUnfolds(code, at, shift, beyond);
    if v < 128 {
      assert v % 128 == v;
    } else {
      NextGroup(v, shift, scale, room);
      EncodedTotal(v / 128, code, at + 1, shift + 7, scale * 128, room / 128, beyond);
      GroupsAdd(v, scale, room / 128);
    }
  }

  lemma GroupValue(b: byte, v: nat, shift: nat, scale: nat, beyond: (byte, nat) -> int)
    requires b % 128 == v % 128 && shift < 32 && Pow2(shift) == scale
    ensures Contribution(b, shift, beyond) == Signed32(v % 128 * scale)
  {
  }

  lemma TotalUnfolds(code: seq<byte>, at: nat, shift: nat, beyond: (byte, nat) -> int)
    requires at < |code| && shift <= 28
    ensures Total(code, at, shift, beyond) == Contribution(code[at], shift, beyond)
            + if code[at] < 128 then 0 else Total(code, at + 1, shift + 7, beyond)
  {
    assert Wrap32(shift + 7) == shift + 7;
  }

  lemma GroupsAdd(v: nat, scale: nat, room: nat)
    requires 0 < scale && scale * 128 * room == 0x8000_0000 && v * scale < 0x1_0000_0000
    ensures Signed32(v % 128 * scale) + Signed32(v / 128 * (scale * 128)) == Signed32(v * scale)
  {
    Regroup(v, scale);
    Multiples(v / 128, v % 128, scale, scale * 128, room);
    var m := scale * 128;
    assert 1 <= room && m <= 0x8000_0000 by {
      assert m * 1 <= m * room;
    }
    SignedSum(v % 128 * scale, v / 128 * m, m);
  }

  lemma ScaleIs(shift: nat, scale: nat, room: nat)
    requires Scaled(shift, scale, room)
    ensures Pow2(shift) == scale
  {
    GroupSizes();
  }

  lemma NextGroup(v: nat, shift: nat, scale: nat, room: nat)
    requires Scaled(shift, scale, room) && v * scale < 0x1_0000_0000 && 128 <= v
    ensures Scaled(shift + 7, scale * 128, room / 128)
    ensures v / 128 * (scale * 128) < 0x1_0000_0000
    ensures scale * 128 * (room / 128) == 0x8000_0000
  {
  }

  lemma Regroup(v: nat, scale: nat)
    ensures v % 128 * scale + v / 128 * (scale * 128) == v * scale
  {
    assert v == 128 * (v / 128) + v % 128;
    assert v / 128 * (scale * 128) == (128 * (v / 128)) * scale;
  }

  lemma Multiples(q: nat, r: nat, scale: nat, m: nat, room: nat)
    requires r < 128 && m == scale * 128 && 0 < m && m * room == 0x8000_0000
    ensures r * scale < m
    ensures q * m < 0x8000_0000 ==> q * m + m <= 0x8000_0000
  {
    assert r * scale + scale <= 128 * scale;
    if q < room {
      assert q * m + m == (q + 1) * m <= room * m;
    } else {
      assert q * m >= room * m;
    }
  }

  /** The low group never carries into the sign of the rest. */
  lemma SignedSum(x: nat, y: nat, m: nat)
    requires x < m && x + y < 0x1_0000_0000 && x < 0x8000_0000
    requires y < 0x8000_0000 ==> y + m <= 0x8000_0000
    ensures Signed32(x) + Signed32(y) == Signed32(x + y)
  {
  }

  lemma WidenSigned(v: nat)
    requires v < 0x1_0000_0000
    ensures Wrap64(Signed32(v)) == if v < 0x8000_0000 then v else v + 0xFFFF_FFFF_0000_0000
  {
  }

  /** For every number below 2^32 and whatever follows it, decodeULEB128 consumes exactly the
      encoding, and its value is the number exactly below 2^31: from there on the last group is
      shifted into the sign, and the value is 2^64 - 2^32 too large. */
  lemma DecodeEncoded(v: nat, rest: seq<byte>, beyond: (byte, nat) -> int)
    requires v < 0x1_0000_0000
    ensures var code := Encode(v) + rest;
      && Ends(code, 0) && Length(code, 0) == |Encode(v)|
      && Wrap64(Total(code, 0, 0, beyond)) ==
         if v < 0x8000_0000 then v else v + 0xFFFF_FFFF_0000_0000
  {
    EncodedLength(v, rest);
    var code := Encode(v) + rest;
    assert code[0..0 + |Encode(v)|] == Encode(v);
    EncodedTotal(v, code, 0, 0, 1, 0x8000_0000, beyond);
    assert v * 1 == v;
    WidenSigned(v);
  }

  // ---------------------------------------------------------------- every number

  /** The first four groups are the number's low 28 bits. */
  lemma FourGroups(v: nat, code: seq<byte>, beyond: (byte, nat) -> int)
    requires |Encode(v)| <= |code| && code[..|Encode(v)|] == Encode(v) && 0x1000_0000 <= v
    ensures var u := v / 0x1000_0000;
      && 4 + |Encode(u)| <= |code| && code[4..4 + |Encode(u)|] == Encode(u)
      && Total(code, 0, 0, beyond) == v % 0x1000_0000 + Total(code, 4, 28, beyond)
      && Length(code, 0) == 4 + Length(code, 4)
  {
    assert code[0..0 + |Encode(v)|] == Encode(v);
    TwoGroups(v, code, 0, 0, 1, beyond);
    TwoGroups(v / 0x4000, code, 2, 14, 0x4000, beyond);
    assert v / 0x4000 / 0x4000 == v / 0x1000_0000;
    assert v % 0x1000_0000 == v % 0x4000 + v / 0x4000 % 0x4000 * 0x4000;
  }

  lemma TwoGroups(v: nat, code: seq<byte>, at: nat, shift: nat, scale: nat, beyond: (byte, nat) -> int)
    requires at + |Encode(v)| <= |code| && code[at..at + |Encode(v)|] == Encode(v) && 0x4000 <= v
    requires (shift == 0 && scale == 1) || (shift == 14 && scale == 0x4000)
    ensures var u := v / 0x4000;
      && at + 2 + |Encode(u)| <= |code| && code[at + 2..at + 2 + |Encode(u)|] == Encode(u)
      && Total(code, at, shift, beyond) == v % 0x4000 * scale + Total(code, at + 2, shift + 14, beyond)
      && Length(code, at) == 2 + Length(code, at + 2)
  {
    var room := if shift == 0 then 0x8000_0000 else 0x2_0000;
    OneGroup(v, code, at, shift, scale, room, beyond);
    OneGroup(v / 128, code, at + 1, shift + 7, scale * 128, room / 128, beyond);
    assert v / 128 / 128 == v / 0x4000;
    assert v % 0x4000 == v % 128 + v / 128 % 128 * 128;
  }

  lemma OneGroup(
      v: nat, code: seq<byte>, at: nat, shift: nat, scale: nat, room: nat, beyond: (byte, nat) -> int)
    requires at + |Encode(v)| <= |code| && code[at..at + |Encode(v)|] == Encode(v) && 128 <= v
    requires Scaled(shift, scale, room) && shift <= 21
    ensures at + 1 + |Encode(v / 128)| <= |code|
    ensures code[at + 1..at + 1 + |Encode(v / 128)|] == Encode(v / 128)
    ensures Total(code, at, shift, beyond) == v % 128 * scale + Total(code, at + 1, shift + 7, beyond)
    ensures Length(code, at) == 1 + Length(code, at + 1)
  {
    EncodedAt(v, code, at);
    ScaleIs(shift, scale, room);
    GroupValue(code[at], v, shift, scale, beyond);
    TotalUnfolds(code, at, shift, beyond);
    SmallGroup(v % 128, shift, scale, room);
  }

  lemma SmallGroup(r: nat, shift: nat, scale: nat, room: nat)
    requires r < 128 && Scaled(shift, scale, room) && shift <= 21
    ensures Signed32(r * scale) == r * scale
  {
    assert r * scale <= 128 * scale;
  }

  /** An outcome of the shifts that C leaves undefined: they contribute nothing, but for the one
      by 35. */
  function At35(x: int): (byte, nat) -> int {
    (b, shift) => if shift == 35 then x else 0
  }

  lemma {:induction false} LaterGroups(code: seq<byte>, at: nat, shift: nat, x: int)
    requires at <= |code| && 35 < shift && shift + 7 * Length(code, at) < 0x1_0000_0000
    ensures Total(code, at, shift, At35(x)) == 0
    decreases |code| - at
  {
    if at < |code| && code[at] >= 128 {
      LaterGroups(code, at + 1, shift + 7, x);
    }
  }

  lemma {:induction false} EncodingLength(v: nat, k: nat)
    requires v < Pow2(7 * k)
    ensures |Encode(v)| <= if k == 0 then 1 else k
    decreases k
  {
    if v >= 128 {
      GroupSizes();
      PowAdds(7, 7 * (k - 1));
      EncodingLength(v / 128, k - 1);
    }
  }

  /** From the sixth group on, what is decoded is up to the undefined shifts. */
  lemma SixGroups(v: nat, code: seq<byte>, x: int)
    requires |Encode(v)| <= |code| && code[..|Encode(v)|] == Encode(v)
    requires 0x8_0000_0000 <= v && Length(code, 0) <= 10
    ensures Total(code, 0, 0, At35(x)) == Total(code, 0, 0, At35(0)) + x
  {
    FourGroups(v, code, At35(x));
    FourGroups(v, code, At35(0));
    EncodedAt(v / 0x1000_0000, code, 4);
    EncodedAt(v / 0x1000_0000 / 128, code, 5);
    TotalUnfolds(code, 4, 28, At35(x));
    TotalUnfolds(code, 4, 28, At35(0));
    if code[5] >= 128 {
      LaterGroups(code, 6, 42, x);
      LaterGroups(code, 6, 42, 0);
    }
  }

  /** With five groups, the sum stays within 2^28 of a signed 32-bit number. */
  lemma FiveGroups(v: nat, code: seq<byte>, beyond: (byte, nat) -> int)
    requires |Encode(v)| <= |code| && code[..|Encode(v)|] == Encode(v)
    requires 0x1_0000_0000 <= v < 0x8_0000_0000
    ensures Wrap64(Total(code, 0, 0, beyond)) != v
  {
    FourGroups(v, code, beyond);
    EncodedAt(v / 0x1000_0000, code, 4);
    TotalUnfolds(code, 4, 28, beyond);
    StaysSmall(v % 0x1000_0000, Contribution(code[4], 28, beyond), v);
  }

  lemma StaysSmall(low: nat, high: int, v: nat)
    requires low < 0x1000_0000 && -0x8000_0000 <= high < 0x8000_0000
    requires 0x1_0000_0000 <= v < 0x8_0000_0000
    ensures Wrap64(low + high) != v
  {
  }

  /** The number is decoded from its encoding, whatever becomes of undefined shifts. */
  ghost predicate Decodes(v: nat, rest: seq<byte>) {
    forall beyond: (byte, nat) -> int :: DecodesWith(v, rest, beyond)
  }

  ghost predicate DecodesWith(v: nat, rest: seq<byte>, beyond: (byte, nat) -> int) {
    Wrap64(Total(Encode(v) + rest, 0, 0, beyond)) == v
  }

  /** Of all numbers, exactly those below 2^31 are sure to be decoded from their encoding. */
  lemma DecodesBelow31(v: nat, rest: seq<byte>)
    ensures Decodes(v, rest) <==> v < 0x8000_0000
  {
    var code := Encode(v) + rest;
    EncodedLength(v, rest);
    if v < 0x1_0000_0000 {
      forall beyond: (byte, nat) -> int
        ensures DecodesWith(v, rest, beyond) <==> v < 0x8000_0000
      {
        DecodeEncoded(v, rest, beyond);
      }
      assert DecodesWith(v, rest, At35(0)) <==> v < 0x8000_0000;
    } else if v < 0x8_0000_0000 {
      FiveGroups(v, code, At35(0));
      assert !DecodesWith(v, rest, At35(0));
    } else if v < 0x1_0000_0000_0000_0000 {
      TenGroups(v);
      SixGroups(v, code, 1);
      assert !(DecodesWith(v, rest, At35(0)) && DecodesWith(v, rest, At35(1)));
    } else {
      assert !DecodesWith(v, rest, At35(0));
    }
  }

  lemma TenGroups(v: nat)
    requires v < 0x1_0000_0000_0000_0000
    ensures |Encode(v)| <= 10
  {
    WordSizes();
    PowGrows(64, 70);
    EncodingLength(v, 10);
  }

  /** No encoding is the beginning of another. */
  lemma {:induction false} EncodingIsPrefixFree(u: nat, v: nat)
    requires Encode(u) <= Encode(v)
    ensures u == v
    decreases u
  {
    assert Encode(u)[0] == Encode(v)[0];
    if u >= 128 {
      assert v >= 128;
      assert Encode(u)[1..] == Encode(u / 128) && Encode(v)[1..] == Encode(v / 128);
      EncodingIsPrefixFree(u / 128, v / 128);
    }
  }

  /** The examples of the standard, decoded and encoded. */
  lemma StandardExamples()
    ensures Encode(2) == [0x02] && Encode(127) == [0x7F] && Encode(128) == [0x80, 0x01]
    ensures Encode(129) == [0x81, 0x01] && Encode(130) == [0x82, 0x01] && Encode(12857) == [0xB9, 0x64]
  {
  }
}
