/** Corana's conversions between integers and java.util.BitSet, here a finite set of positions. */
module BitSets {
  import opened Words
  import opened Bits

  /** The set of one bits among the lowest 32 bits of an int. */
  ghost predicate BitsOf(bits: set<nat>, value: int) {
    forall i: nat :: i in bits <==> i < 32 && Bit(Wrap32(value), i)
  }

  /** Java's remainder of division by two: its sign is that of the dividend. */
  function Rem2(value: int): int {
    if value >= 0 then value % 2 else -((-value) % 2)
  }

  lemma OddInJava(value: int)
    requires -0x8000_0000 <= value < 0x8000_0000
    ensures Rem2(value) != 0 <==> Wrap32(value) % 2 == 1
  {
    assert Wrap32(value) == if value >= 0 then value else value + 0x1_0000_0000;
  }

  lemma HighBits(x: nat, i: nat)
    requires x < 0x1_0000_0000 && 32 <= i
    ensures !Bit(x, i)
  {
    WordSizes();
    LengthBounds(x, 32);
    TopBit(x, i);
  }

  /** intToBitSet. The unsigned shift makes a negative value non-negative in the first round, and
      halves it in every one. */
  method IntToBitSet(v: int) returns (bits: set<nat>)
    requires -0x8000_0000 <= v < 0x8000_0000
    ensures BitsOf(bits, v)
  {
    var value, index := v, 0;
    ghost var pattern := Wrap32(v);
    bits := {};
    while value != 0
      invariant -0x8000_0000 <= value < 0x8000_0000
      invariant Wrap32(value) == Shr(pattern, index)
      invariant forall i: nat :: i in bits <==> i < index && Bit(pattern, i)
      decreases Wrap32(value)
    {
      OddInJava(value);
      assert Bit(pattern, index) <==> Rem2(value) != 0;
      if Rem2(value) != 0 {
        bits := bits + {index};
      }
      ShrShr(pattern, index, 1);
      index := index + 1;
      value := Wrap32(value) / 2;
    }
    forall i: nat
      ensures i in bits <==> i < 32 && Bit(pattern, i)
    {
      NoMoreBits(pattern, index, i);
    }
  }

  lemma NoMoreBits(pattern: nat, index: nat, i: nat)
    requires pattern < 0x1_0000_0000 && Shr(pattern, index) == 0
    ensures i >= index || i >= 32 ==> !Bit(pattern, i)
  {
    if i >= index {
      ShrBits(pattern, index, i - index);
      ZeroBits(i - index);
    } else if i >= 32 {
      HighBits(pattern, i);
    }
  }

  /** An int whose bits are the lowest 32 positions of the set. */
  ghost predicate IntOf(b: set<nat>, r: int) {
    && -0x8000_0000 <= r < 0x8000_0000
    && forall i: nat :: i < 32 ==> (Bit(Wrap32(r), i) <==> i in b)
  }

  /** bitSetToInt: or the bits together; bit 31 is the sign. */
  method BitSetToInt(b: set<nat>) returns (r: int)
    ensures IntOf(b, r)
  {
    var u: nat := 0;
    forall j: nat
      ensures !Bit(u, j)
    {
      ZeroBits(j);
    }
    for i := 0 to 32
      invariant u < Pow2(i)
      invariant forall j: nat :: Bit(u, j) <==> j < i && j in b
    {
      ghost var before := u;
      if i in b {
        u := Or(u, Pow2(i));
      }
      forall j: nat
        ensures Bit(u, j) <==> j < i + 1 && j in b
      {
        OrBits(before, Pow2(i), j);
        PowBits(i, j);
      }
      BitsBound(u, i + 1);
    }
    WordSizes();
    r := Signed32(u);
    assert Wrap32(r) == u;
  }

  /** A number whose bits all lie below n is below 2^n. */
  lemma BitsBound(u: nat, n: nat)
    requires forall j: nat :: Bit(u, j) ==> j < n
    ensures u < Pow2(n)
  {
    if u > 0 {
      TopBit(u, Length(u) - 1);
    }
    LengthBounds(u, n);
  }

  lemma SameLowBits(x: int, y: int)
    requires -0x8000_0000 <= x < 0x8000_0000 && -0x8000_0000 <= y < 0x8000_0000
    requires forall i: nat :: i < 32 ==> Bit(Wrap32(x), i) == Bit(Wrap32(y), i)
    ensures x == y
  {
    forall i: nat
      ensures Bit(Wrap32(x), i) == Bit(Wrap32(y), i)
    {
      if i >= 32 {
        HighBits(Wrap32(x), i);
        HighBits(Wrap32(y), i);
      }
    }
    SameBits(Wrap32(x), Wrap32(y));
  }

  /** Converting an int to a bit set and back gives the int, negative ones included. */
  lemma IntRoundTrip(v: int, bits: set<nat>, r: int)
    requires -0x8000_0000 <= v < 0x8000_0000 && BitsOf(bits, v) && IntOf(bits, r)
    ensures r == v
  {
    SameLowBits(v, r);
  }

  // ---------------------------------------------------------------- bitSetToLong

  /** The number that the positions below n denote. */
  function ValueBelow(b: set<nat>, n: nat): nat {
    if n == 0 then 0 else ValueBelow(b, n - 1) + if n - 1 in b then Pow2(n - 1) else 0
  }

  /** The positions from n - 1 down to n - k as text. */
  function Binary(b: set<nat>, n: nat, k: nat): string
    requires k <= n
  {
    if k == 0 then "" else Binary(b, n, k - 1) + (if n - k in b then "1" else "0")
  }

  /** Long.parseLong(s, 2) for a text of at most 63 binary digits. */
  function ParseBinary(s: string): nat {
    if s == "" then 0 else 2 * ParseBinary(s[..|s| - 1]) + if s[|s| - 1] == '1' then 1 else 0
  }

  lemma {:induction false} ValueShifted(b: set<nat>, n: nat, k: nat)
    requires k <= n
    ensures |Binary(b, n, k)| == k
    ensures ParseBinary(Binary(b, n, k)) == Shr(ValueBelow(b, n), n - k)
    decreases k
  {
    var v := ValueBelow(b, n);
    if k == 0 {
      ValueIsBelow(b, n);
      LengthBounds(v, n);
      LengthOfShr(v, n);
    } else {
      ValueShifted(b, n, k - 1);
      var s := Binary(b, n, k);
      assert s[..|s| - 1] == Binary(b, n, k - 1);
      ShrStep(v, n - k);
      ValueBits(b, n, n - k);
    }
  }

  lemma ShrStep(v: nat, s: nat)
    ensures Shr(v, s) == 2 * Shr(v, s + 1) + if Bit(v, s) then 1 else 0
  {
    ShrShr(v, s, 1);
    assert Shr(Shr(v, s), 1) == Shr(v, s) / 2;
  }

  lemma {:induction false} ValueIsBelow(b: set<nat>, n: nat)
    ensures ValueBelow(b, n) < Pow2(n)
  {
    if n > 0 {
      ValueIsBelow(b, n - 1);
    }
  }

  lemma {:induction false} ValueBits(b: set<nat>, n: nat, i: nat)
    ensures Bit(ValueBelow(b, n), i) <==> i < n && i in b
    decreases n
  {
    if n == 0 {
      ZeroBits(i);
    } else {
      var v := ValueBelow(b, n - 1);
      ValueBits(b, n - 1, i);
      if n - 1 in b {
        ValueIsBelow(b, n - 1);
        TopBitAdded(v, n - 1, i);
      }
    }
  }

  lemma {:induction false} TopBitAdded(v: nat, n: nat, i: nat)
    requires v < Pow2(n)
    ensures Bit(v + Pow2(n), i) <==> Bit(v, i) || i == n
    decreases n
  {
    if n == 0 {
      PowBits(0, i);
      ZeroBits(i);
    } else if i > 0 {
      assert (v + Pow2(n)) / 2 == v / 2 + Pow2(n - 1);
      TopBitAdded(v / 2, n - 1, i - 1);
    } else {
      assert Pow2(n) % 2 == 0;
    }
  }

  /** BitSet.length: one more than the highest position, or 0. */
  ghost predicate IsLength(b: set<nat>, n: nat) {
    (n > 0 ==> n - 1 in b) && forall i :: i in b ==> i < n
  }

  /** bitSetToLong: the bits as text from the highest down, the first 32 of them read in binary and
      cut to an int. `length` is the set's length. */
  method BitSetToLong(b: set<nat>, length: nat) returns (r: int)
    requires IsLength(b, length)
    ensures r == LongOf(b, length)
  {
    if length == 0 {
      return 0;
    }
    var s := "";
    var i: int := length - 1;
    while i >= 0
      invariant -1 <= i < length
      invariant s == Binary(b, length, length - 1 - i)
    {
      s := s + if i in b then "1" else "0";
      i := i - 1;
    }
    if length > 32 {
      s := Leading(s, b, length);
      ValueShifted(b, length, 32);
    } else {
      ValueShifted(b, length, length);
    }
    r := Signed32(ParseBinary(s));
  }

  /** `result.substring(0, 32)`. */
  method Leading(s: string, ghost b: set<nat>, ghost n: nat) returns (t: string)
    requires n > 32 && s == Binary(b, n, n)
    ensures t == Binary(b, n, 32)
  {
    BinaryPrefix(b, n, 32, n);
    t := s[..32];
  }

  lemma {:induction false} BinaryPrefix(b: set<nat>, n: nat, k: nat, m: nat)
    requires k <= m <= n
    ensures |Binary(b, n, k)| == k && |Binary(b, n, m)| == m && Binary(b, n, m)[..k] == Binary(b, n, k)
    decreases m
  {
    if k < m {
      BinaryPrefix(b, n, k, m - 1);
    } else if k > 0 {
      BinaryPrefix(b, n, k - 1, k - 1);
    }
  }

  /** What bitSetToLong returns for a set of the given length. */
  function LongOf(b: set<nat>, length: nat): int {
    Signed32(Shr(ValueBelow(b, length), if length > 32 then length - 32 else 0))
  }

  lemma LongBits(b: set<nat>, length: nat, i: nat)
    requires i < 32
    ensures Bit(Wrap32(LongOf(b, length)), i) <==>
      var k := if length > 32 then i + (length - 32) else i; k < length && k in b
  {
    var shift := if length > 32 then length - 32 else 0;
    var v := ValueBelow(b, length);
    var top := Shr(v, shift);
    ValueIsBelow(b, length);
    LengthBounds(v, length);
    LengthOfShr(v, shift);
    LengthBounds(top, 32);
    WordSizes();
    assert Wrap32(Signed32(top)) == top;
    ShrBits(v, shift, i);
    ValueBits(b, length, shift + i);
  }

  /** The highest 32 positions of a set longer than 32 are its lowest 32, moved up. */
  ghost predicate EndsAlike(b: set<nat>, length: nat)
    requires length > 32
  {
    forall i: nat :: i < 32 ==> (i in b <==> i + (length - 32) in b)
  }

  /** bitSetToLong keeps the highest 32 positions of a set and bitSetToInt the lowest, so they agree
      exactly on a set without a bit above 31, and on a longer one that has the same bits at both
      ends. */
  lemma LongAgreesWithInt(b: set<nat>, length: nat, r: int)
    requires IsLength(b, length) && IntOf(b, r)
    ensures LongOf(b, length) == r <==> length <= 32 || EndsAlike(b, length)
  {
    if length <= 32 || EndsAlike(b, length) {
      forall i: nat | i < 32
        ensures Bit(Wrap32(LongOf(b, length)), i) == Bit(Wrap32(r), i)
      {
        LongBits(b, length, i);
        assert Bit(Wrap32(r), i) <==> i in b;
      }
      SameLowBits(LongOf(b, length), r);
    } else {
      var i: nat :| i < 32 && !(i in b <==> i + (length - 32) in b);
      LongBits(b, length, i);
      assert Bit(Wrap32(r), i) <==> i in b;
    }
  }

  /** Position 32 alone is read as the int's sign by one, and not at all by the other. */
  lemma LongDiffersFromInt(r: int)
    requires IntOf({32}, r)
    ensures IsLength({32}, 33) && LongOf({32}, 33) != r
  {
    LongAgreesWithInt({32}, 33, r);
    assert 31 !in {32} && 31 + (33 - 32) in {32};
  }
}
