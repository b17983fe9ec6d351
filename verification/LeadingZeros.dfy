/** Counting leading zeros by bisection, and the logarithms and rounding built on it. */
module LeadingZeros {
  import opened Words
  import opened Bits

  /** `|=` of a power of two with a number that has only higher bits is addition. */
  lemma {:induction false} OrHigher(c: nat, k: nat)
    requires c % (2 * Pow2(k)) == 0
    ensures Or(c, Pow2(k)) == c + Pow2(k)
    decreases k
  {
    var s := Pow2(k);
    if c != 0 {
      var q := c / (2 * s);
      assert c == 2 * s * q;
      if k == 0 {
        assert s == 1 && Or(c, 1) == 2 * Or(c / 2, 0) + 1;
      } else {
        var h := Pow2(k - 1);
        assert c / 2 == 2 * h * q by { assert c == 2 * (2 * h * q); }
        Multiple(2 * h, q);
        OrHigher(c / 2, k - 1);
      }
    }
  }

  lemma Multiple(m: nat, q: nat)
    requires 0 < m
    ensures (m * q) % m == 0
  {
    ModUnique(m * q, m, q, 0);
  }

  /** The number is a multiple of the size. The quantifier keeps the verifier from dividing in the loop. */
  ghost predicate Aligned(c: nat, size: nat) {
    0 < size && forall u: Unfolding :: IsAligned(u, c, size)
  }

  ghost predicate IsAligned(u: Unfolding, c: nat, size: nat)
    requires 0 < size
  {
    c % size == 0
  }

  /** One round: the window of 2 * shift bits that the leading bit is in is halved. */
  lemma Round(v: nat, count: nat, shift: nat, j: nat)
    requires shift == Pow2(j) && 0 < Length(v) <= 2 * shift && Aligned(count, 2 * shift)
    ensures Shr(v, shift) != 0 ==> Length(v) > shift && Length(Shr(v, shift)) == Length(v) - shift
    ensures Shr(v, shift) == 0 ==> Length(v) <= shift && Or(count, shift) == count + shift
    ensures Aligned(count, shift) && Aligned(count + shift, shift)
  {
    assert IsAligned(Unfold, count, 2 * shift);
    LengthOfShr(v, shift);
    EmptyIsZero(Shr(v, shift));
    OrHigher(count, j);
    Halves(count, shift);
  }

  lemma EmptyIsZero(v: nat)
    ensures Length(v) == 0 <==> v == 0
  {
  }

  /** The bisection loop of CountLeadingZeros_32 and of CountLeadingZeros_64, for a nonzero value:
      halve the window that the leading bit is in, and count the upper half when it is empty. */
  method Bisect(value: nat, width: nat, ghost k: nat) returns (count: nat)
    requires width == Pow2(k) && 0 < Length(value) <= width
    ensures count == width - Length(value)
  {
    var v, shift := value, width / 2;
    ghost var j, window := k, width;
    count := 0;
    while shift != 0
      invariant window == Pow2(j) && shift == window / 2 && 0 < Length(v) <= window
      invariant count + window - Length(v) == width - Length(value)
      invariant Aligned(count, window)
      decreases shift
    {
      assert window == 2 * Pow2(j - 1);
      Round(v, count, shift, j - 1);
      var tmp := Shr(v, shift);
      if tmp != 0 {
        v := tmp;
      } else {
        count := Or(count, shift);
      }
      j, window := j - 1, shift;
      shift := shift / 2;
    }
  }

  lemma Halves(c: nat, s: nat)
    requires 0 < s && c % (2 * s) == 0
    ensures c % s == 0 && (c + s) % s == 0
  {
    var q := c / (2 * s);
    assert c == s * (2 * q);
    Multiple(s, 2 * q);
    assert c + s == s * (2 * q + 1);
    Multiple(s, 2 * q + 1);
  }

  lemma WordLengths(value: nat)
    ensures value < 0x1_0000_0000 <==> Length(value) <= 32
    ensures value < 0x1_0000_0000_0000_0000 <==> Length(value) <= 64
    ensures Length(value) == 0 <==> value == 0
    ensures Pow2(5) == 32 && Pow2(6) == 64
  {
    WordSizes();
    LengthBounds(value, 32);
    LengthBounds(value, 64);
    EmptyIsZero(value);
  }

  /** CountLeadingZeros_32, by bisection; 32 for zero. */
  method CountLeadingZeros32(value: nat) returns (count: nat)
    requires value < 0x1_0000_0000
    ensures count == 32 - Length(value) && count <= 32
  {
    WordLengths(value);
    if value == 0 {
      return 32;
    }
    count := Bisect(value, 32, 5);
  }

  /** A high half that is not 0 has the leading bit; otherwise the low half is the value. */
  lemma HalvesOf(value: nat)
    requires Length(value) <= 64
    ensures var hi := Shr(value, 32);
      hi < 0x1_0000_0000 && if hi != 0 then Length(value) == Length(hi) + 32 else value < 0x1_0000_0000
  {
    LengthOfShr(value, 32);
    WordLengths(Shr(value, 32));
    WordLengths(value);
  }

  /** CountLeadingZeros_64: bisection where a long has 64 bits, two halves where it does not. */
  method CountLeadingZeros64(value: nat, longIs64: bool) returns (count: nat)
    requires value < 0x1_0000_0000_0000_0000
    ensures count == 64 - Length(value) && count <= 64
  {
    WordLengths(value);
    if longIs64 {
      if value == 0 {
        return 64;
      }
      count := Bisect(value, 64, 6);
    } else {
      HalvesOf(value);
      var hi := Shr(value, 32);
      if hi != 0 {
        count := CountLeadingZeros32(hi);
      } else {
        var lo := Wrap32(value);
        count := CountLeadingZeros32(lo);
        count := count + 32;
      }
    }
  }

  /** Log2_32: for a nonzero value the exponent of the largest power of two up to it. For zero the
      documented -1 is the unsigned 2^32 - 1. */
  method Log2Of32(value: nat) returns (log: nat)
    requires value < 0x1_0000_0000
    ensures value > 0 ==> Pow2(log) <= value < Pow2(log + 1)
    ensures value == 0 ==> log == 0xFFFF_FFFF
  {
    var zeros: int;
    zeros := CountLeadingZeros32(value);
    log := Wrap32(31 - zeros);
    if value > 0 {
      assert log == Length(value) - 1;
      LengthBounds(value, log);
      LengthBounds(value, log + 1);
    }
  }

  /** Log2_32_Ceil: the exponent of the least power of two that is not below the value; 32 for
      zero. */
  method Log2CeilOf32(value: nat) returns (log: nat)
    requires value < 0x1_0000_0000
    ensures value > 0 ==> forall n: nat :: value <= Pow2(n) <==> log <= n
    ensures value == 0 ==> log == 32
  {
    var zeros := CountLeadingZeros32(Wrap32(value - 1));
    log := 32 - zeros;
    if value > 0 {
      assert Wrap32(value - 1) == value - 1;
      forall n: nat
        ensures value <= Pow2(n) <==> log <= n
      {
        LengthBounds(value - 1, n);
      }
    } else {
      WordSizes();
      LengthBounds(0xFFFF_FFFF, 31);
      LengthBounds(0xFFFF_FFFF, 32);
    }
  }

  lemma SignIsTopBit(v: int)
    requires -0x8000_0000 <= v < 0x8000_0000
    ensures v < 0 <==> Length(Wrap32(v)) == 32
    ensures Length(Wrap32(v)) <= 32
  {
    WordSizes();
    LengthBounds(Wrap32(v), 31);
    LengthBounds(Wrap32(v), 32);
  }

  lemma Doubling(v: int)
    requires 0 <= v < 0x8000_0000
    ensures Wrap32(v) == v && Wrap32(Signed32(2 * v)) == 2 * v
    ensures Length(2 * v) == if v == 0 then 0 else Length(v) + 1
  {
    assert 2 * v / 2 == v;
  }

  /** countLeadingZeros: the shifting loop over a signed int stops after 31 rounds, so it counts the
      leading zeros of every value but 0, for which it returns 31. */
  method CountLeadingZerosByShifting(x: int) returns (count: nat)
    requires -0x8000_0000 <= x < 0x8000_0000
    ensures count == if x == 0 then 31 else 32 - Length(Wrap32(x))
  {
    SignIsTopBit(x);
    ghost var length := Length(Wrap32(x));
    assert length == 0 <==> x == 0;
    var v, i := x, 31;
    count := 0;
    while i != 0
      invariant 0 <= i <= 31 && count == 31 - i
      invariant -0x8000_0000 <= v < 0x8000_0000
      invariant length + (if x == 0 then 0 else count) == Length(Wrap32(v)) <= 32
      decreases i
    {
      SignIsTopBit(v);
      if v < 0 {
        break;
      }
      Doubling(v);
      assert Wrap32(v) == 0 <==> length == 0;
      count := count + 1;
      v := Signed32(2 * v);
      SignIsTopBit(v);
      i := i - 1;
    }
  }
}
