/** Rounding up to a power of two by smearing the leading bit downwards. */
module NextPower {
  import opened Words
  import opened Bits

  /** Each bit of `a` is set when one of the `reach` bits of `x` from there up is. */
  ghost predicate Smeared(a: nat, x: nat, reach: nat) {
    forall i: nat :: Bit(a, i) <==> Reached(x, i, reach)
  }

  ghost predicate Reached(x: nat, i: nat, reach: nat) {
    exists j: nat :: i <= j < i + reach && Bit(x, j)
  }

  /** `a |= a >> reach` doubles the reach. */
  lemma SmearStep(a: nat, x: nat, reach: nat)
    requires Smeared(a, x, reach)
    ensures Smeared(Or(a, Shr(a, reach)), x, 2 * reach)
  {
    forall i: nat
      ensures Bit(Or(a, Shr(a, reach)), i) <==> Reached(x, i, 2 * reach)
    {
      OrBits(a, Shr(a, reach), i);
      ShrBits(a, reach, i);
      assert Bit(a, i) == Reached(x, i, reach) && Bit(a, reach + i) == Reached(x, reach + i, reach);
      if Reached(x, i, 2 * reach) {
        var j: nat :| i <= j < i + 2 * reach && Bit(x, j);
        if j < i + reach {
          assert Reached(x, i, reach);
        } else {
          assert Reached(x, reach + i, reach);
        }
      }
    }
  }

  lemma SmearStart(x: nat)
    ensures Smeared(x, x, 1)
  {
    forall i: nat
      ensures Bit(x, i) <==> Reached(x, i, 1)
    {
    }
  }

  /** Smearing over the whole length leaves ones from the leading bit down. */
  lemma SmearedIsOnes(a: nat, x: nat, reach: nat)
    requires Smeared(a, x, reach) && Length(x) <= reach
    ensures a == Pow2(Length(x)) - 1
  {
    forall i: nat
      ensures Bit(a, i) == Bit(Pow2(Length(x)) - 1, i)
    {
      OnesBits(Length(x), i);
      assert Bit(a, i) == Reached(x, i, reach);
      if i < Length(x) {
        TopBit(x, Length(x) - 1);
      } else if Reached(x, i, reach) {
        var j: nat :| i <= j < i + reach && Bit(x, j);
        TopBit(x, j);
      }
    }
    SameBits(a, Pow2(Length(x)) - 1);
  }

  /** `a |= a >> s` in 64 bits, with the smearing it achieves. */
  method Smear(a: nat, s: nat, ghost x: nat) returns (r: nat)
    requires Smeared(a, x, s)
    ensures Smeared(r, x, 2 * s)
  {
    SmearStep(a, x, s);
    r := Or(a, Shr(a, s));
  }

  lemma OnesPlusOne(x: nat)
    requires x < 0x1_0000_0000_0000_0000
    ensures Wrap64(Pow2(Length(x))) == if x < 0x8000_0000_0000_0000 then Pow2(Length(x)) else 0
  {
    WordSizes();
    LengthBounds(x, 64);
    LengthBounds(x, 63);
    if x < 0x8000_0000_0000_0000 {
      PowGrows(Length(x), 63);
    } else {
      assert Length(x) == 64;
    }
  }

  /** NextPowerOf2: the least power of two strictly greater than the number, or 0 exactly when that
      power is 2^64. */
  method NextPowerOf2(x: nat) returns (r: nat)
    requires x < 0x1_0000_0000_0000_0000
    ensures r == 0 <==> x >= 0x8000_0000_0000_0000
    ensures r != 0 ==> x < r && exists n: nat :: r == Pow2(n)
    ensures r != 0 ==> forall n: nat :: x < Pow2(n) <==> r <= Pow2(n)
  {
    SmearStart(x);
    var a := Smear(x, 1, x);
    a := Smear(a, 2, x);
    a := Smear(a, 4, x);
    a := Smear(a, 8, x);
    a := Smear(a, 16, x);
    a := Smear(a, 32, x);
    LengthIsAtMost64(x);
    SmearedIsOnes(a, x, 64);
    r := Wrap64(a + 1);
    OnesPlusOne(x);
    LengthBounds(x, Length(x));
    forall n: nat
      ensures x < Pow2(n) <==> Pow2(Length(x)) <= Pow2(n)
    {
      LengthBounds(x, n);
      PowGrows(Length(x), n);
    }
  }

  lemma LengthIsAtMost64(x: nat)
    requires x < 0x1_0000_0000_0000_0000
    ensures Length(x) <= 64
  {
    WordSizes();
    LengthBounds(x, 64);
  }
}
