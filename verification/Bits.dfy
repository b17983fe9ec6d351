/** Natural numbers as bit patterns of any length. */
module Bits {

  function Pow2(n: nat): (p: nat)
    ensures 0 < p
  {
    if n == 0 then 1 else 2 * Pow2(n - 1)
  }

  /** `x >> s`. */
  function Shr(x: nat, s: nat): (r: nat)
    ensures r <= x
  {
    if s == 0 then x else Shr(x / 2, s - 1)
  }

  predicate Bit(x: nat, i: nat) {
    Shr(x, i) % 2 == 1
  }

  function Or(x: nat, y: nat): nat {
    if x == 0 then y else if y == 0 then x
    else 2 * Or(x / 2, y / 2) + if x % 2 == 1 || y % 2 == 1 then 1 else 0
  }

  function And(x: nat, y: nat): nat {
    if x == 0 || y == 0 then 0
    else 2 * And(x / 2, y / 2) + if x % 2 == 1 && y % 2 == 1 then 1 else 0
  }

  /** How many bits a number has, without leading zeros. */
  function Length(x: nat): nat {
    if x == 0 then 0 else 1 + Length(x / 2)
  }

  /** Two numbers with the same bits are the same. */
  lemma {:induction false} SameBits(x: nat, y: nat)
    requires forall i: nat :: Bit(x, i) == Bit(y, i)
    ensures x == y
    decreases x + y
  {
    if x > 0 || y > 0 {
      assert Bit(x, 0) == Bit(y, 0);
      forall i: nat
        ensures Bit(x / 2, i) == Bit(y / 2, i)
      {
        assert Bit(x, i + 1) == Bit(y, i + 1);
      }
      SameBits(x / 2, y / 2);
    }
  }

  lemma {:induction false} ZeroBits(i: nat)
    ensures !Bit(0, i)
  {
    if i > 0 {
      ZeroBits(i - 1);
    }
  }

  lemma {:induction false} OrBits(x: nat, y: nat, i: nat)
    ensures Bit(Or(x, y), i) <==> Bit(x, i) || Bit(y, i)
    decreases i
  {
    ZeroBits(i);
    if i > 0 && x != 0 && y != 0 {
      OrBits(x / 2, y / 2, i - 1);
      assert Or(x, y) / 2 == Or(x / 2, y / 2);
    }
  }

  lemma {:induction false} AndBits(x: nat, y: nat, i: nat)
    ensures Bit(And(x, y), i) <==> Bit(x, i) && Bit(y, i)
    decreases i
  {
    ZeroBits(i);
    if i > 0 && x != 0 && y != 0 {
      AndBits(x / 2, y / 2, i - 1);
      assert And(x, y) / 2 == And(x / 2, y / 2);
    }
  }

  lemma {:induction false} ShrShr(x: nat, s: nat, t: nat)
    ensures Shr(Shr(x, s), t) == Shr(x, s + t)
    decreases s
  {
    if s > 0 {
      ShrShr(x / 2, s - 1, t);
    }
  }

  /** The shift moves bit s + i to bit i. */
  lemma ShrBits(x: nat, s: nat, i: nat)
    ensures Bit(Shr(x, s), i) == Bit(x, s + i)
  {
    ShrShr(x, s, i);
  }

  lemma {:induction false} ShrIsDivision(x: nat, s: nat)
    ensures Shr(x, s) * Pow2(s) <= x < (Shr(x, s) + 1) * Pow2(s)
    decreases s
  {
    if s > 0 {
      ShrIsDivision(x / 2, s - 1);
      var q, p := Shr(x / 2, s - 1), Pow2(s - 1);
      Doubled(q, p);
      Doubled(q + 1, p);
      HalfBetween(x, q * p, (q + 1) * p);
    }
  }

  lemma Doubled(q: nat, p: nat)
    ensures q * (2 * p) == 2 * (q * p)
  {
  }

  lemma HalfBetween(x: nat, low: int, high: int)
    requires low <= x / 2 < high
    ensures 2 * low <= x < 2 * high
  {
  }

  /** The length is the one position that the number lies below while its half does not. */
  lemma {:induction false} LengthBounds(x: nat, n: nat)
    ensures Length(x) <= n <==> x < Pow2(n)
    decreases n
  {
    if x > 0 && n > 0 {
      LengthBounds(x / 2, n - 1);
    }
  }

  lemma {:induction false} LengthOfShr(x: nat, s: nat)
    ensures Length(Shr(x, s)) == if Length(x) < s then 0 else Length(x) - s
    decreases s
  {
    if s > 0 {
      LengthOfShr(x / 2, s - 1);
    }
  }

  /** The bits from the length on are clear, and the one below it is set. */
  lemma TopBit(x: nat, i: nat)
    ensures Length(x) <= i ==> !Bit(x, i)
    ensures Length(x) == i + 1 ==> Bit(x, i)
  {
    LengthOfShr(x, i);
    var r := Shr(x, i);
    assert Length(r) == 0 ==> r == 0;
    assert Length(r) == 1 ==> r / 2 == 0;
  }

  lemma {:induction false} OnesBits(n: nat, i: nat)
    ensures Bit(Pow2(n) - 1, i) <==> i < n
    decreases i
  {
    if n == 0 {
      ZeroBits(i);
    } else {
      assert (Pow2(n) - 1) / 2 == Pow2(n - 1) - 1;
      if i > 0 {
        OnesBits(n - 1, i - 1);
      }
    }
  }

  lemma {:induction false} PowBits(n: nat, i: nat)
    ensures Bit(Pow2(n), i) <==> i == n
    decreases i
  {
    if n == 0 {
      if i > 0 {
        ZeroBits(i - 1);
        assert Pow2(0) / 2 == 0;
      }
    } else if i > 0 {
      assert Pow2(n) / 2 == Pow2(n - 1);
      PowBits(n - 1, i - 1);
    }
  }

  lemma {:induction false} PowGrows(m: nat, n: nat)
    ensures m <= n <==> Pow2(m) <= Pow2(n)
    decreases m + n
  {
    if m > 0 && n > 0 {
      PowGrows(m - 1, n - 1);
    }
  }

  lemma {:induction false} PowAdds(m: nat, n: nat)
    ensures Pow2(m + n) == Pow2(m) * Pow2(n)
  {
    if m > 0 {
      PowAdds(m - 1, n);
    }
  }

  lemma GroupSizes()
    ensures Pow2(7) == 0x80 && Pow2(14) == 0x4000 && Pow2(21) == 0x20_0000 && Pow2(28) == 0x1000_0000
  {
    PowAdds(7, 7);
    PowAdds(7, 14);
    PowAdds(7, 21);
  }

  lemma WordSizes()
    ensures Pow2(31) == 0x8000_0000 && Pow2(32) == 0x1_0000_0000
    ensures Pow2(63) == 0x8000_0000_0000_0000 && Pow2(64) == 0x1_0000_0000_0000_0000
  {
    GroupSizes();
    PowAdds(3, 28);
    assert Pow2(3) == 8;
    PowAdds(32, 32);
    PowAdds(31, 32);
  }
}
