/** Counting trailing zeros by isolating the lowest set bit and looking it up in a table indexed by
    its remainder modulo a prime. */
module TrailingZeros {
  import opened Words
  import opened Bits

  /** The position of the lowest set bit. */
  function Trailing(v: nat): nat
    requires 0 < v
  {
    if v % 2 == 1 then 0 else 1 + Trailing(v / 2)
  }

  /** It is the exponent of the largest power of two that divides the number. */
  lemma {:induction false} TrailingDivides(v: nat, n: nat)
    requires 0 < v
    ensures v % Pow2(n) == 0 <==> n <= Trailing(v)
  {
    if n > 0 {
      var p := Pow2(n - 1);
      if v % 2 == 0 {
        TrailingDivides(v / 2, n - 1);
        HalfDivides(v / 2, p);
      } else {
        OddIsUndivided(v, p);
      }
    }
  }

  lemma HalfDivides(h: nat, p: nat)
    requires 0 < p
    ensures (2 * h) % (2 * p) == 0 <==> h % p == 0
  {
    var q, r := h / p, h % p;
    assert 2 * h == (2 * p) * q + 2 * r by { assert (2 * p) * q == 2 * (p * q); }
    ModUnique(2 * h, 2 * p, q, 2 * r);
  }

  lemma OddIsUndivided(v: nat, p: nat)
    requires 0 < p && v % 2 == 1
    ensures v % (2 * p) != 0
  {
    var q, r := v / (2 * p), v % (2 * p);
    assert v == 2 * (p * q) + r by { assert (2 * p) * q == 2 * (p * q); }
  }

  /** `(1 + ~v) & v` in unsigned arithmetic of the given width. */
  function Isolated(v: nat, width: nat): nat
    requires v < Pow2(width)
  {
    And((1 + (Pow2(width) - 1 - v)) % Pow2(width), v)
  }

  /** A number and its complement share no bit. */
  lemma {:induction false} ComplementIsDisjoint(x: nat, n: nat)
    requires x < Pow2(n)
    ensures And(Pow2(n) - 1 - x, x) == 0
  {
    if n > 0 && x != 0 && Pow2(n) - 1 - x != 0 {
      ComplementIsDisjoint(x / 2, n - 1);
      assert (Pow2(n) - 1 - x) / 2 == Pow2(n - 1) - 1 - x / 2;
    }
  }

  lemma {:induction false} NegationMeets(v: nat, n: nat)
    requires 0 < v < Pow2(n)
    ensures And(Pow2(n) - v, v) == Pow2(Trailing(v))
  {
    var p := Pow2(n - 1);
    assert Pow2(n) == 2 * p;
    if v % 2 == 1 {
      assert (2 * p - v) / 2 == p - 1 - v / 2;
      ComplementIsDisjoint(v / 2, n - 1);
      assert And(2 * p - v, v) == 2 * And(p - 1 - v / 2, v / 2) + 1;
    } else {
      assert (2 * p - v) / 2 == p - v / 2;
      NegationMeets(v / 2, n - 1);
    }
  }

  /** Isolating keeps exactly the lowest set bit. */
  lemma IsolatedIsLowestBit(v: nat, width: nat)
    requires v < Pow2(width)
    ensures Isolated(v, width) == if v == 0 then 0 else Pow2(Trailing(v))
    ensures v > 0 ==> Trailing(v) < width
  {
    if v > 0 {
      NegationMeets(v, width);
      ModUnique(Pow2(width) - v, Pow2(width), 0, Pow2(width) - v);
      TrailingIsBelow(v, width);
    }
  }

  lemma TrailingIsBelow(v: nat, width: nat)
    requires 0 < v < Pow2(width)
    ensures Trailing(v) < width
  {
    var t := Trailing(v);
    TrailingDivides(v, t);
    if width <= t {
      PowGrows(width, t);
      ModUnique(v, Pow2(t), 0, v);
    }
  }

  /** The table Mod37BitPosition, by index. */
  function Position37(r: nat): nat
    requires r < 37
  {
    match r
    case 0 => 32 case 1 => 0 case 2 => 1 case 3 => 26 case 4 => 2 case 5 => 23 case 6 => 27
    case 7 => 0 case 8 => 3 case 9 => 16 case 10 => 24 case 11 => 30 case 12 => 28 case 13 => 11
    case 14 => 0 case 15 => 13 case 16 => 4 case 17 => 7 case 18 => 17 case 19 => 0 case 20 => 25
    case 21 => 22 case 22 => 31 case 23 => 15 case 24 => 29 case 25 => 10 case 26 => 12 case 27 => 6
    case 28 => 0 case 29 => 21 case 30 => 14 case 31 => 9 case 32 => 5 case 33 => 20 case 34 => 8
    case 35 => 19 case _ => 18
  }

  /** The table Mod67Position, by index. */
  function Position67(r: nat): nat
    requires r < 67
  {
    match r
    case 0 => 64 case 1 => 0 case 2 => 1 case 3 => 39 case 4 => 2 case 5 => 15 case 6 => 40
    case 7 => 23 case 8 => 3 case 9 => 12 case 10 => 16 case 11 => 59 case 12 => 41 case 13 => 19
    case 14 => 24 case 15 => 54 case 16 => 4 case 17 => 64 case 18 => 13 case 19 => 10 case 20 => 17
    case 21 => 62 case 22 => 60 case 23 => 28 case 24 => 42 case 25 => 30 case 26 => 20
    case 27 => 51 case 28 => 25 case 29 => 44 case 30 => 55 case 31 => 47 case 32 => 5 case 33 => 32
    case 34 => 65 case 35 => 38 case 36 => 14 case 37 => 22 case 38 => 11 case 39 => 58
    case 40 => 18 case 41 => 53 case 42 => 63 case 43 => 9 case 44 => 61 case 45 => 27 case 46 => 29
    case 47 => 50 case 48 => 43 case 49 => 46 case 50 => 31 case 51 => 37 case 52 => 21
    case 53 => 57 case 54 => 52 case 55 => 8 case 56 => 26 case 57 => 49 case 58 => 45 case 59 => 36
    case 60 => 56 case 61 => 7 case 62 => 48 case 63 => 35 case 64 => 6 case 65 => 34 case _ => 33
  }

  function Lookup37(p: nat): nat {
    Position37(p % 37)
  }

  function Lookup67(p: nat): nat {
    Position67(p % 67)
  }

  /** Remainders that no power of two below 2^32 has; their table entries are fillers. */
  predicate Filler37(r: nat) {
    r == 0 || r == 7 || r == 14 || r == 19 || r == 28
  }

  /** Doubling a power of two doubles its remainder and moves to the next entry. */
  lemma LowerEntries37(r: nat)
    requires r < 18 && !Filler37(r) && Position37(r) < 31
    ensures !Filler37(2 * r % 37) && Position37(2 * r % 37) == Position37(r) + 1
  {
  }

  lemma UpperEntries37(r: nat)
    requires 18 <= r < 37 && !Filler37(r) && Position37(r) < 31
    ensures !Filler37(2 * r % 37) && Position37(2 * r % 37) == Position37(r) + 1
  {
  }

  lemma FirstEntries67(r: nat)
    requires 0 < r < 12 && Position67(r) < 63
    ensures 0 < 2 * r % 67 && Position67(2 * r % 67) == Position67(r) + 1
  {
  }

  lemma SecondEntries67(r: nat)
    requires 12 <= r < 23 && Position67(r) < 63
    ensures 0 < 2 * r % 67 && Position67(2 * r % 67) == Position67(r) + 1
  {
  }

  lemma ThirdEntries67(r: nat)
    requires 23 <= r < 34 && Position67(r) < 63
    ensures 0 < 2 * r % 67 && Position67(2 * r % 67) == Position67(r) + 1
  {
  }

  lemma FourthEntries67(r: nat)
    requires 34 <= r < 45 && Position67(r) < 63
    ensures 0 < 2 * r % 67 && Position67(2 * r % 67) == Position67(r) + 1
  {
  }

  lemma FifthEntries67(r: nat)
    requires 45 <= r < 56 && Position67(r) < 63
    ensures 0 < 2 * r % 67 && Position67(2 * r % 67) == Position67(r) + 1
  {
  }

  lemma SixthEntries67(r: nat)
    requires 56 <= r < 67 && Position67(r) < 63
    ensures 0 < 2 * r % 67 && Position67(2 * r % 67) == Position67(r) + 1
  {
  }

  lemma DoubleRemainder(p: nat, m: nat)
    requires 0 < m
    ensures (2 * p) % m == 2 * (p % m) % m
  {
    var q, r := p / m, p % m;
    var q', r' := 2 * r / m, 2 * r % m;
    assert 2 * p == m * (2 * q + q') + r' by { assert m * (2 * q + q') == 2 * (m * q) + m * q'; }
    ModUnique(2 * p, m, 2 * q + q', r');
  }

  /** The tables are discrete logarithms: each power of two finds its exponent. */
  lemma {:induction false} PowersIn37(n: nat)
    requires n < 32
    ensures !Filler37(Pow2(n) % 37) && Lookup37(Pow2(n)) == n
  {
    if n == 0 {
      assert Pow2(0) % 37 == 1;
    } else {
      PowersIn37(n - 1);
      DoubleRemainder(Pow2(n - 1), 37);
      var r := Pow2(n - 1) % 37;
      if r < 18 {
        LowerEntries37(r);
      } else {
        UpperEntries37(r);
      }
    }
  }

  lemma {:induction false} PowersIn67(n: nat)
    requires n < 64
    ensures 0 < Pow2(n) % 67 && Lookup67(Pow2(n)) == n
  {
    if n == 0 {
      assert Pow2(0) % 67 == 1;
    } else {
      PowersIn67(n - 1);
      DoubleRemainder(Pow2(n - 1), 67);
      var r := Pow2(n - 1) % 67;
      if r < 12 {
        FirstEntries67(r);
      } else if r < 23 {
        SecondEntries67(r);
      } else if r < 34 {
        ThirdEntries67(r);
      } else if r < 45 {
        FourthEntries67(r);
      } else if r < 56 {
        FifthEntries67(r);
      } else {
        SixthEntries67(r);
      }
    }
  }

  lemma TableFinds32(value: nat)
    requires value < Pow2(32)
    ensures Lookup37(Isolated(value, 32)) == if value == 0 then 32 else Trailing(value)
  {
    IsolatedIsLowestBit(value, 32);
    if value > 0 {
      PowersIn37(Trailing(value));
    }
  }

  lemma TableFinds64(value: nat)
    requires value < Pow2(64)
    ensures Lookup67(Isolated(value, 64)) == if value == 0 then 64 else Trailing(value)
  {
    IsolatedIsLowestBit(value, 64);
    if value > 0 {
      PowersIn67(Trailing(value));
    }
  }

  /** CountTrailingZeros_32: the table counts the trailing zeros of every value, 32 for zero. */
  function CountTrailingZeros32(value: nat): (n: nat)
    requires value < 0x1_0000_0000
    ensures n == if value == 0 then 32 else Trailing(value)
  {
    WordSizes();
    TableFinds32(value);
    Lookup37(Isolated(value, 32))
  }

  /** CountTrailingZeros_64: the table counts the trailing zeros of every value, 64 for zero. */
  function CountTrailingZeros64(value: nat): (n: nat)
    requires value < 0x1_0000_0000_0000_0000
    ensures n == if value == 0 then 64 else Trailing(value)
  {
    WordSizes();
    TableFinds64(value);
    Lookup67(Isolated(value, 64))
  }

  // ---------------------------------------------------------------- MinAlign

  /** MinAlign: the lowest set bit of either number. */
  function MinAlign(a: nat, b: nat): nat
    requires Or(a, b) < 0x1_0000_0000_0000_0000
  {
    WordSizes();
    Isolated(Or(a, b), 64)
  }

  lemma {:induction false} OrDivisible(a: nat, b: nat, n: nat)
    ensures Or(a, b) % Pow2(n) == 0 <==> a % Pow2(n) == 0 && b % Pow2(n) == 0
    decreases n
  {
    if n > 0 && a != 0 && b != 0 {
      var p := Pow2(n - 1);
      OrDivisible(a / 2, b / 2, n - 1);
      Even(a, p);
      Even(b, p);
      Even(Or(a, b), p);
    }
  }

  lemma Even(v: nat, p: nat)
    requires 0 < p
    ensures v % (2 * p) == 0 <==> v % 2 == 0 && (v / 2) % p == 0
  {
    if v % 2 == 0 {
      HalfDivides(v / 2, p);
    } else {
      OddIsUndivided(v, p);
    }
  }

  /** MinAlign of two numbers, not both zero, is the largest power of two that divides both. */
  lemma MinAlignIsCommon(a: nat, b: nat, n: nat)
    requires 0 < Or(a, b) < 0x1_0000_0000_0000_0000
    ensures MinAlign(a, b) == Pow2(Trailing(Or(a, b)))
    ensures a % Pow2(n) == 0 && b % Pow2(n) == 0 <==> Pow2(n) <= MinAlign(a, b)
  {
    WordSizes();
    IsolatedIsLowestBit(Or(a, b), 64);
    OrDivisible(a, b, n);
    TrailingDivides(Or(a, b), n);
    PowGrows(n, Trailing(Or(a, b)));
  }
}
