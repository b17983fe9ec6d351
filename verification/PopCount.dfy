/** Counting set bits by adding up ever wider fields in parallel. */
module PopCount {
  import opened Words
  import opened Bits

  function SetBits(v: nat, width: nat): set<nat> {
    set i: nat | i < width && Bit(v, i)
  }

  /** The number with these digits in base `b`, the lowest first. */
  function Value(s: seq<nat>, b: nat): nat {
    if s == [] then 0 else s[0] + b * Value(s[1..], b)
  }

  function Sum(s: seq<nat>): nat {
    if s == [] then 0 else s[0] + Sum(s[1..])
  }

  /** The sums of neighbouring digits. */
  function PairUp(s: seq<nat>): (t: seq<nat>)
    ensures |t| == |s| / 2
  {
    if |s| < 2 then [] else [s[0] + s[1]] + PairUp(s[2..])
  }

  ghost predicate AtMost(s: seq<nat>, bound: nat) {
    forall i :: 0 <= i < |s| ==> s[i] <= bound
  }

  /** The number with the same digit `n` times in base `b`. */
  function Repeated(digit: nat, b: nat, n: nat): nat {
    if n == 0 then 0 else digit + b * Repeated(digit, b, n - 1)
  }

  // ---------------------------------------------------------------- digits

  function BitsOf(v: nat, n: nat): (s: seq<nat>)
    ensures |s| == n && AtMost(s, 1)
  {
    if n == 0 then [] else [v % 2] + BitsOf(v / 2, n - 1)
  }

  lemma {:induction false} BitsValue(v: nat, n: nat)
    requires v < Pow2(n)
    ensures Value(BitsOf(v, n), 2) == v
  {
    if n > 0 {
      BitsValue(v / 2, n - 1);
      assert BitsOf(v, n)[1..] == BitsOf(v / 2, n - 1);
    }
  }

  lemma {:induction false} BitsAt(v: nat, n: nat, i: nat)
    requires i < n
    ensures BitsOf(v, n)[i] == 1 <==> Bit(v, i)
  {
    if i > 0 {
      BitsAt(v / 2, n - 1, i - 1);
    }
  }

  lemma {:induction false} SumSnoc(s: seq<nat>, x: nat)
    ensures Sum(s + [x]) == Sum(s) + x
  {
    if s == [] {
      assert s + [x] == [x];
    } else {
      SumSnoc(s[1..], x);
      assert (s + [x])[1..] == s[1..] + [x];
    }
  }

  function OnesBelow(s: seq<nat>, n: nat): set<nat>
    requires n <= |s|
  {
    set i: nat | i < n && s[i] == 1
  }

  lemma {:induction false} SumCountsOnes(s: seq<nat>, n: nat)
    requires AtMost(s, 1) && n <= |s|
    ensures Sum(s[..n]) == |OnesBelow(s, n)|
  {
    if n == 0 {
      assert OnesBelow(s, n) == {};
    } else {
      SumCountsOnes(s, n - 1);
      SumSnoc(s[..n - 1], s[n - 1]);
      assert s[..n] == s[..n - 1] + [s[n - 1]];
      assert OnesBelow(s, n) == OnesBelow(s, n - 1) + if s[n - 1] == 1 then {n - 1} else {};
    }
  }

  lemma SumIsSetBits(v: nat, n: nat)
    ensures Sum(BitsOf(v, n)) == |SetBits(v, n)|
  {
    var s := BitsOf(v, n);
    SumCountsOnes(s, n);
    assert s[..n] == s;
    forall i: nat | i < n
      ensures s[i] == 1 <==> Bit(v, i)
    {
      BitsAt(v, n, i);
    }
    assert SetBits(v, n) == OnesBelow(s, n);
  }

  /** Adding neighbours loses nothing. */
  lemma {:induction false} PairUpKeepsSum(s: seq<nat>, bound: nat)
    requires |s| % 2 == 0 && AtMost(s, bound)
    ensures Sum(PairUp(s)) == Sum(s) && AtMost(PairUp(s), 2 * bound)
    decreases |s|
  {
    if s != [] {
      PairUpKeepsSum(s[2..], bound);
      assert PairUp(s)[1..] == PairUp(s[2..]);
      assert s[1..][1..] == s[2..] && Sum(s[1..]) == s[1] + Sum(s[2..]);
    }
  }

  // ---------------------------------------------------------------- masks

  lemma {:induction false} AndSplit(x: nat, a: nat, y: nat, m: nat, k: nat)
    requires x < Pow2(k) && y < Pow2(k)
    ensures And(x + Pow2(k) * a, y + Pow2(k) * m) == And(x, y) + Pow2(k) * And(a, m)
  {
    if k > 0 {
      var p, both := Pow2(k - 1), And(a, m);
      AndSplit(x / 2, a, y / 2, m, k - 1);
      Twice(p, a);
      Twice(p, m);
      Twice(p, both);
      AndStep(x, y, p * a, p * m, p * both);
    } else {
      assert And(0, 0) == 0;
    }
  }

  lemma Twice(p: nat, a: nat)
    ensures 0 <= p * a && (2 * p) * a == 2 * (p * a)
  {
  }

  lemma AndStep(x: nat, y: nat, a: nat, m: nat, high: nat)
    requires And(x / 2 + a, y / 2 + m) == And(x / 2, y / 2) + high
    ensures And(x + 2 * a, y + 2 * m) == And(x, y) + 2 * high
  {
    AndHalf(x + 2 * a, y + 2 * m);
    AndHalf(x, y);
  }

  lemma AndHalf(x: nat, y: nat)
    ensures And(x, y) == 2 * And(x / 2, y / 2) + if x % 2 == 1 && y % 2 == 1 then 1 else 0
  {
  }

  lemma {:induction false} AndOnes(x: nat, k: nat)
    requires x < Pow2(k)
    ensures And(x, Pow2(k) - 1) == x
  {
    if k > 0 {
      AndOnes(x / 2, k - 1);
      AndHalf(x, Pow2(k) - 1);
      assert (Pow2(k) - 1) / 2 == Pow2(k - 1) - 1;
    } else {
      assert And(0, 0) == 0;
    }
  }

  lemma AndLow(low: nat, neighbour: nat, k: nat)
    requires low < Pow2(k)
    ensures And(low + Pow2(k) * neighbour, Pow2(k) - 1) == low
  {
    AndSplit(low, neighbour, Pow2(k) - 1, 0, k);
    AndOnes(low, k);
    assert And(neighbour, 0) == 0;
  }

  /** A mask of k ones out of 2k bits keeps the low field and clears its neighbour. */
  lemma AndField(low: nat, neighbour: nat, a: nat, m: nat, k: nat)
    requires low < Pow2(k) && low + Pow2(k) * neighbour < Pow2(2 * k)
    ensures And(low + Pow2(k) * neighbour + Pow2(2 * k) * a, Pow2(k) - 1 + Pow2(2 * k) * m) ==
            low + Pow2(2 * k) * And(a, m)
  {
    AndLow(low, neighbour, k);
    PowGrows(k, 2 * k);
    AndSplit(low + Pow2(k) * neighbour, a, Pow2(k) - 1, m, 2 * k);
  }

  lemma AndMask1(low: nat, neighbour: nat, a: nat, m: nat)
    requires low < 2 && neighbour < 2
    ensures And(low + 2 * neighbour + 4 * a, 1 + 4 * m) == low + 4 * And(a, m)
  {
    assert Pow2(1) == 2 && Pow2(2) == 4;
    AndField(low, neighbour, a, m, 1);
  }

  lemma AndMask3(low: nat, neighbour: nat, a: nat, m: nat)
    requires low < 4 && neighbour < 4
    ensures And(low + 4 * neighbour + 16 * a, 3 + 16 * m) == low + 16 * And(a, m)
  {
    assert Pow2(2) == 4 && Pow2(4) == 16;
    AndField(low, neighbour, a, m, 2);
  }

  lemma AndMask15(low: nat, neighbour: nat, a: nat, m: nat)
    requires low < 16 && neighbour < 16
    ensures And(low + 16 * neighbour + 256 * a, 15 + 256 * m) == low + 256 * And(a, m)
  {
    assert Pow2(4) == 16 && Pow2(8) == 256;
    AndField(low, neighbour, a, m, 4);
  }

  // ---------------------------------------------------------------- the three additions

  lemma PairOfBits(a: nat, b: nat, w: nat, m: nat)
    requires a < 2 && b < 2
    ensures var v := a + 2 * (b + 2 * w); And(v / 2, 1 + 4 * m) == b + 4 * And(w / 2, m)
  {
    AndMask1(b, w % 2, w / 2, m);
    assert (a + 2 * (b + 2 * w)) / 2 == b + 2 * (w % 2) + 4 * (w / 2);
  }

  lemma PairOfFields(a: nat, b: nat, w: nat, m: nat, v: nat, rest: nat)
    requires a < 4 && b < 4 && v == a + 4 * (b + 4 * w)
    requires And(w, m) + And(w / 4, m) == rest
    ensures And(v, 3 + 16 * m) + And(v / 4, 3 + 16 * m) == a + b + 16 * rest
  {
    AndMask3(a, b, w, m);
    AndMask3(b, w % 4, w / 4, m);
    assert v == a + 4 * b + 16 * w;
    assert v / 4 == b + 4 * (w % 4) + 16 * (w / 4);
  }

  lemma PairOfNibbles(a: nat, b: nat, w: nat, m: nat, v: nat, rest: nat)
    requires a <= 4 && b <= 4 && w % 16 <= 4 && v == a + 16 * (b + 16 * w)
    requires And(w + w / 16, m) == rest
    ensures And(v + v / 16, 15 + 256 * m) == a + b + 256 * rest
  {
    AndMask15(a + b, b + w % 16, w + w / 16, m);
    assert v + v / 16 == (a + b) + 16 * (b + w % 16) + 256 * (w + w / 16);
  }

  lemma FirstTwo(s: seq<nat>, b: nat)
    requires |s| >= 2
    ensures Value(s, b) == s[0] + b * (s[1] + b * Value(s[2..], b))
  {
    assert s[1..][1..] == s[2..];
  }

  lemma PairUpFirst(s: seq<nat>, b: nat)
    requires |s| >= 2 && |s| % 2 == 0
    ensures Value(PairUp(s), b) == s[0] + s[1] + b * Value(PairUp(s[2..]), b)
  {
    assert PairUp(s)[1..] == PairUp(s[2..]);
  }

  /** `v - ((v >> 1) & 0x55...)` adds neighbouring bits. */
  lemma {:induction false} PairsStep(s: seq<nat>)
    requires |s| % 2 == 0 && AtMost(s, 1)
    ensures var v := Value(s, 2);
      v == And(v / 2, Repeated(1, 4, |s| / 2)) + Value(PairUp(s), 4)
    decreases |s|
  {
    if s != [] {
      var w, m := Value(s[2..], 2), Repeated(1, 4, |s| / 2 - 1);
      PairsStep(s[2..]);
      FirstTwo(s, 2);
      PairUpFirst(s, 4);
      PairOfBits(s[0], s[1], w, m);
      assert Repeated(1, 4, |s| / 2) == 1 + 4 * m;
    }
  }

  /** `(v & 0x33...) + ((v >> 2) & 0x33...)` adds neighbouring fields of two bits. */
  lemma {:induction false} NibblesStep(s: seq<nat>)
    requires |s| % 2 == 0 && AtMost(s, 2)
    ensures var v, m := Value(s, 4), Repeated(3, 16, |s| / 2);
      And(v, m) + And(v / 4, m) == Value(PairUp(s), 16)
    decreases |s|
  {
    if s != [] {
      var w, m := Value(s[2..], 4), Repeated(3, 16, |s| / 2 - 1);
      NibblesStep(s[2..]);
      FirstTwo(s, 4);
      PairUpFirst(s, 16);
      PairOfFields(s[0], s[1], w, m, Value(s, 4), Value(PairUp(s[2..]), 16));
    }
  }

  /** `(v + (v >> 4)) & 0x0F...` adds neighbouring fields of four bits, which do not carry. */
  lemma {:induction false} BytesStep(s: seq<nat>)
    requires |s| % 2 == 0 && AtMost(s, 4)
    ensures var v := Value(s, 16);
      And(v + v / 16, Repeated(15, 256, |s| / 2)) == Value(PairUp(s), 256)
    decreases |s|
  {
    if s != [] {
      var w, m := Value(s[2..], 16), Repeated(15, 256, |s| / 2 - 1);
      BytesStep(s[2..]);
      FirstTwo(s, 16);
      PairUpFirst(s, 256);
      LowDigit(s[2..]);
      PairOfNibbles(s[0], s[1], w, m, Value(s, 16), Value(PairUp(s[2..]), 256));
    }
  }

  lemma LowDigit(s: seq<nat>)
    requires AtMost(s, 4)
    ensures Value(s, 16) % 16 <= 4
  {
    if s != [] {
      assert Value(s, 16) == s[0] + 16 * Value(s[1..], 16);
    }
  }

  lemma {:induction false} ValueBound(s: seq<nat>)
    requires AtMost(s, 4)
    ensures Value(s, 16) <= Repeated(4, 16, |s|)
  {
    if s != [] {
      ValueBound(s[1..]);
    }
  }

  // ---------------------------------------------------------------- the masks and the multiplication

  lemma Masks32()
    ensures Repeated(1, 4, 16) == 0x5555_5555 && Repeated(3, 16, 8) == 0x3333_3333
    ensures Repeated(15, 256, 4) == 0x0F0F_0F0F && Repeated(4, 16, 8) == 0x4444_4444
  {
    assert Repeated(1, 4, 8) == 0x5555;
    assert Repeated(3, 16, 4) == 0x3333;
    assert Repeated(4, 16, 4) == 0x4444;
  }

  lemma Masks64()
    ensures Repeated(1, 4, 32) == 0x5555_5555_5555_5555
    ensures Repeated(3, 16, 16) == 0x3333_3333_3333_3333
    ensures Repeated(15, 256, 8) == 0x0F0F_0F0F_0F0F_0F0F
    ensures Repeated(4, 16, 16) == 0x4444_4444_4444_4444
  {
    Masks32();
    assert Repeated(1, 4, 24) == 0x5555_5555_5555;
    assert Repeated(3, 16, 12) == 0x3333_3333_3333;
    assert Repeated(4, 16, 12) == 0x4444_4444_4444;
  }

  lemma QuotientUnique(x: int, p: int, q: int, r: int)
    requires p * q <= x < p * q + p && p * r <= x < p * r + p
    ensures q == r
  {
    var d := q - r;
    assert p * d == p * q - p * r;
    assert d >= 1 ==> p * d >= p;
    assert d <= -1 ==> p * d <= -p;
  }

  lemma ShrIs(x: nat, s: nat, p: nat, q: nat)
    requires p == Pow2(s) && p * q <= x < p * q + p
    ensures Shr(x, s) == q
  {
    ShrIsDivision(x, s);
    QuotientUnique(x, p, q, Shr(x, s));
  }

  lemma TopByteOf32(over: nat, low: nat, byte: nat)
    requires byte < 256 && low < 0x100_0000
    ensures Shr(Wrap32(0x1_0000_0000 * over + (low + 0x100_0000 * byte)), 24) == byte
  {
    assert Pow2(24) == 0x100_0000 by { PowAdds(10, 14); GroupSizes(); assert Pow2(10) == 0x400; }
    ShrIs(low + 0x100_0000 * byte, 24, 0x100_0000, byte);
  }

  /** The multiplication adds all the bytes into the highest one. */
  lemma TopByte32(a: nat, b: nat, c: nat, d: nat, v: nat)
    requires a <= 8 && b <= 8 && c <= 8 && d <= 8 && v == a + 256 * (b + 256 * (c + 256 * d))
    ensures Shr(Wrap32(v * 0x0101_0101), 24) == a + b + c + d
  {
    var low := a + 256 * (a + b + 256 * (a + b + c));
    var over := b + c + d + 256 * (c + d + 256 * d);
    assert v * 0x0101_0101 == 0x1_0000_0000 * over + (low + 0x100_0000 * (a + b + c + d));
    TopByteOf32(over, low, a + b + c + d);
  }

  lemma FourBytes(s: seq<nat>)
    requires |s| == 4 && AtMost(s, 8)
    ensures Shr(Wrap32(Value(s, 256) * 0x0101_0101), 24) == Sum(s)
  {
    assert s[2..][2..] == [];
    FirstTwo(s, 256);
    FirstTwo(s[2..], 256);
    TopByte32(s[0], s[1], s[2], s[3], Value(s, 256));
    SumOfTwo(s);
    SumOfTwo(s[2..]);
  }

  /** Seven digits below 256 stay below 256^7. */
  lemma SevenDigits(a: nat, b: nat, c: nat, d: nat, e: nat, f: nat, g: nat)
    requires a < 256 && b < 256 && c < 256 && d < 256 && e < 256 && f < 256 && g < 256
    ensures a + 256 * (b + 256 * (c + 256 * (d + 256 * (e + 256 * (f + 256 * g))))) < 0x100_0000_0000_0000
  {
  }

  lemma TopByteOf64(over: nat, low: nat, byte: nat)
    requires byte < 256 && low < 0x100_0000_0000_0000
    ensures Shr(Wrap64(0x1_0000_0000_0000_0000 * over + (low + 0x100_0000_0000_0000 * byte)), 56) == byte
  {
    assert Pow2(56) == 0x100_0000_0000_0000 by { PowAdds(28, 28); GroupSizes(); }
    ShrIs(low + 0x100_0000_0000_0000 * byte, 56, 0x100_0000_0000_0000, byte);
  }

  lemma TopByte64(a: nat, b: nat, c: nat, d: nat, e: nat, f: nat, g: nat, h: nat, v: nat)
    requires a <= 8 && b <= 8 && c <= 8 && d <= 8 && e <= 8 && f <= 8 && g <= 8 && h <= 8
    requires v == a + 256 * (b + 256 * (c + 256 * (d + 256 * (e + 256 * (f + 256 * (g + 256 * h))))))
    ensures Shr(Wrap64(v * 0x0101_0101_0101_0101), 56) == a + b + c + d + e + f + g + h
  {
    var ab := a + b;
    var ac := ab + c;
    var ad := ac + d;
    var ae := ad + e;
    var af := ae + f;
    var ag := af + g;
    var low := a + 256 * (ab + 256 * (ac + 256 * (ad + 256 * (ae + 256 * (af + 256 * ag)))));
    var gh := g + h;
    var fh := f + gh;
    var eh := e + fh;
    var dh := d + eh;
    var ch := c + dh;
    var over := b + ch + 256 * (ch + 256 * (dh + 256 * (eh + 256 * (fh + 256 * (gh + 256 * h)))));
    assert v * 0x0101_0101_0101_0101 == 0x1_0000_0000_0000_0000 * over + (low + 0x100_0000_0000_0000 * (ag + h));
    SevenDigits(a, ab, ac, ad, ae, af, ag);
    TopByteOf64(over, low, ag + h);
  }

  lemma EightBytes(s: seq<nat>)
    requires |s| == 8 && AtMost(s, 8)
    ensures Shr(Wrap64(Value(s, 256) * 0x0101_0101_0101_0101), 56) == Sum(s)
  {
    TopByte64(s[0], s[1], s[2], s[3], s[4], s[5], s[6], s[7], Value(s, 256)) by {
      FirstTwo(s, 256);
      FirstTwo(s[2..], 256);
      FirstTwo(s[4..], 256);
      FirstTwo(s[6..], 256);
      assert s[6..][2..] == [] && s[4..][2..] == s[6..] && s[2..][2..] == s[4..];
    }
    SumOfTwo(s);
    SumOfTwo(s[2..]);
    SumOfTwo(s[4..]);
    SumOfTwo(s[6..]);
    assert s[6..][2..] == [] && s[4..][2..] == s[6..] && s[2..][2..] == s[4..];
  }

  lemma SumOfTwo(s: seq<nat>)
    requires |s| >= 2
    ensures Sum(s) == s[0] + s[1] + Sum(s[2..])
  {
    assert s[1..][1..] == s[2..];
  }

  lemma ShrOne(v: nat)
    ensures Shr(v, 1) == v / 2
  {
  }

  lemma ShrTwo(v: nat)
    ensures Shr(v, 2) == v / 4
  {
    ShrOne(v);
    ShrOne(v / 2);
    ShrShr(v, 1, 1);
  }

  lemma ShrFour(v: nat)
    ensures Shr(v, 4) == v / 16
  {
    ShrTwo(v);
    ShrTwo(v / 4);
    ShrShr(v, 2, 2);
  }

  /** The three additions in machine words, which they do not leave. */
  lemma FirstFits(value: nat, m: nat, x: nat)
    requires value == And(value / 2, m) + x
    ensures value < 0x1_0000_0000 ==> Wrap32(value - And(Shr(value, 1), m)) == x
    ensures value < 0x1_0000_0000_0000_0000 ==> Wrap64(value - And(Shr(value, 1), m)) == x
  {
    ShrOne(value);
  }

  lemma SecondFits(x: nat, m: nat, y: nat)
    requires And(x, m) + And(x / 4, m) == y
    ensures y < 0x1_0000_0000 ==> Wrap32(And(x, m) + And(Shr(x, 2), m)) == y
    ensures y < 0x1_0000_0000_0000_0000 ==> Wrap64(And(x, m) + And(Shr(x, 2), m)) == y
  {
    ShrTwo(x);
  }

  lemma ThirdFits(y: nat, m: nat, z: nat)
    requires And(y + y / 16, m) == z
    ensures y <= 0x4444_4444 ==> And(Wrap32(y + Shr(y, 4)), m) == z
    ensures y <= 0x4444_4444_4444_4444 ==> And(Wrap64(y + Shr(y, 4)), m) == z
  {
    ShrFour(y);
    assert y <= 0x4444_4444 ==> Wrap32(y + y / 16) == y + y / 16;
    assert y <= 0x4444_4444_4444_4444 ==> Wrap64(y + y / 16) == y + y / 16;
  }

  /** The three additions of CountPopulation_32. */
  method AddBits32(value: nat, ghost s: seq<nat>) returns (v: nat)
    requires |s| == 32 && AtMost(s, 1) && value == Value(s, 2) < 0x1_0000_0000
    ensures v == Value(PairUp(s), 4)
  {
    Masks32();
    PairsStep(s);
    FirstFits(value, 0x5555_5555, Value(PairUp(s), 4));
    v := Wrap32(value - And(Shr(value, 1), 0x5555_5555));
  }

  method AddPairs32(value: nat, ghost s: seq<nat>) returns (v: nat)
    requires |s| == 16 && AtMost(s, 2) && value == Value(s, 4)
    ensures v == Value(PairUp(s), 16)
  {
    Masks32();
    NibblesStep(s);
    PairUpKeepsSum(s, 2);
    ValueBound(PairUp(s));
    SecondFits(value, 0x3333_3333, Value(PairUp(s), 16));
    v := Wrap32(And(value, 0x3333_3333) + And(Shr(value, 2), 0x3333_3333));
  }

  method AddNibbles32(value: nat, ghost s: seq<nat>) returns (v: nat)
    requires |s| == 8 && AtMost(s, 4) && value == Value(s, 16)
    ensures v == Value(PairUp(s), 256)
  {
    Masks32();
    BytesStep(s);
    ValueBound(s);
    ThirdFits(value, 0x0F0F_0F0F, Value(PairUp(s), 256));
    v := And(Wrap32(value + Shr(value, 4)), 0x0F0F_0F0F);
  }

  /** The three additions of CountPopulation_64. */
  method AddBits64(value: nat, ghost s: seq<nat>) returns (v: nat)
    requires |s| == 64 && AtMost(s, 1) && value == Value(s, 2) < 0x1_0000_0000_0000_0000
    ensures v == Value(PairUp(s), 4)
  {
    Masks64();
    PairsStep(s);
    FirstFits(value, 0x5555_5555_5555_5555, Value(PairUp(s), 4));
    v := Wrap64(value - And(Shr(value, 1), 0x5555_5555_5555_5555));
  }

  method AddPairs64(value: nat, ghost s: seq<nat>) returns (v: nat)
    requires |s| == 32 && AtMost(s, 2) && value == Value(s, 4)
    ensures v == Value(PairUp(s), 16)
  {
    Masks64();
    NibblesStep(s);
    PairUpKeepsSum(s, 2);
    ValueBound(PairUp(s));
    SecondFits(value, 0x3333_3333_3333_3333, Value(PairUp(s), 16));
    v := Wrap64(And(value, 0x3333_3333_3333_3333) + And(Shr(value, 2), 0x3333_3333_3333_3333));
  }

  method AddNibbles64(value: nat, ghost s: seq<nat>) returns (v: nat)
    requires |s| == 16 && AtMost(s, 4) && value == Value(s, 16)
    ensures v == Value(PairUp(s), 256)
  {
    Masks64();
    BytesStep(s);
    ValueBound(s);
    ThirdFits(value, 0x0F0F_0F0F_0F0F_0F0F, Value(PairUp(s), 256));
    v := And(Wrap64(value + Shr(value, 4)), 0x0F0F_0F0F_0F0F_0F0F);
  }

  /** What the additions count is what they start from. */
  lemma AdditionsCount(bits: seq<nat>, pairs: seq<nat>, nibbles: seq<nat>)
    requires |bits| % 2 == 0 && |pairs| % 2 == 0 && |nibbles| % 2 == 0
    requires AtMost(bits, 1) && pairs == PairUp(bits) && nibbles == PairUp(pairs)
    ensures AtMost(pairs, 2) && AtMost(nibbles, 4) && AtMost(PairUp(nibbles), 8)
    ensures Sum(PairUp(nibbles)) == Sum(bits)
  {
    PairUpKeepsSum(bits, 1);
    PairUpKeepsSum(pairs, 2);
    PairUpKeepsSum(nibbles, 4);
  }

  /** CountPopulation_32, by parallel addition. */
  method CountPopulation32(value: nat) returns (count: nat)
    requires value < 0x1_0000_0000
    ensures count == |SetBits(value, 32)|
  {
    WordSizes();
    ghost var bits := BitsOf(value, 32);
    ghost var pairs := PairUp(bits);
    ghost var nibbles := PairUp(pairs);
    BitsValue(value, 32);
    SumIsSetBits(value, 32);
    AdditionsCount(bits, pairs, nibbles);
    var v := AddBits32(value, bits);
    v := AddPairs32(v, pairs);
    v := AddNibbles32(v, nibbles);
    FourBytes(PairUp(nibbles));
    count := Shr(Wrap32(v * 0x0101_0101), 24);
  }

  /** CountPopulation_64, by parallel addition. */
  method CountPopulation64(value: nat) returns (count: nat)
    requires value < 0x1_0000_0000_0000_0000
    ensures count == |SetBits(value, 64)|
  {
    WordSizes();
    ghost var bits := BitsOf(value, 64);
    ghost var pairs := PairUp(bits);
    ghost var nibbles := PairUp(pairs);
    BitsValue(value, 64);
    SumIsSetBits(value, 64);
    AdditionsCount(bits, pairs, nibbles);
    var v := AddBits64(value, bits);
    v := AddPairs64(v, pairs);
    v := AddNibbles64(v, nibbles);
    EightBytes(PairUp(nibbles));
    count := Shr(Wrap64(v * 0x0101_0101_0101_0101), 56);
  }
}
