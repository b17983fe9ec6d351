/** The instruction cache size of cs_disasm: a 32-bit counter that grows by 8/5 and may wrap.

    Growth wraps modulo 2^32 after 36 steps, and from then on the size is pseudo-random. A size
    of 0 would make the driver write past its buffer, so it matters that 0 is never reached. */
module CacheGrowth {
  import opened Words

  const INSN_CACHE_SIZE: nat := 32

  /** One growth step, `cache_size * 8 / 5` in unsigned 32-bit arithmetic. */
  function Grow(cache: nat): nat {
    Wrap32(cache * 8) / 5
  }

  /** The size after `n` growth steps. */
  function Grown(cache: nat, n: nat): nat {
    if n == 0 then cache else Grow(Grown(cache, n - 1))
  }

  /** Only the low 29 bits of a size survive the multiplication by 8. */
  function Surviving(cache: nat): (w: nat)
    ensures w < 0x2000_0000
  {
    cache % 0x2000_0000
  }

  /** Residue classes that hold every size that leads to 0, found backwards: each step back
      multiplies by 5/8, and the division is exact until the powers of two run out at the last
      level. They hold other sizes too. */
  function Modulus(k: nat): (m: int)
    ensures 0 < m
  {
    match k
    case 0 => 0x2000_0000
    case 1 => 0x2000_0000
    case 2 => 0x2000_0000
    case 3 => 0x0400_0000
    case 4 => 0x0080_0000
    case 5 => 0x0010_0000
    case 6 => 0x0002_0000
    case 7 => 0x0000_4000
    case 8 => 0x0000_0800
    case 9 => 0x0000_0100
    case _ => 0x0000_0020
  }

  function Residue(k: nat): int {
    match k
    case 0 => 0
    case 1 => 0x1400_0000
    case 2 => 0x0C80_0000
    case 3 => 0x03D0_0000
    case 4 => 0x0062_0000
    case 5 => 0x000D_4000
    case 6 => 0x0000_4800
    case 7 => 0x0000_2D00
    case 8 => 0x0000_0420
    case 9 => 0x0000_0094
    case _ => 0x0000_001D
  }

  ghost predicate AtLevel(cache: nat, k: nat) {
    k <= 10 && Surviving(cache) % Modulus(k) == Residue(k)
  }

  ghost predicate Doomed(cache: nat) {
    exists k: nat :: AtLevel(cache, k)
  }

  /** The division in `Grow`, spelled out on the residue that survives the multiplication. */
  lemma GrowBounds(cache: nat)
    ensures var w, t := Surviving(cache), Grow(cache);
      5 * t <= 8 * w <= 5 * t + 4 && t <= 0x3333_3333
  {
    var w := Surviving(cache);
    assert cache * 8 == 0x1_0000_0000 * (cache / 0x2000_0000) + 8 * w;
    assert Wrap32(cache * 8) == 8 * w;
  }

  /** A step back through an exact division: residue 8r modulo 8m comes from 5r modulo m. */
  lemma StepBack(t: nat, w: nat, m: nat, r: nat)
    requires 0 < m && 8 * r < 8 * m && t % (8 * m) == 8 * r
    requires 5 * t <= 8 * w <= 5 * t + 4
    ensures w % m == 5 * r % m
  {
    var k := t / (8 * m);
    assert t == 8 * m * k + 8 * r;
    assert 8 * m * k == 8 * (m * k);
    assert w == 5 * (m * k) + 5 * r;
    var q := 5 * r / m;
    assert 5 * (m * k) + m * q == m * (5 * k + q);
    ModUnique(w, m, 5 * k + q, 5 * r % m);
  }

  /** A residue modulo 2^29 and then modulo a smaller power of two. */
  lemma ModMod(t: nat, m: nat, f: nat)
    requires 0 < m && m * f == 0x2000_0000
    ensures Surviving(t) % m == t % m
  {
    var v, q := Surviving(t), t / 0x2000_0000;
    assert t == 0x2000_0000 * q + v;
    assert 0x2000_0000 * q == m * (f * q);
    assert t == m * (f * q + v / m) + v % m;
    ModUnique(t, m, f * q + v / m, v % m);
  }

  lemma TopLevels(t: nat, w: nat)
    requires t <= 0x3333_3333 && w < 0x2000_0000 && 5 * t <= 8 * w <= 5 * t + 4
    ensures AtLevel(t, 0) ==> AtLevel(w, 0) || AtLevel(w, 1)
    ensures AtLevel(t, 1) ==> AtLevel(w, 2)
  {
    assert AtLevel(t, 0) ==> t == 0 || t == 0x2000_0000;
    assert AtLevel(t, 1) ==> t == 0x1400_0000;
  }

  /** The modulus shrinks by 8 at each middle level. */
  lemma NextLevel(k: nat)
    requires 2 <= k <= 8
    ensures Modulus(k) == 8 * Modulus(k + 1) && Residue(k) == 8 * (Residue(k) / 8) < Modulus(k)
    ensures Residue(k + 1) == 5 * (Residue(k) / 8) % Modulus(k + 1)
    ensures Modulus(k) * (0x2000_0000 / Modulus(k)) == 0x2000_0000
  {
  }

  lemma MiddleLevels(t: nat, w: nat, k: nat)
    requires w < 0x2000_0000 && 5 * t <= 8 * w <= 5 * t + 4
    requires 2 <= k <= 8 && AtLevel(t, k)
    ensures AtLevel(w, k + 1)
  {
    NextLevel(k);
    var m, next := Modulus(k), Modulus(k + 1);
    ModMod(t, m, 0x2000_0000 / m);
    StepBack(t, w, next, Residue(k) / 8);
    assert Surviving(w) == w;
  }

  lemma BottomLevels(t: nat, w: nat)
    requires w < 0x2000_0000 && 5 * t <= 8 * w <= 5 * t + 4
    ensures AtLevel(t, 9) ==> AtLevel(w, 10)
    ensures !AtLevel(t, 10)
  {
    if AtLevel(t, 9) {
      ModMod(t, 0x100, 0x20_0000);
      var k := t / 0x100;
      assert t == 0x100 * k + 0x94;
      ModUnique(w, 0x20, 5 * k + 2, 0x1D);
    }
    ModMod(t, 0x20, 0x100_0000);
    assert t == 0x20 * (t / 0x20) + t % 0x20;
    assert t % 0x20 != 0x1D;
  }

  /** Doomed sizes are closed under going back one growth step. */
  lemma GrowComesFromDoomed(cache: nat)
    requires Doomed(Grow(cache))
    ensures Doomed(cache)
  {
    GrowBounds(cache);
    var w, t := Surviving(cache), Grow(cache);
    var k: nat :| AtLevel(t, k);
    if k < 2 {
      TopLevels(t, w);
    } else if k <= 8 {
      MiddleLevels(t, w, k);
      assert AtLevel(w, k + 1);
    } else {
      BottomLevels(t, w);
    }
    DoomedResidue(cache);
  }

  lemma DoomedResidue(cache: nat)
    ensures Doomed(Surviving(cache)) ==> Doomed(cache)
  {
    if Doomed(Surviving(cache)) {
      var k: nat :| AtLevel(Surviving(cache), k);
      assert AtLevel(cache, k);
    }
  }

  lemma GrowKeepsViable(cache: nat)
    requires !Doomed(cache)
    ensures !Doomed(Grow(cache)) && 0 < Grow(cache)
  {
    assert Doomed(0) by { assert AtLevel(0, 0); }
    if Doomed(Grow(cache)) {
      GrowComesFromDoomed(cache);
    }
  }

  lemma {:induction false} GrownIsViable(cache: nat, n: nat)
    requires !Doomed(cache)
    ensures !Doomed(Grown(cache, n))
  {
    if n > 0 {
      GrownIsViable(cache, n - 1);
      GrowKeepsViable(Grown(cache, n - 1));
    }
  }

  lemma FirstSizeIsViable()
    ensures !Doomed(INSN_CACHE_SIZE)
  {
    assert forall k: nat :: !AtLevel(INSN_CACHE_SIZE, k);
  }

  /** However often the cache grows, and although its 32-bit size wraps, it never becomes 0. */
  lemma GrownIsPositive(n: nat)
    ensures 0 < Grown(32, n)
  {
    FirstSizeIsViable();
    if n > 0 {
      GrownIsViable(INSN_CACHE_SIZE, n - 1);
      GrowKeepsViable(Grown(INSN_CACHE_SIZE, n - 1));
    }
  }

  // ---------------------------------------------------------------- exactly the sizes that lead to 0

  lemma {:induction false} ZeroStays(cache: nat, n: nat, m: nat)
    requires n <= m && Grown(cache, n) == 0
    ensures Grown(cache, m) == 0
  {
    if n < m {
      ZeroStays(cache, n, m - 1);
    }
  }

  lemma SameLevel(cache: nat, k: nat)
    ensures AtLevel(Surviving(cache), k) <==> AtLevel(cache, k)
  {
  }

  /** One step back from a size in class k is in class k + 1. */
  lemma OneLevelUp(cache: nat, k: nat)
    requires AtLevel(Grow(cache), k) && (k == 0 ==> Grow(cache) != 0)
    ensures k < 10 && AtLevel(cache, k + 1)
  {
    GrowBounds(cache);
    var w, t := Surviving(cache), Grow(cache);
    if k < 2 {
      TopLevels(t, w);
      assert k == 0 ==> t == 0x2000_0000 && w == 0x1400_0000;
    } else if k <= 8 {
      MiddleLevels(t, w, k);
    } else {
      BottomLevels(t, w);
    }
    SameLevel(cache, k + 1);
  }

  lemma BeforeZero(cache: nat)
    requires Grow(cache) == 0
    ensures AtLevel(cache, 0)
  {
    GrowBounds(cache);
  }

  /** Back from the first 0, the sizes pass through the classes one by one. */
  lemma {:induction false} Trail(cache: nat, n: nat, k: nat)
    requires k < n && Grown(cache, n) == 0 && Grown(cache, n - 1) != 0
    ensures k <= 10 && AtLevel(Grown(cache, n - 1 - k), k)
    decreases k
  {
    if k == 0 {
      BeforeZero(Grown(cache, n - 1));
    } else {
      Trail(cache, n, k - 1);
      OneLevelUp(Grown(cache, n - 1 - k), k - 1);
    }
  }

  lemma {:induction false} ZeroByStepEleven(cache: nat, n: nat)
    requires Grown(cache, n) == 0
    ensures Grown(cache, 11) == 0
  {
    if n <= 11 {
      ZeroStays(cache, n, 11);
    } else if Grown(cache, n - 1) == 0 {
      ZeroByStepEleven(cache, n - 1);
    } else {
      Trail(cache, n, 11);
    }
  }

  /** A size ever leads to 0 exactly when it does so in eleven steps. */
  lemma LeadsToZero(cache: nat)
    ensures (exists n: nat :: Grown(cache, n) == 0) <==> Grown(cache, 11) == 0
    ensures Grown(cache, 11) == 0 ==> Doomed(cache)
  {
    if n: nat :| Grown(cache, n) == 0 {
      ZeroByStepEleven(cache, n);
    }
    if Grown(cache, 11) == 0 && !Doomed(cache) {
      GrownIsViable(cache, 10);
      GrowKeepsViable(Grown(cache, 10));
    }
  }

  /** The classes are wider than that: 29 is in one of them and never leads to 0. */
  lemma SomeDoomedSurvive(n: nat)
    ensures Doomed(29) && Grown(29, n) != 0
  {
    assert AtLevel(29, 10);
    assert Grow(29) == 46 && forall k: nat :: !AtLevel(46, k);
    if n > 1 {
      AfterOne(29, n - 1);
      GrownIsViable(46, n - 2);
      GrowKeepsViable(Grown(46, n - 2));
    }
  }

  lemma {:induction false} AfterOne(cache: nat, n: nat)
    ensures Grown(cache, n + 1) == Grown(Grow(cache), n)
  {
    if n > 0 {
      AfterOne(cache, n - 1);
    } else {
      assert Grown(cache, 1) == Grow(Grown(cache, 0));
    }
  }
}
