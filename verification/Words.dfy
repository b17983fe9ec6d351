/** Fixed-width machine integers, modelled as ranges of mathematical integers. */
module Words {
  type byte = b: int | 0 <= b < 0x100

  /** Conversion to an unsigned type of 16, 32 or 64 bits. */
  function Wrap16(x: int): (r: nat) { x % 0x1_0000 }
  function Wrap32(x: int): (r: nat) { x % 0x1_0000_0000 }
  function Wrap64(x: int): (r: nat) { x % 0x1_0000_0000_0000_0000 }

  /** `a` is the address of position `pos` in a buffer at `base`. The quantifier keeps the verifier
      from reasoning about wrapping wherever an address is carried along. */
  ghost predicate AddressOf(a: nat, base: nat, pos: nat) {
    forall u: Unfolding :: IsAddress(u, a, base, pos)
  }

  datatype Unfolding = Unfold

  ghost predicate IsAddress(u: Unfolding, a: nat, base: nat, pos: nat) {
    a == Wrap64(base + pos)
  }

  lemma AddressIs(a: nat, base: nat, pos: nat)
    ensures AddressOf(a, base, pos) <==> a == Wrap64(base + pos)
  {
    if AddressOf(a, base, pos) {
      assert IsAddress(Unfold, a, base, pos);
    }
  }

  /** Wrapping at each advance is wrapping at the end. */
  lemma NextAddress(base: int, pos: int, n: int)
    ensures Wrap64(Wrap64(base + pos) + n) == Wrap64(base + (pos + n))
  {
  }

  /** The value of a 32-bit pattern read as a signed integer. */
  function Signed32(x: int): (s: int)
    ensures -0x8000_0000 <= s < 0x8000_0000
    ensures Wrap32(s) == Wrap32(x)
  {
    var r := Wrap32(x);
    if r < 0x8000_0000 then r else r - 0x1_0000_0000
  }

  /** The value of a 64-bit pattern read as a signed integer. */
  function Signed64(x: int): (s: int)
    ensures -0x8000_0000_0000_0000 <= s < 0x8000_0000_0000_0000
    ensures Wrap64(s) == Wrap64(x)
  {
    var r := Wrap64(x);
    if r < 0x8000_0000_0000_0000 then r else r - 0x1_0000_0000_0000_0000
  }

  /** Quotient and remainder are unique. */
  lemma ModUnique(a: int, m: int, q: int, r: int)
    requires 0 <= r < m && a == m * q + r
    ensures a % m == r
  {
    var d := q - a / m;
    assert m * d == a % m - r;
    assert d >= 1 ==> m * d >= m;
    assert d <= -1 ==> m * d <= -m;
  }
}
