/** The dynamic memory functions behind cs_mem_malloc, cs_mem_realloc and cs_mem_free.

    Every request may be refused. `live` names the blocks that are allocated and not yet freed,
    and `Free` demands a live block, so a double free cannot be written. */
module Allocator {
  import opened Words

  type Ptr = nat
  const NULL: Ptr := 0

  datatype Block = DetailBlock | InsnBlock(bytes: nat)

  /** No object is larger than PTRDIFF_MAX bytes; larger requests are always refused. */
  ghost predicate Fits(b: Block) {
    b.InsnBlock? ==> b.bytes < 0x8000_0000_0000_0000
  }

  // ---------------------------------------------------------------- detail blocks

  ghost function NonNull(ps: seq<Ptr>): set<Ptr> {
    set i | 0 <= i < |ps| && ps[i] != NULL :: ps[i]
  }

  ghost predicate Distinct(ps: seq<Ptr>) {
    forall i, j :: 0 <= i < j < |ps| && ps[i] != NULL ==> ps[i] != ps[j]
  }

  /** The live blocks are exactly `rest` and one detail block for each non-null pointer: nothing
      has leaked, and no two pointers share a block. */
  ghost predicate Owned(live: map<Ptr, Block>, rest: map<Ptr, Block>, ps: seq<Ptr>) {
    forall u: Unfolding :: Accounts(u, live, rest, ps)
  }

  /** The parts of `Owned`, behind a quantifier that only the lemmas below instantiate. */
  ghost predicate Accounts(
      u: Unfolding, live: map<Ptr, Block>, rest: map<Ptr, Block>, ps: seq<Ptr>)
  {
    && Distinct(ps)
    && NonNull(ps) !! rest.Keys
    && live.Keys == rest.Keys + NonNull(ps)
    && (forall p :: p in rest ==> live[p] == rest[p])
    && (forall p :: p in NonNull(ps) ==> live[p] == DetailBlock)
  }

  lemma OwnedNothing(live: map<Ptr, Block>, rest: map<Ptr, Block>)
    ensures Owned(live, rest, []) <==> live == rest
  {
    assert Owned(live, rest, []) ==> Accounts(Unfold, live, rest, []);
    assert NonNull([]) == {};
  }

  lemma NonNullSnoc(ps: seq<Ptr>, p: Ptr)
    ensures NonNull(ps + [p]) == NonNull(ps) + if p == NULL then {} else {p}
  {
    var qs := ps + [p];
    assert forall i :: 0 <= i < |ps| ==> qs[i] == ps[i];
    assert qs[|ps|] == p;
  }

  lemma NonNullCons(p: Ptr, ps: seq<Ptr>)
    ensures NonNull([p] + ps) == NonNull(ps) + if p == NULL then {} else {p}
  {
    var qs := [p] + ps;
    forall q | q in NonNull(ps)
      ensures q in NonNull(qs)
    {
      var i :| 0 <= i < |ps| && ps[i] == q;
      assert qs[i + 1] == q;
    }
    assert qs[0] == p;
  }

  lemma OwnedNewDetail(live: map<Ptr, Block>, rest: map<Ptr, Block>, ps: seq<Ptr>, p: Ptr)
    requires Owned(live, rest, ps) && p !in live && p != NULL
    ensures Owned(live[p := DetailBlock], rest, ps + [p])
  {
    assert Accounts(Unfold, live, rest, ps);
    NonNullSnoc(ps, p);
    assert Distinct(ps + [p]) by { assert p !in NonNull(ps); }
  }

  lemma OwnedNoDetail(live: map<Ptr, Block>, rest: map<Ptr, Block>, ps: seq<Ptr>)
    ensures Owned(live, rest, ps) <==> Owned(live, rest, ps + [NULL])
  {
    assert Owned(live, rest, ps) ==> Accounts(Unfold, live, rest, ps);
    assert Owned(live, rest, ps + [NULL]) ==> Accounts(Unfold, live, rest, ps + [NULL]);
    NonNullSnoc(ps, NULL);
    assert Distinct(ps) ==> Distinct(ps + [NULL]);
    if Distinct(ps + [NULL]) {
      assert ps == (ps + [NULL])[..|ps|];
    }
  }

  lemma DistinctCons(p: Ptr, ps: seq<Ptr>)
    requires Distinct([p] + ps)
    ensures Distinct(ps) && (p != NULL ==> p !in NonNull(ps))
  {
    var qs := [p] + ps;
    assert qs[0] == p && forall i :: 0 <= i < |ps| ==> ps[i] == qs[i + 1];
  }

  lemma OwnedFreeFirst(live: map<Ptr, Block>, rest: map<Ptr, Block>, p: Ptr, ps: seq<Ptr>)
    requires Owned(live, rest, [p] + ps) && NULL !in live
    ensures p != NULL ==> p in live
    ensures Owned(live - {p}, rest, ps)
  {
    assert Accounts(Unfold, live, rest, [p] + ps);
    NonNullCons(p, ps);
    DistinctCons(p, ps);
  }

  lemma OwnedFreeLast(live: map<Ptr, Block>, rest: map<Ptr, Block>, ps: seq<Ptr>, p: Ptr)
    requires Owned(live, rest, ps + [p]) && NULL !in live
    ensures p != NULL ==> p in live
    ensures Owned(live - {p}, rest, ps)
  {
    assert Accounts(Unfold, live, rest, ps + [p]);
    NonNullSnoc(ps, p);
    var qs := ps + [p];
    assert Distinct(ps) by {
      assert forall i :: 0 <= i < |ps| ==> ps[i] == qs[i];
    }
    assert p != NULL ==> p !in NonNull(ps) by {
      assert forall i :: 0 <= i < |ps| ==> ps[i] == qs[i];
      assert qs[|ps|] == p;
    }
  }

  /** The other blocks are live, and freeing one leaves the rest owned. */
  lemma OwnedRest(live: map<Ptr, Block>, rest: map<Ptr, Block>, ps: seq<Ptr>, p: Ptr)
    requires Owned(live, rest, ps)
    ensures p in rest ==> p in live && live[p] == rest[p]
  {
    assert Accounts(Unfold, live, rest, ps);
  }

  /** Reallocating one of the other blocks, in place or to a fresh address. */
  lemma OwnedMove(live: map<Ptr, Block>, rest: map<Ptr, Block>, ps: seq<Ptr>, p: Ptr, q: Ptr, b: Block)
    requires Owned(live, rest, ps) && p in rest && (q == p || q !in live)
    ensures Owned((live - {p})[q := b], (rest - {p})[q := b], ps)
  {
    assert Accounts(Unfold, live, rest, ps);
  }

  class Heap {
    var live: map<Ptr, Block>
    var refused: nat
    var requests: nat
    var next: Ptr
    const grants: nat -> bool

    ghost predicate Valid()
      reads this
    {
      NULL < next && forall p :: p in live ==> NULL < p < next
    }

    constructor (grants: nat -> bool)
      ensures Valid() && live == map[] && refused == 0
    {
      live, refused, requests, next := map[], 0, 0, 1;
      this.grants := grants;
    }

    method Malloc(b: Block) returns (p: Ptr)
      requires Valid()
      modifies this
      ensures Valid()
      ensures p == NULL ==> live == old(live) && refused == old(refused) + 1
      ensures p != NULL ==>
        && Fits(b) && p !in old(live)
        && live == old(live)[p := b] && refused == old(refused)
    {
      requests := requests + 1;
      if grants(requests) && (b.InsnBlock? ==> b.bytes < 0x8000_0000_0000_0000) {
        p, next := next, next + 1;
        live := live[p := b];
      } else {
        p, refused := NULL, refused + 1;
      }
    }

    /** On success the old block is gone, whether or not the new one has its address. */
    method Realloc(p: Ptr, b: Block) returns (q: Ptr)
      requires Valid() && p in live
      modifies this
      ensures Valid()
      ensures q == NULL ==> live == old(live) && refused == old(refused) + 1
      ensures q != NULL ==>
        && Fits(b) && (q == p || q !in old(live))
        && live == (old(live) - {p})[q := b] && refused == old(refused)
    {
      requests := requests + 1;
      if grants(requests) && (b.InsnBlock? ==> b.bytes < 0x8000_0000_0000_0000) {
        q, next := next, next + 1;
        live := (live - {p})[q := b];
      } else {
        q, refused := NULL, refused + 1;
      }
    }

    method Free(p: Ptr)
      requires Valid() && (p != NULL ==> p in live)
      modifies this
      ensures Valid()
      ensures live == old(live) - {p} && refused == old(refused)
    {
      if p != NULL {
        live := live - {p};
      }
    }
  }
}
