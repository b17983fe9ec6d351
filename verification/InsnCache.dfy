/** The growing output buffer of cs_disasm: its instruction slots, their detail blocks, and the
    arithmetic that says how much room is left. */
module InsnCache {
  import opened Words
  import opened Allocator
  import opened CacheGrowth
  import opened Runs

  /** The bytes of that many cs_insn slots; sizeof(cs_insn) is 240 with 8-byte pointers. */
  function BytesFor(slots: nat): nat {
    240 * slots
  }

  datatype CsInsn = CsInsn(body: Insn, detail: Ptr)

  function Bodies(s: seq<CsInsn>): seq<Insn> {
    seq(|s|, i requires 0 <= i < |s| => s[i].body)
  }

  function Details(s: seq<CsInsn>): seq<Ptr> {
    seq(|s|, i requires 0 <= i < |s| => s[i].detail)
  }

  lemma DetailsSnoc(s: seq<CsInsn>, n: nat)
    requires n < |s|
    ensures Details(s[..n + 1]) == Details(s[..n]) + [s[n].detail]
  {
  }

  lemma DetailsCons(s: seq<CsInsn>, n: nat)
    requires n < |s|
    ensures Details(s[n..]) == [s[n].detail] + Details(s[n + 1..])
  {
  }

  /** Free the detail blocks of the first `count` instructions. */
  method FreeDetails(heap: Heap, slots: seq<CsInsn>, count: nat, ghost rest: map<Ptr, Block>)
    requires heap.Valid() && count <= |slots|
    requires Owned(heap.live, rest, Details(slots[..count]))
    modifies heap
    ensures heap.Valid() && heap.live == rest && heap.refused == old(heap.refused)
  {
    var i := 0;
    ghost var s := slots[..count];
    assert s[0..] == s;
    while i < count
      invariant i <= count && heap.Valid() && heap.refused == old(heap.refused)
      invariant Owned(heap.live, rest, Details(s[i..]))
    {
      DetailsCons(s, i);
      OwnedFreeFirst(heap.live, rest, s[i].detail, Details(s[i + 1..]));
      heap.Free(slots[i].detail);
      i := i + 1;
    }
    OwnedNothing(heap.live, rest);
    assert Details(s[i..]) == [];
  }

  /** cs_free: give back the details of `count` instructions, then the buffer that holds them. */
  method CsFree(
      heap: Heap, insn: Ptr, slots: seq<CsInsn>, count: nat,
      ghost others: map<Ptr, Block>, ghost held: Block)
    requires heap.Valid() && count <= |slots| && insn !in others
    requires var rest := if insn == NULL then others else others[insn := held];
      Owned(heap.live, rest, Details(slots[..count]))
    modifies heap
    ensures heap.Valid() && heap.live == others && heap.refused == old(heap.refused)
  {
    FreeDetails(heap, slots, count, if insn == NULL then others else others[insn := held]);
    heap.Free(insn);
  }

  lemma OwnedWithoutDetails(live: map<Ptr, Block>, rest: map<Ptr, Block>, ps: seq<Ptr>)
    requires Owned(live, rest, ps) && forall i :: 0 <= i < |ps| ==> ps[i] == NULL
    ensures live == rest
  {
    assert Accounts(Unfold, live, rest, ps);
    assert NonNull(ps) == {};
  }

  /** Memory as malloc leaves it; nothing is known about its contents. */
  method Uninitialized(n: nat) returns (slots: seq<CsInsn>)
    ensures |slots| == n
  {
    var any: CsInsn := *;
    slots := seq(n, _ => any);
  }

  /** The part of realloc that keeps contents: as many slots as both sizes have. */
  method Resized(slots: seq<CsInsn>, n: nat) returns (moved: seq<CsInsn>)
    ensures |moved| == n && forall i :: 0 <= i < n && i < |slots| ==> moved[i] == slots[i]
  {
    if n <= |slots| {
      moved := slots[..n];
    } else {
      var more := Uninitialized(n - |slots|);
      moved := slots + more;
    }
  }

  /** Neither the 32-bit cache size nor the 64-bit byte count is spoilt by an expansion. */
  lemma ExpansionIsExact(totalSize: nat, slots: nat, cache: nat)
    requires !Doomed(cache) && totalSize == BytesFor(slots) < 0x8000_0000_0000_0000
    ensures var next := Wrap32(cache * 8) / 5;
      && 0 < next < 0x1_0000_0000 && !Doomed(next)
      && Wrap64(totalSize + BytesFor(next)) == BytesFor(slots + next)
  {
    GrowKeepsViable(cache);
  }

  class Cache {
    const heap: Heap
    const count: nat
    const detailed: bool
    /** Everything else that is allocated while the driver runs. */
    ghost const others: map<Ptr, Block>
    var total: Ptr
    var totalSize: nat
    /** The memory at `total`. */
    var slots: seq<CsInsn>
    var cacheSize: nat
    /** How many slots of the current cache are filled, and how many instructions in all. */
    var f: nat
    var c: nat

    /** The capacity is the instructions before the current cache plus the cache itself. */
    ghost predicate Accounted()
      reads `totalSize, `slots, `cacheSize, `f, `c
    {
      && f <= c && f <= cacheSize && |slots| == c - f + cacheSize
      && totalSize == BytesFor(|slots|) < 0x8000_0000_0000_0000
      && 0 < cacheSize < 0x1_0000_0000
      && (!Doomed(cacheSize) || (f == c && cacheSize == count))
    }

    /** The first `n` slots own their details, the cache owns the buffer, and that is all. */
    ghost predicate Owns(n: nat)
      reads `total, `totalSize, `slots, heap
    {
      && heap.Valid() && n <= |slots|
      && total != NULL && total !in others
      && Owned(heap.live, others[total := InsnBlock(totalSize)], Details(slots[..n]))
      && (!detailed ==> forall i :: 0 <= i < n ==> slots[i].detail == NULL)
    }

    ghost predicate Valid()
      reads this, heap
    {
      Accounted() && Owns(c)
    }

    function Filled(): seq<CsInsn>
      reads this
      requires c <= |slots|
    {
      slots[..c]
    }

    constructor (heap: Heap, count: nat, detailed: bool)
      requires heap.Valid()
      modifies heap
      ensures this.heap == heap && this.count == count && this.detailed == detailed
      ensures others == old(heap.live) && heap.Valid() && c == 0 && f == 0
      ensures |slots| == cacheSize == if 0 < count <= 32 then count else 32
      ensures total == NULL ==> heap.live == others && heap.refused == old(heap.refused) + 1
      ensures total != NULL ==> Valid() && f < cacheSize && heap.refused == old(heap.refused)
    {
      var size: nat := INSN_CACHE_SIZE;
      if 0 < count <= INSN_CACHE_SIZE {
        size := count;
      }
      this.heap, this.count, this.detailed, this.others := heap, count, detailed, heap.live;
      cacheSize, totalSize, f, c := size, BytesFor(size), 0, 0;
      var memory := Uninitialized(size);
      slots := memory;
      new;
      FirstSizeIsViable();
      total := heap.Malloc(InsnBlock(totalSize));
      if total != NULL {
        OwnedNothing(heap.live, others[total := InsnBlock(totalSize)]);
        assert Details(slots[..0]) == [];
      }
    }

    /** Allocate the next slot's detail block, when details are wanted; it may be refused. */
    method AddDetail()
      requires Valid() && f < cacheSize
      modifies heap, `slots
      ensures Owns(c + 1) && Accounted()
      ensures slots[..c] == old(slots[..c])
      ensures !detailed ==> slots[c].detail == NULL
      ensures heap.refused == old(heap.refused) + if detailed && slots[c].detail == NULL then 1 else 0
    {
      ghost var rest := others[total := InsnBlock(totalSize)];
      ghost var ps := Details(slots[..c]);
      ghost var before := heap.live;
      var p := NULL;
      if detailed {
        p := heap.Malloc(DetailBlock);
      }
      slots := slots[c := slots[c].(detail := p)];
      if p == NULL {
        OwnedNoDetail(before, rest, ps);
      } else {
        OwnedNewDetail(before, rest, ps, p);
      }
      assert Details(slots[..c]) == ps;
      DetailsSnoc(slots, c);
    }

    /** Free the next slot's detail block. The slot keeps the dangling pointer. */
    method DropDetail()
      requires c < |slots| && Owns(c + 1)
      modifies heap
      ensures Owns(c) && heap.refused == old(heap.refused)
    {
      ghost var rest := others[total := InsnBlock(totalSize)];
      DetailsSnoc(slots, c);
      if detailed {
        OwnedFreeLast(heap.live, rest, Details(slots[..c]), slots[c].detail);
        heap.Free(slots[c].detail);
      } else {
        OwnedNoDetail(heap.live, rest, Details(slots[..c]));
      }
    }

    /** Write a decoded instruction to the next slot, beside the detail block it already has. */
    method Publish(insn: Insn)
      requires c < |slots| && Owns(c + 1)
      modifies `slots
      ensures Owns(c + 1) && |slots| == old(|slots|)
      ensures slots[..c + 1] == old(slots[..c]) + [CsInsn(insn, old(slots[c].detail))]
    {
      ghost var was := Details(slots[..c + 1]);
      slots := slots[c := slots[c].(body := insn)];
      assert Details(slots[..c + 1]) == was;
    }

    /** Write a data instruction to the next slot; it has no details. */
    method PublishData(insn: Insn)
      requires c < |slots| && Owns(c)
      modifies `slots
      ensures Owns(c + 1) && |slots| == old(|slots|)
      ensures slots[..c + 1] == old(slots[..c]) + [CsInsn(insn, NULL)]
    {
      ghost var ps := Details(slots[..c]);
      slots := slots[c := CsInsn(insn, NULL)];
      OwnedNoDetail(heap.live, others[total := InsnBlock(totalSize)], ps);
      assert Details(slots[..c]) == ps;
      DetailsSnoc(slots, c);
    }

    /** Settle the next slot after an attempt: drop its details unless an instruction was decoded,
        and move past it unless the attempt stopped. */
    method Settle(o: Outcome)
      requires Accounted() && f < cacheSize && Owns(c + 1)
      modifies `f, `c, `slots, heap
      ensures Valid() && heap.refused == old(heap.refused)
      ensures o.Stopped? ==> f == old(f) && slots[..c] == old(slots[..c])
      ensures o.Advanced? ==>
        && f == old(f) + 1
        && slots[..c] == old(slots[..c]) + [CsInsn(o.insn, if o.data then NULL else old(slots[c].detail))]
    {
      if o.Stopped? {
        DropDetail();
        return;
      }
      if o.data {
        DropDetail();
        PublishData(o.insn);
      } else {
        Publish(o.insn);
      }
      f, c := f + 1, c + 1;
    }

    /** Give everything back, as both out-of-memory exits do. */
    method Discard(ghost held: Block)
      requires heap.Valid() && c <= |slots| && total != NULL && total !in others
      requires Owned(heap.live, others[total := held], Details(slots[..c]))
      requires !detailed ==> forall i :: 0 <= i < c ==> slots[i].detail == NULL
      modifies heap
      ensures heap.Valid() && heap.live == others && heap.refused == old(heap.refused)
    {
      if detailed {
        FreeDetails(heap, slots, c, others[total := held]);
      } else {
        OwnedWithoutDetails(heap.live, others[total := held], Details(slots[..c]));
      }
      heap.Free(total);
    }

    /** The buffer now has `size` slots at address `p`, with the same instructions. */
    method Moved(p: Ptr, size: nat, ghost before: map<Ptr, Block>, ghost held: Block)
      requires heap.Valid() && c <= |slots| && c <= size
      requires total != NULL && total !in others && p != NULL && (p == total || p !in before)
      requires Owned(before, others[total := held], Details(slots[..c]))
      requires heap.live == (before - {total})[p := InsnBlock(totalSize)]
      requires !detailed ==> forall i :: 0 <= i < c ==> slots[i].detail == NULL
      modifies `total, `slots
      ensures Owns(c) && total == p && |slots| == size && slots[..c] == old(slots[..c])
    {
      OwnedMove(before, others[total := held], Details(slots[..c]), total, p, InsnBlock(totalSize));
      OwnedRest(before, others[total := held], Details(slots[..c]), p);
      assert (others[total := held] - {total})[p := InsnBlock(totalSize)] == others[p := InsnBlock(totalSize)];
      ghost var was := slots[..c];
      slots := Resized(slots, size);
      assert slots[..c] == was;
      total := p;
    }

    /** The cache is full: append a new one, 8/5 times as large in 32-bit arithmetic. */
    method Expand() returns (ok: bool)
      requires Valid() && f == cacheSize && c != count
      modifies this, heap
      ensures c == old(c) && heap.Valid()
      ensures ok ==> Valid() && f < cacheSize && heap.refused == old(heap.refused)
      ensures ok ==> slots[..c] == old(slots[..c])
      ensures !ok ==> heap.live == others && heap.refused == old(heap.refused) + 1
    {
      ExpansionIsExact(totalSize, c, cacheSize);
      ghost var before, held := heap.live, InsnBlock(totalSize);
      cacheSize := Wrap32(cacheSize * 8) / 5;
      totalSize := Wrap64(totalSize + BytesFor(cacheSize));
      OwnedRest(before, others[total := held], Details(slots[..c]), total);
      var tmp := heap.Realloc(total, InsnBlock(totalSize));
      if tmp == NULL {
        Discard(held);
        return false;
      }
      Moved(tmp, c + cacheSize, before, held);
      f := 0;
      ok := true;
    }

    /** Make room for one more instruction, expanding only a full cache. */
    method MakeRoom() returns (ok: bool)
      requires Valid() && (f == cacheSize ==> c != count)
      modifies this, heap
      ensures c == old(c) && heap.Valid()
      ensures ok ==> Valid() && f < cacheSize && heap.refused == old(heap.refused)
      ensures ok ==> Filled() == old(Filled())
      ensures !ok ==> heap.live == others && heap.refused == old(heap.refused) + 1
    {
      if f == cacheSize {
        ok := Expand();
      } else {
        ok := true;
      }
    }

    /** After the loop: give an empty buffer back, or cut a partly filled one to size. */
    method Finish() returns (ok: bool)
      requires Valid()
      modifies this, heap
      ensures c == old(c) && heap.Valid()
      ensures ok ==> heap.refused == old(heap.refused)
      ensures ok && c == 0 ==> total == NULL && heap.live == others
      ensures ok && c > 0 ==>
        && total != NULL && total !in others && slots == old(slots[..c])
        && Owned(heap.live, others[total := InsnBlock(BytesFor(c))], Details(slots))
      ensures !ok ==> heap.live == others && heap.refused == old(heap.refused) + 1
    {
      ghost var before, held := heap.live, InsnBlock(totalSize);
      if c == 0 {
        assert Details(slots[..0]) == [];
        OwnedNothing(heap.live, others[total := held]);
        heap.Free(total);
        total := NULL;
      } else if f != cacheSize {
        totalSize := totalSize - BytesFor(cacheSize - f);
        OwnedRest(before, others[total := held], Details(slots[..c]), total);
        var tmp := heap.Realloc(total, InsnBlock(totalSize));
        if tmp == NULL {
          Discard(held);
          return false;
        }
        Moved(tmp, c, before, held);
        assert slots == slots[..c];
      } else {
        assert slots == slots[..c];
      }
      ok := true;
    }
  }
}
