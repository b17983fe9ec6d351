/** cs_disasm, which disassembles a whole buffer, and cs_disasm_iter, which takes one step. */
module Disassembler {
  import opened Words
  import opened Text
  import opened Allocator
  import opened Runs
  import opened Decoding
  import opened Handle
  import opened InsnCache
  import opened Accounts

  /** fill_insn: publish what was decoded. */
  method FillInsn(d: Decoded, code: seq<byte>, pos: nat, address: nat) returns (insn: Insn)
    requires d.Instruction? && d.consumed < 0x1_0000 && pos + d.consumed <= |code|
    ensures insn == Published(d, code, pos, address)
  {
    var copySize := if BYTES_CAPACITY < d.consumed then BYTES_CAPACITY else d.consumed;
    var start := pos + d.consumed - copySize;
    var id := d.id;
    if d.publicId != 0 {
      id := d.publicId;
    }
    var mnemonic, opStr := SplitPrinted(d.text);
    insn := Insn(id, address, copySize, code[start..start + copySize], mnemonic, opStr);
  }

  /** How many undecodable bytes to pass over; 0 means to stop. The two drivers differ in the
      buffer and position that they show the callback. */
  method AskSkip(ud: CsHandle, size: nat, code: seq<byte>, pos: nat) returns (skip: nat)
    requires ud.Valid() && pos <= |code| && size == |code| - pos
    ensures skip == SkipWidth(ud.GetConfig(), code, pos)
  {
    if !ud.skipdata || ud.skipdataSize > size {
      return 0;
    }
    match ud.callback {
      case Some(callback) =>
        skip := callback(code, pos);
        if skip > size {
          skip := 0;
        }
      case None =>
        skip := ud.skipdataSize;
    }
  }

  method FillData(ud: CsHandle, data: seq<byte>, address: nat) returns (insn: Insn)
    ensures insn == DataInsn(ud.mnemonic, data, address)
  {
    var opStr := SkipdataOpstr(data);
    insn := Insn(0, address, Wrap16(|data|), data, Truncated(ud.mnemonic, MNEMONIC_CAPACITY), opStr);
  }

  /** Decode at `pos`, or skip data there: the part that both drivers have in common. */
  method Attempt(ud: CsHandle, code: seq<byte>, pos: nat, address: nat, ghost base: nat)
    returns (o: Outcome)
    requires ud.Valid() && pos <= |code| && address == Wrap64(base + pos)
    modifies ud`it
    ensures o == StepAt(ud.GetConfig(), old(ud.it), code, pos, base) && ud.it == o.after
  {
    var d := ud.decode(ud.mode, ud.it, code[pos..], address);
    assert DecodedOk(d, |code[pos..]|);
    ud.it := d.after;
    if d.Instruction? {
      var insn := FillInsn(d, code, pos, address);
      o := Advanced(d.after, d.consumed, false, insn);
    } else {
      var skip := AskSkip(ud, |code| - pos, code, pos);
      if skip == 0 {
        o := Stopped(d.after);
      } else {
        var insn := FillData(ud, code[pos..pos + skip], address);
        o := Advanced(d.after, skip, true, insn);
      }
    }
  }

  /** Data instructions have no details, nor has any instruction when details are off; every other
      one has its detail block unless an allocation was refused. */
  ghost predicate DetailMatches(detail: Ptr, data: bool, detailed: bool, granted: bool) {
    && (data || !detailed ==> detail == NULL)
    && (!data && detailed && granted ==> detail != NULL)
  }

  /** The slots hold what the trace published. */
  ghost predicate Records(s: seq<CsInsn>, done: Trace, detailed: bool, granted: bool) {
    && |s| == |done.insns| == |done.data|
    && forall i :: 0 <= i < |s| ==>
         s[i].body == done.insns[i] && DetailMatches(s[i].detail, done.data[i], detailed, granted)
  }

  lemma RecordsSnoc(
      s: seq<CsInsn>, detail: Ptr, done: Trace, o: Outcome, detailed: bool, granted: bool,
      granted': bool)
    requires Records(s, done, detailed, granted) && (granted' ==> granted)
    requires o.Advanced? && DetailMatches(detail, o.data, detailed, granted')
    ensures Records(s + [CsInsn(o.insn, detail)], Join(done, Single(o)), detailed, granted')
  {
  }

  /** One pass of the loop of cs_disasm up to the filled slot. */
  method FillSlot(
      ud: CsHandle, cache: Cache, code: seq<byte>, pos: nat, address: nat, ghost base: nat)
    returns (o: Outcome, ghost detail: Ptr)
    requires ud.Valid() && cache.Valid() && cache.f < cache.cacheSize
    requires pos < |code| && AddressOf(address, base, pos)
    modifies ud`it, cache, cache.heap
    ensures o == StepAt(ud.GetConfig(), old(ud.it), code, pos, base) && ud.it == o.after
    ensures cache.Valid() && cache.cacheSize == old(cache.cacheSize)
    ensures cache.heap.refused >= old(cache.heap.refused)
    ensures o.Stopped? ==> cache.f == old(cache.f) && cache.Filled() == old(cache.Filled())
    ensures o.Advanced? ==>
      && cache.f == old(cache.f) + 1
      && cache.Filled() == old(cache.Filled()) + [CsInsn(o.insn, detail)]
      && DetailMatches(detail, o.data, cache.detailed, cache.heap.refused == old(cache.heap.refused))
  {
    cache.AddDetail();
    detail := cache.slots[cache.c].detail;
    AddressIs(address, base, pos);
    o := Attempt(ud, code, pos, address, base);
    if o.Advanced? && o.data {
      detail := NULL;
    }
    cache.Settle(o);
  }

  /** How much of the count is left agrees with how much is done; 0 means no limit. */
  ghost predicate Counted(cache: Cache, left: nat)
    reads cache
  {
    if cache.count == 0 then left == 0 else left == cache.count - cache.c > 0
  }

  /** The state of the loop of cs_disasm: there is room for an instruction, `done` has been recorded,
      and `rest` is the run from here. */
  ghost predicate Underway(
      ud: CsHandle, cache: Cache, code: seq<byte>, pos: nat, address: nat,
      base: nat, step: Stepper, left: nat, done: Trace, rest: Trace, refused: nat)
    reads ud, cache, cache.heap
  {
    && ud.Valid() && Drives(step, ud.GetConfig()) && FaithfulStepper(step)
    && cache.Valid() && cache.f < cache.cacheSize && refused <= cache.heap.refused
    && pos <= |code| && AddressOf(address, base, pos) && Counted(cache, left)
    && Records(cache.Filled(), done, cache.detailed, cache.heap.refused == refused)
    && Remains(rest, step, ud.it, code, pos, base, left)
  }

  /** FillSlot, followed in a run: `done` has happened, and `rest` is what still may. */
  method RecordSlot(
      ud: CsHandle, cache: Cache, code: seq<byte>, pos: nat, address: nat,
      ghost base: nat, ghost step: Stepper, ghost left: nat, ghost done: Trace, ghost rest: Trace,
      ghost refused: nat)
    returns (next: nat, ghost done': Trace, ghost rest': Trace)
    requires pos < |code|
    requires Underway(ud, cache, code, pos, address, base, step, left, done, rest, refused)
    modifies ud`it, cache, cache.heap
    ensures cache.Valid() && cache.cacheSize == old(cache.cacheSize)
    ensures cache.heap.refused >= refused
    ensures Records(cache.Filled(), done', cache.detailed, cache.heap.refused == refused)
    ensures next == 0 ==> cache.c == old(cache.c) && cache.f == old(cache.f)
    ensures next > 0 ==>
      pos + next <= |code| && cache.c == old(cache.c) + 1 && cache.f == old(cache.f) + 1
    ensures Join(done, rest) == Join(done', rest')
    ensures next == 0 || left == 1 ==> rest' == Ended(ud.it)
    ensures next > 0 && left != 1 ==> Remains(rest', step, ud.it, code, pos + next, base, Left(left))
  {
    ghost var it, filled, granted := ud.it, cache.Filled(), cache.heap.refused == refused;
    var o;
    ghost var detail;
    o, detail := FillSlot(ud, cache, code, pos, address, base);
    assert Agrees(step, ud.GetConfig(), it, code, pos, base);
    rest' := RunAdvances(step, it, code, pos, base, left, done, rest, o);
    if o.Stopped? {
      next, done' := 0, done;
    } else {
      RecordsSnoc(filled, detail, done, o, cache.detailed, granted, cache.heap.refused == refused);
      next, done' := o.consumed, Join(done, Single(o));
    }
  }

  datatype Progress = More | Complete | OutOfMemory

  /** `offset += next_offset`, in 64 bits. */
  method Advanced64(address: nat, next: nat, ghost base: nat, ghost pos: nat) returns (a: nat)
    requires AddressOf(address, base, pos)
    ensures AddressOf(a, base, pos + next)
  {
    AddressIs(address, base, pos);
    NextAddress(base, pos, next);
    a := Wrap64(address + next);
    AddressIs(a, base, pos + next);
  }

  /** One whole pass of the loop of cs_disasm: a slot, the two ways to be complete, and room for
      the next slot. */
  method Pass(
      ud: CsHandle, cache: Cache, code: seq<byte>, pos: nat, address: nat,
      ghost base: nat, ghost step: Stepper, ghost left: nat, ghost done: Trace, ghost rest: Trace,
      ghost refused: nat)
    returns (p: Progress, pos': nat, address': nat, ghost done': Trace, ghost rest': Trace)
    requires pos < |code|
    requires Underway(ud, cache, code, pos, address, base, step, left, done, rest, refused)
    modifies ud`it, cache, cache.heap
    ensures cache.heap.Valid() && cache.heap.refused >= refused
    ensures p.OutOfMemory? ==> cache.heap.live == cache.others && cache.heap.refused > refused
    ensures !p.OutOfMemory? ==>
      && cache.Valid() && Join(done, rest) == Join(done', rest')
      && Records(cache.Filled(), done', cache.detailed, cache.heap.refused == refused)
    ensures p.Complete? ==> rest' == Ended(ud.it)
    ensures p.More? ==>
      && pos < pos'
      && Underway(ud, cache, code, pos', address', base, step, Left(left), done', rest', refused)
  {
    var next;
    next, done', rest' := RecordSlot(
      ud, cache, code, pos, address, base, step, left, done, rest, refused);
    if next == 0 || (cache.count > 0 && cache.c == cache.count) {
      p := Complete;
    } else {
      var ok := cache.MakeRoom();
      p := if ok then More else OutOfMemory;
    }
    pos' := pos + next;
    address' := Advanced64(address, next, base, pos);
  }

  /** The loop of cs_disasm: fill slots until the input ends, the count is reached, nothing more can
      be decoded or skipped, or the buffer cannot grow. */
  method FillAll(
      ud: CsHandle, cache: Cache, code: seq<byte>, offset: nat, ghost step: Stepper, ghost run: Trace)
    returns (ok: bool)
    requires ud.Valid() && Drives(step, ud.GetConfig()) && FaithfulStepper(step)
    requires cache.Valid() && cache.f < cache.cacheSize && cache.c == 0
    requires AddressOf(offset, offset, 0)
    requires Remains(run, step, ud.it, code, 0, offset, cache.count)
    modifies ud`it, cache, cache.heap
    ensures cache.heap.Valid() && cache.heap.refused >= old(cache.heap.refused)
    ensures ok ==> cache.Valid() && ud.it == run.it
    ensures ok ==> Records(cache.Filled(), run, cache.detailed, cache.heap.refused == old(cache.heap.refused))
    ensures !ok ==>
      cache.heap.live == cache.others && cache.heap.refused > old(cache.heap.refused)
  {
    var pos, size, address, p := 0, |code|, offset, More;
    ghost var done, rest, refused, left := Ended(ud.it), run, cache.heap.refused, cache.count;
    while size > 0
      invariant Underway(ud, cache, code, pos, address, offset, step, left, done, rest, refused)
      invariant size == |code| - pos && run == Join(done, rest)
      decreases size
    {
      p, pos, address, done, rest := Pass(
        ud, cache, code, pos, address, offset, step, left, done, rest, refused);
      if !p.More? {
        return !p.OutOfMemory?;
      }
      size, left := |code| - pos, Left(left);
    }
    NothingRemains(rest, step, ud.it, code, offset, left);
    ok := true;
  }

  /** What the caller owns after a successful call: a buffer of exactly as many slots as there are
      instructions, their detail blocks, and nothing else; or nothing at all. */
  ghost predicate Delivered(
      insn: Ptr, slots: seq<CsInsn>, live: map<Ptr, Block>, others: map<Ptr, Block>)
  {
    if slots == [] then insn == NULL && live == others
    else
      && insn != NULL && insn !in others
      && Owned(live, others[insn := InsnBlock(BytesFor(|slots|))], Details(slots))
  }

  /** cs_disasm from the first allocation on. `insn` is None when the caller's pointer is left
      unwritten; `slots` is the memory it points to. */
  method FillBuffer(
      ud: CsHandle, heap: Heap, code: seq<byte>, offset: nat, count: nat,
      ghost step: Stepper, ghost run: Trace)
    returns (ok: bool, insn: Option<Ptr>, slots: seq<CsInsn>)
    requires heap.Valid() && ud.Valid() && AddressOf(offset, offset, 0)
    requires Drives(step, ud.GetConfig()) && FaithfulStepper(step)
    requires Remains(run, step, ud.it, code, 0, offset, count)
    modifies ud`it, heap
    ensures heap.Valid() && heap.refused >= old(heap.refused)
    ensures !ok ==>
      && (insn.Some? ==> insn.value == NULL) && slots == []
      && heap.live == old(heap.live) && heap.refused > old(heap.refused)
    ensures ok ==>
      && insn.Some? && Delivered(insn.value, slots, heap.live, old(heap.live))
      && Records(slots, run, ud.detail != OPT_OFF, heap.refused == old(heap.refused))
      && ud.it == run.it
  {
    var cache := new Cache(heap, count, ud.detail != OPT_OFF);
    if cache.total == NULL {
      return false, None, [];
    }
    ok := FillAll(ud, cache, code, offset, step, run);
    if !ok {
      return false, Some(NULL), [];
    }
    ok := cache.Finish();
    if !ok {
      return false, Some(NULL), [];
    }
    insn := Some(cache.total);
    slots := if cache.c > 0 then cache.slots else [];
  }

  /** The slots hold the run, and the IT block is what the run leaves. */
  ghost predicate Recorded(
      slots: seq<CsInsn>, cfg: Config, it: ItBlock, code: seq<byte>, offset: nat, count: nat,
      detailed: bool, granted: bool, after: ItBlock)
  {
    ConfigOk(cfg) &&
    var run := RunOf(cfg, it, code, offset, count);
    Records(slots, run, detailed, granted) && after == run.it
  }

  lemma RecordedIsTold(
      slots: seq<CsInsn>, cfg: Config, it: ItBlock, code: seq<byte>, offset: nat, count: nat,
      detailed: bool, granted: bool, after: ItBlock)
    requires Recorded(slots, cfg, it, code, offset, count, detailed, granted, after)
    ensures SlotsTold(slots, cfg, it, code, offset, count, detailed, granted, after)
    ensures count > 0 ==> |slots| <= count
  {
    var run := RunOf(cfg, it, code, offset, count);
    var blocks := RunIsTold(cfg, it, code, offset, count);
    assert Bodies(slots) == run.insns;
    assert EndsHere(
        Unfold, cfg, blocks[|slots|], after, code, Sum(run.widths), offset, |slots|, count);
    assert SlotsToldBy(
        slots, run.data, run.widths, blocks, cfg, it, code, offset, count, detailed, granted, after);
  }

  /** cs_disasm on a handle. */
  method DisasmHandle(ud: CsHandle, heap: Heap, code: seq<byte>, offset: nat, count: nat)
    returns (insn: Option<Ptr>, slots: seq<CsInsn>)
    requires heap.Valid() && ud.Valid() && offset < 0x1_0000_0000_0000_0000
    modifies ud`it, ud`errnum, heap
    ensures heap.Valid() && heap.refused >= old(heap.refused)
    ensures ud.errnum != ErrOk ==>
      && ud.errnum == ErrMem && slots == [] && (insn.Some? ==> insn.value == NULL)
      && heap.live == old(heap.live) && heap.refused > old(heap.refused)
    ensures ud.errnum == ErrOk ==>
      && insn.Some? && Delivered(insn.value, slots, heap.live, old(heap.live))
      && Recorded(slots, ud.GetConfig(), Reset(ud.arch, old(ud.it)), code, offset, count,
                  ud.detail != OPT_OFF, heap.refused == old(heap.refused), ud.it)
  {
    AddressIs(offset, offset, 0);
    ud.errnum := ErrOk;
    if ud.arch == Arm {
      ud.it := ud.it.(size := 0);
    }
    ghost var step, run := RunFor(ud.GetConfig(), ud.it, code, offset, count);
    var ok;
    ok, insn, slots := FillBuffer(ud, heap, code, offset, count, step, run);
    if !ok {
      ud.errnum := ErrMem;
    }
  }

  /** cs_disasm, and so the deprecated cs_disasm_ex. */
  method CsDisasm(ud: CsHandle?, heap: Heap, code: seq<byte>, offset: nat, count: nat)
    returns (c: nat, insn: Option<Ptr>, slots: seq<CsInsn>)
    requires heap.Valid() && (ud != null ==> ud.Valid()) && offset < 0x1_0000_0000_0000_0000
    modifies ud, heap
    ensures heap.Valid() && c == |slots| && heap.refused >= old(heap.refused)
    ensures ud != null ==> ud.Valid() && ud.GetSettings() == old(ud.GetSettings())
    ensures ud == null ==> c == 0 && insn == None && heap.live == old(heap.live)
    ensures ud != null && ud.errnum != ErrOk ==>
      && ud.errnum == ErrMem && c == 0 && (insn.Some? ==> insn.value == NULL)
      && heap.live == old(heap.live) && heap.refused > old(heap.refused)
    ensures ud != null && ud.errnum == ErrOk ==>
      && insn.Some? && Delivered(insn.value, slots, heap.live, old(heap.live))
      && Recorded(slots, ud.GetConfig(), Reset(ud.arch, old(ud.it)), code, offset, count,
                  ud.detail != OPT_OFF, heap.refused == old(heap.refused), ud.it)
    ensures ud != null && ud.errnum == ErrOk ==>
      && (count > 0 ==> c <= count)
      && SlotsTold(slots, ud.GetConfig(), Reset(ud.arch, old(ud.it)), code, offset, count,
                   ud.detail != OPT_OFF, heap.refused == old(heap.refused), ud.it)
  {
    if ud == null {
      return 0, None, [];
    }
    ghost var it, refused := Reset(ud.arch, ud.it), heap.refused;
    insn, slots := DisasmHandle(ud, heap, code, offset, count);
    if ud.errnum == ErrOk {
      RecordedIsTold(slots, ud.GetConfig(), it, code, offset, count, ud.detail != OPT_OFF,
                     heap.refused == refused, ud.it);
    }
    c := |slots|;
  }

  /** The caller's `code`, `size` and `address` variables. */
  class Cursor {
    var code: seq<byte>
    var address: nat

    constructor (code: seq<byte>, address: nat)
      ensures this.code == code && this.address == address
    {
      this.code, this.address := code, address;
    }
  }

  /** The caller's instruction, with the details that cs_malloc gave it. */
  class Cell {
    var insn: CsInsn

    constructor (insn: CsInsn)
      ensures this.insn == insn
    {
      this.insn := insn;
    }
  }

  /** The body of cs_disasm_iter, tied to the step that it takes. */
  method TakeStep(ud: CsHandle?, cursor: Cursor, cell: Cell) returns (ok: bool)
    requires ud != null ==> ud.Valid() && cursor.address < 0x1_0000_0000_0000_0000
    modifies ud, cursor, cell
    ensures ud == null ==>
      !ok && cursor.code == old(cursor.code) && cursor.address == old(cursor.address)
      && cell.insn == old(cell.insn)
    ensures ud != null ==>
      ud.Valid() && ud.GetSettings() == old(ud.GetSettings()) && ud.errnum == ErrOk
    ensures ud != null ==>
      var o := StepAt(ud.GetConfig(), old(ud.it), old(cursor.code), 0, old(cursor.address));
      && ud.it == o.after && ok == o.Advanced? && cell.insn.detail == old(cell.insn.detail)
      && (ok ==>
            && 1 <= o.consumed <= |old(cursor.code)| && cursor.code == old(cursor.code)[o.consumed..]
            && cursor.address == Wrap64(old(cursor.address) + o.consumed) && cell.insn.body == o.insn)
      && (!ok ==>
            && cursor.code == old(cursor.code) && cursor.address == old(cursor.address)
            && cell.insn.body == old(cell.insn.body).(address := old(cursor.address)))
  {
    if ud == null {
      return false;
    }
    ud.errnum := ErrOk;
    cell.insn := cell.insn.(body := cell.insn.body.(address := cursor.address));
    ghost var it := ud.it;
    var o := Attempt(ud, cursor.code, 0, cursor.address, cursor.address);
    if o.Stopped? {
      return false;
    }
    StepIsFaithful(ud.GetConfig(), it, cursor.code, 0, cursor.address);
    cell.insn := cell.insn.(body := o.insn);
    cursor.code := cursor.code[o.consumed..];
    cursor.address := Wrap64(cursor.address + o.consumed);
    ok := true;
  }

  /** cs_disasm_iter: one step, and the cursor past it. A step that fails moves nothing, but the
      instruction's address is already overwritten and the decoder has run. */
  method CsDisasmIter(ud: CsHandle?, cursor: Cursor, cell: Cell) returns (ok: bool)
    requires ud != null ==> ud.Valid() && cursor.address < 0x1_0000_0000_0000_0000
    modifies ud, cursor, cell
    ensures ud == null ==>
      !ok && cursor.code == old(cursor.code) && cursor.address == old(cursor.address)
      && cell.insn == old(cell.insn)
    ensures ud != null ==>
      ud.Valid() && ud.GetSettings() == old(ud.GetSettings()) && ud.errnum == ErrOk
    ensures ud != null ==>
      && cell.insn.detail == old(cell.insn.detail)
      && Stepped(ok, ud.GetConfig(), cell.insn.body, old(ud.it), ud.it, old(cursor.code), cursor.code,
                 old(cursor.address))
      && cursor.address == Wrap64(old(cursor.address) + |old(cursor.code)| - |cursor.code|)
      && (!ok ==> cell.insn.body == old(cell.insn.body).(address := old(cursor.address)))
    ensures ud != null ==>
      var o := StepAt(ud.GetConfig(), old(ud.it), old(cursor.code), 0, old(cursor.address));
      && ud.it == o.after && ok == o.Advanced?
      && (ok ==> cell.insn.body == o.insn && |cursor.code| + o.consumed == |old(cursor.code)|)
  {
    ghost var o;
    if ud != null {
      o := StepAt(ud.GetConfig(), ud.it, cursor.code, 0, cursor.address);
      StepIsStepped(ud.GetConfig(), ud.it, cursor.code, cursor.address, o);
    }
    ok := TakeStep(ud, cursor, cell);
  }

  /** CsDisasmIter, followed in an iteration of which `rest` is still to come. */
  method IterateOnce(
      ud: CsHandle, cursor: Cursor, cell: Cell, ghost step: Stepper, ghost rest: seq<Insn>)
    returns (ok: bool, ghost rest': seq<Insn>)
    requires ud.Valid() && cursor.address < 0x1_0000_0000_0000_0000
    requires Drives(step, ud.GetConfig()) && FaithfulStepper(step)
    requires Awaits(rest, step, ud.it, cursor.code, cursor.address)
    modifies ud, cursor, cell
    ensures ud.Valid() && ud.GetConfig() == old(ud.GetConfig())
    ensures cursor.address < 0x1_0000_0000_0000_0000 && cell.insn.detail == old(cell.insn.detail)
    ensures if ok then rest == [cell.insn.body] + rest' else rest == rest' == []
    ensures ok ==>
      |cursor.code| < |old(cursor.code)| && Awaits(rest', step, ud.it, cursor.code, cursor.address)
  {
    ghost var o := StepAt(ud.GetConfig(), ud.it, cursor.code, 0, cursor.address);
    assert Agrees(step, ud.GetConfig(), ud.it, cursor.code, 0, cursor.address);
    rest' := IterationAdvances(rest, step, ud.it, cursor.code, cursor.address, o);
    ok := CsDisasmIter(ud, cursor, cell);
    if !ok {
      rest' := [];
    }
  }

  /** The usual client of cs_disasm_iter: step until it fails, keeping each instruction. */
  method IterateAll(ud: CsHandle, code: seq<byte>, address: nat, cell: Cell)
    returns (insns: seq<Insn>)
    requires ud.Valid() && address < 0x1_0000_0000_0000_0000
    modifies ud, cell
    ensures ud.Valid() && ConfigOk(old(ud.GetConfig())) && cell.insn.detail == old(cell.insn.detail)
    ensures insns == IteratedOf(old(ud.GetConfig()), old(ud.it), code, address)
  {
    ghost var cfg := ud.GetConfig();
    ghost var step, all := IterationFor(cfg, ud.it, code, address);
    ghost var rest := all;
    var cursor := new Cursor(code, address);
    insns := [];
    var more := true;
    while more
      invariant ud.Valid() && ud.GetConfig() == cfg && fresh(cursor)
      invariant cursor.address < 0x1_0000_0000_0000_0000 && cell.insn.detail == old(cell.insn.detail)
      invariant all == insns + rest
      invariant if more then Awaits(rest, step, ud.it, cursor.code, cursor.address) else rest == []
      decreases more, |cursor.code|
    {
      more, rest := IterateOnce(ud, cursor, cell, step, rest);
      if more {
        insns := insns + [cell.insn.body];
      }
    }
  }

  /** cs_malloc, for one instruction of cs_disasm_iter. */
  method CsMalloc(ud: CsHandle, heap: Heap) returns (insn: Ptr, slots: seq<CsInsn>)
    requires heap.Valid() && ud.Valid()
    modifies ud`errnum, heap
    ensures heap.Valid()
    ensures insn == NULL ==> ud.errnum == ErrMem && heap.live == old(heap.live)
    ensures insn != NULL ==>
      && |slots| == 1 && insn !in old(heap.live) && ud.errnum == old(ud.errnum)
      && (slots[0].detail != NULL <==> ud.detail != OPT_OFF)
      && Owned(heap.live, old(heap.live)[insn := InsnBlock(BytesFor(1))], Details(slots))
  {
    ghost var others := heap.live;
    slots := Uninitialized(1);
    insn := heap.Malloc(InsnBlock(BytesFor(1)));
    if insn == NULL {
      ud.errnum := ErrMem;
      return;
    }
    ghost var rest := heap.live;
    OwnedNothing(heap.live, rest);
    var detail := NULL;
    if ud.detail != OPT_OFF {
      detail := heap.Malloc(DetailBlock);
      if detail == NULL {
        heap.Free(insn);
        ud.errnum := ErrMem;
        return NULL, [];
      }
      OwnedNewDetail(rest, rest, [], detail);
    } else {
      OwnedNoDetail(rest, rest, []);
    }
    slots := [slots[0].(detail := detail)];
    assert Details(slots) == [] + [detail];
  }

  /** Disassembling a buffer and freeing the result restores the heap, whatever happens between. */
  method DisasmThenFree(ud: CsHandle?, heap: Heap, code: seq<byte>, offset: nat, count: nat)
    requires heap.Valid() && (ud != null ==> ud.Valid()) && offset < 0x1_0000_0000_0000_0000
    modifies ud, heap
    ensures heap.Valid() && heap.live == old(heap.live)
  {
    var c, insn, slots := CsDisasm(ud, heap, code, offset, count);
    if c > 0 {
      assert slots[..c] == slots;
      CsFree(heap, insn.value, slots, c, old(heap.live), InsnBlock(BytesFor(c)));
    }
  }

  /** The life of the instruction that cs_malloc gives out: stepping through a buffer with it and
      freeing it restores the heap, and every instruction of the iteration has been seen. */
  method MallocIterateFree(ud: CsHandle, heap: Heap, code: seq<byte>, address: nat)
    returns (insns: seq<Insn>, ok: bool)
    requires heap.Valid() && ud.Valid() && address < 0x1_0000_0000_0000_0000
    modifies ud, heap
    ensures heap.Valid() && heap.live == old(heap.live)
    ensures ConfigOk(old(ud.GetConfig()))
    ensures ok ==> insns == IteratedOf(old(ud.GetConfig()), old(ud.it), code, address)
    ensures !ok ==> insns == [] && ud.errnum == ErrMem
  {
    var insn, slots := CsMalloc(ud, heap);
    if insn == NULL {
      return [], false;
    }
    var cell := new Cell(slots[0]);
    assert Details(slots) == [cell.insn.detail];
    insns := IterateAll(ud, code, address, cell);
    slots := [cell.insn];
    assert Details(slots[..1]) == [cell.insn.detail];
    CsFree(heap, insn, slots, 1, old(heap.live), InsnBlock(BytesFor(1)));
    ok := true;
  }
}
