/** Whole runs of disassembly, for any step function: the theory shared by the batch driver
    cs_disasm and the single-step driver cs_disasm_iter. */
module Runs {
  import opened Words

  /** The ARM IT block, the only engine state that decoding carries from step to step. */
  datatype ItBlock = ItBlock(states: seq<byte>, size: nat)

  /** A cs_insn without its detail pointer; `bytes` holds the `size` bytes that are meaningful. */
  datatype Insn = Insn(
    id: nat, address: nat, size: nat, bytes: seq<byte>, mnemonic: string, opStr: string)

  datatype Outcome =
    | Stopped(after: ItBlock)
    | Advanced(after: ItBlock, consumed: nat, data: bool, insn: Insn)

  /** One attempt at position `pos` of `code`, whose first byte has address `base`. */
  type Stepper = (ItBlock, seq<byte>, nat, nat) -> Outcome

  const BYTES_CAPACITY: nat := 16

  /** A step that advances consumes some of the remaining bytes, and publishes their address and
      the last 16 of them. */
  ghost predicate Faithful(o: Outcome, code: seq<byte>, pos: nat, base: nat) {
    o.Advanced? ==>
      && 1 <= o.consumed < 0x1_0000 && pos + o.consumed <= |code|
      && o.insn.address == Wrap64(base + pos)
      && o.insn.size == Kept(o.consumed)
      && o.insn.bytes == code[pos + o.consumed - Kept(o.consumed)..pos + o.consumed]
  }

  function Kept(consumed: nat): (n: nat)
    ensures n <= consumed && n <= BYTES_CAPACITY
  {
    if consumed < BYTES_CAPACITY then consumed else BYTES_CAPACITY
  }

  ghost predicate FaithfulStepper(step: Stepper) {
    forall it, code, pos: nat, base :: pos <= |code| ==> Faithful(step(it, code, pos, base), code, pos, base)
  }

  /** What a run publishes, how many bytes each step consumed and which steps skipped data, and
      the IT block that it leaves. */
  datatype Trace = Trace(insns: seq<Insn>, widths: seq<nat>, data: seq<bool>, it: ItBlock)

  function Ended(it: ItBlock): Trace {
    Trace([], [], [], it)
  }

  function Join(a: Trace, b: Trace): Trace {
    Trace(a.insns + b.insns, a.widths + b.widths, a.data + b.data, b.it)
  }

  function Single(o: Outcome): Trace
    requires o.Advanced?
  {
    Trace([o.insn], [o.consumed], [o.data], o.after)
  }

  /** What is left of a count after one instruction; 0 stays 0, for no limit. */
  function Left(count: nat): nat {
    if count == 0 then 0 else count - 1
  }

  /** The run of cs_disasm from position `pos`; a `count` of 0 means no limit. */
  ghost function Run(
      step: Stepper, it: ItBlock, code: seq<byte>, pos: nat, base: nat, count: nat): Trace
    requires FaithfulStepper(step) && pos <= |code|
    decreases |code| - pos
  {
    if pos == |code| then Ended(it) else
      var o := step(it, code, pos, base);
      assert Faithful(o, code, pos, base);
      if o.Stopped? then Ended(o.after)
      else if count == 1 then Single(o)
      else Join(Single(o), Run(step, o.after, code, pos + o.consumed, base, Left(count)))
  }

  /** `rest` is the run from `pos`. The quantifier keeps the verifier from unfolding every run in
      sight: only the lemmas below instantiate it. */
  ghost predicate Remains(
      rest: Trace, step: Stepper, it: ItBlock, code: seq<byte>, pos: nat, base: nat, count: nat)
    requires FaithfulStepper(step) && pos <= |code|
  {
    forall u: Unfolding :: IsRun(u, rest, step, it, code, pos, base, count)
  }

  ghost predicate IsRun(
      u: Unfolding, rest: Trace, step: Stepper, it: ItBlock, code: seq<byte>, pos: nat, base: nat,
      count: nat)
    requires FaithfulStepper(step) && pos <= |code|
  {
    rest == Run(step, it, code, pos, base, count)
  }

  lemma RemainsIsRun(
      rest: Trace, step: Stepper, it: ItBlock, code: seq<byte>, pos: nat, base: nat, count: nat)
    requires FaithfulStepper(step) && pos <= |code|
    ensures Remains(rest, step, it, code, pos, base, count) <==>
            rest == Run(step, it, code, pos, base, count)
  {
    if Remains(rest, step, it, code, pos, base, count) {
      assert IsRun(Unfold, rest, step, it, code, pos, base, count);
    }
  }

  lemma NothingRemains(
      rest: Trace, step: Stepper, it: ItBlock, code: seq<byte>, base: nat, count: nat)
    requires FaithfulStepper(step) && Remains(rest, step, it, code, |code|, base, count)
    ensures rest == Ended(it)
  {
    RemainsIsRun(rest, step, it, code, |code|, base, count);
  }

  /** Moving one step from what is left of a run to what is done of it. */
  lemma RunAdvances(
      step: Stepper, it: ItBlock, code: seq<byte>, pos: nat, base: nat, count: nat,
      done: Trace, rest: Trace, o: Outcome)
    returns (rest': Trace)
    requires FaithfulStepper(step) && pos < |code| && o == step(it, code, pos, base)
    requires Remains(rest, step, it, code, pos, base, count)
    ensures o.Advanced? ==> 1 <= o.consumed && pos + o.consumed <= |code|
    ensures Join(done, rest) == Join(if o.Stopped? then done else Join(done, Single(o)), rest')
    ensures o.Stopped? || count == 1 ==> rest' == Ended(o.after)
    ensures o.Advanced? && count != 1 ==>
      Remains(rest', step, o.after, code, pos + o.consumed, base, Left(count))
  {
    assert Faithful(o, code, pos, base);
    RemainsIsRun(rest, step, it, code, pos, base, count);
    if o.Stopped? || count == 1 {
      rest' := Ended(o.after);
    } else {
      rest' := Run(step, o.after, code, pos + o.consumed, base, Left(count));
      RemainsIsRun(rest', step, o.after, code, pos + o.consumed, base, Left(count));
    }
    if o.Advanced? {
      JoinAssociates(done, Single(o), rest');
    }
  }

  lemma JoinAssociates(a: Trace, b: Trace, c: Trace)
    ensures Join(a, Join(b, c)) == Join(Join(a, b), c)
  {
  }

  /** What repeating cs_disasm_iter until it fails yields: each step sees only what remains. */
  ghost function Iterated(step: Stepper, it: ItBlock, code: seq<byte>, address: nat): seq<Insn>
    requires FaithfulStepper(step)
    decreases |code|
  {
    var o := step(it, code, 0, address);
    assert Faithful(o, code, 0, address);
    if o.Stopped? then []
    else [o.insn] + Iterated(step, o.after, code[o.consumed..], Wrap64(address + o.consumed))
  }

  /** `rest` is what iterating yields from here, with the same precaution as `Remains`. */
  ghost predicate Awaits(
      rest: seq<Insn>, step: Stepper, it: ItBlock, code: seq<byte>, address: nat)
    requires FaithfulStepper(step)
  {
    forall u: Unfolding :: IsIterated(u, rest, step, it, code, address)
  }

  ghost predicate IsIterated(
      u: Unfolding, rest: seq<Insn>, step: Stepper, it: ItBlock, code: seq<byte>, address: nat)
    requires FaithfulStepper(step)
  {
    rest == Iterated(step, it, code, address)
  }

  lemma AwaitsIterated(rest: seq<Insn>, step: Stepper, it: ItBlock, code: seq<byte>, address: nat)
    requires FaithfulStepper(step)
    ensures Awaits(rest, step, it, code, address) <==> rest == Iterated(step, it, code, address)
  {
    if Awaits(rest, step, it, code, address) {
      assert IsIterated(Unfold, rest, step, it, code, address);
    }
  }

  /** Moving one step from what is left of an iteration to what is done of it. */
  lemma IterationAdvances(
      rest: seq<Insn>, step: Stepper, it: ItBlock, code: seq<byte>, address: nat, o: Outcome)
    returns (rest': seq<Insn>)
    requires FaithfulStepper(step) && o == step(it, code, 0, address)
    requires Awaits(rest, step, it, code, address)
    ensures o.Stopped? ==> rest == []
    ensures o.Advanced? ==>
      && 1 <= o.consumed <= |code| && rest == [o.insn] + rest'
      && Awaits(rest', step, o.after, code[o.consumed..], Wrap64(address + o.consumed))
  {
    assert Faithful(o, code, 0, address);
    AwaitsIterated(rest, step, it, code, address);
    rest' := [];
    if o.Advanced? {
      var tail, next := code[o.consumed..], Wrap64(address + o.consumed);
      rest' := Iterated(step, o.after, tail, next);
      AwaitsIterated(rest', step, o.after, tail, next);
    }
  }

  /** The first `count` elements, or all of them when `count` is 0 or there are fewer. */
  function Limited<T>(s: seq<T>, count: nat): seq<T> {
    if 0 < count < |s| then s[..count] else s
  }

  /** A positive count yields a prefix of the unlimited run. */
  lemma {:induction false} CountTakesPrefix(
      step: Stepper, it: ItBlock, code: seq<byte>, pos: nat, base: nat, count: nat)
    requires FaithfulStepper(step) && pos <= |code|
    ensures Run(step, it, code, pos, base, count).insns ==
            Limited(Run(step, it, code, pos, base, 0).insns, count)
    decreases |code| - pos
  {
    if pos < |code| && count > 0 {
      var o := step(it, code, pos, base);
      assert Faithful(o, code, pos, base);
      if o.Advanced? && count > 1 {
        CountTakesPrefix(step, o.after, code, pos + o.consumed, base, count - 1);
      }
    }
  }

  // ---------------------------------------------------------------- batch and single step

  /** The step sees only the remaining bytes and their address. */
  ghost predicate Positionless(step: Stepper) {
    forall it, code, pos: nat, base :: pos <= |code| ==> SameStep(step, it, code, pos, base)
  }

  ghost predicate SameStep(step: Stepper, it: ItBlock, code: seq<byte>, pos: nat, base: nat)
    requires pos <= |code|
  {
    step(it, code, pos, base) == step(it, code[pos..], 0, Wrap64(base + pos))
  }

  /** The first step of both runs, given that the rest of them agree. */
  lemma AgreeOneStep(
      step: Stepper, it: ItBlock, code: seq<byte>, pos: nat, base: nat, rest: seq<byte>, address: nat,
      o: Outcome)
    requires FaithfulStepper(step) && pos <= |code| && |rest| == |code| - pos
    requires o == step(it, code, pos, base) == step(it, rest, 0, address)
    requires o.Advanced? ==> pos + o.consumed <= |code|
    requires o.Advanced? ==>
      Run(step, o.after, code, pos + o.consumed, base, 0).insns ==
      Iterated(step, o.after, rest[o.consumed..], Wrap64(address + o.consumed))
    ensures Run(step, it, code, pos, base, 0).insns == Iterated(step, it, rest, address)
  {
    assert Faithful(o, code, pos, base) && Faithful(o, rest, 0, address);
  }

  lemma Remaining(code: seq<byte>, pos: nat, n: nat, base: nat)
    requires pos + n <= |code|
    ensures code[pos..][n..] == code[pos + n..]
    ensures Wrap64(Wrap64(base + pos) + n) == Wrap64(base + (pos + n))
  {
    NextAddress(base, pos, n);
  }

  /** The batch run yields exactly what repeating the single step until it fails yields. */
  lemma {:induction false} BatchIsIterated(
      step: Stepper, it: ItBlock, code: seq<byte>, pos: nat, base: nat, rest: seq<byte>, address: nat)
    requires FaithfulStepper(step) && Positionless(step) && pos <= |code|
    requires rest == code[pos..] && address == Wrap64(base + pos)
    ensures Run(step, it, code, pos, base, 0).insns == Iterated(step, it, rest, address)
    decreases |code| - pos
  {
    var o := step(it, code, pos, base);
    assert SameStep(step, it, code, pos, base);
    assert Faithful(o, code, pos, base);
    if o.Advanced? {
      var n := o.consumed;
      Remaining(code, pos, n, base);
      BatchIsIterated(step, o.after, code, pos + n, base, rest[n..], Wrap64(address + n));
    }
    AgreeOneStep(step, it, code, pos, base, rest, address, o);
  }

  // ---------------------------------------------------------------- tiling

  function Sum(s: seq<nat>): nat {
    if s == [] then 0 else s[0] + Sum(s[1..])
  }

  function Bytes(insns: seq<Insn>): seq<byte> {
    if insns == [] then [] else insns[0].bytes + Bytes(insns[1..])
  }

  /** The instruction describes the `width` bytes from position `start`, or the last 16 of them. */
  ghost predicate InStretch(insn: Insn, code: seq<byte>, start: nat, width: nat, base: nat) {
    && 1 <= width < 0x1_0000 && start + width <= |code|
    && insn.address == Wrap64(base + start)
    && insn.size == Kept(width)
    && insn.bytes == code[start + width - Kept(width)..start + width]
  }

  /** The instructions describe consecutive stretches of the given widths from `start` on. */
  ghost predicate Tiled(insns: seq<Insn>, widths: seq<nat>, code: seq<byte>, start: nat, base: nat) {
    && |insns| == |widths| && start <= |code|
    && (insns != [] ==>
          && InStretch(insns[0], code, start, widths[0], base)
          && Tiled(insns[1..], widths[1..], code, start + widths[0], base))
  }

  lemma {:induction false} RunIsTiled(
      step: Stepper, it: ItBlock, code: seq<byte>, pos: nat, base: nat, count: nat)
    requires FaithfulStepper(step) && pos <= |code|
    ensures var run := Run(step, it, code, pos, base, count);
      Tiled(run.insns, run.widths, code, pos, base)
    decreases |code| - pos
  {
    if pos < |code| {
      var o := step(it, code, pos, base);
      assert Faithful(o, code, pos, base);
      if o.Advanced? {
        if count == 1 {
          assert Tiled([], [], code, pos + o.consumed, base);
        } else {
          RunIsTiled(step, o.after, code, pos + o.consumed, base, Left(count));
        }
      }
    }
  }

  /** The i-th instruction starts where the widths before it end. */
  lemma {:induction false} TiledAt(
      insns: seq<Insn>, widths: seq<nat>, code: seq<byte>, start: nat, base: nat, i: nat)
    requires Tiled(insns, widths, code, start, base) && i < |insns|
    ensures InStretch(insns[i], code, start + Sum(widths[..i]), widths[i], base)
  {
    if i > 0 {
      TiledAt(insns[1..], widths[1..], code, start + widths[0], base, i - 1);
      assert widths[..i][1..] == widths[1..][..i - 1];
    }
  }

  /** Each address is the previous address plus the previous size exactly when the previous step
      consumed at most 16 bytes: `size` is cut to the capacity of `bytes`, the advance is not. */
  lemma {:induction false} AddressesChain(
      insns: seq<Insn>, widths: seq<nat>, code: seq<byte>, start: nat, base: nat, i: nat)
    requires Tiled(insns, widths, code, start, base) && i + 1 < |insns|
    ensures insns[i + 1].address == Wrap64(insns[i].address + insns[i].size)
            <==> widths[i] <= BYTES_CAPACITY
  {
    if i == 0 {
      assert InStretch(insns[1..][0], code, start + widths[0], widths[1..][0], base);
      AddressGap(base + start, widths[0]);
    } else {
      AddressesChain(insns[1..], widths[1..], code, start + widths[0], base, i - 1);
    }
  }

  lemma AddressGap(a: nat, w: nat)
    requires w < 0x1_0000
    ensures Wrap64(a + w) == Wrap64(Wrap64(a) + Kept(w)) <==> w <= BYTES_CAPACITY
  {
  }

  ghost predicate AllShort(widths: seq<nat>) {
    forall i :: 0 <= i < |widths| ==> widths[i] <= BYTES_CAPACITY
  }

  /** The concatenated instruction bytes are the input that was consumed exactly when no step
      consumed more than 16 bytes. */
  lemma {:induction false} BytesArePrefix(
      insns: seq<Insn>, widths: seq<nat>, code: seq<byte>, start: nat, base: nat)
    requires Tiled(insns, widths, code, start, base)
    ensures start + Sum(widths) <= |code| && |Bytes(insns)| <= Sum(widths)
    ensures Bytes(insns) == code[start..start + Sum(widths)] <==> AllShort(widths)
  {
    if insns != [] {
      var n, ws := widths[0], widths[1..];
      var first, rest := insns[0].bytes, Bytes(insns[1..]);
      BytesArePrefix(insns[1..], ws, code, start + n, base);
      assert Sum(widths) == n + Sum(ws) && Bytes(insns) == first + rest;
      TakeOne(first, rest, n, code, start, Sum(ws));
      AllShortCons(widths);
    }
  }

  lemma AllShortCons(widths: seq<nat>)
    requires widths != []
    ensures AllShort(widths) <==> widths[0] <= BYTES_CAPACITY && AllShort(widths[1..])
  {
    if widths[0] <= BYTES_CAPACITY && AllShort(widths[1..]) {
      forall i | 0 <= i < |widths|
        ensures widths[i] <= BYTES_CAPACITY
      {
        assert i > 0 ==> widths[i] == widths[1..][i - 1];
      }
    }
  }

  lemma TakeOne(first: seq<byte>, rest: seq<byte>, n: nat, code: seq<byte>, pos: nat, more: nat)
    requires pos + n + more <= |code| && |first| == Kept(n) && |rest| <= more
    requires first == code[pos + n - Kept(n)..pos + n]
    ensures first + rest == code[pos..pos + n + more] <==>
      n <= BYTES_CAPACITY && rest == code[pos + n..pos + n + more]
  {
    var whole := code[pos..pos + n + more];
    if first + rest == whole {
      assert |first + rest| == n + more;
      assert rest == whole[n..];
    }
    if n <= BYTES_CAPACITY && rest == code[pos + n..pos + n + more] {
      assert whole == code[pos..pos + n] + code[pos + n..pos + n + more];
    }
  }

  /** Instruction i has the address and bytes of the stretch after the widths before it. */
  ghost predicate Stretches(insns: seq<Insn>, widths: seq<nat>, code: seq<byte>, base: nat)
    requires |insns| == |widths|
  {
    forall i :: 0 <= i < |insns| ==> InStretch(insns[i], code, Sum(widths[..i]), widths[i], base)
  }

  /** Published addresses and sizes follow each other exactly after steps of at most 16 bytes. */
  ghost predicate Chained(insns: seq<Insn>, widths: seq<nat>)
    requires |insns| == |widths|
  {
    forall i :: 0 <= i < |insns| - 1 ==> ChainedAt(insns[i], insns[i + 1], widths[i])
  }

  ghost predicate ChainedAt(insn: Insn, next: Insn, width: nat) {
    next.address == Wrap64(insn.address + insn.size) <==> width <= BYTES_CAPACITY
  }

  /** The instructions of a run describe consecutive stretches of the input from its start. The
      published addresses and sizes follow each other, and the published bytes are the input that
      was consumed, exactly as far as no step consumed more than 16 bytes. */
  ghost predicate Tiles(run: Trace, code: seq<byte>, base: nat) {
    && |run.insns| == |run.widths| && Sum(run.widths) <= |code|
    && Stretches(run.insns, run.widths, code, base)
    && Chained(run.insns, run.widths)
    && (Bytes(run.insns) == code[..Sum(run.widths)] <==> AllShort(run.widths))
  }

  lemma TiledEverywhere(insns: seq<Insn>, widths: seq<nat>, code: seq<byte>, base: nat)
    requires Tiled(insns, widths, code, 0, base)
    ensures Stretches(insns, widths, code, base) && Chained(insns, widths)
  {
    forall i | 0 <= i < |insns|
      ensures InStretch(insns[i], code, Sum(widths[..i]), widths[i], base)
    {
      TiledAt(insns, widths, code, 0, base, i);
    }
    forall i | 0 <= i < |insns| - 1
      ensures ChainedAt(insns[i], insns[i + 1], widths[i])
    {
      AddressesChain(insns, widths, code, 0, base, i);
    }
  }

  lemma RunTiles(run: Trace, step: Stepper, it: ItBlock, code: seq<byte>, base: nat, count: nat)
    requires FaithfulStepper(step) && Remains(run, step, it, code, 0, base, count)
    ensures Tiles(run, code, base)
  {
    RemainsIsRun(run, step, it, code, 0, base, count);
    RunIsTiled(step, it, code, 0, base, count);
    TiledEverywhere(run.insns, run.widths, code, base);
    BytesArePrefix(run.insns, run.widths, code, 0, base);
    assert code[0..Sum(run.widths)] == code[..Sum(run.widths)];
  }
}
