/** Inputs on which the two drivers, or a run and its input, part company. */
module Divergence {
  import opened Words
  import opened Runs
  import opened Decoding
  import opened Handle
  import opened Skipping

  function Plain(decode: Decoder): Config {
    Config(decode, 0, false, 0, ".byte", None)
  }

  /** What cs_disasm yields on a handle is what repeating cs_disasm_iter on it yields. */
  ghost predicate SameOn(cfg: Config, arch: Arch, it: ItBlock, code: seq<byte>, offset: nat)
    requires ConfigOk(cfg)
  {
    RunOf(cfg, Reset(arch, it), code, offset, 0).insns == IteratedOf(cfg, it, code, offset)
  }

  /** The two drivers agree on the handle, whatever its decoder and the input. */
  ghost predicate SameForAll(cfg: Config, arch: Arch, it: ItBlock) {
    forall decode: Decoder, code, offset: nat ::
      ConfigOk(cfg.(decode := decode)) && offset < 0x1_0000_0000_0000_0000 ==>
        SameOn(cfg.(decode := decode), arch, it, code, offset)
  }

  // ---------------------------------------------------------------- the IT block

  /** Decodes single bytes, but only outside an IT block. */
  function OutsideOnly(mode: nat, it: ItBlock, code: seq<byte>, address: nat): Decoded {
    if it.size == 0 && code != [] then Instruction(it, 1, 1, 0, "nop") else Broken(it)
  }

  /** Inside an IT block that cs_disasm clears, one driver decodes and the other skips or stops. */
  lemma OneDecodes(cfg: Config, it: ItBlock, code: seq<byte>)
    requires ConfigOk(cfg) && cfg.decode == OutsideOnly && it.size != 0 && |code| == 1
    ensures var o, p := StepAt(cfg, Reset(Arm, it), code, 0, 0), StepAt(cfg, it, code, 0, 0);
      o.Advanced? && o.insn.id == 1 && (p.Advanced? ==> p.insn.id == 0)
  {
    assert code[0..] == code;
  }

  lemma FirstStepsPart(step: Stepper, a: ItBlock, b: ItBlock, code: seq<byte>, o: Outcome, p: Outcome)
    requires FaithfulStepper(step) && o == step(a, code, 0, 0) && p == step(b, code, 0, 0)
    requires code != [] && o.Advanced? && (p.Advanced? ==> p.insn != o.insn)
    ensures Run(step, a, code, 0, 0, 0).insns != Iterated(step, b, code, 0)
  {
    assert Faithful(o, code, 0, 0) && Faithful(p, code, 0, 0);
    var run, all := Run(step, a, code, 0, 0, 0).insns, Iterated(step, b, code, 0);
    assert run != [] && run[0] == o.insn;
    assert if p.Advanced? then all != [] && all[0] == p.insn else all == [];
  }

  lemma SomeBlockParts(cfg: Config, it: ItBlock)
    requires ConfigOk(cfg) && it.size != 0
    ensures !SameForAll(cfg, Arm, it)
  {
    var other, code: seq<byte> := cfg.(decode := OutsideOnly), [0];
    assert ConfigOk(other);
    ConfigIsFaithful(other);
    StepOfDrives(other);
    var step := StepOf(other);
    assert Agrees(step, other, Reset(Arm, it), code, 0, 0) && Agrees(step, other, it, code, 0, 0);
    OneDecodes(other, it, code);
    FirstStepsPart(
      step, Reset(Arm, it), it, code, step(Reset(Arm, it), code, 0, 0), step(it, code, 0, 0));
    assert !SameOn(other, Arm, it, code, 0);
  }

  // ---------------------------------------------------------------- skip callbacks

  /** Decodes single bytes until so many bytes remain. */
  function Until(remaining: nat): Decoder {
    (mode: nat, it: ItBlock, code: seq<byte>, address: nat) =>
      if |code| > remaining then Instruction(it, 1, 1, 0, "nop") else Broken(it)
  }

  /** What the step of cs_disasm and that of cs_disasm_iter make of a position. */
  ghost predicate Steps(cfg: Config, it: ItBlock, code: seq<byte>, from: nat, o: Outcome, p: Outcome)
    requires DecoderOk(cfg.decode) && from <= |code|
  {
    forall u: Unfolding :: StepsHere(u, cfg, it, code, from, o, p)
  }

  ghost predicate StepsHere(
      u: Unfolding, cfg: Config, it: ItBlock, code: seq<byte>, from: nat, o: Outcome, p: Outcome)
    requires DecoderOk(cfg.decode) && from <= |code|
  {
    o == StepAt(cfg, it, code, from, 0) && p == StepAt(cfg, it, code[from..], 0, Wrap64(from))
  }

  lemma StepsAt(cfg: Config, step: Stepper, it: ItBlock, code: seq<byte>, from: nat)
    returns (o: Outcome, p: Outcome)
    requires DecoderOk(cfg.decode) && Drives(step, cfg) && from <= |code|
    ensures o == step(it, code, from, 0) && p == step(it, code[from..], 0, Wrap64(from))
    ensures Steps(cfg, it, code, from, o, p)
  {
    o, p := step(it, code, from, 0), step(it, code[from..], 0, Wrap64(from));
    assert Agrees(step, cfg, it, code, from, 0) && Agrees(step, cfg, it, code[from..], 0, Wrap64(from));
  }

  lemma SameByte(
      cfg: Config, it: ItBlock, code: seq<byte>, from: nat, remaining: nat, o: Outcome, p: Outcome)
    requires from <= |code| && remaining < |code| - from && cfg.decode == Until(remaining)
    requires DecoderOk(cfg.decode) && Steps(cfg, it, code, from, o, p)
    ensures o == p && o.Advanced? && o.consumed == 1 && o.after == it
  {
    assert StepsHere(Unfold, cfg, it, code, from, o, p);
    var d := cfg.decode(cfg.mode, it, code[from..], Wrap64(from));
    assert code[from..][0..] == code[from..];
    PublishedRest(d, code, from, Wrap64(from));
  }

  /** Where nothing can be decoded, the step is the skip, and its width can be told from it. */
  lemma SkipStep(cfg: Config, it: ItBlock, code: seq<byte>, pos: nat, base: nat)
    requires ConfigOk(cfg) && pos <= |code|
    requires cfg.decode(cfg.mode, it, code[pos..], Wrap64(base + pos)).Broken?
    ensures var o, n := StepAt(cfg, it, code, pos, base), SkipWidth(cfg, code, pos);
      if n == 0 then o.Stopped? else o.Advanced? && o.consumed == o.insn.size == n
  {
    if cfg.callback.Some? {
      assert SkipFits(cfg.callback.value(code, pos), |code| - pos);
    }
  }

  lemma OtherSkip(cfg: Config, it: ItBlock, code: seq<byte>, pos: nat, o: Outcome, p: Outcome)
    requires ConfigOk(cfg) && pos <= |code| && !SameSkip(cfg, code, pos)
    requires cfg.decode == Until(|code| - pos) && Steps(cfg, it, code, pos, o, p)
    ensures o.Advanced? || p.Advanced?
    ensures o.Advanced? && p.Advanced? ==> o.insn != p.insn
  {
    assert StepsHere(Unfold, cfg, it, code, pos, o, p);
    assert code[pos..][0..] == code[pos..];
    SkipStep(cfg, it, code, pos, 0);
    SkipStep(cfg, it, code[pos..], 0, Wrap64(pos));
  }

  /** The two drivers yield different instructions from the position on. The quantifier keeps the
      verifier from unfolding the runs. */
  ghost predicate Part(step: Stepper, it: ItBlock, code: seq<byte>, from: nat)
    requires FaithfulStepper(step) && from <= |code|
  {
    forall u: Unfolding :: PartHere(u, step, it, code, from)
  }

  ghost predicate PartHere(u: Unfolding, step: Stepper, it: ItBlock, code: seq<byte>, from: nat)
    requires FaithfulStepper(step) && from <= |code|
  {
    Run(step, it, code, from, 0, 0).insns != Iterated(step, it, code[from..], Wrap64(from))
  }

  /** They part at the first step. */
  lemma PartNow(step: Stepper, it: ItBlock, code: seq<byte>, from: nat, o: Outcome, p: Outcome)
    requires FaithfulStepper(step) && from <= |code|
    requires o == step(it, code, from, 0) && p == step(it, code[from..], 0, Wrap64(from))
    requires o.Advanced? || p.Advanced?
    requires o.Advanced? && p.Advanced? ==> o.insn != p.insn
    ensures Part(step, it, code, from)
  {
    assert Faithful(o, code, from, 0) && Faithful(p, code[from..], 0, Wrap64(from));
    var run, all := Run(step, it, code, from, 0, 0).insns, Iterated(step, it, code[from..], Wrap64(from));
    assert if o.Advanced? then run != [] && run[0] == o.insn else run == [];
    assert if p.Advanced? then all != [] && all[0] == p.insn else all == [];
  }

  /** They take the same step, and part later. */
  lemma PartLater(step: Stepper, it: ItBlock, code: seq<byte>, from: nat, o: Outcome)
    requires FaithfulStepper(step) && from < |code|
    requires o == step(it, code, from, 0) == step(it, code[from..], 0, Wrap64(from))
    requires o.Advanced? && o.consumed == 1 && Part(step, o.after, code, from + 1)
    ensures Part(step, it, code, from)
  {
    assert PartHere(Unfold, step, o.after, code, from + 1);
    Remaining(code, from, 1, 0);
    assert Faithful(o, code, from, 0);
    var run, all := Run(step, it, code, from, 0, 0).insns, Iterated(step, it, code[from..], Wrap64(from));
    assert run == [o.insn] + Run(step, o.after, code, from + 1, 0, 0).insns;
    assert all == [o.insn] + Iterated(step, o.after, code[from + 1..], Wrap64(from + 1));
    assert run[1..] != all[1..];
  }

  /** Before the position at which the skips differ, both drivers decode the same single bytes. */
  lemma {:induction false} PartAt(
      cfg: Config, step: Stepper, it: ItBlock, code: seq<byte>, from: nat, pos: nat)
    requires ConfigOk(cfg) && FaithfulStepper(step) && Drives(step, cfg)
    requires from <= pos <= |code| && !SameSkip(cfg, code, pos) && cfg.decode == Until(|code| - pos)
    ensures Part(step, it, code, from)
    decreases pos - from
  {
    var o, p := StepsAt(cfg, step, it, code, from);
    if from < pos {
      SameByte(cfg, it, code, from, |code| - pos, o, p);
      PartAt(cfg, step, it, code, from + 1, pos);
      PartLater(step, it, code, from, o);
    } else {
      OtherSkip(cfg, it, code, pos, o, p);
      PartNow(step, it, code, from, o, p);
    }
  }

  lemma SomeSkipParts(cfg: Config, arch: Arch, it: ItBlock)
    requires ConfigOk(cfg) && !PositionlessSkips(cfg) && Reset(arch, it) == it
    ensures !SameForAll(cfg, arch, it)
  {
    var code, pos: nat :| pos <= |code| && !SameSkip(cfg, code, pos);
    var other := cfg.(decode := Until(|code| - pos));
    assert ConfigOk(other) && !SameSkip(other, code, pos);
    ConfigIsFaithful(other);
    StepOfDrives(other);
    PartAt(other, StepOf(other), it, code, 0, pos);
    assert PartHere(Unfold, StepOf(other), it, code, 0);
    assert code[0..] == code;
    assert !SameOn(other, arch, it, code, 0);
  }

  /** On one handle the two drivers agree for every decoder and input exactly when skipping looks
      neither at its position nor at what lies before it, and there is no IT block to clear. */
  lemma HandleDecides(cfg: Config, arch: Arch, it: ItBlock)
    requires ConfigOk(cfg)
    ensures SameForAll(cfg, arch, it) <==> PositionlessSkips(cfg) && (arch != Arm || it.size == 0)
  {
    if arch == Arm && it.size != 0 {
      SomeBlockParts(cfg, it);
    } else if !PositionlessSkips(cfg) {
      SomeSkipParts(cfg, arch, it);
    } else {
      forall decode: Decoder, code, offset: nat
        | ConfigOk(cfg.(decode := decode)) && offset < 0x1_0000_0000_0000_0000
        ensures SameOn(cfg.(decode := decode), arch, it, code, offset)
      {
        SkipsIgnoreDecoder(cfg, decode);
        BatchAgreesWithSingleStep(cfg.(decode := decode), it, code, offset, 0);
      }
    }
  }

  lemma SkipsIgnoreDecoder(cfg: Config, decode: Decoder)
    requires PositionlessSkips(cfg)
    ensures PositionlessSkips(cfg.(decode := decode))
  {
    forall code, pos: nat | pos <= |code|
      ensures SameSkip(cfg.(decode := decode), code, pos)
    {
      assert SameSkip(cfg, code, pos);
    }
  }

  /** Skips one byte at the start of the buffer it is shown, and stops anywhere else. */
  function SkipAtStart(code: seq<byte>, pos: nat): nat {
    if pos == 0 then 1 else 0
  }

  function SkippingAtStart(): Config {
    Config(Undecodable, 0, true, 1, ".byte", Some(SkipAtStart))
  }

  lemma BatchStops(it: ItBlock, code: seq<byte>)
    requires |code| == 2
    ensures ConfigOk(SkippingAtStart()) && |RunOf(SkippingAtStart(), it, code, 0, 0).insns| == 1
  {
    var cfg := SkippingAtStart();
    ConfigIsFaithful(cfg);
    var step := StepOf(cfg);
    var first := step(it, code, 0, 0);
    assert first.Advanced? && first.consumed == 1 && first.after == it;
    assert step(it, code, 1, 0) == Stopped(it);
    assert Run(step, it, code, 1, 0, 0) == Ended(it);
  }

  lemma {:induction false} IterationGoesOn(it: ItBlock, code: seq<byte>, address: nat)
    ensures ConfigOk(SkippingAtStart()) && |IteratedOf(SkippingAtStart(), it, code, address)| == |code|
    decreases |code|
  {
    var cfg := SkippingAtStart();
    ConfigIsFaithful(cfg);
    var o := FirstSkip(it, code, address);
    assert o == StepOf(cfg)(it, code, 0, address);
    if code != [] {
      IterationGoesOn(it, code[1..], Wrap64(address + 1));
    }
  }

  lemma FirstSkip(it: ItBlock, code: seq<byte>, address: nat) returns (o: Outcome)
    ensures ConfigOk(SkippingAtStart()) && o == StepAt(SkippingAtStart(), it, code, 0, address)
    ensures if code == [] then o == Stopped(it) else o.Advanced? && o.consumed == 1 && o.after == it
  {
    o := StepAt(SkippingAtStart(), it, code, 0, address);
  }

  /** A callback that looks at its position: cs_disasm shows it the whole buffer and the position,
      cs_disasm_iter what remains and position 0. */
  lemma CallbackPositionMatters(it: ItBlock)
    ensures var cfg := SkippingAtStart();
      && ConfigOk(cfg)
      && |RunOf(cfg, it, [7, 7], 0, 0).insns| == 1 && |IteratedOf(cfg, it, [7, 7], 0)| == 2
  {
    BatchStops(it, [7, 7]);
    IterationGoesOn(it, [7, 7], 0);
  }

  /** Consumes 17 bytes at a time, as a decoder may that reads through redundant prefixes. */
  function Wide(mode: nat, it: ItBlock, code: seq<byte>, address: nat): Decoded {
    if |code| >= 17 then Instruction(it, 17, 1, 0, "nop") else Broken(it)
  }

  lemma WideRun(it: ItBlock, code: seq<byte>)
    requires |code| == 34
    ensures ConfigOk(Plain(Wide)) && RunOf(Plain(Wide), it, code, 0, 0).widths == [17, 17]
  {
    var cfg := Plain(Wide);
    ConfigIsFaithful(cfg);
    var step := StepOf(cfg);
    var first, second := step(it, code, 0, 0), step(it, code, 17, 0);
    assert first.Advanced? && first.consumed == 17 && first.after == it;
    assert second.Advanced? && second.consumed == 17 && second.after == it;
    assert Run(step, it, code, 34, 0, 0) == Ended(it);
    assert Run(step, it, code, 17, 0, 0) == Join(Single(second), Ended(it));
  }

  lemma GapsAfterWide(run: Trace, code: seq<byte>, base: nat)
    requires Tiles(run, code, base) && run.widths == [17, 17] && |code| == 34
    ensures |run.insns| == 2 && run.insns[1].address != Wrap64(run.insns[0].address + run.insns[0].size)
    ensures Bytes(run.insns) != code
  {
    assert Sum([17, 17]) == 34 by { assert [17, 17][1..] == [17]; }
    assert code[..34] == code;
    assert !AllShort(run.widths) by { assert run.widths[0] == 17; }
    assert ChainedAt(run.insns[0], run.insns[1], run.widths[0]);
  }

  /** With a decoder that consumes more than 16 bytes, the published size is not the distance to
      the next instruction, and the published bytes are not the bytes that were consumed. */
  lemma WideInstructionsLeaveGaps(it: ItBlock, code: seq<byte>)
    requires |code| == 34
    ensures ConfigOk(Plain(Wide))
    ensures var insns := RunOf(Plain(Wide), it, code, 0, 0).insns;
      && |insns| == 2 && insns[1].address != Wrap64(insns[0].address + insns[0].size)
      && Bytes(insns) != code
  {
    WideRun(it, code);
    DisasmTiles(Plain(Wide), it, code, 0, 0);
    GapsAfterWide(RunOf(Plain(Wide), it, code, 0, 0), code, 0);
  }
}
