/** The engine's view of an architecture, and one step of disassembly.

    The architecture's function pointers (disasm, insn_id, printer, post_printer) act as one
    hook, a function of the engine's mode, the IT block, the remaining bytes and the address. */
module Decoding {
  import opened Words
  import opened Text
  import opened Runs

  datatype Option<+T> = None | Some(value: T)

  datatype Decoded =
    | Broken(after: ItBlock)
    | Instruction(after: ItBlock, consumed: nat, id: nat, publicId: nat, text: string)

  type Decoder = (nat, ItBlock, seq<byte>, nat) -> Decoded

  /** How many bytes to skip, given the buffer and a position in it. */
  type SkipCallback = (seq<byte>, nat) -> nat

  /** What cs_disasm and cs_disasm_iter read from the handle. */
  datatype Config = Config(
    decode: Decoder,
    mode: nat,
    skipdata: bool,
    skipSize: nat,
    mnemonic: string,
    callback: Option<SkipCallback>)

  /** What the drivers demand of the hooks: a decoder consumes at least one byte and no more
      than it was given. */
  ghost predicate DecoderOk(decode: Decoder) {
    forall mode, it, code, address :: DecodedOk(decode(mode, it, code, address), |code|)
  }

  ghost predicate DecodedOk(d: Decoded, available: nat) {
    d.Instruction? ==> 1 <= d.consumed <= available && d.consumed < 0x1_0000
  }

  /** A callback that asks for a skip the input can satisfy asks for at most 16 bytes, the
      capacity of the field that they are copied to. */
  ghost predicate CallbackOk(callback: SkipCallback) {
    forall code, offset: nat ::
      offset <= |code| ==> SkipFits(callback(code, offset), |code| - offset)
  }

  ghost predicate SkipFits(skip: nat, available: nat) {
    skip <= available ==> skip <= BYTES_CAPACITY
  }

  ghost predicate ConfigOk(cfg: Config) {
    && DecoderOk(cfg.decode)
    && (cfg.skipdata ==> 1 <= cfg.skipSize <= BYTES_CAPACITY)
    && (cfg.callback.Some? ==> CallbackOk(cfg.callback.value))
  }

  /** How many bytes to skip over undecodable data, or 0 to stop. */
  function SkipWidth(cfg: Config, code: seq<byte>, pos: nat): (n: nat)
    requires pos <= |code|
    ensures n <= |code| - pos
  {
    if !cfg.skipdata || cfg.skipSize > |code| - pos then 0
    else if cfg.callback.None? then cfg.skipSize
    else
      var n := cfg.callback.value(code, pos);
      if n > |code| - pos then 0 else n
  }

  /** The instruction that a decoded result is published as. */
  function Published(d: Decoded, code: seq<byte>, pos: nat, address: nat): Insn
    requires d.Instruction? && pos + d.consumed <= |code|
  {
    var kept := Kept(d.consumed);
    Insn(
      if d.publicId != 0 then d.publicId else d.id, address, kept,
      code[pos + d.consumed - kept..pos + d.consumed], Mnemonic(d.text), Operands(d.text))
  }

  function DataInsn(mnemonic: string, data: seq<byte>, address: nat): Insn {
    Insn(0, address, Wrap16(|data|), data, Truncated(mnemonic, MNEMONIC_CAPACITY), SkipText(data))
  }

  function StepAt(cfg: Config, it: ItBlock, code: seq<byte>, pos: nat, base: nat): Outcome
    requires DecoderOk(cfg.decode) && pos <= |code|
  {
    var address := Wrap64(base + pos);
    var d := cfg.decode(cfg.mode, it, code[pos..], address);
    assert DecodedOk(d, |code[pos..]|);
    if d.Instruction? then
      Advanced(d.after, d.consumed, false, Published(d, code, pos, address))
    else
      var n := SkipWidth(cfg, code, pos);
      if n == 0 then Stopped(d.after)
      else Advanced(d.after, n, true, DataInsn(cfg.mnemonic, code[pos..pos + n], address))
  }

  ghost function StepOf(cfg: Config): Stepper
    requires DecoderOk(cfg.decode)
  {
    (it: ItBlock, code: seq<byte>, pos: nat, base: nat) =>
      if pos <= |code| then StepAt(cfg, it, code, pos, base) else Stopped(it)
  }

  /** The function is the configuration's step. */
  ghost predicate Drives(step: Stepper, cfg: Config)
    requires DecoderOk(cfg.decode)
  {
    forall it, code, pos: nat, base :: pos <= |code| ==> Agrees(step, cfg, it, code, pos, base)
  }

  ghost predicate Agrees(
      step: Stepper, cfg: Config, it: ItBlock, code: seq<byte>, pos: nat, base: nat)
    requires DecoderOk(cfg.decode) && pos <= |code|
  {
    step(it, code, pos, base) == StepAt(cfg, it, code, pos, base)
  }

  lemma StepOfDrives(cfg: Config)
    requires DecoderOk(cfg.decode)
    ensures Drives(StepOf(cfg), cfg)
  {
  }

  lemma PublishedIsFaithful(d: Decoded, code: seq<byte>, pos: nat, base: nat)
    requires d.Instruction? && 1 <= d.consumed < 0x1_0000 && pos + d.consumed <= |code|
    ensures Faithful(
      Advanced(d.after, d.consumed, false, Published(d, code, pos, Wrap64(base + pos))), code, pos, base)
  {
  }

  lemma DataIsFaithful(it: ItBlock, n: nat, mnemonic: string, code: seq<byte>, pos: nat, base: nat)
    requires 1 <= n <= BYTES_CAPACITY && pos + n <= |code|
    ensures Faithful(
      Advanced(it, n, true, DataInsn(mnemonic, code[pos..pos + n], Wrap64(base + pos))), code, pos, base)
  {
  }

  lemma StepIsFaithful(cfg: Config, it: ItBlock, code: seq<byte>, pos: nat, base: nat)
    requires ConfigOk(cfg) && pos <= |code|
    ensures Faithful(StepAt(cfg, it, code, pos, base), code, pos, base)
  {
    var d := cfg.decode(cfg.mode, it, code[pos..], Wrap64(base + pos));
    assert DecodedOk(d, |code[pos..]|);
    var n := SkipWidth(cfg, code, pos);
    if d.Instruction? {
      PublishedIsFaithful(d, code, pos, base);
    } else if n != 0 {
      if cfg.callback.Some? {
        assert SkipFits(cfg.callback.value(code, pos), |code| - pos);
      }
      DataIsFaithful(d.after, n, cfg.mnemonic, code, pos, base);
    }
  }

  lemma ConfigIsFaithful(cfg: Config)
    requires ConfigOk(cfg)
    ensures FaithfulStepper(StepOf(cfg))
  {
    forall it, code, pos: nat, base | pos <= |code|
      ensures Faithful(StepOf(cfg)(it, code, pos, base), code, pos, base)
    {
      StepIsFaithful(cfg, it, code, pos, base);
    }
  }

  /** How much is skipped depends only on the bytes from the given position on. */
  ghost predicate PositionlessSkips(cfg: Config) {
    forall code, pos: nat :: pos <= |code| ==> SameSkip(cfg, code, pos)
  }

  ghost predicate SameSkip(cfg: Config, code: seq<byte>, pos: nat)
    requires pos <= |code|
  {
    SkipWidth(cfg, code, pos) == SkipWidth(cfg, code[pos..], 0)
  }

  /** A fixed skip does not look at positions. */
  lemma NoCallbackIsPositionless(cfg: Config)
    requires cfg.skipdata ==> cfg.callback.None?
    ensures PositionlessSkips(cfg)
  {
    forall code, pos: nat | pos <= |code|
      ensures SameSkip(cfg, code, pos)
    {
    }
  }

  lemma PublishedRest(d: Decoded, code: seq<byte>, pos: nat, address: nat)
    requires d.Instruction? && pos + d.consumed <= |code|
    ensures Published(d, code, pos, address) == Published(d, code[pos..], 0, address)
  {
    var n, k := d.consumed, Kept(d.consumed);
    assert code[pos..][n - k..n] == code[pos + n - k..pos + n];
  }

  lemma SkipRest(cfg: Config, code: seq<byte>, pos: nat)
    requires pos <= |code| && PositionlessSkips(cfg)
    ensures var n := SkipWidth(cfg, code, pos);
      n == SkipWidth(cfg, code[pos..], 0) && code[pos..][..n] == code[pos..pos + n]
  {
    assert SameSkip(cfg, code, pos);
  }

  lemma StepIsPositionless(cfg: Config, it: ItBlock, code: seq<byte>, pos: nat, base: nat)
    requires ConfigOk(cfg) && PositionlessSkips(cfg) && pos <= |code|
    ensures StepAt(cfg, it, code, pos, base) == StepAt(cfg, it, code[pos..], 0, Wrap64(base + pos))
  {
    var rest, address := code[pos..], Wrap64(base + pos);
    assert rest[0..] == rest;
    var d := cfg.decode(cfg.mode, it, rest, address);
    assert DecodedOk(d, |rest|);
    if d.Instruction? {
      PublishedRest(d, code, pos, address);
    } else {
      SkipRest(cfg, code, pos);
    }
  }

  lemma ConfigIsPositionless(cfg: Config)
    requires ConfigOk(cfg) && PositionlessSkips(cfg)
    ensures Positionless(StepOf(cfg))
  {
    forall it, code, pos: nat, base | pos <= |code|
      ensures SameStep(StepOf(cfg), it, code, pos, base)
    {
      StepIsPositionless(cfg, it, code, pos, base);
    }
  }

  // ---------------------------------------------------------------- the two drivers

  /** What cs_disasm yields, from the start of the buffer. */
  ghost function RunOf(cfg: Config, it: ItBlock, code: seq<byte>, offset: nat, count: nat): Trace
    requires ConfigOk(cfg)
  {
    ConfigIsFaithful(cfg);
    Run(StepOf(cfg), it, code, 0, offset, count)
  }

  /** What repeating cs_disasm_iter until it fails yields. */
  ghost function IteratedOf(cfg: Config, it: ItBlock, code: seq<byte>, address: nat): seq<Insn>
    requires ConfigOk(cfg)
  {
    ConfigIsFaithful(cfg);
    Iterated(StepOf(cfg), it, code, address)
  }

  /** The step function and the run for a configuration, without their definitions. */
  lemma RunFor(cfg: Config, it: ItBlock, code: seq<byte>, offset: nat, count: nat)
    returns (step: Stepper, run: Trace)
    requires ConfigOk(cfg)
    ensures FaithfulStepper(step) && Drives(step, cfg)
    ensures Remains(run, step, it, code, 0, offset, count)
    ensures run == RunOf(cfg, it, code, offset, count)
  {
    ConfigIsFaithful(cfg);
    StepOfDrives(cfg);
    step := StepOf(cfg);
    run := RunOf(cfg, it, code, offset, count);
    RemainsIsRun(run, step, it, code, 0, offset, count);
  }

  lemma IterationFor(cfg: Config, it: ItBlock, code: seq<byte>, address: nat)
    returns (step: Stepper, all: seq<Insn>)
    requires ConfigOk(cfg)
    ensures FaithfulStepper(step) && Drives(step, cfg)
    ensures Awaits(all, step, it, code, address)
    ensures all == IteratedOf(cfg, it, code, address)
  {
    ConfigIsFaithful(cfg);
    StepOfDrives(cfg);
    step := StepOf(cfg);
    all := IteratedOf(cfg, it, code, address);
    AwaitsIterated(all, step, it, code, address);
  }

  /** From the same IT block, and unless a skip callback looks at its position or at what lies
      before it (see `PositionlessSkips`), cs_disasm yields exactly the instructions of the repeated
      single step: all of them for a count of 0, the first n of them for a count of n. */
  lemma BatchAgreesWithSingleStep(
      cfg: Config, it: ItBlock, code: seq<byte>, offset: nat, count: nat)
    requires ConfigOk(cfg) && PositionlessSkips(cfg) && offset < 0x1_0000_0000_0000_0000
    ensures RunOf(cfg, it, code, offset, count).insns == Limited(IteratedOf(cfg, it, code, offset), count)
  {
    ConfigIsFaithful(cfg);
    ConfigIsPositionless(cfg);
    assert code[0..] == code;
    BatchIsIterated(StepOf(cfg), it, code, 0, offset, code, offset);
    CountTakesPrefix(StepOf(cfg), it, code, 0, offset, count);
  }

  /** The instructions of cs_disasm tile the input; see `Tiles` for what that leaves open. */
  lemma DisasmTiles(cfg: Config, it: ItBlock, code: seq<byte>, offset: nat, count: nat)
    requires ConfigOk(cfg)
    ensures Tiles(RunOf(cfg, it, code, offset, count), code, offset)
  {
    var step, run := RunFor(cfg, it, code, offset, count);
    RunTiles(run, step, it, code, offset, count);
  }
}
