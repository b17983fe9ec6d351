/** How far data skipping carries a run, and how far a skip callback is obeyed. */
module Skipping {
  import opened Words
  import opened Runs
  import opened Decoding
  import opened Handle

  // ---------------------------------------------------------------- what a run leaves

  /** A run without a count goes on until nothing more is skipped. */
  lemma {:induction false} RunStopsWhere(
      cfg: Config, step: Stepper, it: ItBlock, code: seq<byte>, pos: nat, base: nat)
    requires ConfigOk(cfg) && FaithfulStepper(step) && Drives(step, cfg) && pos <= |code|
    ensures var end := pos + Sum(Run(step, it, code, pos, base, 0).widths);
      end <= |code| && SkipWidth(cfg, code, end) == 0
    decreases |code| - pos
  {
    if pos == |code| {
      NothingToSkip(cfg, code);
    } else {
      var o := step(it, code, pos, base);
      assert Faithful(o, code, pos, base);
      if o.Advanced? {
        RunStopsWhere(cfg, step, o.after, code, pos + o.consumed, base);
        WidthsOfRun(step, it, code, pos, base, o);
      } else {
        StopMeans(cfg, step, it, code, pos, base);
      }
    }
  }

  lemma NothingToSkip(cfg: Config, code: seq<byte>)
    requires ConfigOk(cfg)
    ensures SkipWidth(cfg, code, |code|) == 0
  {
  }

  lemma StopMeans(cfg: Config, step: Stepper, it: ItBlock, code: seq<byte>, pos: nat, base: nat)
    requires ConfigOk(cfg) && Drives(step, cfg) && pos <= |code| && step(it, code, pos, base).Stopped?
    ensures SkipWidth(cfg, code, pos) == 0
  {
    assert Agrees(step, cfg, it, code, pos, base);
  }

  lemma WidthsOfRun(step: Stepper, it: ItBlock, code: seq<byte>, pos: nat, base: nat, o: Outcome)
    requires FaithfulStepper(step) && pos < |code| && o == step(it, code, pos, base) && o.Advanced?
    requires pos + o.consumed <= |code|
    ensures Sum(Run(step, it, code, pos, base, 0).widths) ==
            o.consumed + Sum(Run(step, o.after, code, pos + o.consumed, base, 0).widths)
  {
    var widths := Run(step, it, code, pos, base, 0).widths;
    var rest := Run(step, o.after, code, pos + o.consumed, base, 0).widths;
    assert widths == [o.consumed] + rest && widths[1..] == rest;
  }

  /** With data skipping on, cs_disasm leaves fewer bytes than the default skip size, unless a
      callback answers 0 or more than there is. */
  lemma DisasmLeaves(cfg: Config, it: ItBlock, code: seq<byte>, offset: nat)
    requires ConfigOk(cfg) && cfg.skipdata
    ensures var end := Sum(RunOf(cfg, it, code, offset, 0).widths);
      && end <= |code|
      && (|code| - end < cfg.skipSize
          || (cfg.callback.Some? &&
              var n := cfg.callback.value(code, end); n == 0 || n > |code| - end))
  {
    ConfigIsFaithful(cfg);
    StepOfDrives(cfg);
    RunStopsWhere(cfg, StepOf(cfg), it, code, 0, offset);
  }

  /** What the drivers read of a handle with these settings. */
  function ConfigOf(s: Settings, decode: Decoder): Config {
    Config(decode, s.mode, s.skipdata, s.skipSize, s.mnemonic, s.callback)
  }

  /** An x86 handle that skips data without a callback disassembles every input to its end, whatever
      its other options and whatever its decoder refuses. */
  lemma X86CoversInput(
      mode: nat, rs: seq<Request>, decode: Decoder, it: ItBlock, code: seq<byte>, offset: nat)
    requires DecoderOk(decode)
    requires var s := ApplyAll(Opened(X86, mode), rs); s.skipdata && s.callback.None?
    ensures var cfg := ConfigOf(ApplyAll(Opened(X86, mode), rs), decode);
      ConfigOk(cfg) && Sum(RunOf(cfg, it, code, offset, 0).widths) == |code|
  {
    SkipSizeAfterOptions(X86, mode, rs);
    DisasmLeaves(ConfigOf(ApplyAll(Opened(X86, mode), rs), decode), it, code, offset);
  }

  // ---------------------------------------------------------------- the default sizes

  /** The sizes that capstone.h lists. */
  predicate DocumentedSize(arch: Arch, thumb: bool, size: nat) {
    && (arch == Arm64 || arch == Mips || arch == Ppc || arch == Sparc ==> size == 4)
    && (arch == SysZ || arch == XCore ==> size == 2)
    && (arch == X86 ==> size == 1)
    && (arch == Arm ==> size == if thumb then 2 else 4)
  }

  lemma SizeIsDocumented(arch: Arch, mode: nat)
    ensures DocumentedSize(arch, mode / 16 % 2 == 1, SkipdataSize(arch, mode))
  {
  }

  /** Every answer's width is a multiple of the size; a decoder that decodes nothing is one. */
  ghost predicate KeepsAligned(decode: Decoder, size: nat)
    requires 0 < size
  {
    forall mode, it, code, address :: InMultiples(decode(mode, it, code, address), size)
  }

  ghost predicate InMultiples(d: Decoded, size: nat)
    requires 0 < size
  {
    d.Instruction? ==> d.consumed % size == 0
  }

  ghost predicate DecodesNothing(decode: Decoder) {
    forall mode, it, code, address :: Refuses(decode(mode, it, code, address))
  }

  ghost predicate Refuses(d: Decoded) {
    d.Broken?
  }

  ghost predicate AllMultiples(widths: seq<nat>, size: nat)
    requires 0 < size
  {
    forall i :: 0 <= i < |widths| ==> widths[i] % size == 0
  }

  /** A step with the default skip. */
  lemma DefaultStep(cfg: Config, step: Stepper, it: ItBlock, code: seq<byte>, pos: nat, base: nat)
    returns (o: Outcome)
    requires ConfigOk(cfg) && FaithfulStepper(step) && Drives(step, cfg) && pos <= |code|
    requires cfg.skipdata && cfg.callback.None?
    ensures o == step(it, code, pos, base)
    ensures o.Advanced? ==> 1 <= o.consumed && pos + o.consumed <= |code|
    ensures o.Stopped? ==> |code| - pos < cfg.skipSize
    ensures KeepsAligned(cfg.decode, cfg.skipSize) && o.Advanced? ==> o.consumed % cfg.skipSize == 0
    ensures DecodesNothing(cfg.decode) ==>
      if |code| - pos < cfg.skipSize then o.Stopped? else o.Advanced? && o.data && o.consumed == cfg.skipSize
  {
    o := step(it, code, pos, base);
    assert Agrees(step, cfg, it, code, pos, base);
    assert Faithful(o, code, pos, base);
    var d := cfg.decode(cfg.mode, it, code[pos..], Wrap64(base + pos));
    if KeepsAligned(cfg.decode, cfg.skipSize) {
      assert InMultiples(d, cfg.skipSize);
      ModUnique(cfg.skipSize, cfg.skipSize, 1, 0);
    }
    if DecodesNothing(cfg.decode) {
      assert Refuses(d);
    }
  }

  lemma {:induction false} RunKeepsAligned(
      cfg: Config, step: Stepper, it: ItBlock, code: seq<byte>, pos: nat, base: nat)
    requires ConfigOk(cfg) && FaithfulStepper(step) && Drives(step, cfg) && pos <= |code|
    requires cfg.skipdata && cfg.callback.None? && KeepsAligned(cfg.decode, cfg.skipSize)
    ensures AllMultiples(Run(step, it, code, pos, base, 0).widths, cfg.skipSize)
    decreases |code| - pos
  {
    if pos < |code| {
      var o := DefaultStep(cfg, step, it, code, pos, base);
      if o.Advanced? {
        RunKeepsAligned(cfg, step, o.after, code, pos + o.consumed, base);
      }
    }
  }

  lemma {:induction false} SumOfMultiples(widths: seq<nat>, size: nat, n: nat)
    requires 0 < size && AllMultiples(widths, size) && n <= |widths|
    ensures Sum(widths[..n]) % size == 0
  {
    if n > 0 {
      SumOfMultiples(widths[1..], size, n - 1);
      assert widths[..n][1..] == widths[1..][..n - 1];
      assert Sum(widths[..n]) == widths[0] + Sum(widths[1..][..n - 1]);
      MultiplesAdd(widths[0], Sum(widths[1..][..n - 1]), size);
    }
  }

  lemma MultiplesAdd(a: nat, b: nat, size: nat)
    requires 0 < size && a % size == 0 && b % size == 0
    ensures (a + b) % size == 0
  {
    var x, y := a / size, b / size;
    assert a == size * x && b == size * y;
    assert size * (x + y) == size * x + size * y;
    ModUnique(a + b, size, x + y, 0);
  }

  lemma {:induction false} RunSkipsAll(
      cfg: Config, step: Stepper, it: ItBlock, code: seq<byte>, pos: nat, base: nat)
    requires ConfigOk(cfg) && FaithfulStepper(step) && Drives(step, cfg) && pos <= |code|
    requires cfg.skipdata && cfg.callback.None? && DecodesNothing(cfg.decode)
    ensures var run := Run(step, it, code, pos, base, 0);
      && |run.widths| == |run.data| == (|code| - pos) / cfg.skipSize
      && forall i :: 0 <= i < |run.widths| ==> run.widths[i] == cfg.skipSize && run.data[i]
    decreases |code| - pos
  {
    TooFew(|code| - pos, cfg.skipSize);
    if pos < |code| {
      var o := DefaultStep(cfg, step, it, code, pos, base);
      if o.Advanced? {
        OneFewer(|code| - pos, cfg.skipSize);
        RunSkipsAll(cfg, step, o.after, code, pos + o.consumed, base);
      }
    }
  }

  lemma {:induction false} SumOfEqual(widths: seq<nat>, size: nat)
    requires forall i :: 0 <= i < |widths| ==> widths[i] == size
    ensures Sum(widths) == size * |widths|
  {
    if widths != [] {
      SumOfEqual(widths[1..], size);
    }
  }

  /** Data all through: every instruction has the default size, and what is left is the remainder. */
  lemma DataInDefaultSizes(cfg: Config, it: ItBlock, code: seq<byte>, offset: nat)
    requires ConfigOk(cfg) && cfg.skipdata && cfg.callback.None? && DecodesNothing(cfg.decode)
    ensures var run := RunOf(cfg, it, code, offset, 0);
      && |run.insns| == |run.widths| == |code| / cfg.skipSize
      && (forall i :: 0 <= i < |run.insns| ==> run.insns[i].size == run.widths[i] == cfg.skipSize)
      && Sum(run.widths) == |code| - |code| % cfg.skipSize
  {
    ConfigIsFaithful(cfg);
    StepOfDrives(cfg);
    RunSkipsAll(cfg, StepOf(cfg), it, code, 0, offset);
    DisasmTiles(cfg, it, code, offset, 0);
    SizesOf(RunOf(cfg, it, code, offset, 0), code, offset, cfg.skipSize);
  }

  lemma SizesOf(run: Trace, code: seq<byte>, offset: nat, size: nat)
    requires Tiles(run, code, offset) && 1 <= size <= BYTES_CAPACITY && |run.widths| == |code| / size
    requires forall i :: 0 <= i < |run.widths| ==> run.widths[i] == size
    ensures forall i :: 0 <= i < |run.insns| ==> run.insns[i].size == size
    ensures Sum(run.widths) == |code| - |code| % size
  {
    forall i | 0 <= i < |run.insns|
      ensures run.insns[i].size == size
    {
      assert InStretch(run.insns[i], code, Sum(run.widths[..i]), run.widths[i], offset);
    }
    SumOfEqual(run.widths, size);
    WholePart(|code|, size);
  }

  lemma WholePart(x: nat, n: nat)
    requires 0 < n
    ensures n * (x / n) == x - x % n
  {
  }

  lemma PositionsAligned(cfg: Config, it: ItBlock, code: seq<byte>, offset: nat, i: nat)
    requires ConfigOk(cfg) && cfg.skipdata && cfg.callback.None? && KeepsAligned(cfg.decode, cfg.skipSize)
    requires i <= |RunOf(cfg, it, code, offset, 0).widths|
    ensures Sum(RunOf(cfg, it, code, offset, 0).widths[..i]) % cfg.skipSize == 0
  {
    ConfigIsFaithful(cfg);
    StepOfDrives(cfg);
    RunKeepsAligned(cfg, StepOf(cfg), it, code, 0, offset);
    SumOfMultiples(RunOf(cfg, it, code, offset, 0).widths, cfg.skipSize, i);
  }

  /** After any sequence of options a handle that skips data without a callback skips the size that
      capstone.h lists for its architecture and, on ARM, for Thumb when skipping was first switched on.
      Data is published in instructions of exactly that size up to a remainder, and a decoder that
      keeps to multiples of it never sees another position. */
  lemma DefaultSkips(
      arch: Arch, mode: nat, rs: seq<Request>, decode: Decoder, it: ItBlock, code: seq<byte>, offset: nat)
    requires DecoderOk(decode)
    requires var s := ApplyAll(Opened(arch, mode), rs); s.skipdata && s.callback.None?
    ensures var cfg, first :=
        ConfigOf(ApplyAll(Opened(arch, mode), rs), decode), FirstSkipMode(Opened(arch, mode), rs);
      && ConfigOk(cfg) && first.Some? && DocumentedSize(arch, first.value / 16 % 2 == 1, cfg.skipSize)
      && var run := RunOf(cfg, it, code, offset, 0);
         && (DecodesNothing(decode) ==>
               && Sum(run.widths) == |code| - |code| % cfg.skipSize
               && forall i :: 0 <= i < |run.insns| ==> run.insns[i].size == cfg.skipSize)
         && (KeepsAligned(decode, cfg.skipSize) ==>
               forall i :: 0 <= i <= |run.widths| ==> Sum(run.widths[..i]) % cfg.skipSize == 0)
  {
    SkipSizeAfterOptions(arch, mode, rs);
    SkipSizeFrom(Opened(arch, mode), rs);
    var first := FirstSkipMode(Opened(arch, mode), rs);
    SizeIsDocumented(arch, first.value);
    var cfg := ConfigOf(ApplyAll(Opened(arch, mode), rs), decode);
    assert ConfigOk(cfg);
    if DecodesNothing(decode) {
      DataInDefaultSizes(cfg, it, code, offset);
    }
    if KeepsAligned(decode, cfg.skipSize) {
      forall i: nat | i <= |RunOf(cfg, it, code, offset, 0).widths|
        ensures Sum(RunOf(cfg, it, code, offset, 0).widths[..i]) % cfg.skipSize == 0
      {
        PositionsAligned(cfg, it, code, offset, i);
      }
    }
  }

  // ---------------------------------------------------------------- whether a callback is obeyed

  /** Where nothing can be decoded, a callback's positive answer is what is skipped exactly when both
      the answer and the default skip size fit the rest of the input; otherwise the run stops. With
      less than the default left, the callback is not even asked. */
  lemma CallbackIsObeyed(cfg: Config, it: ItBlock, code: seq<byte>, pos: nat, base: nat)
    requires ConfigOk(cfg) && cfg.skipdata && cfg.callback.Some? && pos <= |code|
    requires cfg.decode(cfg.mode, it, code[pos..], Wrap64(base + pos)).Broken?
    requires 0 < cfg.callback.value(code, pos)
    ensures var o, n := StepAt(cfg, it, code, pos, base), cfg.callback.value(code, pos);
      && (o.Advanced? && o.consumed == n <==> cfg.skipSize <= |code| - pos && n <= |code| - pos)
      && (o.Stopped? <==> !(o.Advanced? && o.consumed == n))
  {
  }

  function Undecodable(mode: nat, it: ItBlock, code: seq<byte>, address: nat): Decoded {
    Broken(it)
  }

  /** Data all through, and a callback that always asks for the same skip. */
  function Steady(skipSize: nat, n: nat): Config {
    Config(Undecodable, 0, true, skipSize, ".byte", Some((code: seq<byte>, pos: nat) => n))
  }

  /** How often it is asked for `n` of so many bytes, with a default skip size of `skipSize`. */
  function Times(remaining: nat, skipSize: nat, n: nat): nat
    requires 0 < n
  {
    if remaining < skipSize || remaining < n then 0 else 1 + Times(remaining - n, skipSize, n)
  }

  lemma SteadyStep(
      step: Stepper, it: ItBlock, code: seq<byte>, pos: nat, base: nat, skipSize: nat, n: nat)
    requires 1 <= n <= BYTES_CAPACITY && 1 <= skipSize && pos <= |code|
    requires DecoderOk(Undecodable) && Drives(step, Steady(skipSize, n))
    ensures var o := step(it, code, pos, base);
      if |code| - pos < skipSize || |code| - pos < n then o.Stopped? else o.Advanced? && o.consumed == n
  {
    assert Agrees(step, Steady(skipSize, n), it, code, pos, base);
  }

  lemma {:induction false} SteadyTimes(
      step: Stepper, it: ItBlock, code: seq<byte>, pos: nat, base: nat, skipSize: nat, n: nat)
    requires 1 <= n <= BYTES_CAPACITY && 1 <= skipSize <= BYTES_CAPACITY && pos <= |code|
    requires FaithfulStepper(step) && DecoderOk(Undecodable) && Drives(step, Steady(skipSize, n))
    ensures |Run(step, it, code, pos, base, 0).insns| == Times(|code| - pos, skipSize, n)
    decreases |code| - pos
  {
    if pos < |code| {
      SteadyStep(step, it, code, pos, base, skipSize, n);
      var o := step(it, code, pos, base);
      assert Faithful(o, code, pos, base);
      if o.Advanced? {
        SteadyTimes(step, o.after, code, pos + n, base, skipSize, n);
      }
    }
  }

  lemma OneFewer(x: nat, n: nat)
    requires 0 < n <= x
    ensures x / n == (x - n) / n + 1 && x % n == (x - n) % n
  {
    var q, r := (x - n) / n, (x - n) % n;
    assert x == n * (q + 1) + r by { assert n * (q + 1) == n * q + n; }
    ModUnique(x, n, q + 1, r);
    assert n * (x / n) == n * (q + 1);
    Cancel(n, x / n, q + 1);
  }

  lemma Cancel(n: nat, a: nat, b: nat)
    requires 0 < n && n * a == n * b
    ensures a == b
  {
    var d := a - b;
    assert n * d == 0;
  }

  /** How often that is. */
  lemma {:induction false} TimesIs(remaining: nat, skipSize: nat, n: nat)
    requires 0 < n
    ensures var need := if skipSize < n then n else skipSize;
      Times(remaining, skipSize, n) == if remaining < need then 0 else (remaining - need) / n + 1
    ensures Times(remaining, skipSize, n) == remaining / n <==> remaining < n || skipSize <= n + remaining % n
  {
    var need := if skipSize < n then n else skipSize;
    if remaining >= need {
      TimesIs(remaining - n, skipSize, n);
      OneFewer(remaining, n);
      if remaining - n >= need {
        OneFewer(remaining - need, n);
      } else {
        ModUnique(remaining - need, n, 0, remaining - need);
      }
      if remaining - n < n {
        ModUnique(remaining, n, 1, remaining - n);
      }
    } else {
      TooFew(remaining, n);
    }
  }

  lemma TooFew(x: nat, n: nat)
    requires 0 < n
    ensures x / n == 0 <==> x < n
    ensures n <= x ==> n + x % n <= x
  {
    if n <= x {
      OneFewer(x, n);
      assert x - n == n * ((x - n) / n) + (x - n) % n;
      assert n * ((x - n) / n) >= 0;
    }
  }

  /** On data all through, a callback that always asks for `n` bytes is asked exactly this often. It
      gets as many skips as fit the input exactly when there is none, or when the default skip size is
      at most the last skip and what is left after it. */
  lemma SteadyCallback(it: ItBlock, code: seq<byte>, offset: nat, skipSize: nat, n: nat)
    requires 1 <= n <= BYTES_CAPACITY && 1 <= skipSize <= BYTES_CAPACITY
    ensures ConfigOk(Steady(skipSize, n))
    ensures var need, skips :=
        if skipSize < n then n else skipSize, |RunOf(Steady(skipSize, n), it, code, offset, 0).insns|;
      && skips == (if |code| < need then 0 else (|code| - need) / n + 1)
      && (skips == |code| / n <==> |code| < n || skipSize <= n + |code| % n)
  {
    var cfg := Steady(skipSize, n);
    assert ConfigOk(cfg);
    ConfigIsFaithful(cfg);
    StepOfDrives(cfg);
    SteadyTimes(StepOf(cfg), it, code, 0, offset, skipSize, n);
    TimesIs(|code|, skipSize, n);
  }

  /** Two bytes of ARM data are not skipped, although the callback asks for one of them. */
  lemma CallbackIsNotAsked(it: ItBlock)
    ensures Steady(4, 1).callback.value([7, 7], 0) == 1
    ensures ConfigOk(Steady(4, 1)) && RunOf(Steady(4, 1), it, [7, 7], 0, 0).insns == []
  {
    SteadyCallback(it, [7, 7], 0, 4, 1);
  }
}
