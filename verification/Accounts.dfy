/** What cs_disasm and cs_disasm_iter deliver, told from the decoder's and the callback's answers
    alone: which steps are instructions and which are data, and every field that they publish. */
module Accounts {
  import opened Words
  import opened Numerals
  import opened Text
  import opened Allocator
  import opened Runs
  import opened Decoding
  import opened InsnCache

  // ---------------------------------------------------------------- the text fields

  /** The text is a word, blanks and operands, and nothing else can be said to be its operands. */
  ghost predicate Splits(text: string, word: string, blanks: string, operands: string) {
    && text == word + blanks + operands
    && (forall i :: 0 <= i < |word| ==> word[i] != ' ' && word[i] != '\t')
    && (forall i :: 0 <= i < |blanks| ==> blanks[i] == ' ' || blanks[i] == '\t')
    && (operands != "" ==> blanks != "" && operands[0] != ' ' && operands[0] != '\t')
  }

  function FirstOf(s: string, n: nat): string {
    if |s| <= n then s else s[..n]
  }

  ghost predicate Shows(mnemonic: string, word: string) {
    && |mnemonic| == |word|
    && forall i :: 0 <= i < |word| ==> mnemonic[i] == if word[i] == '|' then ' ' else word[i]
  }

  /** The fields are the word, with prefix separators shown as spaces, and what fits of the operands. */
  ghost predicate Spelled(mnemonic: string, opStr: string, text: string) {
    forall word, blanks, operands :: Splits(text, word, blanks, operands) ==>
      Shows(mnemonic, word) && opStr == FirstOf(operands, 159)
  }

  lemma SplitIsSpelled(text: string)
    ensures Spelled(Mnemonic(text), Operands(text), text)
  {
    forall word, blanks, operands | Splits(text, word, blanks, operands)
      ensures Shows(Mnemonic(text), word) && Operands(text) == FirstOf(operands, 159)
    {
      SplitText(word, blanks, operands);
    }
  }

  /** Every text can be told apart like that. */
  lemma TextSplits(text: string)
    ensures exists word, blanks, operands :: Splits(text, word, blanks, operands)
  {
    var n := WordLength(text);
    WordIsPlain(text);
    RestSplits(text, n);
  }

  lemma RestSplits(text: string, n: nat)
    requires n <= |text| && forall i :: 0 <= i < n ==> text[i] != ' ' && text[i] != '\t'
    requires n < |text| ==> text[n] == ' ' || text[n] == '\t'
    ensures exists word, blanks, operands :: Splits(text, word, blanks, operands)
  {
    var rest := text[n..];
    var m := BlankLength(rest);
    BlanksAreBlank(rest);
    ThreeParts(text, n, m);
    var word, blanks, operands := text[..n], rest[..m], rest[m..];
    assert operands != "" ==> blanks != "" by { assert rest != "" ==> rest[0] == text[n]; }
    assert Splits(text, word, blanks, operands);
  }

  lemma ThreeParts(text: string, n: nat, m: nat)
    requires n + m <= |text|
    ensures text == text[..n] + text[n..][..m] + text[n..][m..]
  {
  }

  lemma {:induction false} WordIsPlain(text: string)
    ensures var n := WordLength(text);
      && (forall i :: 0 <= i < n ==> text[i] != ' ' && text[i] != '\t')
      && (n < |text| ==> text[n] == ' ' || text[n] == '\t')
  {
    if text != "" && !IsBlank(text[0]) {
      WordIsPlain(text[1..]);
      var n := WordLength(text);
      forall i | 0 <= i < n
        ensures text[i] != ' ' && text[i] != '\t'
      {
        assert i > 0 ==> text[i] == text[1..][i - 1];
      }
    }
  }

  lemma {:induction false} BlanksAreBlank(text: string)
    ensures var m := BlankLength(text);
      && (forall i :: 0 <= i < m ==> text[i] == ' ' || text[i] == '\t')
      && (m < |text| ==> text[m] != ' ' && text[m] != '\t')
  {
    if text != "" && IsBlank(text[0]) {
      BlanksAreBlank(text[1..]);
      var m := BlankLength(text);
      forall i | 0 <= i < m
        ensures text[i] == ' ' || text[i] == '\t'
      {
        assert i > 0 ==> text[i] == text[1..][i - 1];
      }
    }
  }

  // ---------------------------------------------------------------- the list of skipped bytes

  /** Character j of "0xhh, 0xhh, ..." for the bytes. */
  function ListChar(data: seq<byte>, j: nat): char
    requires j < 6 * |data|
  {
    var b, digits := data[j / 6], "0123456789abcdef";
    match j % 6
    case 0 => '0'
    case 1 => 'x'
    case 2 => digits[b / 16]
    case 3 => digits[b % 16]
    case 4 => ','
    case _ => ' '
  }

  /** As much of the list as 159 characters hold. */
  ghost predicate Lists(shown: string, data: seq<byte>) {
    && data != [] && |shown| == (if |data| <= 26 then 6 * |data| - 2 else 159)
    && forall j :: 0 <= j < |shown| ==> shown[j] == ListChar(data, j)
  }

  lemma ByteIsListed(b: byte, j: nat)
    requires j < 4
    ensures HexByte(b)[j] == ListChar([b], j)
  {
    DigitsAre(b / 16);
    DigitsAre(b % 16);
  }

  lemma {:induction false} ListedAt(data: seq<byte>, j: nat)
    requires data != [] && j < 6 * |data| - 2
    ensures |Listed(data)| == 6 * |data| - 2 && Listed(data)[j] == ListChar(data, j)
    decreases |data|
  {
    ListedLength(data);
    var n := |data|;
    if n == 1 {
      ByteIsListed(data[0], j);
    } else {
      var init := data[..n - 1];
      ListedLength(init);
      if j < 6 * (n - 1) - 2 {
        ListedAt(init, j);
        SameChar(init, data, j);
      } else {
        LastChars(data, j);
      }
    }
  }

  lemma SameChar(init: seq<byte>, data: seq<byte>, j: nat)
    requires init <= data && j < 6 * |init|
    ensures ListChar(init, j) == ListChar(data, j)
  {
  }

  lemma LastChars(data: seq<byte>, j: nat)
    requires |data| > 1 && 6 * |data| - 8 <= j < 6 * |data| - 2
    ensures (", " + HexByte(data[|data| - 1]))[j - (6 * |data| - 8)] == ListChar(data, j)
  {
    if j >= 6 * |data| - 6 {
      ByteIsListed(data[|data| - 1], j - (6 * |data| - 6));
    }
  }

  lemma SkipTextLists(data: seq<byte>)
    requires data != []
    ensures Lists(SkipText(data), data)
  {
    ListedLength(data);
    forall j | 0 <= j < |SkipText(data)|
      ensures SkipText(data)[j] == ListChar(data, j)
    {
      ListedAt(data, j);
    }
  }

  // ---------------------------------------------------------------- one step

  /** The decoder's answer at a position. */
  function Answer(cfg: Config, it: ItBlock, code: seq<byte>, pos: nat, base: nat): Decoded
    requires pos <= |code|
  {
    cfg.decode(cfg.mode, it, code[pos..], (base + pos) % 0x1_0000_0000_0000_0000)
  }

  /** The instruction is published for the answer, which consumed these bytes. */
  ghost predicate DecodedAs(insn: Insn, d: Decoded, consumed: seq<byte>)
    requires d.Instruction?
  {
    && insn.id == (if d.publicId != 0 then d.publicId else d.id)
    && insn.size == (if |consumed| <= 16 then |consumed| else 16)
    && insn.bytes == consumed[|consumed| - insn.size..]
    && Spelled(insn.mnemonic, insn.opStr, d.text)
  }

  /** The data instruction is published for the skipped bytes. */
  ghost predicate SkippedAs(insn: Insn, mnemonic: string, skipped: seq<byte>) {
    && insn.id == 0 && insn.size == |skipped| && insn.bytes == skipped
    && insn.mnemonic == FirstOf(mnemonic, 31) && Lists(insn.opStr, skipped)
  }

  /** What is asked for is skipped, and fits; so does the default. */
  ghost predicate Skips(cfg: Config, code: seq<byte>, pos: nat, n: nat) {
    && cfg.skipdata && pos + cfg.skipSize <= |code| && 0 < n && pos + n <= |code|
    && n == (if cfg.callback.Some? then cfg.callback.value(code, pos) else cfg.skipSize)
  }

  /** A step over `width` bytes that publishes the instruction. The quantifier keeps the verifier from
      reasoning about its parts wherever a step is carried along. */
  ghost predicate Taken(
      cfg: Config, insn: Insn, data: bool, it: ItBlock, after: ItBlock, width: nat, code: seq<byte>,
      pos: nat, base: nat)
  {
    forall u: Unfolding :: IsTaken(u, cfg, insn, data, it, after, width, code, pos, base)
  }

  ghost predicate IsTaken(
      u: Unfolding, cfg: Config, insn: Insn, data: bool, it: ItBlock, after: ItBlock, width: nat,
      code: seq<byte>, pos: nat, base: nat)
  {
    && 1 <= width && pos + width <= |code|
    && insn.address == (base + pos) % 0x1_0000_0000_0000_0000
    && var d, bytes := Answer(cfg, it, code, pos, base), code[pos..pos + width];
       && after == d.after && (data <==> d.Broken?)
       && if d.Instruction? then width == d.consumed && DecodedAs(insn, d, bytes)
          else Skips(cfg, code, pos, width) && SkippedAs(insn, cfg.mnemonic, bytes)
  }

  /** An attempt that publishes nothing: nothing is decoded, and nothing may be skipped. */
  ghost predicate Halted(
      cfg: Config, it: ItBlock, after: ItBlock, code: seq<byte>, pos: nat, base: nat)
    requires pos <= |code|
  {
    forall u: Unfolding :: IsHalted(u, cfg, it, after, code, pos, base)
  }

  ghost predicate IsHalted(
      u: Unfolding, cfg: Config, it: ItBlock, after: ItBlock, code: seq<byte>, pos: nat, base: nat)
    requires pos <= |code|
  {
    && Answer(cfg, it, code, pos, base) == Broken(after)
    && forall n: nat :: !Skips(cfg, code, pos, n)
  }

  lemma DecodedStep(d: Decoded, code: seq<byte>, pos: nat, address: nat)
    requires d.Instruction? && pos + d.consumed <= |code|
    ensures DecodedAs(Published(d, code, pos, address), d, code[pos..pos + d.consumed])
  {
    SplitIsSpelled(d.text);
    var n, kept := d.consumed, Kept(d.consumed);
    assert code[pos..pos + n][n - kept..] == code[pos + n - kept..pos + n];
  }

  lemma SkippedStep(mnemonic: string, data: seq<byte>, address: nat)
    requires 1 <= |data| <= 16
    ensures SkippedAs(DataInsn(mnemonic, data, address), mnemonic, data)
  {
    SkipTextLists(data);
  }

  lemma SkipWidthSkips(cfg: Config, code: seq<byte>, pos: nat)
    requires ConfigOk(cfg) && pos <= |code|
    ensures var n := SkipWidth(cfg, code, pos);
      n <= 16 && if n == 0 then (forall m: nat :: !Skips(cfg, code, pos, m)) else Skips(cfg, code, pos, n)
  {
    if cfg.callback.Some? {
      assert SkipFits(cfg.callback.value(code, pos), |code| - pos);
    }
  }

  lemma StepIsTaken(cfg: Config, it: ItBlock, code: seq<byte>, pos: nat, base: nat)
    requires ConfigOk(cfg) && pos <= |code|
    ensures var o := StepAt(cfg, it, code, pos, base);
      if o.Advanced? then Taken(cfg, o.insn, o.data, it, o.after, o.consumed, code, pos, base)
      else Halted(cfg, it, o.after, code, pos, base)
  {
    var address := Wrap64(base + pos);
    var d := cfg.decode(cfg.mode, it, code[pos..], address);
    assert DecodedOk(d, |code[pos..]|);
    if d.Instruction? {
      DecodedStep(d, code, pos, address);
    } else {
      SkipWidthSkips(cfg, code, pos);
      var n := SkipWidth(cfg, code, pos);
      if n > 0 {
        SkippedStep(cfg.mnemonic, code[pos..pos + n], address);
      }
    }
  }

  /** One step from the start of the code: the instruction, what remains and the IT block. */
  ghost predicate Stepped(
      ok: bool, cfg: Config, insn: Insn, it: ItBlock, after: ItBlock, code: seq<byte>, rest: seq<byte>,
      address: nat)
  {
    if ok then
      && |rest| < |code| && rest == code[|code| - |rest|..]
      && StepsOver(cfg, insn, it, after, code, |code| - |rest|, address)
    else rest == code && Halted(cfg, it, after, code, 0, address)
  }

  ghost predicate StepsOver(
      cfg: Config, insn: Insn, it: ItBlock, after: ItBlock, code: seq<byte>, width: nat, address: nat)
  {
    exists data :: Taken(cfg, insn, data, it, after, width, code, 0, address)
  }

  lemma StepIsStepped(cfg: Config, it: ItBlock, code: seq<byte>, address: nat, o: Outcome)
    requires ConfigOk(cfg) && o == StepAt(cfg, it, code, 0, address)
    ensures o.Stopped? ==>
      forall insn: Insn :: Stepped(false, cfg, insn, it, o.after, code, code, address)
    ensures o.Advanced? ==>
      1 <= o.consumed <= |code| && Stepped(true, cfg, o.insn, it, o.after, code, code[o.consumed..], address)
  {
    StepIsTaken(cfg, it, code, 0, address);
    StepIsFaithful(cfg, it, code, 0, address);
  }

  // ---------------------------------------------------------------- a run

  /** The steps publish the instructions one after the other, handing on the IT block. */
  ghost predicate Follows(
      cfg: Config, insns: seq<Insn>, data: seq<bool>, widths: seq<nat>, blocks: seq<ItBlock>,
      code: seq<byte>, start: nat, base: nat)
  {
    && |insns| == |data| == |widths| && |blocks| == |insns| + 1 && start <= |code|
    && (insns != [] ==>
          && Taken(cfg, insns[0], data[0], blocks[0], blocks[1], widths[0], code, start, base)
          && Follows(cfg, insns[1..], data[1..], widths[1..], blocks[1..], code, start + widths[0], base))
  }

  /** The run ends at the end of the input or of the count, or where an attempt publishes nothing. */
  ghost predicate Ends(
      cfg: Config, it: ItBlock, after: ItBlock, code: seq<byte>, pos: nat, base: nat, done: nat,
      count: nat)
  {
    forall u: Unfolding :: EndsHere(u, cfg, it, after, code, pos, base, done, count)
  }

  ghost predicate EndsHere(
      u: Unfolding, cfg: Config, it: ItBlock, after: ItBlock, code: seq<byte>, pos: nat, base: nat,
      done: nat, count: nat)
  {
    && pos <= |code| && (count > 0 ==> done <= count)
    && if pos == |code| || (count > 0 && done == count) then after == it
       else Halted(cfg, it, after, code, pos, base)
  }

  /** The step at a position, without the definition of steps. */
  lemma StepOn(
      cfg: Config, step: Stepper, it: ItBlock, code: seq<byte>, pos: nat, base: nat)
    returns (o: Outcome)
    requires ConfigOk(cfg) && FaithfulStepper(step) && Drives(step, cfg) && pos <= |code|
    ensures o == step(it, code, pos, base)
    ensures o.Stopped? ==> Halted(cfg, it, o.after, code, pos, base)
    ensures o.Advanced? ==>
      && 1 <= o.consumed && pos + o.consumed <= |code|
      && Taken(cfg, o.insn, o.data, it, o.after, o.consumed, code, pos, base)
  {
    o := step(it, code, pos, base);
    assert Faithful(o, code, pos, base);
    assert Agrees(step, cfg, it, code, pos, base);
    StepIsTaken(cfg, it, code, pos, base);
  }

  /** The first step of what is left of a run, and what is left then. */
  lemma Peel(
      rest: Trace, step: Stepper, it: ItBlock, code: seq<byte>, pos: nat, base: nat, count: nat, o: Outcome)
    returns (rest': Trace)
    requires FaithfulStepper(step) && pos < |code| && o == step(it, code, pos, base)
    requires Remains(rest, step, it, code, pos, base, count)
    ensures o.Stopped? ==> rest == Ended(o.after)
    ensures o.Advanced? ==> pos + o.consumed <= |code| && rest == Join(Single(o), rest')
    ensures o.Advanced? && count == 1 ==> rest' == Ended(o.after)
    ensures o.Advanced? && count != 1 ==>
      Remains(rest', step, o.after, code, pos + o.consumed, base, Left(count))
  {
    rest' := RunAdvances(step, it, code, pos, base, count, Ended(it), rest, o);
    NothingBefore(it, rest);
    NothingBefore(it, rest');
    if o.Advanced? {
      NothingBefore(it, Single(o));
    }
  }

  lemma NothingBefore(it: ItBlock, run: Trace)
    ensures Join(Ended(it), run) == run
  {
    assert [] + run.insns == run.insns && [] + run.widths == run.widths && [] + run.data == run.data;
  }

  /** The IT blocks before each step and after the last. */
  lemma {:induction false} RunFollows(
      rest: Trace, cfg: Config, step: Stepper, it: ItBlock, code: seq<byte>, pos: nat, base: nat, count: nat)
    returns (blocks: seq<ItBlock>)
    requires ConfigOk(cfg) && FaithfulStepper(step) && Drives(step, cfg) && pos <= |code|
    requires Remains(rest, step, it, code, pos, base, count)
    ensures Follows(cfg, rest.insns, rest.data, rest.widths, blocks, code, pos, base) && blocks[0] == it
    ensures Ends(cfg, blocks[|rest.insns|], rest.it, code, pos + Sum(rest.widths), base, |rest.insns|, count)
    decreases |code| - pos
  {
    blocks := [it];
    if pos == |code| {
      NothingRemains(rest, step, it, code, base, count);
      EndsNow(cfg, it, it, code, pos, base, 0, count);
    } else {
      var o := StepOn(cfg, step, it, code, pos, base);
      var rest' := Peel(rest, step, it, code, pos, base, count, o);
      if o.Stopped? {
        EndsNow(cfg, it, o.after, code, pos, base, 0, count);
      } else {
        var next;
        if count == 1 {
          next := [o.after];
          EndsNow(cfg, o.after, o.after, code, pos + o.consumed, base, 1, count);
        } else {
          next := RunFollows(rest', cfg, step, o.after, code, pos + o.consumed, base, Left(count));
          EndsLater(cfg, next[|rest'.insns|], rest'.it, code, pos + o.consumed + Sum(rest'.widths), base,
                    |rest'.insns|, count);
        }
        blocks := [it] + next;
        FollowsCons(cfg, o, rest', it, next, code, pos, base);
        WidthsJoin(o.consumed, rest'.widths);
      }
    }
  }

  lemma FollowsCons(
      cfg: Config, o: Outcome, rest: Trace, it: ItBlock, next: seq<ItBlock>, code: seq<byte>, pos: nat,
      base: nat)
    requires o.Advanced? && next != [] && next[0] == o.after && pos <= |code|
    requires Taken(cfg, o.insn, o.data, it, o.after, o.consumed, code, pos, base)
    requires Follows(cfg, rest.insns, rest.data, rest.widths, next, code, pos + o.consumed, base)
    ensures var run := Join(Single(o), rest);
      Follows(cfg, run.insns, run.data, run.widths, [it] + next, code, pos, base)
  {
    var run, blocks := Join(Single(o), rest), [it] + next;
    assert run.insns[1..] == rest.insns && run.data[1..] == rest.data && run.widths[1..] == rest.widths;
    assert blocks[1..] == next;
  }

  lemma WidthsJoin(n: nat, widths: seq<nat>)
    ensures Sum([n] + widths) == n + Sum(widths)
  {
    assert ([n] + widths)[1..] == widths;
  }

  lemma EndsNow(
      cfg: Config, it: ItBlock, after: ItBlock, code: seq<byte>, pos: nat, base: nat, done: nat,
      count: nat)
    requires pos <= |code| && (count > 0 ==> done <= count)
    requires if pos == |code| || (count > 0 && done == count) then after == it
             else Halted(cfg, it, after, code, pos, base)
    ensures Ends(cfg, it, after, code, pos, base, done, count)
  {
  }

  lemma EndsLater(
      cfg: Config, it: ItBlock, after: ItBlock, code: seq<byte>, pos: nat, base: nat, done: nat,
      count: nat)
    requires count != 1 && Ends(cfg, it, after, code, pos, base, done, Left(count))
    ensures Ends(cfg, it, after, code, pos, base, done + 1, count)
  {
    assert EndsHere(Unfold, cfg, it, after, code, pos, base, done, Left(count));
  }

  lemma {:induction false} FollowsAt(
      cfg: Config, insns: seq<Insn>, data: seq<bool>, widths: seq<nat>, blocks: seq<ItBlock>,
      code: seq<byte>, start: nat, base: nat, i: nat)
    requires Follows(cfg, insns, data, widths, blocks, code, start, base) && i < |insns|
    ensures Taken(
      cfg, insns[i], data[i], blocks[i], blocks[i + 1], widths[i], code, start + Sum(widths[..i]), base)
  {
    if i > 0 {
      FollowsAt(cfg, insns[1..], data[1..], widths[1..], blocks[1..], code, start + widths[0], base, i - 1);
      assert widths[..i][1..] == widths[1..][..i - 1];
    }
  }

  /** The whole account of a run: step i starts where the widths before it end, is data exactly when
      nothing is decoded there with the IT block that the steps before it leave, and the last block is
      left when the run ends. */
  ghost predicate Told(
      cfg: Config, insns: seq<Insn>, data: seq<bool>, widths: seq<nat>, blocks: seq<ItBlock>,
      after: ItBlock, code: seq<byte>, base: nat, count: nat)
  {
    && |insns| == |data| == |widths| && |blocks| == |insns| + 1
    && (forall i :: 0 <= i < |insns| ==> StepTold(cfg, insns, data, widths, blocks, code, base, i))
    && Ends(cfg, blocks[|insns|], after, code, Sum(widths), base, |insns|, count)
  }

  ghost predicate StepTold(
      cfg: Config, insns: seq<Insn>, data: seq<bool>, widths: seq<nat>, blocks: seq<ItBlock>,
      code: seq<byte>, base: nat, i: nat)
    requires i < |insns| == |data| == |widths| && |blocks| == |insns| + 1
  {
    Taken(cfg, insns[i], data[i], blocks[i], blocks[i + 1], widths[i], code, Sum(widths[..i]), base)
  }

  /** Every run of cs_disasm is accounted for by the answers of the decoder and the callback. */
  lemma RunIsTold(cfg: Config, it: ItBlock, code: seq<byte>, offset: nat, count: nat)
    returns (blocks: seq<ItBlock>)
    requires ConfigOk(cfg)
    ensures blocks != [] && blocks[0] == it
    ensures var run := RunOf(cfg, it, code, offset, count);
      Told(cfg, run.insns, run.data, run.widths, blocks, run.it, code, offset, count)
  {
    var step, run := RunFor(cfg, it, code, offset, count);
    blocks := RunFollows(run, cfg, step, it, code, 0, offset, count);
    FollowsIsTold(cfg, run.insns, run.data, run.widths, blocks, run.it, code, offset, count);
  }

  lemma FollowsIsTold(
      cfg: Config, insns: seq<Insn>, data: seq<bool>, widths: seq<nat>, blocks: seq<ItBlock>,
      after: ItBlock, code: seq<byte>, base: nat, count: nat)
    requires Follows(cfg, insns, data, widths, blocks, code, 0, base)
    requires Ends(cfg, blocks[|insns|], after, code, Sum(widths), base, |insns|, count)
    ensures Told(cfg, insns, data, widths, blocks, after, code, base, count)
  {
    forall i | 0 <= i < |insns|
      ensures StepTold(cfg, insns, data, widths, blocks, code, base, i)
    {
      FollowsAt(cfg, insns, data, widths, blocks, code, 0, base, i);
    }
  }

  // ---------------------------------------------------------------- what the caller gets

  /** A data instruction has no details, nor has any other when they are off; when they are on and
      nothing was refused, every other has. */
  ghost predicate DetailTold(detail: Ptr, data: bool, detailed: bool, granted: bool) {
    if data || !detailed then detail == NULL else granted ==> detail != NULL
  }

  ghost predicate SlotsToldBy(
      slots: seq<CsInsn>, data: seq<bool>, widths: seq<nat>, blocks: seq<ItBlock>, cfg: Config,
      it: ItBlock, code: seq<byte>, offset: nat, count: nat, detailed: bool, granted: bool,
      after: ItBlock)
  {
    && Told(cfg, Bodies(slots), data, widths, blocks, after, code, offset, count) && blocks[0] == it
    && forall i :: 0 <= i < |slots| ==> DetailTold(slots[i].detail, data[i], detailed, granted)
  }

  /** The delivered slots are accounted for. */
  ghost predicate SlotsTold(
      slots: seq<CsInsn>, cfg: Config, it: ItBlock, code: seq<byte>, offset: nat, count: nat,
      detailed: bool, granted: bool, after: ItBlock)
  {
    exists data, widths, blocks ::
      SlotsToldBy(slots, data, widths, blocks, cfg, it, code, offset, count, detailed, granted, after)
  }

  /** With nothing refused, a slot has a detail block exactly when details are on and the decoder
      decodes there; and a decoded slot shows the word and the operands of the text it was given. */
  lemma SlotMeans(
      slots: seq<CsInsn>, data: seq<bool>, widths: seq<nat>, blocks: seq<ItBlock>, cfg: Config,
      it: ItBlock, code: seq<byte>, offset: nat, count: nat, detailed: bool, after: ItBlock, i: nat)
    requires i < |slots|
    requires SlotsToldBy(slots, data, widths, blocks, cfg, it, code, offset, count, detailed, true, after)
    ensures Sum(widths[..i]) <= |code|
    ensures var d := Answer(cfg, blocks[i], code, Sum(widths[..i]), offset);
      && (slots[i].detail != NULL <==> detailed && d.Instruction?)
      && (d.Instruction? ==>
            && slots[i].body.id == (if d.publicId != 0 then d.publicId else d.id)
            && Spelled(slots[i].body.mnemonic, slots[i].body.opStr, d.text))
      && (d.Broken? ==> cfg.skipdata && slots[i].body.id == 0)
      && blocks[i + 1] == d.after
  {
    var bodies := Bodies(slots);
    assert EndsHere(Unfold, cfg, blocks[|slots|], after, code, Sum(widths), offset, |slots|, count);
    assert StepTold(cfg, bodies, data, widths, blocks, code, offset, i);
    assert IsTaken(
        Unfold, cfg, bodies[i], data[i], blocks[i], blocks[i + 1], widths[i], code, Sum(widths[..i]), offset);
  }
}
