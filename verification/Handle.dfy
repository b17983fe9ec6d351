/** The engine handle: its options, and what they leave for the drivers to read. */
module Handle {
  import opened Words
  import opened Runs
  import opened Decoding

  datatype Arch = Arm | Arm64 | Mips | X86 | Ppc | Sparc | SysZ | XCore

  datatype Error = ErrOk | ErrMem | ErrHandle | ErrCsh | ErrOption | ErrDetail | ErrSkipdata

  const OPT_OFF: nat := 0
  const OPT_ON: nat := 3
  const SYNTAX_DEFAULT: nat := 0
  const SYNTAX_INTEL: nat := 1
  const SYNTAX_ATT: nat := 2
  const MODE_THUMB: nat := 16

  /** Option requests with the values they carry. Unknown options reach the architecture, which
      ignores them. */
  datatype Request =
    | SetSyntax(value: nat)
    | SetDetail(value: nat)
    | SetMode(value: nat)
    | SetSkipdata(value: nat)
    | SetupSkipdata(mnemonic: string, callback: Option<SkipCallback>)
    | SetupNothing
    | SetMemory
    | Unknown

  predicate Thumb(mode: nat) {
    mode / MODE_THUMB % 2 == 1
  }

  /** The alignment of data to skip; the documented default for each architecture. */
  function SkipdataSize(arch: Arch, mode: nat): nat {
    match arch
    case Arm => if Thumb(mode) then 2 else 4
    case Arm64 => 4
    case Mips => 4
    case Ppc => 4
    case Sparc => 4
    case SysZ => 2
    case X86 => 1
    case XCore => 2
  }

  /** The architecture's own option hook: some architectures do not record a new mode, and the others
      cast it to a 32-bit enumeration. */
  function ArchMode(arch: Arch, mode: nat, value: nat): nat {
    match arch
    case Arm => Wrap32(value)
    case Mips => Wrap32(value)
    case X86 => Wrap32(value)
    case _ => mode
  }

  /** The syntax after a request for one: x86 knows two, and some architectures keep none. */
  function ArchSyntax(arch: Arch, syntax: int, value: nat): int {
    match arch
    case X86 =>
      if value == SYNTAX_DEFAULT then SYNTAX_INTEL
      else if value == SYNTAX_INTEL || value == SYNTAX_ATT then value
      else syntax
    case Arm => Signed32(value)
    case Ppc => Signed32(value)
    case Sparc => Signed32(value)
    case SysZ => Signed32(value)
    case _ => syntax
  }

  /** Only x86 refuses a request, for a syntax that it does not know. */
  function Answer(arch: Arch, r: Request): Error {
    if arch == X86 && r.SetSyntax? && r.value > SYNTAX_ATT then ErrOption else ErrOk
  }

  /** cs_disasm resets the IT block of an ARM handle before it starts. */
  function Reset(arch: Arch, it: ItBlock): ItBlock {
    if arch == Arm then it.(size := 0) else it
  }

  /** The option fields of a handle. */
  datatype Settings = Settings(
    arch: Arch, mode: nat, syntax: int, detail: nat, skipdata: bool, skipSize: nat,
    mnemonic: string, callback: Option<SkipCallback>)

  function FirstSyntax(arch: Arch): nat {
    if arch == X86 then SYNTAX_INTEL else SYNTAX_DEFAULT
  }

  function Opened(arch: Arch, mode: nat): Settings {
    Settings(arch, mode, FirstSyntax(arch), OPT_OFF, false, 0, ".byte", None)
  }

  function Apply(s: Settings, r: Request): Settings {
    match r
    case SetSyntax(value) => s.(syntax := ArchSyntax(s.arch, s.syntax, value))
    case SetDetail(value) => s.(detail := Wrap32(value))
    case SetMode(value) => s.(mode := ArchMode(s.arch, s.mode, value))
    case SetSkipdata(value) =>
      if value != OPT_ON then s.(skipdata := false)
      else s.(skipdata := true,
              skipSize := if s.skipSize == 0 then SkipdataSize(s.arch, s.mode) else s.skipSize)
    case SetupSkipdata(mnemonic, callback) => s.(mnemonic := mnemonic, callback := callback)
    case SetupNothing => s
    case SetMemory => s
    case Unknown => s
  }

  function ApplyAll(s: Settings, rs: seq<Request>): Settings
    decreases |rs|
  {
    if rs == [] then s else ApplyAll(Apply(s, rs[0]), rs[1..])
  }

  class CsHandle {
    const arch: Arch
    const decode: Decoder
    var mode: nat
    var syntax: int
    var errnum: Error
    var it: ItBlock
    var detail: nat
    var skipdata: bool
    var skipdataSize: nat
    var mnemonic: string
    var callback: Option<SkipCallback>

    function GetSettings(): Settings
      reads `mode, `syntax, `detail, `skipdata, `skipdataSize, `mnemonic, `callback
    {
      Settings(arch, mode, syntax, detail, skipdata, skipdataSize, mnemonic, callback)
    }

    function GetConfig(): Config
      reads `mode, `skipdata, `skipdataSize, `mnemonic, `callback
    {
      Config(decode, mode, skipdata, skipdataSize, mnemonic, callback)
    }

    /** Skipping data always makes progress, by no more than an instruction's bytes. */
    ghost predicate Valid()
      reads `skipdata, `skipdataSize, `callback
    {
      && DecoderOk(decode)
      && (callback.Some? ==> CallbackOk(callback.value))
      && skipdataSize <= 4 && (skipdata ==> 0 < skipdataSize)
    }

    /** cs_open for an architecture that accepts the mode. */
    constructor (arch: Arch, mode: nat, decode: Decoder)
      requires DecoderOk(decode)
      ensures Valid() && errnum == ErrOk && it == ItBlock([], 0)
      ensures GetSettings() == Opened(arch, mode) && this.decode == decode
    {
      this.arch, this.mode, this.decode := arch, mode, decode;
      errnum, it, detail, syntax := ErrOk, ItBlock([], 0), OPT_OFF, FirstSyntax(arch);
      skipdata, skipdataSize, mnemonic, callback := false, 0, ".byte", None;
    }
  }

  /** The architecture's option hook, asked for a syntax. */
  method SetSyntaxOf(ud: CsHandle, value: nat) returns (err: Error)
    modifies ud`syntax, ud`errnum
    ensures ud.syntax == ArchSyntax(ud.arch, old(ud.syntax), value)
    ensures err == Answer(ud.arch, SetSyntax(value))
    ensures ud.errnum == if err == ErrOk then old(ud.errnum) else err
  {
    match ud.arch {
      case X86 =>
        if value == SYNTAX_DEFAULT || value == SYNTAX_INTEL {
          ud.syntax := SYNTAX_INTEL;
        } else if value == SYNTAX_ATT {
          ud.syntax := SYNTAX_ATT;
        } else {
          ud.errnum := ErrOption;
          return ErrOption;
        }
      case Arm =>
        ud.syntax := Signed32(value);
      case Ppc =>
        ud.syntax := Signed32(value);
      case Sparc =>
        ud.syntax := Signed32(value);
      case SysZ =>
        ud.syntax := Signed32(value);
      case _ =>
    }
    err := ErrOk;
  }

  /** cs_option. */
  method CsOption(ud: CsHandle?, r: Request) returns (err: Error)
    requires ud != null ==> ud.Valid()
    requires r.SetupSkipdata? && r.callback.Some? ==> CallbackOk(r.callback.value)
    modifies ud
    ensures err == if r.SetMemory? then ErrOk else if ud == null then ErrCsh else Answer(ud.arch, r)
    ensures ud != null ==>
      && ud.Valid() && ud.GetSettings() == Apply(old(ud.GetSettings()), r) && ud.it == old(ud.it)
      && ud.errnum == if err == ErrOk then old(ud.errnum) else err
  {
    if r.SetMemory? {
      return ErrOk;
    }
    if ud == null {
      return ErrCsh;
    }
    err := ErrOk;
    match r {
      case SetSyntax(value) =>
        err := SetSyntaxOf(ud, value);
      case SetDetail(value) =>
        ud.detail := Wrap32(value);
      case SetSkipdata(value) =>
        ud.skipdata := value == OPT_ON;
        if ud.skipdata {
          if ud.skipdataSize == 0 {
            ud.skipdataSize := SkipdataSize(ud.arch, ud.mode);
          }
        }
      case SetupSkipdata(mnemonic, callback) =>
        ud.mnemonic, ud.callback := mnemonic, callback;
      case SetMode(value) =>
        ud.mode := ArchMode(ud.arch, ud.mode, value);
      case SetupNothing =>
      case Unknown =>
    }
  }

  // ---------------------------------------------------------------- any sequence of options

  predicate KnownSyntax(s: Settings) {
    s.syntax == SYNTAX_INTEL || s.syntax == SYNTAX_ATT
  }

  lemma {:induction false} SyntaxStaysKnown(s: Settings, rs: seq<Request>)
    requires s.arch == X86 && KnownSyntax(s)
    ensures KnownSyntax(ApplyAll(s, rs))
    decreases |rs|
  {
    if rs != [] {
      SyntaxStaysKnown(Apply(s, rs[0]), rs[1..]);
    }
  }

  /** After any sequence of options an x86 handle has one of the two syntaxes that its printers know,
      whatever was asked for. */
  lemma X86SyntaxIsKnown(mode: nat, rs: seq<Request>)
    ensures KnownSyntax(ApplyAll(Opened(X86, mode), rs))
  {
    SyntaxStaysKnown(Opened(X86, mode), rs);
  }

  /** The last request of a kind. */
  function LastOf(rs: seq<Request>, kind: Request -> bool): (last: Option<Request>)
    ensures last.Some? ==> kind(last.value)
    decreases |rs|
  {
    if rs == [] then None
    else
      var n := |rs| - 1;
      if kind(rs[n]) then Some(rs[n]) else LastOf(rs[..n], kind)
  }

  lemma {:induction false} ApplySnoc(s: Settings, rs: seq<Request>)
    requires rs != []
    ensures ApplyAll(s, rs) == Apply(ApplyAll(s, rs[..|rs| - 1]), rs[|rs| - 1])
    decreases |rs|
  {
    if |rs| == 1 {
      assert rs[1..] == [] && rs[..0] == [];
    } else {
      ApplySnoc(Apply(s, rs[0]), rs[1..]);
      assert rs[1..][..|rs| - 2] == rs[..|rs| - 1][1..];
    }
  }

  /** The options of a handle are what the last request for each asked for, or what it was opened
      with; the mode is kept by three architectures only. */
  lemma {:induction false} LastRequestWins(arch: Arch, mode: nat, rs: seq<Request>)
    ensures var t := ApplyAll(Opened(arch, mode), rs);
      && t.arch == arch
      && t.detail == (match LastOf(rs, (r: Request) => r.SetDetail?)
                      case None => 0 case Some(r) => r.value % 0x1_0000_0000)
      && t.mode == (match LastOf(rs, (r: Request) => r.SetMode?)
                    case None => mode
                    case Some(r) =>
                      if arch == Arm || arch == Mips || arch == X86 then r.value % 0x1_0000_0000 else mode)
    decreases |rs|
  {
    if rs != [] {
      LastRequestWins(arch, mode, rs[..|rs| - 1]);
      ApplySnoc(Opened(arch, mode), rs);
    }
  }

  lemma {:induction false} LastSkipSetupWins(arch: Arch, mode: nat, rs: seq<Request>)
    ensures var t := ApplyAll(Opened(arch, mode), rs);
      && t.skipdata == (match LastOf(rs, (r: Request) => r.SetSkipdata?)
                        case None => false case Some(r) => r.value == 3)
      && (match LastOf(rs, (r: Request) => r.SetupSkipdata?)
          case None => t.mnemonic == ".byte" && t.callback == None
          case Some(r) => t.mnemonic == r.mnemonic && t.callback == r.callback)
    decreases |rs|
  {
    if rs != [] {
      LastSkipSetupWins(arch, mode, rs[..|rs| - 1]);
      ApplySnoc(Opened(arch, mode), rs);
    }
  }

  /** So is the syntax, as a signed number, on the architectures that print by it; x86 takes the last
      of the values 0 to 2, of which 0 stands for 1, and the others stay with 0. */
  lemma {:induction false} LastSyntaxWins(arch: Arch, mode: nat, rs: seq<Request>)
    ensures var t := ApplyAll(Opened(arch, mode), rs);
      && (arch == X86 ==>
            t.syntax == match LastOf(rs, (r: Request) => r.SetSyntax? && r.value <= 2)
                        case None => 1 case Some(r) => if r.value == 0 then 1 else r.value)
      && (arch == Arm || arch == Ppc || arch == Sparc || arch == SysZ ==>
            t.syntax == match LastOf(rs, (r: Request) => r.SetSyntax?)
                        case None => 0 case Some(r) => Signed32(r.value))
      && (arch == Arm64 || arch == Mips || arch == XCore ==> t.syntax == 0)
    decreases |rs|
  {
    if rs != [] {
      LastSyntaxWins(arch, mode, rs[..|rs| - 1]);
      LastRequestWins(arch, mode, rs[..|rs| - 1]);
      ApplySnoc(Opened(arch, mode), rs);
    }
  }

  /** The one request that is refused: a syntax above 2 on x86. */
  lemma RefusedRequests(arch: Arch, r: Request)
    ensures Answer(arch, r) != ErrOk <==> arch == X86 && r.SetSyntax? && r.value > 2
    ensures Answer(arch, r) != ErrOk ==> Answer(arch, r) == ErrOption
  {
  }

  /** The mode in which data skipping was first switched on. */
  function FirstSkipMode(s: Settings, rs: seq<Request>): Option<nat>
    decreases |rs|
  {
    if rs == [] then None
    else if rs[0].SetSkipdata? && rs[0].value == OPT_ON then Some(s.mode)
    else FirstSkipMode(Apply(s, rs[0]), rs[1..])
  }

  lemma {:induction false} SkipSizeIsSticky(s: Settings, rs: seq<Request>)
    requires s.skipSize != 0
    ensures ApplyAll(s, rs).skipSize == s.skipSize && ApplyAll(s, rs).arch == s.arch
    decreases |rs|
  {
    if rs != [] {
      SkipSizeIsSticky(Apply(s, rs[0]), rs[1..]);
    }
  }

  lemma {:induction false} SkipSizeFrom(s: Settings, rs: seq<Request>)
    requires s.skipSize == 0 && !s.skipdata
    ensures var t, first := ApplyAll(s, rs), FirstSkipMode(s, rs);
      && t.arch == s.arch
      && t.skipSize == (if first.None? then 0 else SkipdataSize(s.arch, first.value))
      && (t.skipdata ==> first.Some?)
    decreases |rs|
  {
    if rs != [] {
      if rs[0].SetSkipdata? && rs[0].value == OPT_ON {
        SkipSizeIsSticky(Apply(s, rs[0]), rs[1..]);
      } else {
        SkipSizeFrom(Apply(s, rs[0]), rs[1..]);
      }
    }
  }

  /** After any sequence of options on a fresh handle, data skipping that is on makes progress. The
      skip size is the documented one for the current mode exactly when the architecture is not
      ARM, or the mode still agrees on Thumb with the mode in which skipping was first switched on. */
  lemma SkipSizeAfterOptions(arch: Arch, mode: nat, rs: seq<Request>)
    ensures var t := ApplyAll(Opened(arch, mode), rs);
      t.skipdata ==>
        var first := FirstSkipMode(Opened(arch, mode), rs);
        && first.Some? && 1 <= t.skipSize <= 4
        && (t.skipSize == SkipdataSize(arch, t.mode) <==>
            arch != Arm || Thumb(first.value) == Thumb(t.mode))
  {
    SkipSizeFrom(Opened(arch, mode), rs);
  }

  /** Switching an ARM handle to Thumb after data skipping is on leaves it skipping four bytes. */
  lemma StaleSkipSize()
    ensures var t := ApplyAll(Opened(Arm, 0), [SetSkipdata(OPT_ON), SetMode(MODE_THUMB)]);
      t.skipdata && t.skipSize == 4 && SkipdataSize(Arm, t.mode) == 2
  {
    var on := Apply(Opened(Arm, 0), SetSkipdata(OPT_ON));
    assert ApplyAll(on, [SetMode(MODE_THUMB)]) == Apply(on, SetMode(MODE_THUMB));
    assert [SetSkipdata(OPT_ON), SetMode(MODE_THUMB)][1..] == [SetMode(MODE_THUMB)];
  }
}
