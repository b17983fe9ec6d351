/** Differentially encoded register lists, and the searches over them. */
module Registers {
  import opened Words

  type uint16 = n: int | 0 <= n < 0x1_0000

  function Plus16(a: int, b: int): uint16 {
    (a + b) % 0x1_0000
  }

  function Minus16(a: int, b: int): uint16 {
    (a - b) % 0x1_0000
  }

  lemma DifferenceInverts(from: uint16, to: uint16)
    ensures Plus16(from, Minus16(to, from)) == to
    ensures Minus16(Plus16(from, to), from) == to
    ensures Minus16(to, from) == 0 <==> to == from
  {
  }

  // ---------------------------------------------------------------- difference lists

  /** Somewhere from `at` on there is a terminator. */
  ghost predicate Terminated(table: seq<uint16>, at: nat) {
    exists k :: at <= k < |table| && table[k] == 0
  }

  /** The values that the list at `at` decodes to, starting from (and not including) `from`. */
  function Values(table: seq<uint16>, at: nat, from: uint16): seq<uint16>
    requires at <= |table|
    decreases |table| - at
  {
    if at == |table| || table[at] == 0 then []
    else var next := Plus16(from, table[at]); [next] + Values(table, at + 1, next)
  }

  /** The list for the given values: 16-bit differences and a terminator. */
  function Encoded(from: uint16, values: seq<uint16>): (diffs: seq<uint16>)
    ensures |diffs| == |values| + 1
    decreases |values|
  {
    if values == [] then [0] else [Minus16(values[0], from)] + Encoded(values[0], values[1..])
  }

  /** No value repeats the one before it; a difference of 0 would end the list. */
  ghost predicate NoStutter(from: uint16, values: seq<uint16>)
    decreases |values|
  {
    values != [] ==> values[0] != from && NoStutter(values[0], values[1..])
  }

  /** A list placed anywhere in a table decodes to the values that it was made from exactly when no
      value repeats the one before it. */
  lemma {:induction false} DecodeEncoded(
      table: seq<uint16>, at: nat, from: uint16, values: seq<uint16>)
    requires at + |values| < |table| && table[at..at + |values| + 1] == Encoded(from, values)
    ensures Values(table, at, from) == values <==> NoStutter(from, values)
    decreases |values|
  {
    var diffs := table[at..at + |values| + 1];
    assert table[at] == diffs[0];
    if values != [] {
      var next, rest := values[0], values[1..];
      DifferenceInverts(from, next);
      assert table[at + 1..at + 1 + |rest| + 1] == diffs[1..] == Encoded(next, rest);
      DecodeEncoded(table, at + 1, next, rest);
      if table[at] != 0 {
        assert Values(table, at, from) == [next] + Values(table, at + 1, next);
        assert values == [next] + rest;
      }
    }
  }

  /** Every terminated list is the encoding of what it decodes to. */
  lemma {:induction false} EncodeDecoded(table: seq<uint16>, at: nat, from: uint16)
    requires at <= |table| && Terminated(table, at)
    ensures var values := Values(table, at, from);
      && at + |values| < |table|
      && table[at..at + |values| + 1] == Encoded(from, values) && NoStutter(from, values)
    decreases |table| - at
  {
    if table[at] == 0 {
      assert table[at..at + 1] == [0];
    } else {
      var next := Plus16(from, table[at]);
      var rest := Values(table, at + 1, next);
      EncodeDecoded(table, at + 1, next);
      assert Values(table, at, from) == [next] + rest && ([next] + rest)[1..] == rest;
      DifferenceInverts(from, table[at]);
      assert table[at..at + 1 + |rest| + 1] == [table[at]] + table[at + 1..at + 1 + |rest| + 1];
    }
  }

  /** Value k is the start plus the first k + 1 differences, in 16 bits. */
  lemma {:induction false} ValuesAreSums(table: seq<uint16>, at: nat, from: uint16, k: nat)
    requires at <= |table| && k < |Values(table, at, from)|
    ensures at + k < |table| && Values(table, at, from)[k] == (from + Total(table[at..at + k + 1])) % 0x1_0000
    decreases k
  {
    var next := Plus16(from, table[at]);
    assert Values(table, at, from) == [next] + Values(table, at + 1, next);
    if k > 0 {
      ValuesAreSums(table, at + 1, next, k - 1);
      var diffs := table[at..at + k + 1];
      assert diffs[1..] == table[at + 1..at + 1 + (k - 1) + 1];
      SumWraps(from, table[at], Total(diffs[1..]));
    } else {
      assert table[at..at + 1] == [table[at]] && [table[at]][1..] == [];
    }
  }

  function Total(diffs: seq<uint16>): nat {
    if diffs == [] then 0 else diffs[0] + Total(diffs[1..])
  }

  lemma SumWraps(a: nat, b: nat, c: nat)
    ensures ((a + b) % 0x1_0000 + c) % 0x1_0000 == (a + (b + c)) % 0x1_0000
  {
  }

  /** The list ends at the first 0, and not before. */
  lemma {:induction false} ValuesEnd(table: seq<uint16>, at: nat, from: uint16)
    requires at <= |table| && Terminated(table, at)
    ensures var n := |Values(table, at, from)|;
      && at + n < |table| && table[at + n] == 0 && forall k :: at <= k < at + n ==> table[k] != 0
    decreases |table| - at
  {
    if table[at] != 0 {
      StillTerminated(table, at);
      ValuesEnd(table, at + 1, Plus16(from, table[at]));
    }
  }

  /** DiffListIterator: a current value, and a pointer that is null once the list has ended. */
  class DiffListIterator {
    const table: seq<uint16>
    var val: uint16
    /** Index of the next difference; -1 stands for null. */
    var list: int
    /** The values of the list, and the place of the current one; -1 before the first `Next`. */
    ghost const all: seq<uint16>
    ghost var place: int

    ghost predicate Valid()
      reads this
    {
      && -1 <= place <= |all|
      && (if list < 0 then list == -1 && place == |all|
          else
            && list < |table| && Terminated(table, list) && place < |all|
            && Continues(table, list, val, all, place + 1)
            && (place >= 0 ==> val == all[place]))
    }

    /** DiffListIterator_init. */
    constructor (table: seq<uint16>, initVal: uint16, diffList: nat)
      requires diffList < |table| && Terminated(table, diffList)
      ensures Valid() && IsValid() && place == -1
      ensures this.table == table && all == Values(table, diffList, initVal)
    {
      this.table, val, list := table, initVal, diffList;
      all, place := Values(table, diffList, initVal), -1;
      StartsWithAll(table, diffList, initVal);
    }

    predicate IsValid()
      reads this
    {
      list != -1
    }

    /** DiffListIterator_next: step to the next value, or become null at the terminator. */
    method Next() returns (more: bool)
      requires Valid()
      modifies this
      ensures Valid() && more == IsValid()
      ensures old(IsValid()) ==> place == old(place) + 1 && list <= old(list) + 1
      ensures !old(IsValid()) ==> place == old(place) && list == -1
      ensures more ==> list == old(list) + 1
      ensures !more ==> val == old(val)
    {
      if list == -1 {
        return false;
      }
      var d := table[list];
      NextValue(table, list, val, all, place + 1);
      val := Plus16(val, d);
      if d == 0 {
        list := -1;
      } else {
        StillTerminated(table, list);
        list := list + 1;
      }
      place := place + 1;
      more := d != 0;
    }
  }

  /** What the table holds at `list` are the values from place `next` on. The quantifier keeps the
      verifier from unfolding lists wherever an iterator is at hand. */
  ghost predicate Continues(
      table: seq<uint16>, list: nat, val: uint16, all: seq<uint16>, next: nat)
  {
    forall u: Unfolding :: HoldsRest(u, table, list, val, all, next)
  }

  ghost predicate HoldsRest(
      u: Unfolding, table: seq<uint16>, list: nat, val: uint16, all: seq<uint16>, next: nat)
  {
    list <= |table| && next <= |all| && Values(table, list, val) == all[next..]
  }

  lemma StartsWithAll(table: seq<uint16>, list: nat, val: uint16)
    requires list <= |table|
    ensures Continues(table, list, val, Values(table, list, val), 0)
  {
  }

  /** The difference at the iterator leads to the next value, or ends the list. */
  lemma NextValue(table: seq<uint16>, list: nat, val: uint16, all: seq<uint16>, next: nat)
    requires list < |table| && Continues(table, list, val, all, next)
    ensures next <= |all| && Plus16(val, 0) == val
    ensures table[list] == 0 <==> next == |all|
    ensures table[list] != 0 ==>
      && all[next] == Plus16(val, table[list])
      && Continues(table, list + 1, all[next], all, next + 1)
  {
    assert HoldsRest(Unfold, table, list, val, all, next);
    if table[list] != 0 {
      var to := Plus16(val, table[list]);
      var values := Values(table, list, val);
      assert values[0] == to && values[1..] == Values(table, list + 1, to);
      assert all[next..][0] == all[next] && all[next..][1..] == all[next + 1..];
    }
  }

  lemma StillTerminated(table: seq<uint16>, at: nat)
    requires Terminated(table, at) && at < |table| && table[at] != 0
    ensures Terminated(table, at + 1)
  {
    var k :| at <= k < |table| && table[k] == 0;
    assert at + 1 <= k;
  }

  /** Initialising an iterator and stepping until it is no longer valid visits the values. */
  method Collect(table: seq<uint16>, initVal: uint16, diffList: nat) returns (values: seq<uint16>)
    requires diffList < |table| && Terminated(table, diffList)
    ensures values == Values(table, diffList, initVal)
  {
    var iter := new DiffListIterator(table, initVal, diffList);
    values := [];
    var more := iter.Next();
    while iter.IsValid()
      invariant iter.Valid() && fresh(iter) && iter.place == |values|
      invariant values == iter.all[..|values|]
      decreases |iter.all| - |values|
    {
      values := values + [iter.val];
      more := iter.Next();
    }
  }

  // ---------------------------------------------------------------- register classes

  /** A register class as a set of bits, eight registers to a byte. */
  datatype RegisterClass = RegisterClass(regSet: seq<bv8>)

  function Mask(k: nat): bv8
    requires k < 8
  {
    1 << k
  }

  /** MCRegisterClass_contains. */
  predicate Contains(c: RegisterClass, reg: nat) {
    reg / 8 < |c.regSet| && (c.regSet[reg / 8] & Mask(reg % 8)) != 0
  }

  function WithRegister(c: RegisterClass, reg: nat): RegisterClass
    requires reg / 8 < |c.regSet|
  {
    RegisterClass(c.regSet[reg / 8 := c.regSet[reg / 8] | Mask(reg % 8)])
  }

  /** The bit set of a list of registers, as the register tables hold it. */
  function ClassOf(regs: seq<nat>, bytes: nat): (c: RegisterClass)
    requires forall i :: 0 <= i < |regs| ==> regs[i] / 8 < bytes
    ensures |c.regSet| == bytes
  {
    if regs == [] then RegisterClass(seq(bytes, _ => 0))
    else WithRegister(ClassOf(regs[..|regs| - 1], bytes), regs[|regs| - 1])
  }

  lemma MasksAreBits(x: bv8, k: nat, j: nat)
    requires k < 8 && j < 8
    ensures ((x | Mask(k)) & Mask(j)) != 0 <==> (x & Mask(j)) != 0 || j == k
  {
  }

  lemma WithRegisterContains(c: RegisterClass, added: nat, reg: nat)
    requires added / 8 < |c.regSet|
    ensures Contains(WithRegister(c, added), reg) <==> Contains(c, reg) || reg == added
  {
    if reg / 8 == added / 8 {
      MasksAreBits(c.regSet[reg / 8], added % 8, reg % 8);
    }
  }

  /** A class built from a list of registers contains exactly those. */
  lemma {:induction false} ClassContainsItsList(regs: seq<nat>, bytes: nat, reg: nat)
    requires forall i :: 0 <= i < |regs| ==> regs[i] / 8 < bytes
    ensures Contains(ClassOf(regs, bytes), reg) <==> reg in regs
  {
    if regs == [] {
      assert reg / 8 < bytes ==> (0 & Mask(reg % 8)) == 0;
    } else {
      var init, last := regs[..|regs| - 1], regs[|regs| - 1];
      ClassContainsItsList(init, bytes, reg);
      WithRegisterContains(ClassOf(init, bytes), last, reg);
      assert regs == init + [last];
    }
  }

  const MASKS: seq<bv8> := [1, 2, 4, 8, 16, 32, 64, 128]

  /** Register 8k + j is bit j of byte k, counted from the lowest. */
  lemma ContainsIsBit(c: RegisterClass, reg: nat)
    ensures Contains(c, reg) <==>
      && reg / 8 < |c.regSet|
      && c.regSet[reg / 8] & MASKS[reg % 8] != 0
  {
    MaskIs(reg % 8);
  }

  lemma MaskIs(k: nat)
    requires k < 8
    ensures Mask(k) == MASKS[k]
  {
  }

  /** XCore's class GRRegs, as published, holds the registers 5 to 16. */
  lemma XCoreClass(reg: nat)
    ensures Contains(RegisterClass([0xe0, 0xff, 0x01]), reg) <==> 5 <= reg <= 16
  {
    var c := RegisterClass([0xe0, 0xff, 0x01]);
    ContainsIsBit(c, reg);
    ByteBits(reg % 8);
  }

  lemma ByteBits(k: nat)
    requires k < 8
    ensures var mask := MASKS[k];
      && ((0xe0 & mask) != 0 <==> 5 <= k) && (0xff & mask) != 0 && ((0x01 & mask) != 0 <==> k == 0)
  {
  }

  // ---------------------------------------------------------------- register descriptions

  /** Offsets of a register's lists: sub- and super-registers in the difference table, and the
      names of its sub-registers in the index table. */
  datatype Description = Description(subRegs: nat, superRegs: nat, subRegIndices: nat)

  datatype RegisterInfo = RegisterInfo(
    desc: seq<Description>, diffLists: seq<uint16>, subRegIndices: seq<uint16>)

  /** Every list ends inside its table, and there is a name for every sub-register. The lists of a
      register name registers, other than register 0, which stands for no register; what is listed
      for register 0 itself need not be registers at all. */
  ghost predicate WellFormed(ri: RegisterInfo) {
    && |ri.desc| <= 0x1_0000
    && forall r: nat :: r < |ri.desc| ==> Described(ri, r) && (0 < r ==> Named(ri, r))
  }

  ghost predicate Described(ri: RegisterInfo, r: nat)
    requires r < |ri.desc| <= 0x1_0000
  {
    var d := ri.desc[r];
    && d.subRegs < |ri.diffLists| && Terminated(ri.diffLists, d.subRegs)
    && d.superRegs < |ri.diffLists| && Terminated(ri.diffLists, d.superRegs)
    && d.subRegIndices + |Values(ri.diffLists, d.subRegs, r)| <= |ri.subRegIndices|
  }

  ghost predicate Named(ri: RegisterInfo, r: nat)
    requires r < |ri.desc| <= 0x1_0000 && Described(ri, r)
  {
    && AllNamed(ri, Values(ri.diffLists, ri.desc[r].subRegs, r))
    && AllNamed(ri, Values(ri.diffLists, ri.desc[r].superRegs, r))
  }

  ghost predicate AllNamed(ri: RegisterInfo, regs: seq<uint16>) {
    forall i :: 0 <= i < |regs| ==> 0 < regs[i] < |ri.desc|
  }

  function SubRegs(ri: RegisterInfo, r: nat): seq<uint16>
    requires WellFormed(ri) && r < |ri.desc|
  {
    assert Described(ri, r);
    Values(ri.diffLists, ri.desc[r].subRegs, r)
  }

  function SuperRegs(ri: RegisterInfo, r: nat): seq<uint16>
    requires WellFormed(ri) && r < |ri.desc|
  {
    assert Described(ri, r);
    Values(ri.diffLists, ri.desc[r].superRegs, r)
  }

  /** The name of the k-th sub-register. */
  function Name(ri: RegisterInfo, r: nat, k: nat): uint16
    requires WellFormed(ri) && r < |ri.desc| && k < |SubRegs(ri, r)|
  {
    assert Described(ri, r);
    ri.subRegIndices[ri.desc[r].subRegIndices + k]
  }

  /** `sub` is the sub-register of `r` called `idx`; the first one, if there are several. */
  ghost predicate IsSubReg(ri: RegisterInfo, r: nat, idx: nat, sub: nat)
    requires WellFormed(ri) && r < |ri.desc|
  {
    exists k :: 0 <= k < |SubRegs(ri, r)| && SubRegs(ri, r)[k] == sub && FirstNamed(ri, r, idx, k)
  }

  ghost predicate FirstNamed(ri: RegisterInfo, r: nat, idx: nat, k: nat)
    requires WellFormed(ri) && r < |ri.desc| && k < |SubRegs(ri, r)|
  {
    Name(ri, r, k) == idx && forall j :: 0 <= j < k ==> Name(ri, r, j) != idx
  }

  ghost predicate HasNoSubReg(ri: RegisterInfo, r: nat, idx: nat)
    requires WellFormed(ri) && r < |ri.desc|
  {
    forall k :: 0 <= k < |SubRegs(ri, r)| ==> Name(ri, r, k) != idx
  }

  /** What a search for the name yields: the sub-register, or 0 when there is none. */
  ghost predicate Yields(ri: RegisterInfo, r: nat, idx: nat, sub: nat)
    requires WellFormed(ri) && r < |ri.desc|
  {
    if HasNoSubReg(ri, r, idx) then sub == 0 else IsSubReg(ri, r, idx, sub)
  }

  /** MCRegisterInfo_getSubReg: walk the sub-register list and the list of names side by side. */
  method GetSubReg(ri: RegisterInfo, reg: nat, idx: nat) returns (sub: nat)
    requires WellFormed(ri) && reg < |ri.desc|
    ensures Yields(ri, reg, idx, sub)
  {
    assert Described(ri, reg);
    var sri := ri.desc[reg].subRegIndices;
    var iter := new DiffListIterator(ri.diffLists, reg, ri.desc[reg].subRegs);
    ghost var subs, k := iter.all, 0;
    var more := iter.Next();
    while iter.IsValid()
      invariant iter.Valid() && fresh(iter) && iter.place == k
      invariant sri == ri.desc[reg].subRegIndices + k
      invariant forall j :: 0 <= j < k ==> Name(ri, reg, j) != idx
      decreases |subs| - k
    {
      assert ri.subRegIndices[sri] == Name(ri, reg, k);
      if ri.subRegIndices[sri] == idx {
        assert FirstNamed(ri, reg, idx, k);
        return iter.val;
      }
      more := iter.Next();
      sri := sri + 1;
      k := k + 1;
    }
    sub := 0;
  }

  /** A search has one result. For a register, that is 0 only when there is no such sub-register. */
  lemma SubRegIsUnique(ri: RegisterInfo, r: nat, idx: nat, a: nat, b: nat)
    requires WellFormed(ri) && r < |ri.desc| && Yields(ri, r, idx, a)
    ensures Yields(ri, r, idx, b) <==> a == b
    ensures 0 < r ==> (a == 0 <==> HasNoSubReg(ri, r, idx)) && a < |ri.desc|
  {
    assert Described(ri, r) && (0 < r ==> Named(ri, r));
    if !HasNoSubReg(ri, r, idx) {
      var subs := SubRegs(ri, r);
      var k :| 0 <= k < |subs| && subs[k] == a && FirstNamed(ri, r, idx, k);
      if IsSubReg(ri, r, idx, b) {
        var j :| 0 <= j < |subs| && subs[j] == b && FirstNamed(ri, r, idx, j);
        assert j == k;
      }
    }
  }

  /** `s` is a register of the class whose search for the name yields `reg`. */
  ghost predicate Matches(ri: RegisterInfo, reg: nat, idx: nat, c: RegisterClass, s: nat)
    requires WellFormed(ri)
  {
    Contains(c, s) && s < |ri.desc| && Yields(ri, s, idx, reg)
  }

  /** Register `r` is at place `k` of the super-registers and is the first of them to match. */
  ghost predicate FirstMatch(
      ri: RegisterInfo, reg: nat, idx: nat, c: RegisterClass, r: nat, k: nat)
    requires WellFormed(ri) && reg < |ri.desc|
  {
    var supers := SuperRegs(ri, reg);
    && k < |supers| && supers[k] == r && Matches(ri, reg, idx, c, r)
    && forall j :: 0 <= j < k ==> !Matches(ri, reg, idx, c, supers[j])
  }

  ghost predicate NoMatch(ri: RegisterInfo, reg: nat, idx: nat, c: RegisterClass)
    requires WellFormed(ri) && reg < |ri.desc|
  {
    var supers := SuperRegs(ri, reg);
    forall k :: 0 <= k < |supers| ==> !Matches(ri, reg, idx, c, supers[k])
  }

  /** The class holds nothing but registers. */
  ghost predicate HoldsRegisters(ri: RegisterInfo, c: RegisterClass) {
    forall s: nat :: Contains(c, s) ==> 0 < s < |ri.desc|
  }

  /** One test of the search loop: membership, then a nested search from a fresh iterator. */
  method Test(ri: RegisterInfo, reg: nat, idx: nat, c: RegisterClass, s: nat) returns (m: bool)
    requires WellFormed(ri) && (Contains(c, s) ==> s < |ri.desc|)
    ensures m <==> Matches(ri, reg, idx, c, s)
  {
    if !Contains(c, s) {
      return false;
    }
    var sub := GetSubReg(ri, s, idx);
    SubRegIsUnique(ri, s, idx, sub, reg);
    m := reg == sub;
  }

  /** MCRegisterInfo_getMatchingSuperReg: the first of the register's super-registers that lies in
      the class and has it as the named sub-register; 0 exactly when there is none. What is listed
      for register 0 is tried like any other list, so the class must not reach beyond the registers. */
  method GetMatchingSuperReg(ri: RegisterInfo, reg: nat, subIdx: nat, c: RegisterClass)
    returns (r: nat)
    requires WellFormed(ri) && (reg == 0 ==> HoldsRegisters(ri, c))
    ensures reg >= |ri.desc| ==> r == 0
    ensures reg < |ri.desc| && r != 0 ==> exists k: nat :: FirstMatch(ri, reg, subIdx, c, r, k)
    ensures reg < |ri.desc| && r == 0 ==> NoMatch(ri, reg, subIdx, c)
  {
    if reg >= |ri.desc| {
      return 0;
    }
    assert Described(ri, reg);
    var iter := new DiffListIterator(ri.diffLists, reg, ri.desc[reg].superRegs);
    ghost var supers, k: nat := SuperRegs(ri, reg), 0;
    var more := iter.Next();
    while iter.IsValid()
      invariant iter.Valid() && fresh(iter) && iter.place == k
      invariant iter.all == supers
      invariant forall j :: 0 <= j < k ==> !Matches(ri, reg, subIdx, c, supers[j])
      decreases |supers| - k
    {
      var val := iter.val;
      ListedIsRegister(ri, reg, c, k);
      var m := Test(ri, reg, subIdx, c, val);
      if m {
        assert FirstMatch(ri, reg, subIdx, c, val, k);
        return val;
      }
      more := iter.Next();
      k := k + 1;
    }
    r := 0;
  }

  /** A listed value is only looked up when it is a register. */
  lemma ListedIsRegister(ri: RegisterInfo, reg: nat, c: RegisterClass, k: nat)
    requires WellFormed(ri) && reg < |ri.desc| && k < |SuperRegs(ri, reg)|
    requires reg == 0 ==> HoldsRegisters(ri, c)
    ensures Contains(c, SuperRegs(ri, reg)[k]) ==> 0 < SuperRegs(ri, reg)[k] < |ri.desc|
  {
    assert 0 < reg ==> Named(ri, reg);
  }

  /** What a match means: for a register, that it is the named sub-register; for register 0, that
      there is no such sub-register. */
  lemma MatchMeans(ri: RegisterInfo, reg: nat, idx: nat, c: RegisterClass, s: nat)
    requires WellFormed(ri) && 0 < s < |ri.desc|
    ensures Matches(ri, reg, idx, c, s) <==>
      Contains(c, s) && if reg == 0 then HasNoSubReg(ri, s, idx) else IsSubReg(ri, s, idx, reg)
  {
    if HasNoSubReg(ri, s, idx) {
      assert !IsSubReg(ri, s, idx, reg);
    } else {
      assert Described(ri, s) && Named(ri, s);
    }
  }

  /** Register 0 has a matching super-register exactly when a register is listed for it that lies in
      the class and has no sub-register of that name; so it has none when no register is listed. */
  lemma RegisterZeroMatches(ri: RegisterInfo, idx: nat, c: RegisterClass)
    requires WellFormed(ri) && ri.desc != [] && HoldsRegisters(ri, c)
    ensures NoMatch(ri, 0, idx, c) <==>
      forall k :: 0 <= k < |SuperRegs(ri, 0)| ==>
        var s: nat := SuperRegs(ri, 0)[k]; 0 < s < |ri.desc| && Contains(c, s) ==> !HasNoSubReg(ri, s, idx)
  {
    var supers := SuperRegs(ri, 0);
    forall k | 0 <= k < |supers|
      ensures Matches(ri, 0, idx, c, supers[k]) <==>
        0 < supers[k] < |ri.desc| && Contains(c, supers[k]) && HasNoSubReg(ri, supers[k], idx)
    {
      if 0 < supers[k] < |ri.desc| {
        MatchMeans(ri, 0, idx, c, supers[k]);
      }
    }
  }

  // ---------------------------------------------------------------- a table

  /** XCore's registers: no lists but the one for register 0. */
  function XCoreRegisters(): RegisterInfo {
    RegisterInfo(
      seq(17, r => if r == 0 then Description(0, 0, 0) else Description(1, 1, 0)), [65535, 0], [0])
  }

  /** The table is well formed, although the list for register 0 names no register. */
  lemma XCoreIsWellFormed()
    ensures var ri := XCoreRegisters();
      WellFormed(ri) && SuperRegs(ri, 0) == [65535] && !AllNamed(ri, SuperRegs(ri, 0))
  {
    var ri := XCoreRegisters();
    var lists := ri.diffLists;
    assert lists[1] == 0 && Terminated(lists, 0) && Terminated(lists, 1);
    assert Values(lists, 0, 0) == [65535] + Values(lists, 1, 65535);
    forall r: nat | r < |ri.desc|
      ensures Described(ri, r) && (0 < r ==> Named(ri, r))
    {
      assert 0 < r ==> Values(lists, 1, r) == [];
    }
    assert Values(lists, 0, 0)[0] == 65535;
  }

  /** A register with two sub-registers: 2 consists of 3, called 7, and of 1, called 9. Every offset is
      different. */
  function PairOfRegisters(): RegisterInfo {
    RegisterInfo(
      [Description(0, 0, 0), Description(0, 4, 0), Description(1, 0, 1), Description(0, 6, 0)],
      [0, 1, 65534, 0, 1, 0, 65535, 0], [5, 7, 9])
  }

  lemma OneValue(table: seq<uint16>, at: nat, from: uint16)
    requires at + 1 < |table| && table[at] != 0 && table[at + 1] == 0
    ensures Values(table, at, from) == [Plus16(from, table[at])] && Terminated(table, at)
  {
    assert Values(table, at + 1, Plus16(from, table[at])) == [];
  }

  lemma PairLists(r: uint16)
    ensures var lists := PairOfRegisters().diffLists;
      && Terminated(lists, 0) && Terminated(lists, 1) && Terminated(lists, 4) && Terminated(lists, 6)
      && Values(lists, 0, r) == [] && Values(lists, 1, 2) == [3, 1]
      && Values(lists, 4, 1) == [2] && Values(lists, 6, 3) == [2]
  {
    var lists := PairOfRegisters().diffLists;
    OneValue(lists, 2, 3);
    OneValue(lists, 4, 1);
    OneValue(lists, 6, 3);
    assert lists[0] == 0 && lists[3] == 0;
    assert Values(lists, 1, 2) == [3] + Values(lists, 2, 3);
  }

  lemma PairIsWellFormed()
    ensures WellFormed(PairOfRegisters())
  {
    var ri := PairOfRegisters();
    forall r: nat | r < 4
      ensures Described(ri, r) && (0 < r ==> Named(ri, r))
    {
      PairLists(r);
      PairLists(0);
    }
  }

  /** In that table, names lead from the register to its sub-registers. */
  lemma PairIsFound()
    ensures var ri := PairOfRegisters();
      WellFormed(ri) && Yields(ri, 2, 7, 3) && Yields(ri, 2, 9, 1) && Yields(ri, 2, 5, 0)
  {
    var ri := PairOfRegisters();
    PairNames();
    var subs := SubRegs(ri, 2);
    assert subs[0] == 3 && subs[1] == 1;
    assert FirstNamed(ri, 2, 7, 0) && FirstNamed(ri, 2, 9, 1);
  }

  lemma PairNames()
    ensures var ri := PairOfRegisters();
      WellFormed(ri) && SubRegs(ri, 2) == [3, 1] && Name(ri, 2, 0) == 7 && Name(ri, 2, 1) == 9
  {
    PairIsWellFormed();
    PairLists(2);
  }

  /** And the super-register lists lead back. */
  lemma PairLeadsBack()
    ensures var ri := PairOfRegisters();
      && WellFormed(ri)
      && SuperRegs(ri, 3) == [2] && SuperRegs(ri, 1) == [2] && SuperRegs(ri, 2) == []
  {
    PairIsWellFormed();
    PairLists(2);
  }
}
