/** The operand array of a machine instruction, whose last slot doubles as scratch space. */
module McInst {
  const MAX_OPERANDS: nat := 48
  const MCINST_CACHE: nat := 47

  datatype Operand = Invalid | Reg(reg: nat) | Imm(imm: int) | FpImm(bits: nat)

  class Inst {
    const operands: array<Operand>
    var size: nat

    ghost predicate Valid()
      reads this
    {
      operands.Length == MAX_OPERANDS && size <= MAX_OPERANDS
    }

    /** The live operands. */
    function Live(): seq<Operand>
      reads this, operands
      requires Valid()
    {
      operands[..size]
    }

    constructor ()
      ensures Valid() && size == 0 && fresh(operands)
    {
      operands := new Operand[MAX_OPERANDS];
      size := 0;
    }

    /** MCInst_clear. */
    method Clear()
      requires Valid()
      modifies this
      ensures Valid() && Live() == []
    {
      size := 0;
    }

    /** MCOperand_CreateReg0 and MCOperand_CreateImm0: append an operand in the next slot. */
    method CreateOperand0(op: Operand)
      requires Valid() && size < MAX_OPERANDS
      modifies this, operands
      ensures Valid() && Live() == old(Live()) + [op]
    {
      operands[size] := op;
      size := size + 1;
    }

    /** MCOperand_CreateReg1 and MCOperand_CreateImm1: an operand in the scratch slot, returned as a
        pointer into the array. */
    method CreateOperand1(op: Operand) returns (slot: nat)
      requires Valid()
      modifies operands
      ensures slot == MCINST_CACHE && operands[slot] == op
      ensures operands[..MCINST_CACHE] == old(operands[..MCINST_CACHE])
    {
      slot := MCINST_CACHE;
      operands[slot] := op;
    }

    /** MCInst_addOperand2, with a pointer into the array. */
    method AddOperand2(slot: nat)
      requires Valid() && size < MAX_OPERANDS && slot < MAX_OPERANDS
      modifies this, operands
      ensures Valid() && Live() == old(Live()) + [old(operands[slot])]
    {
      operands[size] := operands[slot];
      size := size + 1;
    }

    /** MCInst_insert0, with a pointer into the array that it shifts: the operand is read after the
        shift, so a pointer to a slot that moved reads the slot's new content. */
    method Insert0(index: nat, slot: nat)
      requires Valid() && index <= size < MAX_OPERANDS && slot < MAX_OPERANDS
      modifies this, operands
      ensures Valid() && Live() == InsertedFrom(old(operands[..]), old(size), index, slot)
    {
      ghost var was := operands[..];
      var i := size;
      while i > index
        invariant size == old(size) && index <= i <= size
        invariant forall j :: 0 <= j <= i ==> operands[j] == was[j]
        invariant forall j :: i < j <= size ==> operands[j] == was[j - 1]
        invariant forall j :: size < j < MAX_OPERANDS ==> operands[j] == was[j]
      {
        operands[i] := operands[i - 1];
        i := i - 1;
      }
      var op := operands[slot];
      operands[index] := op;
      ShiftInserts(was, operands[..], size, index, op);
      size := size + 1;
    }

    /** How the decoders insert: the new operand in the scratch slot, then shifted into place. */
    method InsertNew(index: nat, op: Operand)
      requires Valid() && index <= size < MAX_OPERANDS
      modifies this, operands
      ensures Valid() && Live() == InsertedNew(old(Live()), index, op)
    {
      ghost var was := Live();
      var slot := CreateOperand1(op);
      assert operands[..size] == was;
      ghost var filled := operands[..];
      Insert0(index, slot);
      ScratchSurvives(filled, |was|, index);
    }
  }

  lemma ShiftInserts(was: seq<Operand>, now: seq<Operand>, size: nat, index: nat, op: Operand)
    requires |was| == |now| == MAX_OPERANDS && index <= size < MAX_OPERANDS
    requires forall j :: 0 <= j < index ==> now[j] == was[j]
    requires now[index] == op && forall j :: index < j <= size ==> now[j] == was[j - 1]
    ensures now[..size + 1] == was[..index] + [op] + was[index..size]
  {
  }

  /** The live operands after MCInst_insert0 with a pointer to `slot` of the array itself. */
  function InsertedFrom(was: seq<Operand>, size: nat, index: nat, slot: nat): seq<Operand>
    requires |was| == MAX_OPERANDS && index <= size < MAX_OPERANDS && slot < MAX_OPERANDS
  {
    var op := if index < slot <= size then was[slot - 1] else was[slot];
    was[..index] + [op] + was[index..size]
  }

  function Inserted(s: seq<Operand>, index: nat, op: Operand): seq<Operand>
    requires index <= |s|
  {
    s[..index] + [op] + s[index..]
  }

  /** The live operands after inserting through the scratch slot. When 47 operands are live, the
      shift overwrites the scratch slot with the last of them before it is read. */
  function InsertedNew(s: seq<Operand>, index: nat, op: Operand): seq<Operand>
    requires index <= |s| < MAX_OPERANDS
  {
    Inserted(s, index, if |s| == MCINST_CACHE && index < |s| then s[|s| - 1] else op)
  }

  lemma ScratchSurvives(filled: seq<Operand>, size: nat, index: nat)
    requires |filled| == MAX_OPERANDS && index <= size < MAX_OPERANDS
    ensures InsertedFrom(filled, size, index, MCINST_CACHE) ==
            InsertedNew(filled[..size], index, filled[MCINST_CACHE])
  {
    assert filled[..size][..index] == filled[..index];
    assert filled[..size][index..] == filled[index..size];
  }

  /** Inserting through the scratch slot inserts the new operand exactly when at most 46 operands
      are live, or it goes behind them all, or it equals the operand that is inserted instead. */
  lemma InsertionIsExact(s: seq<Operand>, index: nat, op: Operand)
    requires index <= |s| < 48
    ensures InsertedNew(s, index, op) == Inserted(s, index, op) <==>
            |s| < 47 || index == |s| || s[|s| - 1] == op
  {
    if InsertedNew(s, index, op) == Inserted(s, index, op) {
      assert InsertedNew(s, index, op)[index] == Inserted(s, index, op)[index];
    }
  }

  /** With 47 live operands, inserting a 1 before as many zeros inserts another zero. */
  lemma ScratchIsOverwritten(s: seq<Operand>)
    requires s == seq(47, _ => Imm(0))
    ensures InsertedNew(s, 0, Imm(1)) == s + [Imm(0)] != Inserted(s, 0, Imm(1))
  {
    InsertionIsExact(s, 0, Imm(1));
    assert s[46] == Imm(0);
  }

  /** Inserting through any pointer into the array inserts the operand that it points to exactly unless
      the shift moves that slot and puts another operand there. */
  lemma PointerInsertionIsExact(was: seq<Operand>, size: nat, index: nat, slot: nat)
    requires |was| == 48 && index <= size < 48 && slot < 48
    ensures InsertedFrom(was, size, index, slot) == Inserted(was[..size], index, was[slot]) <==>
            !(index < slot <= size) || was[slot - 1] == was[slot]
  {
    var live := was[..size];
    assert live[..index] == was[..index] && live[index..] == was[index..size];
    var from, exact := InsertedFrom(was, size, index, slot), Inserted(live, index, was[slot]);
    assert exact[index] == was[slot];
    assert from[index] == if index < slot <= size then was[slot - 1] else was[slot];
  }
}
