/** Counting and locating an instruction's operands of one type. */
module Operands {
  import opened Decoding
  import opened Handle

  /** What the accessors read of an instruction: its id and, when it has details, the types of the
      operands of the handle's architecture. */
  datatype View = View(id: nat, operands: Option<seq<nat>>)

  function Count(ops: seq<nat>, kind: nat): nat {
    if ops == [] then 0 else (if ops[0] == kind then 1 else 0) + Count(ops[1..], kind)
  }

  lemma {:induction false} CountSnoc(ops: seq<nat>, i: nat, kind: nat)
    requires i < |ops|
    ensures Count(ops[..i + 1], kind) == Count(ops[..i], kind) + if ops[i] == kind then 1 else 0
  {
    if i > 0 {
      CountSnoc(ops[1..], i - 1, kind);
      assert ops[..i + 1][1..] == ops[1..][..i] && ops[..i][1..] == ops[1..][..i - 1];
    } else {
      assert ops[..1] == [ops[0]] && ops[..0] == [];
    }
  }

  /** The count is the number of indices with the type. */
  lemma {:induction false} CountIsCardinality(ops: seq<nat>, n: nat, kind: nat)
    requires n <= |ops|
    ensures Count(ops[..n], kind) == |Indices(ops, n, kind)|
  {
    if n == 0 {
      assert ops[..0] == [] && Indices(ops, 0, kind) == {};
    } else {
      CountIsCardinality(ops, n - 1, kind);
      CountSnoc(ops, n - 1, kind);
      assert Indices(ops, n, kind) == Indices(ops, n - 1, kind) + if ops[n - 1] == kind then {n - 1} else {};
    }
  }

  function Indices(ops: seq<nat>, n: nat, kind: nat): set<nat>
    requires n <= |ops|
  {
    set i: nat | i < n && ops[i] == kind
  }

  lemma {:induction false} CountMonotonic(ops: seq<nat>, i: nat, j: nat, kind: nat)
    requires i <= j <= |ops|
    ensures Count(ops[..i], kind) <= Count(ops[..j], kind)
    decreases j
  {
    if i < j {
      CountMonotonic(ops, i, j - 1, kind);
      CountSnoc(ops, j - 1, kind);
    }
  }

  /** How many of the operands up to and including the i-th have the type. */
  function Seen(ops: seq<nat>, kind: nat, i: nat): nat
    requires i < |ops|
  {
    Count(ops[..i + 1], kind)
  }

  /** The counting loop, which cs_op_count repeats for each architecture. */
  method CountOperands(ops: seq<nat>, kind: nat) returns (n: nat)
    ensures n == Count(ops, kind)
  {
    n := 0;
    for i := 0 to |ops|
      invariant n == Count(ops[..i], kind)
    {
      CountSnoc(ops, i, kind);
      if ops[i] == kind {
        n := n + 1;
      }
    }
    assert ops[..|ops|] == ops;
  }

  /** `r` is the first index at which as many operands as `post` have been seen, or -1. */
  ghost predicate Located(ops: seq<nat>, kind: nat, post: nat, r: int) {
    && -1 <= r < |ops|
    && (r >= 0 ==> Seen(ops, kind, r) == post)
    && forall i: nat :: i < (if r >= 0 then r else |ops|) ==> Seen(ops, kind, i) != post
  }

  /** The searching loop, which cs_op_index repeats for each architecture. */
  method FindOperand(ops: seq<nat>, kind: nat, post: nat) returns (r: int)
    ensures Located(ops, kind, post, r)
  {
    var count := 0;
    for i := 0 to |ops|
      invariant count == Count(ops[..i], kind)
      invariant forall j: nat :: j < i ==> Seen(ops, kind, j) != post
    {
      CountSnoc(ops, i, kind);
      if ops[i] == kind {
        count := count + 1;
      }
      if count == post {
        return i;
      }
    }
    r := -1;
  }

  /** The checks that both accessors make first, in their order. */
  function Refusal(ud: CsHandle?, insn: View): (e: Error)
    reads if ud == null then {} else {ud}
  {
    if ud == null then ErrCsh
    else if ud.detail == OPT_OFF then ErrDetail
    else if insn.id == 0 then ErrSkipdata
    else if insn.operands.None? then ErrDetail
    else ErrOk
  }

  /** Each error's exact condition. A data instruction counts as such before its missing details do. */
  lemma RefusalMeans(ud: CsHandle?, insn: View)
    ensures var e := Refusal(ud, insn);
      && (e == ErrCsh <==> ud == null)
      && (e == ErrSkipdata <==> ud != null && ud.detail != 0 && insn.id == 0)
      && (e == ErrDetail <==> ud != null && (ud.detail == 0 || (insn.id != 0 && insn.operands.None?)))
      && (e == ErrOk <==> ud != null && ud.detail != 0 && insn.id != 0 && insn.operands.Some?)
  {
  }

  method Check(ud: CsHandle?, insn: View) returns (e: Error)
    modifies ud
    ensures e == old(Refusal(ud, insn))
    ensures ud != null ==>
      ud.errnum == e && ud.GetSettings() == old(ud.GetSettings()) && ud.it == old(ud.it)
  {
    if ud == null {
      return ErrCsh;
    }
    if ud.detail == OPT_OFF {
      ud.errnum := ErrDetail;
    } else if insn.id == 0 {
      ud.errnum := ErrSkipdata;
    } else if insn.operands.None? {
      ud.errnum := ErrDetail;
    } else {
      ud.errnum := ErrOk;
    }
    e := ud.errnum;
  }

  /** cs_op_count. */
  method CsOpCount(ud: CsHandle?, insn: View, kind: nat) returns (n: int)
    modifies ud
    ensures ud != null ==>
      && ud.errnum == old(Refusal(ud, insn))
      && ud.GetSettings() == old(ud.GetSettings()) && ud.it == old(ud.it)
    ensures n == if old(Refusal(ud, insn)) != ErrOk then -1 else Count(insn.operands.value, kind)
  {
    var e := Check(ud, insn);
    if e != ErrOk {
      return -1;
    }
    n := CountOperands(insn.operands.value, kind);
  }

  /** cs_op_index. */
  method CsOpIndex(ud: CsHandle?, insn: View, kind: nat, post: nat) returns (r: int)
    modifies ud
    ensures ud != null ==>
      && ud.errnum == old(Refusal(ud, insn))
      && ud.GetSettings() == old(ud.GetSettings()) && ud.it == old(ud.it)
    ensures if old(Refusal(ud, insn)) != ErrOk then r == -1
            else Located(insn.operands.value, kind, post, r)
  {
    var e := Check(ud, insn);
    if e != ErrOk {
      return -1;
    }
    r := FindOperand(insn.operands.value, kind, post);
  }

  lemma {:induction false} CountReaches(ops: seq<nat>, n: nat, kind: nat, post: nat) returns (i: nat)
    requires n <= |ops| && 1 <= post <= Count(ops[..n], kind)
    ensures i < n && ops[i] == kind && Seen(ops, kind, i) == post
    decreases n
  {
    assert ops[..0] == [];
    CountSnoc(ops, n - 1, kind);
    if post <= Count(ops[..n - 1], kind) {
      i := CountReaches(ops, n - 1, kind, post);
    } else {
      i := n - 1;
    }
  }

  /** From position 1 on, cs_op_index inverts counting: within the count it finds the operand of
      the type that has exactly post - 1 of its type before it, and beyond the count nothing. */
  lemma IndexSelectsRank(ops: seq<nat>, kind: nat, post: nat, r: int)
    requires 1 <= post && Located(ops, kind, post, r)
    ensures 0 <= r <==> post <= Count(ops, kind)
    ensures 0 <= r ==> ops[r] == kind && Count(ops[..r], kind) == post - 1
  {
    assert ops[..|ops|] == ops;
    assert ops[..0] == [];
    if post <= Count(ops, kind) {
      var i := CountReaches(ops, |ops|, kind, post);
    }
    if r >= 0 {
      CountMonotonic(ops, r + 1, |ops|, kind);
      CountSnoc(ops, r, kind);
      assert r > 0 ==> Seen(ops, kind, r - 1) == Count(ops[..r], kind);
    }
  }

  /** Later positions are at later operands. */
  lemma IndexIncreases(ops: seq<nat>, kind: nat, p: nat, q: nat, i: int, j: int)
    requires 1 <= p < q && Located(ops, kind, p, i) && Located(ops, kind, q, j)
    requires 0 <= j
    ensures 0 <= i < j
  {
    IndexSelectsRank(ops, kind, p, i);
    IndexSelectsRank(ops, kind, q, j);
    if j <= i {
      CountMonotonic(ops, j + 1, i + 1, kind);
    }
  }

  /** Asking for position 0 does not fail: it finds the first operand when that is of another type,
      and nothing otherwise. */
  lemma IndexOfZero(ops: seq<nat>, kind: nat, r: int)
    requires Located(ops, kind, 0, r)
    ensures r == if ops != [] && ops[0] != kind then 0 else -1
  {
    if ops != [] {
      CountSnoc(ops, 0, kind);
      assert ops[..0] == [];
      assert Seen(ops, kind, 0) == if ops[0] == kind then 1 else 0;
      if ops[0] == kind && r >= 0 {
        CountMonotonic(ops, 1, r + 1, kind);
      }
    }
  }
}
