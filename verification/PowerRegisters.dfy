/**
 The registers of cpu/ppc/poweropcodes.cpp as values: what one instruction does to them, and what
 the shift instructions do to a number held in a list of registers.
 */
module PowerRegisters {
  import opened BitWords
  import opened PowerShifts

  datatype Opcode = SLE | SLEQ | SRE | SREQ | SREA | SLQ | SLLQ | SRQ | SRLQ | MASKG

  datatype Regs = Regs(gpr: seq<bv32>, mq: bv32, xer: bv32, cr: bv32) {
    predicate Ok() { |gpr| == 32 }
  }

  const SO: bv32 := 0x8000_0000
  const CA: bv32 := 0x2000_0000
  const CR_SO: bv32 := 0x1000_0000
  const CR_LT: bv32 := 0x8000_0000
  const CR_GT: bv32 := 0x4000_0000
  const CR_EQ: bv32 := 0x2000_0000

  // ----- Operands of the instruction word

  type Reg = r: nat | r < 32

  function RegS(opcode: nat): Reg { opcode / 0x20_0000 % 32 }
  function RegA(opcode: nat): Reg { opcode / 0x1_0000 % 32 }
  function RegB(opcode: nat): Reg { opcode / 0x800 % 32 }

  /** CR with field 0 set from a result, and with XER[SO] copied into it. */
  function Recorded(cr: bv32, xer: bv32, result: bv32): bv32 {
    (cr & 0x0FFF_FFFF) | (if result == 0 then CR_EQ else if Negative(result) then CR_LT else CR_GT) | ((xer & SO) >> 3)
  }

  /** Exactly one of LT, GT and EQ is set, by the sign of the result. */
  lemma RecordedSign(cr: bv32, xer: bv32, result: bv32)
    ensures Recorded(cr, xer, result) & CR_EQ != 0 <==> result == 0
    ensures Recorded(cr, xer, result) & CR_LT != 0 <==> Negative(result)
    ensures Recorded(cr, xer, result) & CR_GT != 0 <==> result != 0 && !Negative(result)
  {
  }

  /** CR0[SO] is XER[SO], and the other fields of CR stay. */
  lemma RecordedRest(cr: bv32, xer: bv32, result: bv32)
    ensures Recorded(cr, xer, result) & CR_SO != 0 <==> xer & SO != 0
    ensures Recorded(cr, xer, result) & 0x0FFF_FFFF == cr & 0x0FFF_FFFF
  {
  }

  function WithCarry(xer: bv32, carry: bool): bv32 {
    if carry then xer | CA else xer & !CA
  }

  /** XER[CA] says that a negative number lost one bits. */
  function Carried(xer: bv32, d: bv32, b: bv32): bv32 {
    WithCarry(xer, Negative(d) && High(Rotr(d, Amount(b)), Amount(b)) != 0)
  }

  /** The result and MQ of an instruction. */
  function Result(op: Opcode, d: bv32, b: bv32, mq: bv32): Out {
    match op
    case SLE => Sle(d, b)
    case SLEQ => Sleq(d, b, mq)
    case SRE => Sre(d, b)
    case SREQ => Sreq(d, b, mq)
    case SREA => Srea(d, b)
    case SLQ => Slq(d, b)
    case SLLQ => Sllq(d, b, mq)
    case SRQ => Srq(d, b)
    case SRLQ => Srlq(d, b, mq)
    case MASKG => Out(Maskg(d, b), mq)
  }

  /** The registers after `op` with source s, shift register b and target a. */
  function Executed(op: Opcode, rec: bool, s: Reg, a: Reg, b: Reg, r: Regs): (n: Regs)
    requires r.Ok()
    ensures n.Ok()
  {
    var o := Result(op, r.gpr[s], r.gpr[b], r.mq);
    var xer := if op == SREA then Carried(r.xer, r.gpr[s], r.gpr[b]) else r.xer;
    Regs(r.gpr[a := o.a], o.mq, xer, if rec then Recorded(r.cr, xer, o.a) else r.cr)
  }

  // ----- A number in registers, most significant word first

  function Held(r: Regs, rs: seq<Reg>): (ws: seq<bv32>)
    requires r.Ok()
    ensures |ws| == |rs|
  {
    seq(|rs|, i requires 0 <= i < |rs| => r.gpr[rs[i]])
  }

  ghost predicate Distinct(rs: seq<Reg>) {
    forall i, j :: 0 <= i < j < |rs| ==> rs[i] != rs[j]
  }

  /** Only the registers of `rs` differ. */
  ghost predicate OthersKept(r: Regs, n: Regs, rs: seq<Reg>)
    requires r.Ok() && n.Ok()
  {
    forall k: Reg :: k !in rs ==> n.gpr[k] == r.gpr[k]
  }

  /** sleq in place on each register, from the last to the first. */
  function RunSleq(rs: seq<Reg>, b: Reg, r: Regs): (n: Regs)
    requires r.Ok()
    ensures n.Ok()
  {
    if rs == [] then r
    else
      var w := rs[|rs| - 1];
      RunSleq(rs[..|rs| - 1], b, Executed(SLEQ, false, w, w, b, r))
  }

  /** sreq in place on each register, from the first to the last. */
  function RunSreq(rs: seq<Reg>, b: Reg, r: Regs): (n: Regs)
    requires r.Ok()
    ensures n.Ok()
  {
    if rs == [] then r
    else RunSreq(rs[1..], b, Executed(SREQ, false, rs[0], rs[0], b, r))
  }

  function RunLeft(rs: seq<Reg>, b: Reg, r: Regs): (n: Regs)
    requires r.Ok() && rs != []
    ensures n.Ok()
  {
    var w := rs[|rs| - 1];
    RunSleq(rs[..|rs| - 1], b, Executed(SLE, false, w, w, b, r))
  }

  /** `first` is SRE or SREA. */
  function RunRight(first: Opcode, rs: seq<Reg>, b: Reg, r: Regs): (n: Regs)
    requires r.Ok() && rs != []
    ensures n.Ok()
  {
    RunSreq(rs[1..], b, Executed(first, false, rs[0], rs[0], b, r))
  }

  /** Changing another register leaves the number. */
  lemma HeldSame(r: Regs, m: Regs, rs: seq<Reg>, w: Reg)
    requires r.Ok() && m.Ok() && w !in rs && forall k: Reg :: k != w ==> m.gpr[k] == r.gpr[k]
    ensures Held(m, rs) == Held(r, rs)
  {
  }

  lemma HeldLast(r: Regs, rs: seq<Reg>)
    requires r.Ok() && rs != []
    ensures Held(r, rs) == Held(r, rs[..|rs| - 1]) + [r.gpr[rs[|rs| - 1]]]
  {
  }

  lemma {:induction false} SleqRun(rs: seq<Reg>, b: Reg, r: Regs)
    requires r.Ok() && Distinct(rs) && b !in rs
    ensures Held(RunSleq(rs, b, r), rs) == Sleqs(Held(r, rs), r.gpr[b], r.mq)
    ensures OthersKept(r, RunSleq(rs, b, r), rs)
    decreases |rs|
  {
    hide Sle, Sleq, Sre, Sreq, Srea, Slq, Sllq, Srq, Srlq, Maskg, Recorded, Carried, Held;
    if rs == [] {
      assert Held(r, rs) == [];
    } else {
      var init, w := rs[..|rs| - 1], rs[|rs| - 1];
      var m := Executed(SLEQ, false, w, w, b, r);
      var n := RunSleq(rs, b, r);
      assert w !in init;
      SleqRun(init, b, m);
      HeldSame(r, m, init, w);
      HeldLast(r, rs);
      HeldLast(n, rs);
    }
  }

  lemma {:induction false} SreqRun(rs: seq<Reg>, b: Reg, r: Regs)
    requires r.Ok() && Distinct(rs) && b !in rs
    ensures Held(RunSreq(rs, b, r), rs) == Sreqs(Held(r, rs), r.gpr[b], r.mq)
    ensures OthersKept(r, RunSreq(rs, b, r), rs)
    decreases |rs|
  {
    hide Sle, Sleq, Sre, Sreq, Srea, Slq, Sllq, Srq, Srlq, Maskg, Recorded, Carried;
    if rs != [] {
      var w, tail := rs[0], rs[1..];
      var m := Executed(SREQ, false, w, w, b, r);
      var n := RunSreq(rs, b, r);
      assert w !in tail;
      SreqRun(tail, b, m);
      assert Held(m, tail) == Held(r, tail) == Held(r, rs)[1..];
      assert Held(n, rs) == [n.gpr[w]] + Held(n, tail);
    }
  }

  lemma RunLeftIsChain(rs: seq<Reg>, b: Reg, r: Regs)
    requires r.Ok() && rs != [] && Distinct(rs) && b !in rs
    ensures Held(RunLeft(rs, b, r), rs) == LeftChain(Held(r, rs), r.gpr[b])
    ensures OthersKept(r, RunLeft(rs, b, r), rs)
  {
    hide Sle, Sleqs;
    var init, w := rs[..|rs| - 1], rs[|rs| - 1];
    var m := Executed(SLE, false, w, w, b, r);
    var n := RunLeft(rs, b, r);
    assert w !in init;
    SleqRun(init, b, m);
    assert Held(m, init) == Held(r, init) == Held(r, rs)[..|init|];
    assert Held(n, rs) == Held(n, init) + [n.gpr[w]];
  }

  /** sle on the last register and sleq on the others shift the number left by s bits. */
  lemma RunLeftMultiplies(rs: seq<Reg>, b: Reg, r: Regs)
    requires r.Ok() && rs != [] && Distinct(rs) && b !in rs
    ensures Number(Held(RunLeft(rs, b, r), rs)) == Number(Held(r, rs)) * Pow2(Amount(r.gpr[b])) % WordPow(|rs|)
    ensures OthersKept(r, RunLeft(rs, b, r), rs)
  {
    hide RunLeft, LeftChain, Number, WordPow, Pow2, Amount, OthersKept;
    RunLeftIsChain(rs, b, r);
    LeftChainMultiplies(Held(r, rs), r.gpr[b]);
  }

  /** sre on the first register and sreq on the others shift the number right by s bits. */
  lemma RunRightDivides(rs: seq<Reg>, b: Reg, r: Regs)
    requires r.Ok() && rs != [] && Distinct(rs) && b !in rs
    ensures Number(Held(RunRight(SRE, rs, b, r), rs)) == Number(Held(r, rs)) / Pow2(Amount(r.gpr[b]))
    ensures OthersKept(r, RunRight(SRE, rs, b, r), rs)
  {
    hide Sre, Sreqs, Number, Pow2, Amount;
    var w, tail := rs[0], rs[1..];
    var m := Executed(SRE, false, w, w, b, r);
    var n := RunRight(SRE, rs, b, r);
    assert w !in tail;
    SreqRun(tail, b, m);
    assert Held(m, tail) == Held(r, tail) == Held(r, rs)[1..];
    assert Held(n, rs) == [n.gpr[w]] + Held(n, tail);
    RightChainDivides(Held(r, rs), r.gpr[b]);
  }

  /** srea on the first register and sreq on the others divide the signed number, rounding down. */
  lemma RunSignedRightDivides(rs: seq<Reg>, b: Reg, r: Regs)
    requires r.Ok() && rs != [] && Distinct(rs) && b !in rs
    ensures Signed(Held(RunRight(SREA, rs, b, r), rs)) == Signed(Held(r, rs)) / Pow2(Amount(r.gpr[b]))
    ensures OthersKept(r, RunRight(SREA, rs, b, r), rs)
  {
    hide Srea, Sreqs, Signed, Pow2, Amount, Carried;
    var w, tail := rs[0], rs[1..];
    var m := Executed(SREA, false, w, w, b, r);
    var n := RunRight(SREA, rs, b, r);
    assert w !in tail;
    SreqRun(tail, b, m);
    assert Held(m, tail) == Held(r, tail) == Held(r, rs)[1..];
    assert Held(n, rs) == [n.gpr[w]] + Held(n, tail);
    SignedRightChainDivides(Held(r, rs), r.gpr[b]);
  }

  // ----- srea and its carry

  /** Division that rounds toward zero. */
  function Truncated(x: int, d: int): int
    requires d > 0
  {
    if x >= 0 then x / d else -((-x) / d)
  }

  lemma CarryBit(xer: bv32)
    ensures WithCarry(xer, true) & CA != 0 && WithCarry(xer, false) & CA == 0
  {
  }

  lemma OneWord(w: bv32)
    ensures Number([w]) == Val(w) && WordPow(1) == WORD
  {
  }

  lemma SreaAlone(d: bv32, b: bv32)
    ensures Signed([Srea(d, b).a]) == Signed([d]) / Pow2(Amount(b))
  {
    hide Signed, Srea, Pow2, Amount;
    assert [d][1..] == [];
    assert SignedRightChain([d], b) == [Srea(d, b).a];
    SignedRightChainDivides([d], b);
  }

  /** The carry is set exactly when a negative number was rounded. */
  lemma CarryIffRounded(d: bv32, b: bv32, xer: bv32)
    ensures Carried(xer, d, b) & CA != 0 <==> Signed([d]) < 0 && Signed([d]) % Pow2(Amount(b)) != 0
  {
    hide Val, Number, High, LowBits, Rotr, Negative, WordPow, Amount, WithCarry;
    var s := Amount(b);
    CarryBit(xer);
    OneWord(d);
    WordBound(d);
    RightWord(d, s);
    if High(Rotr(d, s), s) == 0 {
      ValHalf(0);
    } else {
      ValPositive(High(Rotr(d, s), s));
    }
    LostBits(Val(High(Rotr(d, s), s)), Val(LowBits(d, s)), Pow2(s));
    SignedRemainder(Val(d), Val(Shr(d, s)), Val(LowBits(d, s)), s);
  }

  lemma LostBits(h: nat, l: nat, p: nat)
    requires h * p == l * WORD && p > 0
    ensures h == 0 <==> l == 0
  {
  }

  lemma SignedRemainder(d: nat, q: nat, l: nat, s: bv32)
    requires s < 32 && d == q * Pow2(s) + l && l < Pow2(s)
    ensures d % Pow2(s) == l && (d - WORD) % Pow2(s) == l
  {
    PowSum(s, 32 - s);
    Pow32();
    SameRemainder(d, q, l, Pow2(s), Pow2(32 - s));
  }

  lemma SameRemainder(d: int, q: int, l: int, p: int, t: int)
    requires d == q * p + l && 0 <= l < p && p * t == WORD
    ensures d % p == l && (d - WORD) % p == l
  {
    assert p * (q - t) == p * q - p * t;
    DivUnique(d, p, q, l);
    DivUnique(d - WORD, p, q - t, l);
  }

  /** Adding the carry to the result of srea divides with rounding toward zero. */
  lemma SreaPlusCarryTruncates(d: bv32, b: bv32, xer: bv32)
    ensures Signed([Srea(d, b).a]) + (if Carried(xer, d, b) & CA != 0 then 1 else 0) == Truncated(Signed([d]), Pow2(Amount(b)))
  {
    hide Signed, Srea, Carried, Pow2, Amount;
    SreaAlone(d, b);
    CarryIffRounded(d, b, xer);
    PowPositive(Amount(b));
    RoundedUp(Signed([d]), Pow2(Amount(b)));
  }

  lemma RoundedUp(x: int, p: int)
    requires p > 0
    ensures x / p + (if x < 0 && x % p != 0 then 1 else 0) == Truncated(x, p)
  {
    var q, r := x / p, x % p;
    if x < 0 {
      if r == 0 {
        assert -x == p * (-q);
        DivUnique(-x, p, -q, 0);
      } else {
        assert -x == p * (-q - 1) + (p - r);
        DivUnique(-x, p, -q - 1, p - r);
      }
    }
  }
}
