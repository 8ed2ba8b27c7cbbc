/** The instructions of cpu/ppc/poweropcodes.cpp that shift through MQ, maskg and lscbx, on the processor state. */
module PowerOpcodes {
  import opened BitWords
  import opened PowerShifts
  import opened PowerRegisters
  import opened StringLoad

  class PpcState {
    const gpr: array<bv32>
    var mq: bv32
    var xer: bv32
    var cr: bv32

    ghost predicate Valid() { gpr.Length == 32 }

    ghost function View(): (r: Regs)
      requires Valid()
      reads this, gpr
      ensures r.Ok()
    {
      Regs(gpr[..], mq, xer, cr)
    }

    method ChangeCrf0(result: bv32)
      modifies this`cr
      ensures cr == Recorded(old(cr), xer, result)
    {
      cr := Recorded(cr, xer, result);
    }

    /** Stores the result of an instruction, and records it in CR if asked to. */
    method Finish(ghost op: Opcode, rec: bool, ghost s: Reg, a: Reg, ghost b: Reg, result: bv32, ghost before: Regs)
      requires Valid() && before.Ok() && gpr[..] == before.gpr && cr == before.cr
      requires Out(result, mq) == Result(op, before.gpr[s], before.gpr[b], before.mq)
      requires xer == if op == SREA then Carried(before.xer, before.gpr[s], before.gpr[b]) else before.xer
      modifies this`cr, gpr
      ensures View() == Executed(op, rec, s, a, b, before)
    {
      hide Result, Carried, Recorded;
      if rec {
        ChangeCrf0(result);
      }
      gpr[a] := result;
    }

    method DoSle(opcode: nat, rec: bool)
      requires Valid()
      modifies this, gpr
      ensures View() == Executed(SLE, rec, RegS(opcode), RegA(opcode), RegB(opcode), old(View()))
    {
      var rotSh := Amount(gpr[RegB(opcode)]);
      var d := gpr[RegS(opcode)];
      var result := Shl(d, rotSh);
      mq := Rotl(d, rotSh);
      Finish(SLE, rec, RegS(opcode), RegA(opcode), RegB(opcode), result, old(View()));
    }

    method DoSleq(opcode: nat, rec: bool)
      requires Valid()
      modifies this, gpr
      ensures View() == Executed(SLEQ, rec, RegS(opcode), RegA(opcode), RegB(opcode), old(View()))
    {
      var rotSh := Amount(gpr[RegB(opcode)]);
      var r := Rotl(gpr[RegS(opcode)], rotSh);
      var mask := RotMask(0, 31 - rotSh);
      var result := Insert(r, mask, mq);
      mq := r;
      Finish(SLEQ, rec, RegS(opcode), RegA(opcode), RegB(opcode), result, old(View()));
    }

    method DoSre(opcode: nat, rec: bool)
      requires Valid()
      modifies this, gpr
      ensures View() == Executed(SRE, rec, RegS(opcode), RegA(opcode), RegB(opcode), old(View()))
    {
      var rotSh := Amount(gpr[RegB(opcode)]);
      var d := gpr[RegS(opcode)];
      var result := Shr(d, rotSh);
      mq := Rotr(d, rotSh);
      Finish(SRE, rec, RegS(opcode), RegA(opcode), RegB(opcode), result, old(View()));
    }

    method DoSreq(opcode: nat, rec: bool)
      requires Valid()
      modifies this, gpr
      ensures View() == Executed(SREQ, rec, RegS(opcode), RegA(opcode), RegB(opcode), old(View()))
    {
      var rotSh := Amount(gpr[RegB(opcode)]);
      var d := gpr[RegS(opcode)];
      var result := Join(Shr(d, rotSh), High(mq, rotSh));
      mq := Rotr(d, rotSh);
      Finish(SREQ, rec, RegS(opcode), RegA(opcode), RegB(opcode), result, old(View()));
    }

    method DoSrea(opcode: nat, rec: bool)
      requires Valid()
      modifies this, gpr
      ensures View() == Executed(SREA, rec, RegS(opcode), RegA(opcode), RegB(opcode), old(View()))
    {
      var rotSh := Amount(gpr[RegB(opcode)]);
      var d := gpr[RegS(opcode)];
      var result := Sar(d, rotSh);
      var r := Rotr(d, rotSh);
      if Negative(d) && High(r, rotSh) != 0 {
        xer := WithCarry(xer, true);
      } else {
        xer := WithCarry(xer, false);
      }
      mq := r;
      Finish(SREA, rec, RegS(opcode), RegA(opcode), RegB(opcode), result, old(View()));
    }

    method DoSlq(opcode: nat, rec: bool)
      requires Valid()
      modifies this, gpr
      ensures View() == Executed(SLQ, rec, RegS(opcode), RegA(opcode), RegB(opcode), old(View()))
    {
      var b := gpr[RegB(opcode)];
      var d := gpr[RegS(opcode)];
      var result := if Far(b) then 0 else Shl(d, Amount(b));
      mq := Rotl(d, Amount(b));
      Finish(SLQ, rec, RegS(opcode), RegA(opcode), RegB(opcode), result, old(View()));
    }

    method DoSllq(opcode: nat, rec: bool)
      requires Valid()
      modifies this, gpr
      ensures View() == Executed(SLLQ, rec, RegS(opcode), RegA(opcode), RegB(opcode), old(View()))
    {
      var b := gpr[RegB(opcode)];
      var d := gpr[RegS(opcode)];
      var result := if Far(b) then Above(mq, Amount(b)) else Join(Shl(d, Amount(b)), LowBits(mq, Amount(b)));
      Finish(SLLQ, rec, RegS(opcode), RegA(opcode), RegB(opcode), result, old(View()));
    }

    method DoSrq(opcode: nat, rec: bool)
      requires Valid()
      modifies this, gpr
      ensures View() == Executed(SRQ, rec, RegS(opcode), RegA(opcode), RegB(opcode), old(View()))
    {
      var b := gpr[RegB(opcode)];
      var d := gpr[RegS(opcode)];
      var result := if Far(b) then 0 else Shr(d, Amount(b));
      mq := Rotr(d, Amount(b));
      Finish(SRQ, rec, RegS(opcode), RegA(opcode), RegB(opcode), result, old(View()));
    }

    method DoSrlq(opcode: nat, rec: bool)
      requires Valid()
      modifies this, gpr
      ensures View() == Executed(SRLQ, rec, RegS(opcode), RegA(opcode), RegB(opcode), old(View()))
    {
      var b := gpr[RegB(opcode)];
      var rotSh := Amount(b);
      var r := Rotr(gpr[RegS(opcode)], rotSh);
      var mask := RotMask(rotSh, 31);
      var result := if Far(b) then Below(mq, rotSh) else Insert(r, mask, mq);
      Finish(SRLQ, rec, RegS(opcode), RegA(opcode), RegB(opcode), result, old(View()));
    }

    method DoMaskg(opcode: nat, rec: bool)
      requires Valid()
      modifies this, gpr
      ensures View() == Executed(MASKG, rec, RegS(opcode), RegA(opcode), RegB(opcode), old(View()))
    {
      var result := Maskg(gpr[RegS(opcode)], gpr[RegB(opcode)]);
      Finish(MASKG, rec, RegS(opcode), RegA(opcode), RegB(opcode), result, old(View()));
    }

    /** `bytes` are loaded: `k` whole groups are in their registers and the rest is in `result`. */
    ghost predicate Loading(before: seq<bv32>, d: Reg, a: Reg, b: Reg, bytes: seq<bv8>, k: nat, regD: Reg, result: bv32, shift: int)
      requires Valid() && |before| == 32
      reads gpr
    {
      && 4 * k <= |bytes| < 4 * k + 4 && shift == 24 - 8 * (|bytes| - 4 * k) && regD == (d + k) % 32
      && result == Packed(bytes[4 * k..])
      && gpr[..] == WithLoaded(before, d, a, b, bytes[..4 * k])
    }

    /** Adds one byte to the word, and stores the word when it is full. */
    method LoadByte(value: bv8, regD: Reg, a: Reg, b: Reg, result: bv32, shift: int,
                    ghost before: seq<bv32>, ghost d: Reg, ghost bytes: seq<bv8>, ghost k: nat)
      returns (nextD: Reg, word: bv32, nextShift: int, ghost groups: nat)
      requires Valid() && |before| == 32 && |bytes| < 128
      requires Loading(before, d, a, b, bytes, k, regD, result, shift)
      modifies gpr
      ensures Loading(before, d, a, b, bytes + [value], groups, nextD, word, nextShift)
    {
      hide Packed, Join, Placed, WithLoaded, Slot, Group, RegAfter;
      ghost var more := bytes + [value];
      OneMore(bytes, value, k);
      word := Join(result, Placed(value, 3 - shift / 8));
      if shift == 0 {
        LastGroup(before, d, a, b, more, k);
        if regD != a && regD != b {
          gpr[regD] := word;
        }
        NextRegister(d, k);
        NothingLoaded(before, d, a, b);
        nextD, word, nextShift, groups := (regD + 1) % 32, 0, 24, k + 1;
        assert more[4 * groups..] == [] && more[..4 * groups] == more;
      } else {
        nextD, nextShift, groups := regD, shift - 8, k;
      }
    }

    /** The loop of lscbx: loads up to `toLoad` bytes from `start` into the registers from `d` on. */
    method LoadString(mem: Memory, d: Reg, a: Reg, b: Reg, start: bv32, toLoad: bv32, key: bv8)
      returns (remaining: bv32, isMatch: bool)
      requires Valid() && toLoad <= 0x7F && Val(toLoad) < 128
      modifies gpr
      ensures gpr[..] == WithLoaded(old(gpr[..]), d, a, b, Loaded(mem, start, toLoad, key))
      ensures Counting(toLoad, remaining, |Loaded(mem, start, toLoad, key)|)
      ensures isMatch <==> Found(mem, start, toLoad, key)
    {
      hide Packed, Join, Placed, WithLoaded, Val, Pred, Next, Done, Found, Loaded, ByteAfter, Slot, Group, RegAfter, Loading, Counting;
      var regD, ea := d, start;
      remaining := toLoad;
      var result: bv32 := 0;
      isMatch := false;
      var shift := 24;
      ghost var before, all := gpr[..], Loaded(mem, start, toLoad, key);
      ghost var bytes: seq<bv8>, k: nat := [], 0;
      StartLoading(d, a, b);
      StartCount(toLoad);
      StopsAtFirstMatch(mem, start, toLoad, key);
      while remaining != 0
        invariant Counting(toLoad, remaining, |bytes|) && |bytes| < 128
        invariant all == bytes + Loaded(mem, ea, remaining, key)
        invariant Loading(before, d, a, b, bytes, k, regD, result, shift)
        invariant !isMatch && (bytes != [] ==> bytes[|bytes| - 1] != key)
        decreases Val(remaining)
      {
        var value := mem(ea);
        LoadMore(bytes, mem, ea, remaining, key);
        regD, result, shift, k := LoadByte(value, regD, a, b, result, shift, before, d, bytes, k);
        bytes := bytes + [value];
        ea := Next(ea);
        CountOne(toLoad, remaining, |bytes| - 1);
        remaining := Pred(remaining);
        if value == key {
          isMatch := true;
          break;
        }
      }
      if !isMatch {
        LoadNone(bytes, mem, ea, key);
      }
      FinishLoading(before, d, a, b, bytes, k, regD, result, shift);
      if shift != 24 && regD != a && regD != b {
        gpr[regD] := result;
      }
    }

    lemma StartLoading(d: Reg, a: Reg, b: Reg)
      requires Valid()
      ensures Loading(gpr[..], d, a, b, [], 0, d, 0, 24)
    {
      NothingLoaded(gpr[..], d, a, b);
    }

    lemma FinishLoading(before: seq<bv32>, d: Reg, a: Reg, b: Reg, bytes: seq<bv8>, k: nat, regD: Reg, result: bv32, shift: int)
      requires Valid() && |before| == 32 && |bytes| < 128
      requires Loading(before, d, a, b, bytes, k, regD, result, shift)
      ensures WithLoaded(before, d, a, b, bytes) == if shift != 24 && regD != a && regD != b then gpr[..][regD := result] else gpr[..]
    {
      hide Packed, WithLoaded;
      if shift != 24 {
        LastGroup(before, d, a, b, bytes, k);
      } else {
        assert bytes[..4 * k] == bytes;
      }
    }

    /**
     Loads the bytes of `Loaded`, up to the first match, into the registers from rD on, except rA and
     rB; XER then holds their number, and CR0, when asked for, says whether there was a match.
     */
    method DoLscbx(opcode: nat, rec: bool, mem: Memory)
      requires Valid()
      modifies this, gpr
      ensures var d, a, b := RegS(opcode), RegA(opcode), RegB(opcode);
              var ea, n, key := Address(a, old(gpr[a]), old(gpr[b])), ByteCount(old(xer)), MatchByte(old(xer));
              var bytes := Loaded(mem, ea, n, key);
              && gpr[..] == WithLoaded(old(gpr[..]), d, a, b, bytes)
              && Val(ByteCount(xer)) == |bytes| && Shr(xer, 7) == Shr(old(xer), 7)
              && cr == (if rec then Compared(old(cr), xer, Found(mem, ea, n, key)) else old(cr))
              && (rec ==> (cr & CR_EQ != 0 <==> Found(mem, ea, n, key)))
      ensures mq == old(mq)
    {
      hide WithLoaded, Val, Done, ByteCount, MatchByte, WithCount, Compared, Found, Address, Loaded, Shr, RegS, RegA, RegB;
      var d, a, b := RegS(opcode), RegA(opcode), RegB(opcode);
      var ea := Address(a, gpr[a], gpr[b]);
      var toLoad := ByteCount(xer);
      CountBits(xer);
      CountBound(xer);
      var remaining, isMatch := LoadString(mem, d, a, b, ea, toLoad, MatchByte(xer));
      DoneBounds(toLoad, remaining);
      CountKept(xer, Done(toLoad, remaining));
      OthersLeft(xer, Done(toLoad, remaining));
      xer := WithCount(xer, Done(toLoad, remaining));
      if rec {
        ComparedBits(cr, xer, isMatch);
        cr := Compared(cr, xer, isMatch);
      }
    }
  }
}
