/** The integer unit as the emulator runs it: an instruction works on a decode record, which is written back when
    it is done. */
module Cpu {
  import opened Words
  import opened Isa
  import opened MainLoop
  import Alu
  import Windows

  lemma InsBase(w: nat)
    requires w < 8
    ensures (8 * w + 8) % 64 == 8 * Windows.Next(w)
  {
  }

  class Decode {
    var pc: Word
    var npc: Word
    var psr: Psr
    var wb: bool
    var rd: nat
    var value: Word
    var rs1Value: Word
    var ev: Word
    var imm: bool

    constructor () {
    }
  }

  class CPU {
    var pc: Word
    var npc: Word
    var psr: Psr
    var irl: nat
    var trapType: nat
    var tbr: Word
    var wim: Word
    var yReg: Word
    var cwpBase: nat
    /** Set where the emulator stops: a trap raised with traps disabled, or something it does not implement. */
    var errorMode: bool
    /** Global 8 is a scratch register of SWAP and LDSTUB, not an r register. */
    const globals: array<Word>
    const locals: array<Word>
    const outs: array<Word>

    ghost predicate Shaped()
      reads this
    {
      && globals.Length == 9 && locals.Length == 64 && outs.Length == 64
      && globals != locals && globals != outs && locals != outs
    }

    /** The window pointer is in range and its cached base in step, and %g0 reads 0. */
    ghost predicate Valid()
      reads this, globals
    {
      && Shaped()
      && psr.cwp < 8 && PsrOk(psr) && cwpBase == 8 * psr.cwp && globals[0] == 0
    }

    /** The r registers of all windows. */
    ghost function F(): (f: Windows.File)
      requires Shaped()
      reads this, globals, locals, outs
      ensures Windows.Shaped(f)
    {
      Windows.File(globals[..8], locals[..], outs[..])
    }

    /** What an instruction works on. */
    ghost function C(): (c: Core)
      requires Shaped()
      reads this, globals, locals, outs
      ensures Windows.Shaped(c.file)
    {
      Core(pc, npc, psr, yReg, wim, tbr, F())
    }

    predicate Running()
      reads this
    {
      trapType == 0 && !errorMode
    }

    constructor ()
      ensures Valid() && Running() && fresh(globals) && fresh(locals) && fresh(outs)
    {
      pc, npc, irl, trapType, tbr, wim, yReg, cwpBase, errorMode := 0, 4, 0, 0, 0, 2, 0, 0, false;
      psr := RESET_PSR;
      globals := new Word[9](_ => 0);
      locals := new Word[64](_ => 0);
      outs := new Word[64](_ => 0);
    }

    method Reset(entry: Word)
      requires Shaped()
      modifies this, globals, locals, outs
      ensures Valid() && Running() && pc == entry && npc == Plus(entry, 4) && psr == RESET_PSR
      ensures irl == 0 && tbr == 0 && wim == 2 && yReg == 0
      ensures forall w, r :: 0 <= w < 8 && 0 <= r < 32 ==> Windows.Get(F(), w, r) == 0
    {
      pc, npc := entry, Plus(entry, 4);
      psr := RESET_PSR;
      UpdateCwpBase();
      irl, trapType, errorMode, tbr, wim, yReg := 0, 0, false, 0, 2, 0;
      forall i | 0 <= i < 9 { globals[i] := 0; }
      forall i | 0 <= i < 64 { locals[i] := 0; }
      forall i | 0 <= i < 64 { outs[i] := 0; }
    }

    method ReadReg(r: nat) returns (v: Word)
      requires Valid() && r < 32
      ensures v == Windows.Get(F(), psr.cwp, r)
    {
      if r < 8 {
        v := globals[r];
      } else if r < 16 {
        v := outs[cwpBase + r % 8];
      } else if r < 24 {
        v := locals[cwpBase + r % 8];
      } else {
        InsBase(psr.cwp);
        v := outs[(cwpBase + 8) % 64 + r % 8];
      }
    }

    method WriteReg(v: Word, r: nat)
      requires Valid() && r < 32
      modifies globals, locals, outs
      ensures Valid() && F() == Windows.Put(old(F()), psr.cwp, r, v) && globals[8] == old(globals[8])
    {
      if r < 8 {
        globals[r] := v;
        globals[0] := 0;
      } else if r < 16 {
        outs[cwpBase + r % 8] := v;
      } else if r < 24 {
        locals[cwpBase + r % 8] := v;
      } else {
        InsBase(psr.cwp);
        outs[(cwpBase + 8) % 64 + r % 8] := v;
      }
    }

    method UpdateCwpBase()
      modifies this`cwpBase
      ensures cwpBase == 8 * psr.cwp
    {
      cwpBase := psr.cwp * 8;
    }

    /** Records the trap, or stops the emulator if traps are disabled. */
    method Trap(tn: nat)
      requires Running() && 0 < tn < 0x100
      modifies this`trapType, this`errorMode
      ensures if psr.et then trapType == tn && !errorMode else trapType == 0 && errorMode
    {
      if !psr.et {
        errorMode := true;
      } else {
        trapType := trapType - trapType % 0x100 + tn;
      }
    }

    /** The first half of an instruction cycle takes an interrupt above the processor's level, if none of
        its own traps is pending, and returns the level to acknowledge. */
    method TakeInterrupt() returns (acked: Option<nat>)
      requires irl < 16
      modifies this`trapType, this`irl
      ensures acked == (if old(trapType) == 0 && psr.et && old(irl) > psr.pil then Some(old(irl)) else None)
      ensures if acked.Some? then trapType == INTERRUPT + acked.value && irl == 0
              else trapType == old(trapType) && irl == old(irl)
    {
      acked := None;
      if trapType == 0 && psr.et && irl > psr.pil {
        trapType := irl + INTERRUPT;
        acked := Some(irl);
        irl := 0;
      }
    }

    /** Where a trap interrupted the program. */
    ghost predicate InHandler(c: Context)
      requires Valid()
      reads this, globals, locals, outs
    {
      && c.cwp < 8 && psr.cwp == Windows.Prev(c.cwp) && !psr.et && psr.s && psr.ps == c.s
      && Windows.Get(F(), psr.cwp, 17) == c.pc && Windows.Get(F(), psr.cwp, 18) == c.npc
    }

    /** Trap entry moves to the next window down, saves the program counters there and jumps to the table
        entry of the trap. */
    method EnterTrap()
      requires Valid() && 0 < trapType < 0x100
      modifies this`psr, this`cwpBase, this`tbr, this`pc, this`npc, this`trapType, globals, locals, outs
      ensures Valid() && trapType == 0 && C() == Entered(old(C()), old(trapType))
      ensures InHandler(Context(old(pc), old(npc), old(psr.cwp), old(psr.s)))
    {
      psr := psr.(et := false, ps := psr.s, s := true, cwp := Windows.Prev(psr.cwp));
      UpdateCwpBase();
      WriteReg(pc, 17);
      WriteReg(npc, 18);
      tbr := tbr / 0x1000 * 0x1000 + trapType % 0x100 * 0x10 + tbr % 0x10;
      pc, npc := tbr, Plus(tbr, 4);
      trapType := trapType - trapType % 0x100;
    }

    /* Instructions. Each works on the decode record; the processor's own pc, npc and psr change only at
       write-back. */

    /** The record holds nothing to write back. */
    ghost predicate Fresh(d: Decode)
      reads this, d
    {
      d.pc == pc && d.npc == npc && d.psr == psr && !d.wb
    }

    /** The instruction has raised trap tn and left the record alone. */
    ghost predicate Refused(d: Decode, tn: nat)
      reads this, d
    {
      Fresh(d) && if psr.et then trapType == tn && !errorMode else trapType == 0 && errorMode
    }

    /** The instruction goes on to the next one. */
    ghost predicate Stepped(d: Decode)
      reads this, d
    {
      Running() && d.pc == npc && d.npc == Plus(npc, 4)
    }

    /** What an instruction has done, before write-back. */
    ghost function After(d: Decode): Done
      requires Shaped()
      reads this, d, globals, locals, outs
    {
      Done(Core(d.pc, d.npc, d.psr, yReg, wim, tbr, F()), if d.wb then Some((d.rd, d.value)) else None)
    }

    ghost predicate Sets(d: Decode, v: Word)
      reads d
    {
      d.wb && d.value == v
    }

    method Advance(d: Decode)
      requires d.npc == npc && Running()
      modifies d`pc, d`npc
      ensures Stepped(d)
    {
      d.pc := d.npc;
      d.npc := Plus(d.npc, 4);
    }

    method Result(d: Decode, v: Word)
      requires d.npc == npc && Running()
      modifies d`pc, d`npc, d`wb, d`value
      ensures Stepped(d) && Sets(d, v)
    {
      d.wb, d.value := true, v;
      Advance(d);
    }

    method Save(d: Decode)
      requires Valid() && Running() && Fresh(d)
      modifies this`trapType, this`errorMode, d`pc, d`npc, d`psr, d`wb, d`value
      ensures Bit(wim, Windows.Prev(psr.cwp)) ==> Refused(d, WINDOW_OVERFLOW)
      ensures !Bit(wim, Windows.Prev(psr.cwp)) ==>
                Stepped(d) && Sets(d, d.ev) && d.psr == psr.(cwp := Windows.Prev(psr.cwp))
    {
      var cwp := Windows.Prev(d.psr.cwp);
      if Bit(wim, cwp) {
        Trap(WINDOW_OVERFLOW);
      } else {
        d.psr := d.psr.(cwp := cwp);
        Result(d, d.ev);
      }
    }

    method Restore(d: Decode)
      requires Valid() && Running() && Fresh(d)
      modifies this`trapType, this`errorMode, d`pc, d`npc, d`psr, d`wb, d`value
      ensures Bit(wim, Windows.Next(psr.cwp)) ==> Refused(d, WINDOW_UNDERFLOW)
      ensures !Bit(wim, Windows.Next(psr.cwp)) ==>
                Stepped(d) && Sets(d, d.ev) && d.psr == psr.(cwp := Windows.Next(psr.cwp))
    {
      var cwp := Windows.Next(d.psr.cwp);
      if Bit(wim, cwp) {
        Trap(WINDOW_UNDERFLOW);
      } else {
        d.psr := d.psr.(cwp := cwp);
        Result(d, d.ev);
      }
    }

    method Jmpl(d: Decode)
      requires Valid() && Running() && Fresh(d)
      modifies this`trapType, this`errorMode, d`pc, d`npc, d`wb, d`value
      ensures d.ev % 4 != 0 ==> Refused(d, MEMORY_ADDR_NOT_ALIGNED)
      ensures d.ev % 4 == 0 ==> Running() && Sets(d, pc) && d.pc == npc && d.npc == d.ev
    {
      if d.ev % 4 != 0 {
        Trap(MEMORY_ADDR_NOT_ALIGNED);
      } else {
        d.wb, d.value := true, d.pc;
        d.pc, d.npc := d.npc, d.ev;
      }
    }

    method Rett(d: Decode)
      requires Valid() && Running() && Fresh(d)
      modifies this`trapType, this`errorMode, d`pc, d`npc, d`psr
      ensures var fate := RettFate(psr, wim, d.ev);
              if fate.Traps? then Refused(d, fate.tn)
              else
                && Running() && !d.wb && d.pc == npc && d.npc == d.ev
                && d.psr == psr.(s := psr.ps, et := true, cwp := Windows.Next(psr.cwp))
    {
      var cwp := Windows.Next(d.psr.cwp);
      if !d.psr.s {
        Trap(PRIVILEGED_INSTRUCTION);
      } else if d.psr.et {
        Trap(ILLEGAL_INSTRUCTION);
      } else if d.ev % 4 != 0 {
        Trap(MEMORY_ADDR_NOT_ALIGNED);
      } else if Bit(wim, cwp) {
        Trap(WINDOW_UNDERFLOW);
      } else {
        d.pc, d.npc := d.npc, d.ev - d.ev % 4;
        d.psr := d.psr.(s := d.psr.ps, et := true, cwp := cwp);
      }
    }

    method Ticc(d: Decode, cond: nat)
      requires Valid() && Running() && Fresh(d) && cond < 16
      modifies this`trapType, this`errorMode, d`pc, d`npc
      ensures Alu.TestCc(cond, psr.icc) ==> Refused(d, TRAP_INSTRUCTION + d.ev % 0x80)
      ensures !Alu.TestCc(cond, psr.icc) ==> Stepped(d) && !d.wb && d.psr == psr
    {
      if Alu.TestCc(cond, d.psr.icc) {
        Trap(TRAP_INSTRUCTION + d.ev % 0x80);
      } else {
        Advance(d);
      }
    }

    /** RDPSR, RDWIM and RDTBR are privileged; RDY is not. */
    method ReadSpecial(d: Decode, which: Special)
      requires Valid() && Running() && Fresh(d)
      modifies this`trapType, this`errorMode, d`pc, d`npc, d`wb, d`value
      ensures !which.Y? && !psr.s ==> Refused(d, PRIVILEGED_INSTRUCTION)
      ensures which.Y? || psr.s ==>
                && Stepped(d) && d.psr == psr
                && Sets(d, match which
                           case Y => yReg
                           case PSR => PsrWord(psr)
                           case WIM => wim
                           case TBR => tbr)
    {
      if !which.Y? && !d.psr.s {
        Trap(PRIVILEGED_INSTRUCTION);
        return;
      }
      match which
      case Y => Result(d, yReg);
      case PSR => Result(d, PsrWord(d.psr));
      case WIM => Result(d, wim);
      case TBR => Result(d, tbr);
    }

    /** WRPSR checks the new window number before the privilege. */
    method WriteSpecial(d: Decode, which: Special)
      requires Valid() && Running() && Fresh(d)
      modifies this`trapType, this`errorMode, this`yReg, this`wim, this`tbr, d`pc, d`npc, d`psr
      ensures which.PSR? && Xor32(d.rs1Value, d.ev) % 32 >= 8 ==> Refused(d, ILLEGAL_INSTRUCTION)
      ensures !which.Y? && !psr.s && !(which.PSR? && Xor32(d.rs1Value, d.ev) % 32 >= 8) ==>
                Refused(d, PRIVILEGED_INSTRUCTION)
      ensures Running() <==>
                (which.Y? || psr.s) && !(which.PSR? && Xor32(d.rs1Value, d.ev) % 32 >= 8)
      ensures var x := Xor32(d.rs1Value, d.ev);
              if Running() then
                && Stepped(d) && !d.wb
                && d.psr == (if which.PSR? then PsrOf(x) else psr)
                && yReg == (if which.Y? then x else old(yReg))
                && wim == (if which.WIM? then x % 0x100 else old(wim))
                && tbr == (if which.TBR? then x else old(tbr))
              else yReg == old(yReg) && wim == old(wim) && tbr == old(tbr)
    {
      var x := Xor32(d.rs1Value, d.ev);
      if which.PSR? && x % 32 >= 8 {
        Trap(ILLEGAL_INSTRUCTION);
        return;
      }
      if !which.Y? && !d.psr.s {
        Trap(PRIVILEGED_INSTRUCTION);
        return;
      }
      match which {
        case Y => yReg := x;
        case PSR => d.psr := PsrOf(x);
        case WIM => wim := x % 0x100;
        case TBR => tbr := x;
      }
      Advance(d);
    }

    /** Only the tagged forms that trap on overflow can trap. */
    method AddSub(d: Decode, op3: nat)
      requires Valid() && Running() && Fresh(d)
      modifies this`trapType, this`errorMode, d`pc, d`npc, d`psr, d`wb, d`value
      ensures var o := Alu.AddUnit(op3, d.rs1Value, d.ev, psr.icc);
              if o.tagTrap then Refused(d, TAG_OVERFLOW)
              else Stepped(d) && Sets(d, o.value) && d.psr == if SetsIcc(op3) then psr.(icc := o.icc) else psr
    {
      var o := Alu.AddUnit(op3, d.rs1Value, d.ev, d.psr.icc);
      if o.tagTrap {
        Trap(TAG_OVERFLOW);
      } else {
        if SetsIcc(op3) {
          d.psr := d.psr.(icc := o.icc);
        }
        Result(d, o.value);
      }
    }

    method MulStep(d: Decode)
      requires Valid() && Running() && Fresh(d)
      modifies this`yReg, d`pc, d`npc, d`psr, d`wb, d`value
      ensures var o := Alu.Mulscc(Alu.MulStep(d.rs1Value, old(yReg), psr.icc), d.ev);
              Stepped(d) && Sets(d, o.acc) && d.psr == psr.(icc := o.icc) && yReg == o.y
    {
      var o := Alu.Mulscc(Alu.MulStep(d.rs1Value, yReg, d.psr.icc), d.ev);
      d.psr := d.psr.(icc := o.icc);
      yReg := o.y;
      Result(d, o.acc);
    }

    method Multiply(d: Decode, op3: nat)
      requires Valid() && Running() && Fresh(d)
      modifies this`yReg, d`pc, d`npc, d`psr, d`wb, d`value
      ensures var o := Alu.Mul(op3 % 2 == 1, d.rs1Value, d.ev);
              && Stepped(d) && Sets(d, o.value) && yReg == o.y
              && d.psr == if op3 / 16 % 2 == 1 then psr.(icc := o.icc) else psr
    {
      var o := Alu.Mul(op3 % 2 == 1, d.rs1Value, d.ev);
      yReg := o.y;
      if op3 / 16 % 2 == 1 {
        d.psr := d.psr.(icc := o.icc);
      }
      Result(d, o.value);
    }

    /** The one division the host leaves undefined stops the emulator. */
    method Divide(d: Decode, op3: nat)
      requires Valid() && Running() && Fresh(d)
      modifies this`trapType, this`errorMode, this`yReg, d`pc, d`npc, d`psr, d`wb, d`value
      ensures match Alu.Div(op3 % 2 == 1, old(yReg), d.rs1Value, d.ev)
              case DivideByZero => Refused(d, DIVISION_BY_ZERO) && yReg == old(yReg)
              case Undefined => Fresh(d) && errorMode && trapType == 0 && yReg == old(yReg)
              case Quotient(q, y, icc) =>
                && Stepped(d) && Sets(d, q) && yReg == y
                && d.psr == if op3 / 16 % 2 == 1 then psr.(icc := icc) else psr
    {
      var o := Alu.Div(op3 % 2 == 1, yReg, d.rs1Value, d.ev);
      match o {
        case DivideByZero => Trap(DIVISION_BY_ZERO);
        case Undefined => errorMode := true;
        case Quotient(q, y, icc) =>
          yReg := y;
          if op3 / 16 % 2 == 1 {
            d.psr := d.psr.(icc := icc);
          }
          Result(d, q);
      }
    }

    /** The register is written while the instruction runs, before it is known to be done. */
    method LoadOne(d: Decode, size: nat, signed: bool, m: Reply, noFault: bool)
      requires Valid() && Running() && Fresh(d) && d.rd < 32 && (size == 1 || size == 2 || size == 4)
      modifies this`trapType, this`errorMode, d`pc, d`npc, globals, locals, outs
      ensures Valid()
      ensures d.ev % size != 0 ==> Refused(d, MEMORY_ADDR_NOT_ALIGNED) && F() == old(F())
      ensures d.ev % size == 0 && !m.ok && !noFault ==> Refused(d, DATA_ACCESS_EXCEPTION) && F() == old(F())
      ensures d.ev % size == 0 && (m.ok || noFault) ==>
                && Stepped(d) && !d.wb && d.psr == psr
                && F() == if m.ok then Windows.Put(old(F()), psr.cwp, d.rd, Extended(size, signed, m.value))
                   else old(F())
    {
      if d.ev % size != 0 {
        Trap(MEMORY_ADDR_NOT_ALIGNED);
        return;
      }
      if m.ok {
        WriteReg(Extended(size, signed, m.value), d.rd);
      }
      if !m.ok && !noFault {
        Trap(DATA_ACCESS_EXCEPTION);
      } else {
        Advance(d);
      }
    }

    /** Neither register is written unless both words could be read. */
    method LoadDouble(d: Decode, m: Reply, n: Reply, noFault: bool)
      requires Valid() && Running() && Fresh(d) && d.rd < 32
      modifies this`trapType, this`errorMode, d`pc, d`npc, globals, locals, outs
      ensures Valid()
      ensures var fate := DoubleFate(d.rd, d.ev, Access(m, n, noFault));
              if fate.Traps? then Refused(d, fate.tn) && F() == old(F())
              else
                && Stepped(d) && !d.wb && d.psr == psr
                && F() == if m.ok && n.ok then
                            Windows.Put(Windows.Put(old(F()), psr.cwp, d.rd, m.value), psr.cwp, d.rd + 1, n.value)
                          else old(F())
    {
      if d.rd % 2 != 0 {
        Trap(ILLEGAL_INSTRUCTION);
        return;
      }
      if d.ev % 8 != 0 {
        Trap(MEMORY_ADDR_NOT_ALIGNED);
        return;
      }
      if m.ok && n.ok {
        WriteReg(m.value, d.rd);
        WriteReg(n.value, d.rd + 1);
      }
      if !(m.ok && n.ok) && !noFault {
        Trap(DATA_ACCESS_EXCEPTION);
      } else {
        Advance(d);
      }
    }

    /** Returns the word handed to memory. */
    method StoreOne(d: Decode, size: nat, ok: bool, noFault: bool) returns (sent: Option<Word>)
      requires Valid() && Running() && Fresh(d) && d.rd < 32 && (size == 1 || size == 2 || size == 4)
      modifies this`trapType, this`errorMode, d`pc, d`npc
      ensures d.ev % size != 0 ==> Refused(d, MEMORY_ADDR_NOT_ALIGNED) && sent == None
      ensures d.ev % size == 0 ==> sent == Some(Windows.Get(F(), psr.cwp, d.rd))
      ensures d.ev % size == 0 && !ok && !noFault ==> Refused(d, DATA_ACCESS_EXCEPTION)
      ensures d.ev % size == 0 && (ok || noFault) ==> Stepped(d) && !d.wb && d.psr == psr
    {
      if d.ev % size != 0 {
        Trap(MEMORY_ADDR_NOT_ALIGNED);
        return None;
      }
      var v := ReadReg(d.rd);
      sent := Some(v);
      if !ok && !noFault {
        Trap(DATA_ACCESS_EXCEPTION);
      } else {
        Advance(d);
      }
    }

    method StoreDouble(d: Decode, a: Access) returns (sent: seq<Word>)
      requires Valid() && Running() && Fresh(d) && d.rd < 32
      modifies this`trapType, this`errorMode, d`pc, d`npc
      ensures var fate := DoubleFate(d.rd, d.ev, a);
              if fate.Traps? then Refused(d, fate.tn)
              else Stepped(d) && !d.wb && d.psr == psr
      ensures d.rd % 2 == 0 && d.ev % 8 == 0 ==>
                sent == [Windows.Get(F(), psr.cwp, d.rd), Windows.Get(F(), psr.cwp, d.rd + 1)]
    {
      sent := [];
      if d.rd % 2 != 0 {
        Trap(ILLEGAL_INSTRUCTION);
        return;
      }
      if d.ev % 8 != 0 {
        Trap(MEMORY_ADDR_NOT_ALIGNED);
        return;
      }
      var v := ReadReg(d.rd);
      var w := ReadReg(d.rd + 1);
      sent := [v, w];
      if !(a.first.ok && a.second.ok) && !a.noFault {
        Trap(DATA_ACCESS_EXCEPTION);
      } else {
        Advance(d);
      }
    }

    /** SWAP sets its scratch register even if it then traps. A failed swap with faults off reads 0. */
    method Swap(d: Decode, m: Reply, noFault: bool)
      requires Valid() && Running() && Fresh(d) && d.rd < 32
      modifies this`trapType, this`errorMode, d`pc, d`npc, globals, locals, outs
      ensures Valid()
      ensures d.ev % 4 != 0 ==> Refused(d, MEMORY_ADDR_NOT_ALIGNED) && F() == old(F())
      ensures d.ev % 4 == 0 && !m.ok && !noFault ==> Refused(d, DATA_ACCESS_EXCEPTION) && F() == old(F())
      ensures d.ev % 4 == 0 && (m.ok || noFault) ==>
                && Stepped(d) && !d.wb && d.psr == psr
                && F() == Windows.Put(old(F()), psr.cwp, d.rd, if m.ok then m.value else 0)
    {
      if d.ev % 4 != 0 {
        Trap(MEMORY_ADDR_NOT_ALIGNED);
        return;
      }
      globals[8] := d.value;
      assert F() == old(F());
      if !m.ok && !noFault {
        Trap(DATA_ACCESS_EXCEPTION);
        return;
      }
      WriteReg(if m.ok then m.value else 0, d.rd);
      Advance(d);
    }

    /** LDSTUB traps on a failed access whether or not faults are off. */
    method Ldstub(d: Decode, m: Reply)
      requires Valid() && Running() && Fresh(d) && d.rd < 32
      modifies this`trapType, this`errorMode, d`pc, d`npc, globals, locals, outs
      ensures Valid()
      ensures !m.ok ==> Refused(d, DATA_ACCESS_EXCEPTION) && F() == old(F())
      ensures m.ok ==>
                && Stepped(d) && !d.wb && d.psr == psr
                && F() == Windows.Put(old(F()), psr.cwp, d.rd, m.value % 0x100) && globals[8] == 0xFF
    {
      if !m.ok {
        Trap(DATA_ACCESS_EXCEPTION);
        return;
      }
      WriteReg(m.value % 0x100, d.rd);
      ghost var f := F();
      globals[8] := 0xFF;
      assert F() == f;
      Advance(d);
    }

    method LogicOp(d: Decode, op3: nat)
      requires Valid() && Running() && Fresh(d)
      modifies d`pc, d`npc, d`psr, d`wb, d`value
      ensures var z := Alu.Logic(op3, d.rs1Value, d.ev);
              && Stepped(d) && Sets(d, z)
              && d.psr == if op3 / 16 % 2 == 1 then psr.(icc := Alu.LogicIcc(z)) else psr
    {
      var z := Alu.Logic(op3, d.rs1Value, d.ev);
      if op3 / 16 % 2 == 1 {
        d.psr := d.psr.(icc := Alu.LogicIcc(z));
      }
      Result(d, z);
    }

    /** The host leaves the arithmetic shift of a negative word by a non-zero multiple of 32 undefined. */
    method ShiftOp(d: Decode, kind: Alu.ShiftKind)
      requires Valid() && Running() && Fresh(d)
      modifies this`errorMode, d`pc, d`npc, d`wb, d`value
      ensures var undefined := kind.Arithmetic? && Alu.Top(d.rs1Value) && d.ev != 0 && d.ev % 32 == 0;
              if undefined then Fresh(d) && errorMode && trapType == 0
              else Stepped(d) && d.psr == psr && Sets(d, Alu.Shift(kind, d.rs1Value, d.ev % 32))
    {
      if kind.Arithmetic? && Alu.Top(d.rs1Value) && d.ev != 0 && d.ev % 32 == 0 {
        errorMode := true;
      } else {
        Result(d, Alu.Shift(kind, d.rs1Value, d.ev % 32));
      }
    }

    method Call(d: Decode, disp: Word)
      requires Valid() && Running() && Fresh(d)
      modifies d`pc, d`npc, d`wb, d`value, d`rd
      ensures Running() && d.psr == psr && Sets(d, pc) && d.rd == 15 && d.pc == npc && d.npc == Plus(pc, 4 * disp)
    {
      d.wb, d.value, d.rd := true, d.pc, 15;
      var temp := d.pc;
      d.pc := d.npc;
      d.npc := Plus(temp, 4 * disp);
    }

    method Branch(d: Decode, taken: bool, annul: bool, disp: Word)
      requires Valid() && Running() && Fresh(d)
      modifies d`pc, d`npc
      ensures Running() && d.psr == psr && !d.wb
      ensures var b := Branched(C(), taken, annul, disp); d.pc == b.pc && d.npc == b.npc
    {
      var temp := d.npc;
      if taken {
        d.npc := Plus(d.pc, 4 * disp);
      } else {
        d.npc := Plus(d.npc, 4);
      }
      d.pc := temp;
      if annul {
        d.pc := d.npc;
        d.npc := Plus(d.npc, 4);
      }
    }

    method Bicc(d: Decode, cond: nat, annul: bool, disp: Word)
      requires Valid() && Running() && Fresh(d) && cond < 16
      modifies d`pc, d`npc
      ensures Running() && After(d) ==
              ControlDone(Opcode.Bicc(cond, annul, disp), d.rd, C(), Inputs(0, 0, false, NO_ACCESS))
    {
      var taken := Alu.TestCc(cond, d.psr.icc);
      Branch(d, taken, annul && ((!taken && cond % 8 != 0) || cond % 8 == 0), disp);
    }

    /** A floating-point instruction traps if the unit is disabled; otherwise the unit answers. */
    method FloatOp(d: Decode, reply: FloatReply)
      requires Valid() && Running() && Fresh(d) && (reply.FloatTrap? ==> 0 < reply.tn < 0x100)
      modifies this`trapType, this`errorMode, d`pc, d`npc
      ensures Met(d, FloatFate(psr, reply))
      ensures Running() ==> After(d) == ControlDone(Opcode.Float(reply), d.rd, C(), Inputs(0, 0, false, NO_ACCESS))
    {
      if !d.psr.ef {
        Trap(FP_DISABLED);
        return;
      }
      match reply
      case FloatDone => Advance(d);
      case FloatBranch(taken, annul, disp) => Branch(d, taken, annul, disp);
      case FloatTrap(tn) => Trap(tn);
      case FloatStop => errorMode := true;
    }

    method LoadAlternate(d: Decode, answer: Option<Word>, ghost a: Access)
      requires Valid() && Running() && Fresh(d) && d.rd < 32
      modifies this`trapType, this`errorMode, d`pc, d`npc, d`wb, d`value
      ensures Met(d, AlternateFate(Opcode.LoadAlternate(answer), C(), Given(d, a)))
      ensures Running() ==> After(d) == AlternateDone(Opcode.LoadAlternate(answer), d.rd, C(), Given(d, a))
    {
      if !d.psr.s {
        Trap(PRIVILEGED_INSTRUCTION);
      } else if d.imm {
        Trap(ILLEGAL_INSTRUCTION);
      } else if answer.None? {
        errorMode := true;
      } else {
        Result(d, answer.value);
      }
    }

    method StoreAlternate(d: Decode, known: bool, ghost a: Access)
      requires Valid() && Running() && Fresh(d) && d.rd < 32
      modifies this`trapType, this`errorMode, d`pc, d`npc
      ensures Met(d, AlternateFate(Opcode.StoreAlternate(known), C(), Given(d, a)))
      ensures Running() ==> After(d) == AlternateDone(Opcode.StoreAlternate(known), d.rd, C(), Given(d, a))
    {
      if !d.psr.s {
        Trap(PRIVILEGED_INSTRUCTION);
      } else if d.imm {
        Trap(ILLEGAL_INSTRUCTION);
      } else if d.ev % 4 != 0 {
        Trap(MEMORY_ADDR_NOT_ALIGNED);
      } else if !known {
        errorMode := true;
      } else {
        Advance(d);
      }
    }

    /** SWAPA knows one space; in it, it is a privileged SWAP. */
    method SwapAlternate(d: Decode, asi: nat, a: Access)
      requires Valid() && Running() && Fresh(d) && d.rd < 32
      modifies this`trapType, this`errorMode, d`pc, d`npc, globals, locals, outs
      ensures Valid() && Met(d, AlternateFate(Opcode.SwapAlternate(asi), old(C()), Given(d, a))) && !d.wb
      ensures Running() ==> After(d) == AlternateDone(Opcode.SwapAlternate(asi), d.rd, old(C()), Given(d, a))
      ensures !Running() ==> F() == old(F())
    {
      if asi != 1 {
        errorMode := true;
      } else if !d.psr.s {
        Trap(PRIVILEGED_INSTRUCTION);
      } else {
        Swap(d, a.first, a.noFault);
      }
    }

    method Casa(d: Decode, asi: nat, a: Access)
      requires Valid() && Running() && Fresh(d) && d.rd < 32
      modifies this`trapType, this`errorMode, d`pc, d`npc, globals, locals, outs
      ensures Valid() && Met(d, AlternateFate(Opcode.Casa(asi), old(C()), Given(d, a))) && !d.wb
      ensures Running() ==> After(d) == AlternateDone(Opcode.Casa(asi), d.rd, old(C()), Given(d, a))
      ensures !Running() ==> F() == old(F())
    {
      if !d.psr.s && asi != 0xA {
        Trap(PRIVILEGED_INSTRUCTION);
        return;
      }
      if d.rs1Value % 4 != 0 {
        Trap(MEMORY_ADDR_NOT_ALIGNED);
        return;
      }
      if asi != 0xA && asi != 0xB {
        errorMode := true;
        return;
      }
      if !a.first.ok && !a.noFault {
        Trap(DATA_ACCESS_EXCEPTION);
        return;
      }
      WriteReg(a.first.value, d.rd);
      Advance(d);
    }

    /** A state register the processor does not have ends the run, and the program counters move on. */
    method UnknownAsr(d: Decode)
      requires Valid() && Running() && Fresh(d)
      modifies this`errorMode, d`pc, d`npc
      ensures errorMode && trapType == 0 && After(d) == Done(Left(Opcode.UnknownAsr, old(C())), None)
    {
      Advance(d);
      errorMode := true;
    }

    /* The instruction cycle */

    /** How an instruction with the given fate leaves the trap state. */
    ghost predicate Ended(fate: Fate)
      reads this
    {
      match fate
      case Retires => Running()
      case Traps(tn) => if psr.et then trapType == tn && !errorMode else trapType == 0 && errorMode
      case Stops => errorMode && trapType == 0
    }

    /** What the record gives an instruction to work on. */
    ghost function Given(d: Decode, a: Access): Inputs
      reads d
    {
      Inputs(d.rs1Value, d.ev, d.imm, a)
    }

    /** What the processor must be after an instruction with the given fate has run, before write-back. */
    ghost predicate Met(d: Decode, fate: Fate)
      reads this, d
    {
      match fate
      case Retires => Running()
      case Traps(tn) => Refused(d, tn)
      case Stops => Fresh(d) && errorMode && trapType == 0
    }

    method DecodeInto(d: Decode, insn: Insn)
      requires Valid() && InsnOk(insn)
      modifies d
      ensures Fresh(d) && d.rd == insn.rd && forall a :: Given(d, a) == InputsOf(C(), insn, a)
      ensures d.value == Windows.Get(F(), psr.cwp, insn.rd)
    {
      d.pc, d.npc, d.psr, d.wb, d.rd, d.imm := pc, npc, psr, false, insn.rd, insn.src.Imm?;
      d.rs1Value := ReadReg(insn.rs1);
      if insn.src.Imm? {
        d.ev := insn.src.value;
      } else {
        d.ev := ReadReg(insn.src.r);
      }
      if AddsRs1(insn.op) {
        d.ev := Plus(d.ev, d.rs1Value);
      }
      d.value := ReadReg(insn.rd);
    }

    method WriteBack(d: Decode)
      requires Valid() && DoneOk(After(d))
      modifies this`pc, this`npc, this`psr, this`cwpBase, globals, locals, outs
      ensures Valid() && C() == WrittenBack(old(After(d)))
    {
      pc, npc, psr := d.pc, d.npc, d.psr;
      UpdateCwpBase();
      if d.wb {
        WriteReg(d.value, d.rd);
      }
    }

    method ExecuteArithmetic(d: Decode, op: Opcode, ghost a: Access)
      requires Valid() && Running() && Fresh(d) && d.rd < 32 && IsArithmetic(op)
      modifies this`trapType, this`errorMode, this`yReg, d`pc, d`npc, d`psr, d`wb, d`value
      ensures Valid() && Met(d, ArithmeticFate(op, old(C()), old(Given(d, a))))
      ensures Running() ==> After(d) == ArithmeticDone(op, d.rd, old(C()), old(Given(d, a))) && DoneOk(After(d))
      ensures !Running() ==> After(d) == Done(old(C()), None)
    {
      if IsMultiply(op) {
        ExecuteMultiply(d, op, a);
        return;
      }
      match op
      case AddSub(op3) => AddSub(d, op3);
      case Logic(op3) => LogicOp(d, op3);
      case Shift(kind) => ShiftOp(d, kind);
      case Constant(value) => Result(d, value);
      case Nop => Advance(d);
    }

    method ExecuteMultiply(d: Decode, op: Opcode, ghost a: Access)
      requires Valid() && Running() && Fresh(d) && d.rd < 32 && IsMultiply(op)
      modifies this`trapType, this`errorMode, this`yReg, d`pc, d`npc, d`psr, d`wb, d`value
      ensures Valid() && Met(d, ArithmeticFate(op, old(C()), old(Given(d, a))))
      ensures Running() ==> After(d) == ArithmeticDone(op, d.rd, old(C()), old(Given(d, a))) && DoneOk(After(d))
      ensures !Running() ==> After(d) == Done(old(C()), None)
    {
      match op
      case MulStep => MulStep(d);
      case Multiply(op3) => Multiply(d, op3);
      case Divide(op3) => Divide(d, op3);
    }

    method ExecuteSpecial(d: Decode, op: Opcode, ghost a: Access)
      requires Valid() && Running() && Fresh(d) && d.rd < 32 && IsSpecial(op)
      modifies this`trapType, this`errorMode, this`yReg, this`wim, this`tbr, d`pc, d`npc, d`psr, d`wb, d`value
      ensures Valid() && Met(d, SpecialFate(op, old(C()), old(Given(d, a))))
      ensures Running() ==> After(d) == SpecialDone(op, d.rd, old(C()), old(Given(d, a))) && DoneOk(After(d))
      ensures !Running() ==> After(d) == Done(old(C()), None)
    {
      match op
      case ReadSpecial(which) => ReadSpecial(d, which);
      case WriteSpecial(which) => WriteSpecial(d, which);
    }

    method ExecuteControl(d: Decode, op: Opcode, ghost a: Access)
      requires Valid() && Running() && Fresh(d) && d.rd < 32 && IsControl(op)
      modifies this`trapType, this`errorMode, d`pc, d`npc, d`psr, d`wb, d`value, d`rd
      ensures Valid() && Met(d, ControlFate(op, C(), old(Given(d, a)))) && d.rd < 32
      ensures Running() ==> After(d) == ControlDone(op, old(d.rd), C(), old(Given(d, a))) && DoneOk(After(d))
      ensures !Running() ==> After(d) == Done(old(C()), None)
    {
      if IsTransfer(op) {
        ExecuteTransfer(d, op, a);
        return;
      }
      match op
      case Ticc(cond) => Ticc(d, cond);
      case Call(disp) => Call(d, disp);
      case Bicc(cond, annul, disp) => Bicc(d, cond, annul, disp);
      case Float(reply) => FloatOp(d, reply);
      case Unimplemented => errorMode := true;
    }

    method ExecuteTransfer(d: Decode, op: Opcode, ghost a: Access)
      requires Valid() && Running() && Fresh(d) && d.rd < 32 && IsTransfer(op)
      modifies this`trapType, this`errorMode, d`pc, d`npc, d`psr, d`wb, d`value
      ensures Valid() && Met(d, ControlFate(op, C(), old(Given(d, a))))
      ensures Running() ==> After(d) == ControlDone(op, d.rd, C(), old(Given(d, a))) && DoneOk(After(d))
      ensures !Running() ==> After(d) == Done(old(C()), None)
    {
      match op
      case Save => Save(d);
      case Restore => Restore(d);
      case Jmpl => Jmpl(d);
      case Rett => Rett(d);
    }

    method ExecuteMemory(d: Decode, op: Opcode, a: Access)
      requires Valid() && Running() && Fresh(d) && d.rd < 32 && IsMemory(op)
      modifies this`trapType, this`errorMode, d`pc, d`npc, globals, locals, outs
      ensures Valid() && Met(d, MemoryFate(op, d.rd, old(Given(d, a)))) && !d.wb
      ensures Running() ==>
                && (op.LoadDouble? ==> d.rd % 2 == 0)
                && After(d) == Done(Onward(old(C())).(file := Loaded(op, d.rd, old(F()), psr.cwp, a)), None)
      ensures !Running() ==> After(d) == Done(old(C()), None)
    {
      match op
      case Load(size, signed) => LoadOne(d, size, signed, a.first, a.noFault);
      case LoadDouble => LoadDouble(d, a.first, a.second, a.noFault);
      case Swap => ExecuteAtomic(d, op, a);
      case Ldstub => ExecuteAtomic(d, op, a);
      case Store(_) => ExecuteStore(d, op, a);
      case StoreDouble => ExecuteStore(d, op, a);
    }

    method ExecuteAtomic(d: Decode, op: Opcode, a: Access)
      requires Valid() && Running() && Fresh(d) && d.rd < 32 && (op.Swap? || op.Ldstub?)
      modifies this`trapType, this`errorMode, d`pc, d`npc, globals, locals, outs
      ensures Valid() && Met(d, MemoryFate(op, d.rd, old(Given(d, a)))) && !d.wb
      ensures Running() ==> Stepped(d) && d.psr == psr && F() == Loaded(op, d.rd, old(F()), psr.cwp, a)
      ensures !Running() ==> After(d) == Done(old(C()), None)
    {
      match op
      case Swap => Swap(d, a.first, a.noFault);
      case Ldstub => Ldstub(d, a.first);
    }

    method ExecuteStore(d: Decode, op: Opcode, a: Access)
      requires Valid() && Running() && Fresh(d) && d.rd < 32 && IsMemory(op) && (op.Store? || op.StoreDouble?)
      modifies this`trapType, this`errorMode, d`pc, d`npc
      ensures Met(d, MemoryFate(op, d.rd, old(Given(d, a)))) && !d.wb
      ensures Running() ==> Stepped(d) && d.psr == psr
    {
      match op
      case Store(size) => var _ := StoreOne(d, size, a.first.ok, a.noFault);
      case StoreDouble => var _ := StoreDouble(d, a);
    }

    method ExecuteAlternate(d: Decode, op: Opcode, a: Access)
      requires Valid() && Running() && Fresh(d) && d.rd < 32 && IsAlternate(op)
      modifies this`trapType, this`errorMode, d`pc, d`npc, d`wb, d`value, globals, locals, outs
      ensures Valid() && Met(d, AlternateFate(op, old(C()), old(Given(d, a))))
      ensures Running() ==> After(d) == AlternateDone(op, d.rd, old(C()), old(Given(d, a)))
      ensures !Running() ==> After(d) == Done(old(C()), None)
    {
      match op
      case LoadAlternate(answer) => LoadAlternate(d, answer, a);
      case StoreAlternate(known) => StoreAlternate(d, known, a);
      case SwapAlternate(asi) => SwapAlternate(d, asi, a);
      case Casa(asi) => Casa(d, asi, a);
    }

    method ExecuteRegister(d: Decode, op: Opcode, ghost a: Access)
      requires Valid() && Running() && Fresh(d) && d.rd < 32 && IsRegister(op)
      modifies this`trapType, this`errorMode, this`yReg, this`wim, this`tbr, d`pc, d`npc, d`psr, d`wb, d`value, d`rd
      ensures Valid() && d.rd < 32 && Met(d, RegisterFate(op, old(C()), old(Given(d, a))))
      ensures Running() ==> After(d) == RegisterDone(op, old(d.rd), old(C()), old(Given(d, a))) && DoneOk(After(d))
      ensures !Running() ==> After(d) == Done(old(C()), None)
    {
      if IsArithmetic(op) {
        ExecuteArithmetic(d, op, a);
      } else if IsSpecial(op) {
        ExecuteSpecial(d, op, a);
      } else {
        ExecuteControl(d, op, a);
      }
    }

    method Execute(d: Decode, op: Opcode, a: Access)
      requires Valid() && Running() && Fresh(d) && d.rd < 32 && OpcodeOk(op) && !op.UnknownAsr?
      modifies this`trapType, this`errorMode, this`yReg, this`wim, this`tbr,
               d`pc, d`npc, d`psr, d`wb, d`value, d`rd, globals, locals, outs
      ensures Valid() && d.rd < 32 && Met(d, FateOf(op, old(d.rd), old(C()), old(Given(d, a))))
      ensures DoneOk(After(d)) && (Running() ==> After(d) == DoneOf(op, old(d.rd), old(C()), old(Given(d, a))))
      ensures !Running() ==> After(d) == Done(old(C()), None)
    {
      if IsRegister(op) {
        ExecuteRegister(d, op, a);
      } else if IsMemory(op) {
        ExecuteMemory(d, op, a);
      } else {
        ExecuteAlternate(d, op, a);
      }
    }

    ghost function FateHere(insn: Insn, a: Access): Fate
      requires Valid() && InsnOk(insn)
      reads this, globals, locals, outs
    {
      FateOf(insn.op, insn.rd, C(), InputsOf(C(), insn, a))
    }

    /** One instruction. It raises exactly the trap its operands call for; one that retires leaves the state the
        instruction set prescribes; and one that does not leaves the r registers, Y, WIM, TBR, PSR, PC and nPC as
        they were, but that an unknown state register steps PC and nPC on. */
    method ExecuteOne(insn: Insn, a: Access)
      requires Valid() && Running() && InsnOk(insn)
      modifies this`pc, this`npc, this`psr, this`trapType, this`errorMode, this`yReg, this`wim, this`tbr, this`cwpBase,
               globals, locals, outs
      ensures Valid()
      ensures Ended(old(FateHere(insn, a)))
      ensures if Running() then C() == old(Retired(C(), insn, a)) else C() == Left(insn.op, old(C()))
    {
      var d := new Decode();
      DecodeInto(d, insn);
      Perform(d, insn.op, a);
    }

    method Complete(d: Decode, op: Opcode, a: Access)
      requires Valid() && Running() && Fresh(d) && d.rd < 32 && OpcodeOk(op) && !op.UnknownAsr?
      modifies this`pc, this`npc, this`psr, this`trapType, this`errorMode, this`yReg, this`wim, this`tbr, this`cwpBase,
               d, globals, locals, outs
      ensures Valid()
      ensures Ended(FateOf(op, old(d.rd), old(C()), old(Given(d, a)))) && (!Running() ==> C() == old(C()))
      ensures Running() ==>
                var done := DoneOf(op, old(d.rd), old(C()), old(Given(d, a))); DoneOk(done) && C() == WrittenBack(done)
    {
      Execute(d, op, a);
      WriteBack(d);
    }

    method Exit(d: Decode)
      requires Valid() && Running() && Fresh(d)
      modifies this`pc, this`npc, this`psr, this`errorMode, this`cwpBase, d`pc, d`npc, globals, locals, outs
      ensures Valid() && errorMode && trapType == 0 && C() == Left(Opcode.UnknownAsr, old(C()))
    {
      UnknownAsr(d);
      WriteBack(d);
    }

    /** Execution and write-back of a decoded instruction. */
    method Perform(d: Decode, op: Opcode, a: Access)
      requires Valid() && Running() && Fresh(d) && d.rd < 32 && OpcodeOk(op)
      modifies this`pc, this`npc, this`psr, this`trapType, this`errorMode, this`yReg, this`wim, this`tbr, this`cwpBase,
               d, globals, locals, outs
      ensures Valid()
      ensures Ended(FateOf(op, old(d.rd), old(C()), old(Given(d, a)))) && (!Running() ==> C() == Left(op, old(C())))
      ensures Running() ==>
                var done := DoneOf(op, old(d.rd), old(C()), old(Given(d, a))); DoneOk(done) && C() == WrittenBack(done)
    {
      if op.UnknownAsr? {
        Exit(d);
      } else {
        Complete(d, op, a);
      }
    }

    /** JMPL to the address in a register, with nothing linked. */
    method JumpTo(r: nat)
      requires Valid() && Running() && r < 32 && Windows.Get(F(), psr.cwp, r) % 4 == 0
      modifies this`pc, this`npc, this`psr, this`trapType, this`errorMode, this`yReg, this`wim, this`tbr, this`cwpBase,
               globals, locals, outs
      ensures Valid() && Running() && C() == old(C().(pc := npc, npc := Windows.Get(F(), psr.cwp, r)))
    {
      JmplRetires(C(), r, NO_ACCESS);
      ExecuteOne(Insn(Opcode.Jmpl, 0, r, Windows.Imm(0)), NO_ACCESS);
    }

    /** JMPL %l1 and then RETT %l2 in a handler that has kept %l1, %l2 and its window go back to where the
        trap was taken, with traps enabled. */
    method ReturnFromTrap(ghost c: Context)
      requires Valid() && Running() && InHandler(c) && c.pc % 4 == 0 && c.npc % 4 == 0 && !Bit(wim, c.cwp)
      modifies this`pc, this`npc, this`psr, this`trapType, this`errorMode, this`yReg, this`wim, this`tbr, this`cwpBase,
               globals, locals, outs
      ensures Valid() && Running()
      ensures C() == old(C()).(pc := c.pc, npc := c.npc, psr := old(psr).(cwp := c.cwp, s := c.s, et := true))
    {
      JumpTo(17);
      RettRetires(C(), 18, NO_ACCESS);
      ExecuteOne(Insn(Opcode.Rett, 0, 18, Windows.Imm(0)), NO_ACCESS);
    }

    /** An instruction that traps can be restarted: entering its handler and returning at once leads back to
        the instruction, in its window and mode, with every register it can see as it was. */
    method TrapAndReturn(insn: Insn, a: Access)
      requires Valid() && Running() && InsnOk(insn) && FateHere(insn, a).Traps? && psr.et
      requires pc % 4 == 0 && npc % 4 == 0 && !Bit(wim, psr.cwp)
      modifies this, globals, locals, outs
      ensures Valid() && Running() && pc == old(pc) && npc == old(npc)
      ensures psr == old(psr).(ps := old(psr.s)) && yReg == old(yReg) && wim == old(wim)
      ensures forall r :: 0 <= r < 32 ==> Windows.Get(F(), psr.cwp, r) == Windows.Get(old(F()), old(psr.cwp), r)
    {
      ghost var c := Context(pc, npc, psr.cwp, psr.s);
      FateInRange(insn.op, insn.rd, C(), InputsOf(C(), insn, a));
      ExecuteOne(insn, a);
      EnterTrap();
      ReturnFromTrap(c);
    }

    /** A failed instruction fetch traps, or stops the emulator if faults are off. */
    method FetchFault(noFault: bool)
      requires Valid() && Running()
      modifies this`trapType, this`errorMode
      ensures L() == if noFault then old(L()).(stopped := true) else Trapped(old(L()), INSTRUCTION_ACCESS_EXCEPTION)
    {
      if noFault {
        errorMode := true;
      } else {
        Trap(INSTRUCTION_ACCESS_EXCEPTION);
      }
    }

    /** The polled level is noted if it is above the one noted and no trap is pending. */
    method Poll(hint: Option<nat>)
      requires Valid() && irl < 16 && HintOk(hint)
      modifies this`irl
      ensures irl == Noted(old(L()), hint)
    {
      if hint.Some? && hint.value > irl && trapType == 0 {
        irl := hint.value;
      }
    }

    ghost function L(): Loop
      requires Shaped()
      reads this, globals, locals, outs
    {
      Loop(C(), trapType, irl, errorMode)
    }

    /** An interrupt is taken, and a trap entered. */
    method Begin(hint: Option<nat>) returns (acked: Option<nat>)
      requires Valid() && trapType < 0x100 && irl < 16 && HintOk(hint)
      modifies this, globals, locals, outs
      ensures Valid() && L() == Begun(old(L()), hint) && acked == Acked(old(L()), hint)
    {
      Poll(hint);
      acked := TakeInterrupt();
      if trapType != 0 {
        EnterTrap();
      }
    }

    method ExecuteFetched(insn: Insn, a: Access)
      requires Valid() && Running() && irl < 16 && InsnOk(insn)
      modifies this, globals, locals, outs
      ensures Valid() && L() == Executed(old(L()), insn, a)
    {
      ExecuteOne(insn, a);
    }

    /** One cycle of the main loop: a polled interrupt level, trap entry if a trap is pending, and what the fetch
        at pc gave. */
    method Cycle(hint: Option<nat>, fetched: Fetched) returns (acked: Option<nat>)
      requires Valid() && trapType < 0x100 && irl < 16 && !errorMode && InputOk(Input(hint, fetched))
      modifies this, globals, locals, outs
      ensures Valid() && L() == Turn(old(L()), Input(hint, fetched)) && acked == Acked(old(L()), hint)
    {
      acked := Begin(hint);
      match fetched
      case Fetched(insn, a) => ExecuteFetched(insn, a);
      case Faulted(noFault) => FetchFault(noFault);
    }

    /** Any run of the main loop is a run of turns; it keeps the window pointer in range, its cached base in step and
        %g0 at 0, and ends early only where the emulator stops. */
    method RunCycles(inputs: seq<Input>) returns (done: nat)
      requires Valid() && trapType < 0x100 && irl < 16 && InputsOk(inputs)
      modifies this, globals, locals, outs
      ensures Valid() && L() == Turns(old(L()), inputs) && done <= |inputs| && (done < |inputs| ==> errorMode)
    {
      done := 0;
      while done < |inputs| && !errorMode
        invariant Valid() && done <= |inputs| && L() == Turns(old(L()), inputs[..done])
      {
        var _ := Cycle(inputs[done].hint, inputs[done].fetched);
        TurnsLast(old(L()), inputs, done);
        done := done + 1;
      }
      if errorMode {
        StoppedStays(old(L()), inputs, done);
      } else {
        assert inputs[..done] == inputs;
      }
    }

    /* Programs */

    /** 32 MULSCC instructions by r[rs2] and one by 0, starting with 0 in rd, N = V and the multiplier in Y, leave
        the product of unsigned Y and signed r[rs2] in rd and Y. */
    method MultiplyProgram(rd: nat, rs2: nat)
      requires Valid() && Running() && 0 < rd < 32 && rs2 < 32 && rs2 != rd
      requires Windows.Get(F(), psr.cwp, rd) == 0 && psr.icc.n == psr.icc.v
      modifies this`pc, this`npc, this`psr, this`trapType, this`errorMode, this`yReg, this`wim, this`tbr, this`cwpBase,
               globals, locals, outs
      ensures Valid() && Running() && psr.cwp == old(psr.cwp)
      ensures Windows.Get(F(), psr.cwp, rd) * 0x1_0000_0000 + yReg
           == old(yReg * Signed(Windows.Get(F(), psr.cwp, rs2))) % Alu.TWO64
    {
      ghost var s, b := Acc(rd), Windows.Get(F(), psr.cwp, rs2);
      for n := 0 to 32
        invariant Valid() && Running() && psr.cwp == old(psr.cwp) && Windows.Get(F(), psr.cwp, rs2) == b
        invariant Acc(rd) == Alu.Steps(s, b, n)
      {
        MulsccInstruction(rd, Windows.Reg(rs2), rs2);
        Alu.StepsLast(s, b, n);
      }
      MulsccInstruction(rd, Windows.Imm(0), rs2);
      Alu.MultiplyBySteps(s.y, b, s.icc);
      Alu.WideIsPair(Acc(rd));
    }

    ghost function Acc(rd: nat): Alu.MulStep
      requires Valid() && rd < 32
      reads this, globals, locals, outs
    {
      Alu.MulStep(Windows.Get(F(), psr.cwp, rd), yReg, psr.icc)
    }

    /** One MULSCC with rd as accumulator; register r is another one. */
    method MulsccInstruction(rd: nat, src: Windows.Source, ghost r: nat)
      requires Valid() && Running() && 0 < rd < 32 && (src.Reg? ==> src.r < 32) && r < 32 && r != rd
      modifies this`pc, this`npc, this`psr, this`trapType, this`errorMode, this`yReg, this`wim, this`tbr, this`cwpBase,
               globals, locals, outs
      ensures Valid() && Running() && psr.cwp == old(psr.cwp) &&
              Windows.Get(F(), psr.cwp, r) == old(Windows.Get(F(), psr.cwp, r))
      ensures Acc(rd) == Alu.Mulscc(old(Acc(rd)), if src.Imm? then src.value else old(Windows.Get(F(), psr.cwp, src.r)))
    {
      ghost var o := Alu.Mulscc(Acc(rd), if src.Imm? then src.value else Windows.Get(F(), psr.cwp, src.r));
      Windows.PutGet(F(), psr.cwp, rd, o.acc, rd);
      Windows.PutGet(F(), psr.cwp, rd, o.acc, r);
      MulsccRetires(C(), rd, src, NO_ACCESS);
      ExecuteOne(Insn(Opcode.MulStep, rd, rd, src), NO_ACCESS);
    }

    /* Register windows */

    ghost function M(): Windows.Machine
      requires Shaped()
      reads this, globals, locals, outs
    {
      Windows.Machine(F(), psr.cwp)
    }

    /** The windows WIM marks invalid. */
    ghost function Marked(): set<nat>
      reads this
    {
      set w: nat | w < 8 && Bit(wim, w)
    }

    method WindowChange(op: Windows.Op)
      requires Valid() && Running() && Windows.OpOk(op) && (op.Save? || op.Restore?)
      modifies this`pc, this`npc, this`psr, this`trapType, this`errorMode, this`yReg, this`wim, this`tbr, this`cwpBase,
               globals, locals, outs
      ensures Valid() && wim == old(wim)
      ensures var w := if op.Save? then Windows.Prev(old(psr.cwp)) else Windows.Next(old(psr.cwp));
              && (Running() <==> w !in Marked())
              && (Running() ==>
                    psr.cwp == w && F() == Windows.Put(old(F()), w, op.rd, old(Windows.Sum(M(), op.rs1, op.src))))
    {
      WindowRetires(C(), op.Save?, op.rs1, op.src, op.rd, NO_ACCESS);
      ExecuteOne(Insn(if op.Save? then Opcode.Save else Opcode.Restore, op.rd, op.rs1, op.src), NO_ACCESS);
    }

    /** SAVE, RESTORE and register accesses step as the bare window machine does. */
    method WindowOp(op: Windows.Op) returns (seen: seq<Word>)
      requires Valid() && Running() && Windows.OpOk(op)
      modifies this`pc, this`npc, this`psr, this`trapType, this`errorMode, this`yReg, this`wim, this`tbr, this`cwpBase,
               globals, locals, outs
      ensures Valid() && wim == old(wim) && (Running() <==> Windows.Step(old(M()), Marked(), op).Some?)
      ensures Running() ==> Windows.Step(old(M()), Marked(), op) == Some((M(), seen))
    {
      seen := [];
      match op
      case Set(rd, value) => WriteReg(value, rd);
      case Look(r) =>
        var v := ReadReg(r);
        seen := [v];
      case _ => WindowChange(op);
    }

    /** A run of them is a run of the window machine; if it meets no trap, whatever the stack of frames
        promises about a register it reads is what it reads. */
    method RunWindowOps(ops: seq<Windows.Op>, ghost s: Windows.Stack) returns (seen: seq<Word>)
      requires Valid() && Running() && Windows.OpsOk(ops)
      requires Windows.Next(psr.cwp) in Marked() && Windows.Holds(M(), psr.cwp, s)
      modifies this`pc, this`npc, this`psr, this`trapType, this`errorMode, this`yReg, this`wim, this`tbr, this`cwpBase,
               globals, locals, outs
      ensures Valid() && wim == old(wim) && (Running() <==> Windows.Run(old(M()), Marked(), ops).Some?)
      ensures Running() ==>
                && Windows.Run(old(M()), Marked(), ops) == Some((M(), seen))
                && Windows.AbsRun(s, ops).Some?
                && Windows.Holds(M(), old(psr.cwp), Windows.AbsRun(s, ops).value.0)
                && Windows.AllAgree(Windows.AbsRun(s, ops).value.1, seen)
    {
      ghost var m := M();
      seen := WindowOps(ops);
      if Running() {
        Windows.RunRefines(m, Marked(), m.cwp, s, ops);
      }
    }

    method WindowOps(ops: seq<Windows.Op>) returns (seen: seq<Word>)
      requires Valid() && Running() && Windows.OpsOk(ops)
      modifies this`pc, this`npc, this`psr, this`trapType, this`errorMode, this`yReg, this`wim, this`tbr, this`cwpBase,
               globals, locals, outs
      ensures Valid() && wim == old(wim) && (Running() <==> Windows.Run(old(M()), Marked(), ops).Some?)
      ensures Running() ==> Windows.Run(old(M()), Marked(), ops) == Some((M(), seen))
      decreases |ops|
    {
      seen := [];
      if ops == [] {
        return;
      }
      var first := WindowOp(ops[0]);
      if Running() {
        var rest := WindowOps(ops[1..]);
        seen := first + rest;
      }
    }
  }

  /** Where a trap interrupted the program. */
  datatype Context = Context(pc: Word, npc: Word, cwp: nat, s: bool)
}
