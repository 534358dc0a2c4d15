/** The instruction set of the integer unit on values: what each instruction does to the registers, and which
    trap it raises. Memory, floating-point and alternate-space units answer through parameters. */
module Isa {
  import opened Words
  import Alu
  import Windows

  /* Trap types */

  const INSTRUCTION_ACCESS_EXCEPTION: nat := 0x01
  const ILLEGAL_INSTRUCTION: nat := 0x02
  const PRIVILEGED_INSTRUCTION: nat := 0x03
  const FP_DISABLED: nat := 0x04
  const WINDOW_OVERFLOW: nat := 0x05
  const WINDOW_UNDERFLOW: nat := 0x06
  const MEMORY_ADDR_NOT_ALIGNED: nat := 0x07
  const DATA_ACCESS_EXCEPTION: nat := 0x09
  const TAG_OVERFLOW: nat := 0x0A
  const INTERRUPT: nat := 0x10
  const DIVISION_BY_ZERO: nat := 0x2A
  const TRAP_INSTRUCTION: nat := 0x80

  /** The processor status register; implementation 0xF and the reserved fields are constant. */
  datatype Psr = Psr(cwp: nat, et: bool, ps: bool, s: bool, pil: nat, ef: bool, icc: Alu.Icc, ver: nat)

  const RESET_PSR: Psr := Psr(0, true, false, true, 0, true, Alu.Icc(false, false, false, false), 3)

  function Plus(a: Word, b: nat): Word {
    (a + b) % 0x1_0000_0000
  }

  function Flag(b: bool): int {
    if b then 1 else 0
  }

  predicate PsrOk(p: Psr) {
    p.cwp < 32 && p.pil < 16 && p.ver < 16
  }

  /** The status register as RDPSR reads it. */
  function PsrWord(p: Psr): Word
    requires PsrOk(p)
  {
    Pack(p.ver, Flag(p.icc.n), Flag(p.icc.z), Flag(p.icc.v), Flag(p.icc.c), Flag(p.ef), p.pil,
         Flag(p.s), Flag(p.ps), Flag(p.et), p.cwp)
  }

  function Pack(ver: int, n: int, z: int, v: int, c: int, ef: int, pil: int, s: int, ps: int, et: int, cwp: int): int {
    0xF000_0000 + 0x100_0000 * ver + 0x80_0000 * n + 0x40_0000 * z + 0x20_0000 * v + 0x10_0000 * c
    + 0x1000 * ef + 0x100 * pil + 0x80 * s + 0x40 * ps + 0x20 * et + cwp
  }

  /** What WRPSR makes of a word: version bits 0 and 1 are hard-wired, coprocessor and reserved bits are 0. */
  function PsrOf(x: Word): (p: Psr)
    ensures PsrOk(p) && p.ver % 4 == 3
  {
    Psr(x % 32, x / 0x20 % 2 == 1, x / 0x40 % 2 == 1, x / 0x80 % 2 == 1, x / 0x100 % 16, x / 0x1000 % 2 == 1,
        Alu.Icc(x / 0x80_0000 % 2 == 1, x / 0x40_0000 % 2 == 1, x / 0x20_0000 % 2 == 1, x / 0x10_0000 % 2 == 1),
        x / 0x400_0000 % 4 * 4 + 3)
  }

  /** The digit of weight `unit` in a number. */
  lemma Digit(x: int, unit: int, size: int, low: int, d: int, high: int)
    requires unit > 0 && x == low + unit * (d + size * high) && 0 <= low < unit && 0 <= d < size
    ensures x / unit % size == d
  {
    DivUnique(x, unit, d + size * high, low);
    DivUnique(d + size * high, size, high, d);
  }

  /** The low byte of the status register, by its fields. */
  lemma LowFields(x: int, high: int, s: int, ps: int, et: int, cwp: int)
    requires 0 <= s <= 1 && 0 <= ps <= 1 && 0 <= et <= 1 && 0 <= cwp < 32
    requires x == 0x100 * high + 0x80 * s + 0x40 * ps + 0x20 * et + cwp
    ensures x % 32 == cwp && x / 0x20 % 2 == et && x / 0x40 % 2 == ps && x / 0x80 % 2 == s
  {
    Digit(x, 1, 32, 0, cwp, 8 * high + 4 * s + 2 * ps + et);
    Digit(x, 0x20, 2, cwp, et, 4 * high + 2 * s + ps);
    Digit(x, 0x40, 2, 0x20 * et + cwp, ps, 2 * high + s);
    Digit(x, 0x80, 2, 0x40 * ps + 0x20 * et + cwp, s, high);
  }

  lemma MiddleFields(x: int, low: int, pil: int, ef: int, high: int)
    requires 0 <= low < 0x100 && 0 <= pil < 16 && 0 <= ef <= 1
    requires x == 0x10_0000 * high + 0x1000 * ef + 0x100 * pil + low
    ensures x / 0x100 % 16 == pil && x / 0x1000 % 2 == ef
  {
    Digit(x, 0x100, 16, low, pil, ef + 256 * high);
    Digit(x, 0x1000, 2, 0x100 * pil + low, ef, 128 * high);
  }

  lemma HighFields(x: int, low: int, n: int, z: int, v: int, c: int, t: int)
    requires 0 <= low < 0x10_0000 && 0 <= n <= 1 && 0 <= z <= 1 && 0 <= v <= 1 && 0 <= c <= 1 && 0 <= t < 4
    requires x == 0xF000_0000 + 0x100_0000 * (4 * t + 3)
                  + 0x80_0000 * n + 0x40_0000 * z + 0x20_0000 * v + 0x10_0000 * c + low
    ensures x / 0x10_0000 % 2 == c && x / 0x20_0000 % 2 == v && x / 0x40_0000 % 2 == z && x / 0x80_0000 % 2 == n
    ensures x / 0x400_0000 % 4 == t
  {
    var h := 240 + 4 * t + 3;
    Digit(x, 0x10_0000, 2, low, c, v + 2 * z + 4 * n + 8 * h);
    Digit(x, 0x20_0000, 2, 0x10_0000 * c + low, v, z + 2 * n + 4 * h);
    Digit(x, 0x40_0000, 2, 0x20_0000 * v + 0x10_0000 * c + low, z, n + 2 * h);
    Digit(x, 0x80_0000, 2, 0x40_0000 * z + 0x20_0000 * v + 0x10_0000 * c + low, n, h);
    Digit(x, 0x400_0000, 4, 0x300_0000 + 0x80_0000 * n + 0x40_0000 * z + 0x20_0000 * v + 0x10_0000 * c + low, t, 15);
  }

  lemma PackFields(ver: int, n: int, z: int, v: int, c: int, ef: int, pil: int, s: int, ps: int, et: int, cwp: int)
    requires 0 <= n <= 1 && 0 <= z <= 1 && 0 <= v <= 1 && 0 <= c <= 1 && 0 <= ef <= 1
    requires 0 <= s <= 1 && 0 <= ps <= 1 && 0 <= et <= 1 && 0 <= pil < 16 &&
             0 <= cwp < 32 && 0 <= ver < 16 && ver % 4 == 3
    ensures var x := Pack(ver, n, z, v, c, ef, pil, s, ps, et, cwp);
            && x % 32 == cwp && x / 0x20 % 2 == et && x / 0x40 % 2 == ps && x / 0x80 % 2 == s
            && x / 0x100 % 16 == pil && x / 0x1000 % 2 == ef
            && x / 0x10_0000 % 2 == c && x / 0x20_0000 % 2 == v && x / 0x40_0000 % 2 == z && x / 0x80_0000 % 2 == n
            && x / 0x400_0000 % 4 * 4 + 3 == ver
  {
    var x := Pack(ver, n, z, v, c, ef, pil, s, ps, et, cwp);
    var low := 0x80 * s + 0x40 * ps + 0x20 * et + cwp;
    var middle := 0x1000 * ef + 0x100 * pil + low;
    var high := 0xF00 + 0x10 * ver + 8 * n + 4 * z + 2 * v + c;
    HighFields(x, middle, n, z, v, c, ver / 4);
    MiddleFields(x, low, pil, ef, high);
    LowFields(x, 0x1000 * high + 0x10 * ef + pil, s, ps, et, cwp);
  }

  lemma PsrFromFields(p: Psr, x: Word)
    requires x % 32 == p.cwp && x / 0x20 % 2 == Flag(p.et) && x / 0x40 % 2 == Flag(p.ps) && x / 0x80 % 2 == Flag(p.s)
    requires x / 0x100 % 16 == p.pil && x / 0x1000 % 2 == Flag(p.ef)
    requires x / 0x10_0000 % 2 == Flag(p.icc.c) && x / 0x20_0000 % 2 == Flag(p.icc.v)
    requires x / 0x40_0000 % 2 == Flag(p.icc.z) && x / 0x80_0000 % 2 == Flag(p.icc.n)
    requires x / 0x400_0000 % 4 * 4 + 3 == p.ver
    ensures PsrOf(x) == p
  {
  }

  /** Reading the status register and writing it back changes nothing. */
  lemma PsrRoundTrip(p: Psr, x: Word)
    requires PsrOk(p) && p.ver % 4 == 3 && x == PsrWord(p)
    ensures PsrOf(x) == p
  {
    PackFields(p.ver, Flag(p.icc.n), Flag(p.icc.z), Flag(p.icc.v), Flag(p.icc.c), Flag(p.ef), p.pil,
               Flag(p.s), Flag(p.ps), Flag(p.et), p.cwp);
    PsrFromFields(p, x);
  }

  /* Instructions */

  /** How the memory system answers an access. */
  datatype Reply = Reply(ok: bool, value: Word)

  /** How memory answers the accesses of one instruction. */
  datatype Access = Access(first: Reply, second: Reply, noFault: bool)

  const NO_ACCESS: Access := Access(Reply(true, 0), Reply(true, 0), false)

  function Extended(size: nat, signed: bool, v: Word): Word {
    if signed && size == 1 && v / 0x80 % 2 == 1 then 0xFFFF_FF00 + v % 0x100
    else if signed && size == 2 && v / 0x8000 % 2 == 1 then 0xFFFF_0000 + v % 0x1_0000
    else v
  }

  datatype Special = Y | PSR | WIM | TBR

  /** What the floating-point unit does with an instruction, as far as the integer unit sees it. */
  datatype FloatReply = FloatDone | FloatBranch(taken: bool, annul: bool, disp: Word) | FloatTrap(tn: nat) | FloatStop

  /** `Constant` is SETHI and the read of the processor's configuration word; `Nop` is FLUSH, STBAR and a write
      to the power-down register; `Unimplemented` ends the run, and so does `UnknownAsr`, a read or write of an
      ancillary state register the processor does not have, once it has stepped on. */
  datatype Opcode =
    | AddSub(op3: nat)
    | Logic(op3: nat)
    | Shift(kind: Alu.ShiftKind)
    | Constant(value: Word)
    | Nop
    | MulStep
    | Multiply(op3: nat)
    | Divide(op3: nat)
    | ReadSpecial(which: Special)
    | WriteSpecial(which: Special)
    | Save
    | Restore
    | Jmpl
    | Rett
    | Ticc(cond: nat)
    | Call(disp: Word)
    | Bicc(cond: nat, annul: bool, disp: Word)
    | Float(reply: FloatReply)
    | Unimplemented
    | UnknownAsr
    | Load(size: nat, signed: bool)
    | LoadDouble
    | Store(size: nat)
    | StoreDouble
    | Swap
    | Ldstub
    | LoadAlternate(answer: Option<Word>)
    | StoreAlternate(known: bool)
    | SwapAlternate(asi: nat)
    | Casa(asi: nat)

  predicate IsArithmetic(op: Opcode) {
    op.AddSub? || op.Logic? || op.Shift? || op.Constant? || op.Nop? || IsMultiply(op)
  }

  predicate IsMultiply(op: Opcode) {
    op.MulStep? || op.Multiply? || op.Divide?
  }

  predicate IsSpecial(op: Opcode) {
    op.ReadSpecial? || op.WriteSpecial?
  }

  predicate IsControl(op: Opcode) {
    || IsTransfer(op) || (op.Ticc? && op.cond < 16) || op.Call? || op.Unimplemented?
    || (op.Bicc? && op.cond < 16) || (op.Float? && (op.reply.FloatTrap? ==> 0 < op.reply.tn < 0x100))
  }

  predicate IsTransfer(op: Opcode) {
    op.Save? || op.Restore? || op.Jmpl? || op.Rett?
  }

  predicate IsMemory(op: Opcode) {
    || ((op.Load? || op.Store?) && (op.size == 1 || op.size == 2 || op.size == 4))
    || op.LoadDouble? || op.StoreDouble? || op.Swap? || op.Ldstub?
  }

  predicate IsAlternate(op: Opcode) {
    op.LoadAlternate? || op.StoreAlternate? || op.SwapAlternate? || op.Casa?
  }

  predicate OpcodeOk(op: Opcode) {
    IsArithmetic(op) || IsSpecial(op) || IsControl(op) || IsMemory(op) || IsAlternate(op) || op.UnknownAsr?
  }

  /** A decoded instruction. */
  datatype Insn = Insn(op: Opcode, rd: nat, rs1: nat, src: Windows.Source)

  predicate InsnOk(i: Insn) {
    OpcodeOk(i.op) && i.rd < 32 && i.rs1 < 32 && (i.src.Reg? ==> i.src.r < 32)
  }

  /** Control transfers, SAVE, RESTORE and memory instructions add r[rs1] to their second operand. */
  predicate AddsRs1(op: Opcode) {
    IsControl(op) || IsMemory(op) || IsAlternate(op)
  }

  /** What an instruction works on: r[rs1], the second operand or address, whether that was immediate, and the
      answers of memory. */
  datatype Inputs = Inputs(rs1: Word, ev: Word, imm: bool, a: Access)

  function InputsOf(c: Core, i: Insn, a: Access): Inputs
    requires CoreOk(c) && InsnOk(i)
  {
    var rs1 := Windows.Get(c.file, c.psr.cwp, i.rs1);
    var second := if i.src.Imm? then i.src.value else Windows.Get(c.file, c.psr.cwp, i.src.r);
    Inputs(rs1, if AddsRs1(i.op) then Plus(second, rs1) else second, i.src.Imm?, a)
  }

  /** x + y, or what is left of it in a word. */
  predicate IsSum(v: Word, x: Word, y: Word) {
    v == x + y || v + 0x1_0000_0000 == x + y
  }

  /** Control transfers, memory and alternate-space instructions work on the sum of r[rs1] and the second operand; the
      others on the operand itself. */
  lemma EffectiveOperand(c: Core, i: Insn, a: Access)
    requires CoreOk(c) && InsnOk(i)
    ensures var n := InputsOf(c, i, a);
            var second := if i.src.Imm? then i.src.value else Windows.Get(c.file, c.psr.cwp, i.src.r);
            && n.rs1 == Windows.Get(c.file, c.psr.cwp, i.rs1) && n.a == a && n.imm == i.src.Imm?
            && if IsControl(i.op) || IsMemory(i.op) || IsAlternate(i.op) then IsSum(n.ev, n.rs1, second)
               else n.ev == second
  {
  }

  /** A byte or half that is loaded signed keeps its value: it is the number of that width with those bits. */
  lemma ExtendedValue(size: nat, v: Word)
    requires (size == 1 && v < 0x100) || (size == 2 && v < 0x1_0000) || size == 4
    ensures Extended(size, false, v) == v
    ensures var s := Signed(Extended(size, true, v));
            && (size == 1 ==> -0x80 <= s < 0x80 && (s == v || s == v - 0x100))
            && (size == 2 ==> -0x8000 <= s < 0x8000 && (s == v || s == v - 0x1_0000))
            && (size == 4 ==> s == Signed(v))
  {
  }

  /** The state an instruction works on. */
  datatype Core = Core(pc: Word, npc: Word, psr: Psr, y: Word, wim: Word, tbr: Word, file: Windows.File)

  predicate CoreOk(c: Core) {
    Windows.Shaped(c.file) && c.psr.cwp < 8 && PsrOk(c.psr)
  }

  /* Which instruction raises which trap */

  /** An instruction retires, raises a trap, or stops the emulator. */
  datatype Fate = Retires | Traps(tn: nat) | Stops

  function Unless(trap: bool, tn: nat): Fate {
    if trap then Traps(tn) else Retires
  }

  function RettFate(p: Psr, wim: Word, target: Word): Fate {
    if !p.s then Traps(PRIVILEGED_INSTRUCTION)
    else if p.et then Traps(ILLEGAL_INSTRUCTION)
    else if target % 4 != 0 then Traps(MEMORY_ADDR_NOT_ALIGNED)
    else Unless(Bit(wim, Windows.Next(p.cwp)), WINDOW_UNDERFLOW)
  }

  function AccessFate(misaligned: bool, ok: bool, noFault: bool): Fate {
    if misaligned then Traps(MEMORY_ADDR_NOT_ALIGNED) else Unless(!ok && !noFault, DATA_ACCESS_EXCEPTION)
  }

  function DoubleFate(rd: nat, ev: Word, a: Access): Fate {
    if rd % 2 != 0 then Traps(ILLEGAL_INSTRUCTION) else AccessFate(ev % 8 != 0, a.first.ok && a.second.ok, a.noFault)
  }

  function FloatFate(p: Psr, r: FloatReply): Fate {
    if !p.ef then Traps(FP_DISABLED)
    else match r
         case FloatTrap(tn) => Traps(tn)
         case FloatStop => Stops
         case _ => Retires
  }

  /** -2^63 / -1, and an arithmetic shift of a negative word by a non-zero multiple of 32, are undefined. */
  function ArithmeticFate(op: Opcode, c: Core, n: Inputs): Fate
    requires IsArithmetic(op)
  {
    match op
    case AddSub(op3) => Unless(Alu.AddUnit(op3, n.rs1, n.ev, c.psr.icc).tagTrap, TAG_OVERFLOW)
    case Divide(op3) =>
      if n.ev == 0 then Traps(DIVISION_BY_ZERO)
      else if op3 % 2 == 1 && c.y == 0x8000_0000 && n.rs1 == 0 && n.ev == 0xFFFF_FFFF then Stops
      else Retires
    case Shift(kind) => if kind.Arithmetic? && Alu.Top(n.rs1) && n.ev != 0 && n.ev % 32 == 0 then Stops else Retires
    case _ => Retires
  }

  function SpecialFate(op: Opcode, c: Core, n: Inputs): Fate
    requires IsSpecial(op)
  {
    if op.WriteSpecial? && op.which.PSR? && Xor32(n.rs1, n.ev) % 32 >= 8 then Traps(ILLEGAL_INSTRUCTION)
    else Unless(!op.which.Y? && !c.psr.s, PRIVILEGED_INSTRUCTION)
  }

  function ControlFate(op: Opcode, c: Core, n: Inputs): Fate
    requires IsControl(op)
  {
    match op
    case Save => Unless(Bit(c.wim, Windows.Prev(c.psr.cwp)), WINDOW_OVERFLOW)
    case Restore => Unless(Bit(c.wim, Windows.Next(c.psr.cwp)), WINDOW_UNDERFLOW)
    case Jmpl => Unless(n.ev % 4 != 0, MEMORY_ADDR_NOT_ALIGNED)
    case Rett => RettFate(c.psr, c.wim, n.ev)
    case Ticc(cond) => Unless(Alu.TestCc(cond, c.psr.icc), TRAP_INSTRUCTION + n.ev % 0x80)
    case Float(reply) => FloatFate(c.psr, reply)
    case Unimplemented => Stops
    case _ => Retires
  }

  function MemoryFate(op: Opcode, rd: nat, n: Inputs): Fate
    requires IsMemory(op)
  {
    match op
    case Load(size, _) => AccessFate(n.ev % size != 0, n.a.first.ok, n.a.noFault)
    case Store(size) => AccessFate(n.ev % size != 0, n.a.first.ok, n.a.noFault)
    case Swap => AccessFate(n.ev % 4 != 0, n.a.first.ok, n.a.noFault)
    case Ldstub => Unless(!n.a.first.ok, DATA_ACCESS_EXCEPTION)
    case _ => DoubleFate(rd, n.ev, n.a)
  }

  /** The alternate-space forms know few spaces and stop the emulator on the others; LDA and STA have no immediate
      form, and CASA with the user-data space is not privileged. */
  function AlternateFate(op: Opcode, c: Core, n: Inputs): Fate
    requires IsAlternate(op)
  {
    match op
    case LoadAlternate(answer) =>
      if !c.psr.s then Traps(PRIVILEGED_INSTRUCTION)
      else if n.imm then Traps(ILLEGAL_INSTRUCTION)
      else if answer.None? then Stops else Retires
    case StoreAlternate(known) =>
      if !c.psr.s then Traps(PRIVILEGED_INSTRUCTION)
      else if n.imm then Traps(ILLEGAL_INSTRUCTION)
      else if n.ev % 4 != 0 then Traps(MEMORY_ADDR_NOT_ALIGNED)
      else if !known then Stops else Retires
    case SwapAlternate(asi) =>
      if asi != 1 then Stops
      else if !c.psr.s then Traps(PRIVILEGED_INSTRUCTION)
      else AccessFate(n.ev % 4 != 0, n.a.first.ok, n.a.noFault)
    case Casa(asi) =>
      if !c.psr.s && asi != 0xA then Traps(PRIVILEGED_INSTRUCTION)
      else if n.rs1 % 4 != 0 then Traps(MEMORY_ADDR_NOT_ALIGNED)
      else if asi != 0xA && asi != 0xB then Stops
      else Unless(!n.a.first.ok && !n.a.noFault, DATA_ACCESS_EXCEPTION)
  }

  /** Instructions that answer from the registers alone. */
  predicate IsRegister(op: Opcode) {
    IsArithmetic(op) || IsSpecial(op) || IsControl(op)
  }

  function RegisterFate(op: Opcode, c: Core, n: Inputs): Fate
    requires IsRegister(op)
  {
    if IsArithmetic(op) then ArithmeticFate(op, c, n)
    else if IsSpecial(op) then SpecialFate(op, c, n)
    else ControlFate(op, c, n)
  }

  function FateOf(op: Opcode, rd: nat, c: Core, n: Inputs): Fate
    requires OpcodeOk(op)
  {
    if IsRegister(op) then RegisterFate(op, c, n)
    else if IsMemory(op) then MemoryFate(op, rd, n)
    else if IsAlternate(op) then AlternateFate(op, c, n)
    else Stops
  }

  lemma FateInRange(op: Opcode, rd: nat, c: Core, n: Inputs)
    requires OpcodeOk(op)
    ensures var f := FateOf(op, rd, c, n); f.Traps? ==> 0 < f.tn < 0x100
  {
  }

  /* What an instruction that retires does */

  /** The state before the result is written back, and the result if there is one. */
  datatype Done = Done(core: Core, result: Option<(nat, Word)>)

  function Onward(c: Core): Core {
    c.(pc := c.npc, npc := Plus(c.npc, 4))
  }

  function SetsIcc(op3: nat): bool {
    op3 / 16 % 2 == 1 || Alu.IsTagged(op3)
  }

  function WithIcc(c: Core, icc: Alu.Icc): Core {
    c.(psr := c.psr.(icc := icc))
  }

  /** A branch with its delay slot annulled if it asks to be and is not a taken conditional one. */
  function Branched(c: Core, taken: bool, annul: bool, disp: Word): Core {
    var npc := if taken then Plus(c.pc, 4 * disp) else Plus(c.npc, 4);
    if annul then c.(pc := npc, npc := Plus(npc, 4)) else c.(pc := c.npc, npc := npc)
  }

  function ArithmeticDone(op: Opcode, rd: nat, c: Core, n: Inputs): Done
    requires IsArithmetic(op)
  {
    match op
    case AddSub(op3) =>
      var o := Alu.AddUnit(op3, n.rs1, n.ev, c.psr.icc);
      Done(if SetsIcc(op3) then WithIcc(Onward(c), o.icc) else Onward(c), Some((rd, o.value)))
    case Logic(op3) =>
      var z := Alu.Logic(op3, n.rs1, n.ev);
      Done(if op3 / 16 % 2 == 1 then WithIcc(Onward(c), Alu.LogicIcc(z)) else Onward(c), Some((rd, z)))
    case Shift(kind) => Done(Onward(c), Some((rd, Alu.Shift(kind, n.rs1, n.ev % 32))))
    case Constant(value) => Done(Onward(c), Some((rd, value)))
    case Nop => Done(Onward(c), None)
    case MulStep =>
      var o := Alu.Mulscc(Alu.MulStep(n.rs1, c.y, c.psr.icc), n.ev);
      Done(WithIcc(Onward(c), o.icc).(y := o.y), Some((rd, o.acc)))
    case Multiply(op3) =>
      var o := Alu.Mul(op3 % 2 == 1, n.rs1, n.ev);
      Done((if op3 / 16 % 2 == 1 then WithIcc(Onward(c), o.icc) else Onward(c)).(y := o.y), Some((rd, o.value)))
    case Divide(op3) =>
      match Alu.Div(op3 % 2 == 1, c.y, n.rs1, n.ev)
      case Quotient(q, y, icc) =>
        Done((if op3 / 16 % 2 == 1 then WithIcc(Onward(c), icc) else Onward(c)).(y := y), Some((rd, q)))
      case _ => Done(c, None)
  }

  function SpecialDone(op: Opcode, rd: nat, c: Core, n: Inputs): Done
    requires IsSpecial(op) && PsrOk(c.psr)
  {
    var x := Xor32(n.rs1, n.ev);
    match op
    case ReadSpecial(which) =>
      Done(Onward(c), Some((rd, match which
                                case Y => c.y
                                case PSR => PsrWord(c.psr)
                                case WIM => c.wim
                                case TBR => c.tbr)))
    case WriteSpecial(which) =>
      Done(match which
           case Y => Onward(c).(y := x)
           case PSR => Onward(c).(psr := PsrOf(x))
           case WIM => Onward(c).(wim := x % 0x100)
           case TBR => Onward(c).(tbr := x), None)
  }

  function ControlDone(op: Opcode, rd: nat, c: Core, n: Inputs): Done
    requires IsControl(op)
  {
    match op
    case Save => Done(Onward(c).(psr := c.psr.(cwp := Windows.Prev(c.psr.cwp))), Some((rd, n.ev)))
    case Restore => Done(Onward(c).(psr := c.psr.(cwp := Windows.Next(c.psr.cwp))), Some((rd, n.ev)))
    case Jmpl => Done(c.(pc := c.npc, npc := n.ev), Some((rd, c.pc)))
    case Rett =>
      Done(c.(pc := c.npc, npc := n.ev, psr := c.psr.(s := c.psr.ps, et := true, cwp := Windows.Next(c.psr.cwp))), None)
    case Call(disp) => Done(c.(pc := c.npc, npc := Plus(c.pc, 4 * disp)), Some((15, c.pc)))
    case Bicc(cond, annul, disp) =>
      var taken := Alu.TestCc(cond, c.psr.icc);
      Done(Branched(c, taken, annul && (!taken || cond % 8 == 0), disp), None)
    case Float(reply) =>
      Done(if reply.FloatBranch? then Branched(c, reply.taken, reply.annul, reply.disp) else Onward(c), None)
    case _ => Done(Onward(c), None)
  }

  /** What a memory instruction writes to the register file. */
  function Loaded(op: Opcode, rd: nat, f: Windows.File, w: nat, a: Access): Windows.File
    requires IsMemory(op) && Windows.Shaped(f) && w < 8 && rd < 32 && (op.LoadDouble? ==> rd % 2 == 0)
  {
    match op
    case Load(size, signed) => if a.first.ok then Windows.Put(f, w, rd, Extended(size, signed, a.first.value)) else f
    case LoadDouble =>
      if a.first.ok && a.second.ok then
        Windows.Put(Windows.Put(f, w, rd, a.first.value), w, rd + 1, a.second.value)
      else f
    case Swap => Windows.Put(f, w, rd, if a.first.ok then a.first.value else 0)
    case Ldstub => Windows.Put(f, w, rd, a.first.value % 0x100)
    case _ => f
  }

  function AlternateDone(op: Opcode, rd: nat, c: Core, n: Inputs): Done
    requires IsAlternate(op) && CoreOk(c) && rd < 32
  {
    match op
    case LoadAlternate(answer) => Done(Onward(c), if answer.None? then None else Some((rd, answer.value)))
    case StoreAlternate(_) => Done(Onward(c), None)
    case SwapAlternate(_) =>
      Done(Onward(c).(file := Windows.Put(c.file, c.psr.cwp, rd, if n.a.first.ok then n.a.first.value else 0)), None)
    case Casa(_) => Done(Onward(c).(file := Windows.Put(c.file, c.psr.cwp, rd, n.a.first.value)), None)
  }

  function RegisterDone(op: Opcode, rd: nat, c: Core, n: Inputs): Done
    requires IsRegister(op) && PsrOk(c.psr)
  {
    if IsArithmetic(op) then ArithmeticDone(op, rd, c, n)
    else if IsSpecial(op) then SpecialDone(op, rd, c, n)
    else ControlDone(op, rd, c, n)
  }

  function DoneOf(op: Opcode, rd: nat, c: Core, n: Inputs): Done
    requires OpcodeOk(op) && CoreOk(c) && rd < 32 && FateOf(op, rd, c, n).Retires?
  {
    if IsRegister(op) then RegisterDone(op, rd, c, n)
    else if IsMemory(op) then Done(Onward(c).(file := Loaded(op, rd, c.file, c.psr.cwp, n.a)), None)
    else AlternateDone(op, rd, c, n)
  }

  /** The state an instruction leaves that does not retire. */
  function Left(op: Opcode, c: Core): Core {
    if op.UnknownAsr? then Onward(c) else c
  }

  /** The state after write-back, which goes to the new window. */
  function WrittenBack(d: Done): Core
    requires DoneOk(d)
  {
    if d.result.None? then d.core
    else d.core.(file := Windows.Put(d.core.file, d.core.psr.cwp, d.result.value.0, d.result.value.1))
  }

  predicate DoneOk(d: Done) {
    CoreOk(d.core) && (d.result.Some? ==> d.result.value.0 < 32)
  }

  lemma ArithmeticDoneOk(op: Opcode, rd: nat, c: Core, n: Inputs)
    requires IsArithmetic(op) && CoreOk(c) && rd < 32
    ensures DoneOk(ArithmeticDone(op, rd, c, n))
  {
  }

  lemma SpecialDoneOk(op: Opcode, rd: nat, c: Core, n: Inputs)
    requires IsSpecial(op) && CoreOk(c) && rd < 32 && SpecialFate(op, c, n).Retires?
    ensures DoneOk(SpecialDone(op, rd, c, n))
  {
  }

  lemma ControlDoneOk(op: Opcode, rd: nat, c: Core, n: Inputs)
    requires IsControl(op) && CoreOk(c) && rd < 32
    ensures DoneOk(ControlDone(op, rd, c, n))
  {
  }

  lemma RegisterDoneOk(op: Opcode, rd: nat, c: Core, n: Inputs)
    requires IsRegister(op) && CoreOk(c) && rd < 32 && RegisterFate(op, c, n).Retires?
    ensures DoneOk(RegisterDone(op, rd, c, n))
  {
    if IsArithmetic(op) {
      ArithmeticDoneOk(op, rd, c, n);
    } else if IsSpecial(op) {
      SpecialDoneOk(op, rd, c, n);
    } else {
      ControlDoneOk(op, rd, c, n);
    }
  }

  lemma DoneIsOk(op: Opcode, rd: nat, c: Core, n: Inputs)
    requires OpcodeOk(op) && CoreOk(c) && rd < 32 && FateOf(op, rd, c, n).Retires?
    ensures DoneOk(DoneOf(op, rd, c, n))
  {
    if IsRegister(op) {
      RegisterDoneOk(op, rd, c, n);
    }
  }

  lemma RegisterKeepsFile(op: Opcode, rd: nat, c: Core, n: Inputs)
    requires IsRegister(op) && PsrOk(c.psr)
    ensures RegisterDone(op, rd, c, n).core.file == c.file
  {
  }

  lemma LoadedKeepsZero(op: Opcode, rd: nat, f: Windows.File, w: nat, a: Access)
    requires IsMemory(op) && Windows.Shaped(f) && w < 8 && rd < 32 && (op.LoadDouble? ==> rd % 2 == 0)
    requires f.globals[0] == 0
    ensures Loaded(op, rd, f, w, a).globals[0] == 0
  {
  }

  lemma AlternateKeepsZero(op: Opcode, rd: nat, c: Core, n: Inputs)
    requires IsAlternate(op) && CoreOk(c) && rd < 32 && c.file.globals[0] == 0
    ensures AlternateDone(op, rd, c, n).core.file.globals[0] == 0
  {
  }

  lemma WrittenKeepsZero(d: Done)
    requires DoneOk(d) && d.core.file.globals[0] == 0
    ensures WrittenBack(d).file.globals[0] == 0
  {
  }

  /** No instruction writes %g0. */
  lemma DoneKeepsZero(op: Opcode, rd: nat, c: Core, n: Inputs)
    requires OpcodeOk(op) && CoreOk(c) && rd < 32 && FateOf(op, rd, c, n).Retires? && c.file.globals[0] == 0
    requires DoneOk(DoneOf(op, rd, c, n))
    ensures WrittenBack(DoneOf(op, rd, c, n)).file.globals[0] == 0
  {
    ExecutionKeepsZero(op, rd, c, n);
    WrittenKeepsZero(DoneOf(op, rd, c, n));
  }

  lemma ExecutionKeepsZero(op: Opcode, rd: nat, c: Core, n: Inputs)
    requires OpcodeOk(op) && CoreOk(c) && rd < 32 && FateOf(op, rd, c, n).Retires? && c.file.globals[0] == 0
    requires Windows.Shaped(DoneOf(op, rd, c, n).core.file)
    ensures DoneOf(op, rd, c, n).core.file.globals[0] == 0
  {
    if IsRegister(op) {
      RegisterKeepsFile(op, rd, c, n);
    } else if IsMemory(op) {
      LoadedKeepsZero(op, rd, c.file, c.psr.cwp, n.a);
    } else {
      AlternateKeepsZero(op, rd, c, n);
    }
  }

  function Retired(c: Core, i: Insn, a: Access): Core
    requires CoreOk(c) && InsnOk(i) && FateOf(i.op, i.rd, c, InputsOf(c, i, a)).Retires?
  {
    DoneIsOk(i.op, i.rd, c, InputsOf(c, i, a));
    WrittenBack(DoneOf(i.op, i.rd, c, InputsOf(c, i, a)))
  }

  lemma MulsccRetires(c: Core, rd: nat, src: Windows.Source, a: Access)
    requires CoreOk(c) && rd < 32 && (src.Reg? ==> src.r < 32)
    ensures var i := Insn(MulStep, rd, rd, src);
            var o := Alu.Mulscc(Alu.MulStep(Windows.Get(c.file, c.psr.cwp, rd), c.y, c.psr.icc),
                                if src.Imm? then src.value else Windows.Get(c.file, c.psr.cwp, src.r));
            && FateOf(i.op, rd, c, InputsOf(c, i, a)).Retires?
            && Retired(c, i, a)
               == WithIcc(Onward(c), o.icc).(y := o.y, file := Windows.Put(c.file, c.psr.cwp, rd, o.acc))
  {
  }

  /** JMPL through a register, with nothing linked. */
  lemma JmplRetires(c: Core, r: nat, a: Access)
    requires CoreOk(c) && c.file.globals[0] == 0 && r < 32 && Windows.Get(c.file, c.psr.cwp, r) % 4 == 0
    ensures var i := Insn(Jmpl, 0, r, Windows.Imm(0));
            && FateOf(i.op, 0, c, InputsOf(c, i, a)).Retires?
            && Retired(c, i, a) == c.(pc := c.npc, npc := Windows.Get(c.file, c.psr.cwp, r))
  {
    Windows.PutZero(c.file, c.psr.cwp, c.pc);
  }

  /** RETT through a register, in a handler. */
  lemma RettRetires(c: Core, r: nat, a: Access)
    requires CoreOk(c) && r < 32 && Windows.Get(c.file, c.psr.cwp, r) % 4 == 0
    requires !c.psr.et && c.psr.s && !Bit(c.wim, Windows.Next(c.psr.cwp))
    ensures var i := Insn(Rett, 0, r, Windows.Imm(0));
            && FateOf(i.op, 0, c, InputsOf(c, i, a)).Retires?
            && Retired(c, i, a) == c.(pc := c.npc, npc := Windows.Get(c.file, c.psr.cwp, r),
                                      psr := c.psr.(s := c.psr.ps, et := true, cwp := Windows.Next(c.psr.cwp)))
  {
  }

  /** SAVE and RESTORE as the window machine has them. */
  lemma WindowRetires(c: Core, save: bool, rs1: nat, src: Windows.Source, rd: nat, a: Access)
    requires CoreOk(c) && rd < 32 && rs1 < 32 && (src.Reg? ==> src.r < 32)
    ensures var i := Insn(if save then Save else Restore, rd, rs1, src);
            var w := if save then Windows.Prev(c.psr.cwp) else Windows.Next(c.psr.cwp);
            var sum := Windows.Sum(Windows.Machine(c.file, c.psr.cwp), rs1, src);
            && (FateOf(i.op, rd, c, InputsOf(c, i, a)).Retires? <==> !Bit(c.wim, w))
            && (!Bit(c.wim, w) ==>
                  Retired(c, i, a) == Onward(c).(psr := c.psr.(cwp := w), file := Windows.Put(c.file, w, rd, sum)))
  {
  }

  /* Short programs */

  /** What the branch conditions are named after. */
  predicate Compares(cond: nat, x: Word, y: Word)
    requires cond < 16 && cond % 8 < 6
  {
    match cond % 8
    case 0 => cond == 8
    case 1 => (x == y) == (cond == 1)
    case 2 => (Signed(x) <= Signed(y)) == (cond == 2)
    case 3 => (Signed(x) < Signed(y)) == (cond == 3)
    case 4 => (x <= y) == (cond == 4)
    case _ => (x < y) == (cond == 5)
  }

  /** SUBcc into %g0. */
  lemma CompareRetires(c: Core, rs1: nat, src: Windows.Source, a: Access)
    requires CoreOk(c) && c.file.globals[0] == 0 && rs1 < 32 && (src.Reg? ==> src.r < 32)
    ensures var i := Insn(AddSub(Alu.SUBCC), 0, rs1, src);
            var n := InputsOf(c, i, a);
            && FateOf(i.op, 0, c, n).Retires?
            && Retired(c, i, a) == WithIcc(Onward(c), Alu.AddUnit(Alu.SUBCC, n.rs1, n.ev, c.psr.icc).icc)
  {
    var i := Insn(AddSub(Alu.SUBCC), 0, rs1, src);
    var n := InputsOf(c, i, a);
    Alu.SubExact(Alu.SUBCC, n.rs1, n.ev, c.psr.icc);
    Windows.PutZero(c.file, c.psr.cwp, Alu.AddUnit(Alu.SUBCC, n.rs1, n.ev, c.psr.icc).value);
  }

  /** After SUBcc a branch condition holds exactly when the operands compare that way. */
  lemma ConditionCompares(cond: nat, x: Word, y: Word, before: Alu.Icc)
    requires cond < 16 && cond % 8 < 6
    ensures Alu.TestCc(cond, Alu.AddUnit(Alu.SUBCC, x, y, before).icc) <==> Compares(cond, x, y)
  {
    Alu.CompareAndBranch(x, y, before);
  }

  lemma BranchRetires(c: Core, cond: nat, annul: bool, disp: Word, a: Access)
    requires CoreOk(c) && cond < 16
    ensures var i := Insn(Bicc(cond, annul, disp), 0, 0, Windows.Imm(0));
            var taken := Alu.TestCc(cond, c.psr.icc);
            && FateOf(i.op, 0, c, InputsOf(c, i, a)).Retires?
            && Retired(c, i, a) == Branched(c, taken, annul && (!taken || cond % 8 == 0), disp)
  {
  }

  /** A compare and a branch: the branch goes to its target exactly when the operands compare as its condition says,
      after its delay slot unless that is annulled. */
  lemma CompareThenBranch(c: Core, rs1: nat, src: Windows.Source, cond: nat, annul: bool, disp: Word, a: Access)
    requires CoreOk(c) && c.file.globals[0] == 0 && rs1 < 32 && (src.Reg? ==> src.r < 32) && cond < 16 && cond % 8 < 6
    ensures var i, j := Insn(AddSub(Alu.SUBCC), 0, rs1, src), Insn(Bicc(cond, annul, disp), 0, 0, Windows.Imm(0));
            var n := InputsOf(c, i, a);
            && FateOf(i.op, 0, c, n).Retires? && CoreOk(Retired(c, i, a))
            && var d := Retired(c, i, a);
            && FateOf(j.op, 0, d, InputsOf(d, j, a)).Retires?
            && var taken := Compares(cond, n.rs1, n.ev);
            && var to := if taken then Plus(d.pc, 4 * disp) else Plus(d.npc, 4);
            && var skips := annul && (!taken || cond % 8 == 0);
            && Retired(d, j, a) == if skips then d.(pc := to, npc := Plus(to, 4)) else d.(pc := d.npc, npc := to)
  {
    var n := InputsOf(c, Insn(AddSub(Alu.SUBCC), 0, rs1, src), a);
    CompareRetires(c, rs1, src, a);
    ConditionCompares(cond, n.rs1, n.ev, c.psr.icc);
    BranchRetires(Retired(c, Insn(AddSub(Alu.SUBCC), 0, rs1, src), a), cond, annul, disp, a);
  }

  lemma MultiplyRetires(c: Core, op3: nat, rd: nat, rs1: nat, rs2: nat, a: Access)
    requires CoreOk(c) && rd < 32 && rs1 < 32 && rs2 < 32
    ensures var i := Insn(Multiply(op3), rd, rs1, Windows.Reg(rs2));
            var o := Alu.Mul(op3 % 2 == 1, Windows.Get(c.file, c.psr.cwp, rs1), Windows.Get(c.file, c.psr.cwp, rs2));
            && FateOf(i.op, rd, c, InputsOf(c, i, a)).Retires?
            && var d := Retired(c, i, a);
               d.file == Windows.Put(c.file, c.psr.cwp, rd, o.value) &&
                   d.y == o.y && d.psr.cwp == c.psr.cwp && PsrOk(d.psr)
  {
  }

  lemma DivideRetires(c: Core, op3: nat, rd: nat, rs1: nat, rs2: nat, a: Access, q: Word)
    requires CoreOk(c) && rd < 32 && rs1 < 32 && rs2 < 32
    requires Windows.Get(c.file, c.psr.cwp, rs2) != 0
    requires var d := Alu.Div(op3 % 2 == 1, c.y, Windows.Get(c.file, c.psr.cwp, rs1),
                              Windows.Get(c.file, c.psr.cwp, rs2));
             d.Quotient? && d.value == q && d.y == 0
    ensures var i := Insn(Divide(op3), rd, rs1, Windows.Reg(rs2));
            && FateOf(i.op, rd, c, InputsOf(c, i, a)).Retires?
            && Retired(c, i, a).file == Windows.Put(c.file, c.psr.cwp, rd, q) && Retired(c, i, a).y == 0
  {
  }

  /** A product divided by its second factor through Y: the first factor is back in rd and nothing remains. */
  lemma MultiplyThenDivide(c: Core, mul: nat, div: nat, rd: nat, rs1: nat, rs2: nat, a: Access)
    requires CoreOk(c) && c.file.globals[0] == 0 && 0 < rd < 32 && rs1 < 32 && rs2 < 32 && rs2 != rd
    requires mul % 2 == div % 2 && Windows.Get(c.file, c.psr.cwp, rs2) != 0
    ensures var i, j := Insn(Multiply(mul), rd, rs1, Windows.Reg(rs2)), Insn(Divide(div), rd, rd, Windows.Reg(rs2));
            && FateOf(i.op, rd, c, InputsOf(c, i, a)).Retires? && CoreOk(Retired(c, i, a))
            && var d := Retired(c, i, a);
            && FateOf(j.op, rd, d, InputsOf(d, j, a)).Retires?
            && Windows.Get(Retired(d, j, a).file, c.psr.cwp, rd) == Windows.Get(c.file, c.psr.cwp, rs1)
            && Retired(d, j, a).y == 0
  {
    var x, y := Windows.Get(c.file, c.psr.cwp, rs1), Windows.Get(c.file, c.psr.cwp, rs2);
    MultiplyRetires(c, mul, rd, rs1, rs2, a);
    var o, d := Alu.Mul(mul % 2 == 1, x, y), Retired(c, Insn(Multiply(mul), rd, rs1, Windows.Reg(rs2)), a);
    Windows.PutGet(c.file, c.psr.cwp, rd, o.value, rd);
    Windows.PutGet(c.file, c.psr.cwp, rd, o.value, rs2);
    if mul % 2 == 1 {
      Alu.SmulSdiv(x, y);
    } else {
      Alu.UmulUdiv(x, y);
    }
    DivideRetires(d, div, rd, rd, rs2, a, x);
    Windows.PutGet(d.file, c.psr.cwp, rd, x, rd);
  }

  /** SAVE moves a register by x into the new window, and RESTORE by -x brings its value back to the caller. */
  lemma SaveThenRestore(c: Core, r: nat, x: Word, a: Access)
    requires CoreOk(c) && c.file.globals[0] == 0 && 0 < r < 32
    requires !Bit(c.wim, c.psr.cwp) && !Bit(c.wim, Windows.Prev(c.psr.cwp))
    ensures var i, j := Insn(Save, r, r, Windows.Imm(x)),
                        Insn(Restore, r, r, Windows.Imm((0x1_0000_0000 - x) % 0x1_0000_0000));
            && FateOf(i.op, r, c, InputsOf(c, i, a)).Retires? && CoreOk(Retired(c, i, a))
            && var d := Retired(c, i, a);
            && IsSum(Windows.Get(d.file, d.psr.cwp, r), Windows.Get(c.file, c.psr.cwp, r), x)
            && FateOf(j.op, r, d, InputsOf(d, j, a)).Retires?
            && Retired(d, j, a).psr.cwp == c.psr.cwp
            && Windows.Get(Retired(d, j, a).file, c.psr.cwp, r) == Windows.Get(c.file, c.psr.cwp, r)
  {
    var w, v := Windows.Prev(c.psr.cwp), Windows.Get(c.file, c.psr.cwp, r);
    WindowRetires(c, true, r, Windows.Imm(x), r, a);
    var sum := Windows.Add(v, x);
    Windows.PutGet(c.file, w, r, sum, r);
    var d := Retired(c, Insn(Save, r, r, Windows.Imm(x)), a);
    var y := (0x1_0000_0000 - x) % 0x1_0000_0000;
    WindowRetires(d, false, r, Windows.Imm(y), r, a);
    Windows.PutGet(d.file, c.psr.cwp, r, Windows.Add(sum, y), r);
    Undoes(v, x);
  }

  lemma Undoes(v: Word, x: Word)
    ensures Windows.Add(Windows.Add(v, x), (0x1_0000_0000 - x) % 0x1_0000_0000) == v && IsSum(Windows.Add(v, x), v, x)
  {
  }

  /* Laws of all instructions */

  /** What only the supervisor may change. */
  predicate SamePrivileges(c: Core, d: Core) {
    && d.wim == c.wim && d.tbr == c.tbr && d.psr.s == c.psr.s && d.psr.ps == c.psr.ps && d.psr.et == c.psr.et
    && d.psr.pil == c.psr.pil && d.psr.ef == c.psr.ef && d.psr.ver == c.psr.ver
  }

  lemma RegisterConfined(op: Opcode, rd: nat, c: Core, n: Inputs)
    requires IsRegister(op) && CoreOk(c) && !c.psr.s && RegisterFate(op, c, n).Retires?
    ensures SamePrivileges(c, RegisterDone(op, rd, c, n).core)
  {
  }

  /** No instruction of a user program changes the privileged state. */
  lemma UserConfined(c: Core, i: Insn, a: Access)
    requires CoreOk(c) && InsnOk(i) && !c.psr.s && FateOf(i.op, i.rd, c, InputsOf(c, i, a)).Retires?
    ensures SamePrivileges(c, Retired(c, i, a))
  {
    var n := InputsOf(c, i, a);
    DoneIsOk(i.op, i.rd, c, n);
    if IsRegister(i.op) {
      RegisterConfined(i.op, i.rd, c, n);
    }
  }

  /** Whether the instruction after next may be another than the one that follows. */
  predicate Transfers(op: Opcode) {
    op.Jmpl? || op.Rett? || op.Call? || op.Bicc? || (op.Float? && op.reply.FloatBranch?)
  }

  predicate Annuls(op: Opcode) {
    (op.Bicc? && op.annul) || (op.Float? && op.reply.FloatBranch? && op.reply.annul)
  }

  predicate Follows(op: Opcode, c: Core, d: Core) {
    (!Annuls(op) ==> d.pc == c.npc) && (!Transfers(op) ==> d.npc == Plus(c.npc, 4))
  }

  lemma ArithmeticFollows(op: Opcode, rd: nat, c: Core, n: Inputs)
    requires IsArithmetic(op) && ArithmeticFate(op, c, n).Retires?
    ensures Follows(op, c, ArithmeticDone(op, rd, c, n).core)
  {
  }

  lemma ControlFollows(op: Opcode, rd: nat, c: Core, n: Inputs)
    requires IsControl(op)
    ensures Follows(op, c, ControlDone(op, rd, c, n).core)
  {
  }

  lemma RegisterFollows(op: Opcode, rd: nat, c: Core, n: Inputs)
    requires IsRegister(op) && PsrOk(c.psr) && RegisterFate(op, c, n).Retires?
    ensures Follows(op, c, RegisterDone(op, rd, c, n).core)
  {
    if IsArithmetic(op) {
      ArithmeticFollows(op, rd, c, n);
    } else if IsControl(op) {
      ControlFollows(op, rd, c, n);
    }
  }

  lemma PlusIsSum(x: Word, y: Word)
    ensures IsSum(Plus(x, y), x, y)
  {
  }

  /** Control goes to nPC, unless a branch annuls that, and on from there, unless the instruction is a transfer. */
  lemma Sequence(c: Core, i: Insn, a: Access)
    requires CoreOk(c) && InsnOk(i) && FateOf(i.op, i.rd, c, InputsOf(c, i, a)).Retires?
    ensures var d := Retired(c, i, a);
            && (!Annuls(i.op) ==> d.pc == c.npc)
            && (!Transfers(i.op) ==> IsSum(d.npc, c.npc, 4))
  {
    var n := InputsOf(c, i, a);
    DoneIsOk(i.op, i.rd, c, n);
    PlusIsSum(c.npc, 4);
    if IsRegister(i.op) {
      RegisterFollows(i.op, i.rd, c, n);
    }
  }

  /** The cc forms, MULSCC and WRPSR set the condition codes. */
  predicate SetsFlags(op: Opcode) {
    match op
    case AddSub(op3) => op3 / 16 % 2 == 1 || op3 / 32 % 2 == 1
    case Logic(op3) => op3 / 16 % 2 == 1
    case Multiply(op3) => op3 / 16 % 2 == 1
    case Divide(op3) => op3 / 16 % 2 == 1
    case MulStep => true
    case WriteSpecial(which) => which.PSR?
    case _ => false
  }

  predicate SetsY(op: Opcode) {
    IsMultiply(op) || (op.WriteSpecial? && op.which.Y?)
  }

  predicate Keeps(op: Opcode, c: Core, d: Core) {
    (!SetsFlags(op) ==> d.psr.icc == c.psr.icc) && (!SetsY(op) ==> d.y == c.y)
  }

  lemma ArithmeticKeeps(op: Opcode, rd: nat, c: Core, n: Inputs)
    requires IsArithmetic(op)
    ensures Keeps(op, c, ArithmeticDone(op, rd, c, n).core)
  {
  }

  lemma RegisterKeeps(op: Opcode, rd: nat, c: Core, n: Inputs)
    requires IsRegister(op) && PsrOk(c.psr)
    ensures Keeps(op, c, RegisterDone(op, rd, c, n).core)
  {
    if IsArithmetic(op) {
      ArithmeticKeeps(op, rd, c, n);
    }
  }

  /** No other instruction touches the condition codes, or Y. */
  lemma FlagsKept(c: Core, i: Insn, a: Access)
    requires CoreOk(c) && InsnOk(i) && FateOf(i.op, i.rd, c, InputsOf(c, i, a)).Retires?
    ensures Keeps(i.op, c, Retired(c, i, a))
  {
    var n := InputsOf(c, i, a);
    DoneIsOk(i.op, i.rd, c, n);
    if IsRegister(i.op) {
      RegisterKeeps(i.op, i.rd, c, n);
    }
  }

  /** What a destination register ends up with. */
  predicate Delivers(op: Opcode, c: Core, n: Inputs, v: Word) {
    match op
    case AddSub(op3) => v == Alu.AddUnit(op3, n.rs1, n.ev, c.psr.icc).value
    case Logic(op3) => v == Alu.Logic(op3, n.rs1, n.ev)
    case Shift(kind) => v == Alu.Shift(kind, n.rs1, n.ev % 32)
    case Constant(value) => v == value
    case Jmpl => v == c.pc
    case Save => v == n.ev
    case Restore => v == n.ev
    case Load(size, signed) => n.a.first.ok ==> v == Extended(size, signed, n.a.first.value)
    case Swap => n.a.first.ok ==> v == n.a.first.value
    case SwapAlternate(_) => n.a.first.ok ==> v == n.a.first.value
    case Ldstub => v == n.a.first.value % 0x100
    case Casa(_) => v == n.a.first.value
    case LoadAlternate(answer) => answer == Some(v)
    case _ => true
  }

  lemma RegisterDelivers(op: Opcode, rd: nat, c: Core, n: Inputs)
    requires IsRegister(op) && CoreOk(c) && RegisterFate(op, c, n).Retires?
    ensures var d := RegisterDone(op, rd, c, n);
            && (d.result.Some? ==> Delivers(op, c, n, d.result.value.1))
            && (op.AddSub? || op.Logic? || op.Shift? || op.Constant? || op.Jmpl? || op.Save? || op.Restore? ==>
                  d.result.Some?)
  {
  }

  /** The destination register, in the window after the instruction, gets the result. */
  lemma Delivered(c: Core, i: Insn, a: Access)
    requires CoreOk(c) && c.file.globals[0] == 0 && InsnOk(i) && 0 < i.rd && !i.op.Call?
    requires FateOf(i.op, i.rd, c, InputsOf(c, i, a)).Retires?
    ensures var d := Retired(c, i, a);
            && d.psr.cwp < 8 && Windows.Shaped(d.file)
            && Delivers(i.op, c, InputsOf(c, i, a), Windows.Get(d.file, d.psr.cwp, i.rd))
  {
    var n := InputsOf(c, i, a);
    DoneIsOk(i.op, i.rd, c, n);
    var d := DoneOf(i.op, i.rd, c, n);
    if IsRegister(i.op) {
      RegisterResult(i.op, i.rd, c, n);
      RegisterDelivers(i.op, i.rd, c, n);
      if d.result.Some? {
        Windows.PutGet(c.file, d.core.psr.cwp, i.rd, d.result.value.1, i.rd);
      }
    } else if IsMemory(i.op) {
      MemoryDelivers(i.op, i.rd, c, n);
    } else {
      AlternateDelivers(i.op, i.rd, c, n);
    }
  }

  lemma MemoryDelivers(op: Opcode, rd: nat, c: Core, n: Inputs)
    requires IsMemory(op) && CoreOk(c) && c.file.globals[0] == 0 && 0 < rd < 32 && (op.LoadDouble? ==> rd % 2 == 0)
    ensures Delivers(op, c, n, Windows.Get(Loaded(op, rd, c.file, c.psr.cwp, n.a), c.psr.cwp, rd))
  {
  }

  lemma AlternateDelivers(op: Opcode, rd: nat, c: Core, n: Inputs)
    requires IsAlternate(op) && CoreOk(c) && c.file.globals[0] == 0 && 0 < rd < 32
    requires AlternateFate(op, c, n).Retires? && DoneOk(AlternateDone(op, rd, c, n))
    ensures var d := WrittenBack(AlternateDone(op, rd, c, n));
            d.psr == c.psr && Delivers(op, c, n, Windows.Get(d.file, c.psr.cwp, rd))
  {
  }

  /** The registers an instruction may write, as its window after it sees them. */
  predicate Writes(i: Insn, r: nat) {
    r == i.rd || (i.op.LoadDouble? && r == i.rd + 1) || (i.op.Call? && r == 15)
  }

  lemma RegisterResult(op: Opcode, rd: nat, c: Core, n: Inputs)
    requires IsRegister(op) && CoreOk(c) && RegisterFate(op, c, n).Retires?
    ensures var d := RegisterDone(op, rd, c, n);
            && d.core.file == c.file && (d.result.Some? ==> d.result.value.0 == if op.Call? then 15 else rd)
            && (!op.Save? && !op.Restore? && !op.Rett? && !op.WriteSpecial? ==> d.core.psr.cwp == c.psr.cwp)
  {
  }

  /** No register changes but the destination. */
  lemma OnlyDestination(c: Core, i: Insn, a: Access, r: nat)
    requires CoreOk(c) && c.file.globals[0] == 0 && InsnOk(i) && r < 32 && !Writes(i, r)
    requires FateOf(i.op, i.rd, c, InputsOf(c, i, a)).Retires?
    ensures var d := Retired(c, i, a);
            && d.psr.cwp < 8 && Windows.Shaped(d.file)
            && Windows.Get(d.file, d.psr.cwp, r) == Windows.Get(c.file, d.psr.cwp, r)
  {
    var n := InputsOf(c, i, a);
    DoneIsOk(i.op, i.rd, c, n);
    var d := DoneOf(i.op, i.rd, c, n);
    if IsRegister(i.op) {
      RegisterResult(i.op, i.rd, c, n);
      if d.result.Some? {
        Windows.PutGet(c.file, d.core.psr.cwp, d.result.value.0, d.result.value.1, r);
      }
    } else if IsMemory(i.op) {
      LoadedElsewhere(i.op, i.rd, c.file, c.psr.cwp, a, r);
    } else {
      AlternateElsewhere(i.op, i.rd, c, n, r);
    }
  }

  lemma LoadedElsewhere(op: Opcode, rd: nat, f: Windows.File, w: nat, a: Access, r: nat)
    requires IsMemory(op) && Windows.Shaped(f) && w < 8 && rd < 32 && (op.LoadDouble? ==> rd % 2 == 0)
    requires f.globals[0] == 0 && r < 32 && r != rd && (op.LoadDouble? ==> r != rd + 1)
    ensures Windows.Get(Loaded(op, rd, f, w, a), w, r) == Windows.Get(f, w, r)
  {
    if op.LoadDouble? {
      Windows.PutGet(f, w, rd, a.first.value, r);
      Windows.PutGet(Windows.Put(f, w, rd, a.first.value), w, rd + 1, a.second.value, r);
    }
  }

  lemma AlternateElsewhere(op: Opcode, rd: nat, c: Core, n: Inputs, r: nat)
    requires IsAlternate(op) && CoreOk(c) && c.file.globals[0] == 0 && rd < 32 && r < 32 && r != rd
    requires AlternateFate(op, c, n).Retires? && DoneOk(AlternateDone(op, rd, c, n))
    ensures var d := WrittenBack(AlternateDone(op, rd, c, n));
            d.psr == c.psr && Windows.Get(d.file, c.psr.cwp, r) == Windows.Get(c.file, c.psr.cwp, r)
  {
  }

  /** A doubleword load puts the first word in the even register and the second in the odd one. */
  lemma DoubleLoads(c: Core, i: Insn, a: Access)
    requires CoreOk(c) && c.file.globals[0] == 0 && InsnOk(i) && i.op.LoadDouble? && a.first.ok && a.second.ok
    requires FateOf(i.op, i.rd, c, InputsOf(c, i, a)).Retires?
    ensures var d := Retired(c, i, a);
            && i.rd % 2 == 0 && d.psr == c.psr && Windows.Shaped(d.file)
            && (i.rd != 0 ==> Windows.Get(d.file, c.psr.cwp, i.rd) == a.first.value)
            && Windows.Get(d.file, c.psr.cwp, i.rd + 1) == a.second.value
  {
    var f := Windows.Put(c.file, c.psr.cwp, i.rd, a.first.value);
    Windows.PutGet(c.file, c.psr.cwp, i.rd, a.first.value, i.rd);
    Windows.PutGet(f, c.psr.cwp, i.rd + 1, a.second.value, i.rd + 1);
    Windows.PutGet(f, c.psr.cwp, i.rd + 1, a.second.value, i.rd);
  }

  /** So many instructions on from pc, modulo 2^32. */
  predicate IsTarget(v: Word, pc: Word, disp: Word) {
    (v - pc - 4 * disp) % 0x1_0000_0000 == 0
  }

  lemma TargetOf(pc: Word, disp: Word)
    ensures IsTarget(Plus(pc, 4 * disp), pc, disp)
  {
    var x := pc + 4 * disp;
    assert Plus(pc, 4 * disp) == x - x / 0x1_0000_0000 * 0x1_0000_0000;
    DivUnique(Plus(pc, 4 * disp) - x, 0x1_0000_0000, -(x / 0x1_0000_0000), 0);
  }

  /** CALL goes to its target and JMPL %o7 + 8 comes back behind the delay slot. */
  lemma CallReturns(c: Core, disp: Word, a: Access)
    requires CoreOk(c) && c.file.globals[0] == 0 && c.pc % 4 == 0
    ensures var i, j := Insn(Call(disp), 0, 0, Windows.Imm(0)), Insn(Jmpl, 0, 15, Windows.Imm(8));
            && FateOf(i.op, 0, c, InputsOf(c, i, a)).Retires? && CoreOk(Retired(c, i, a))
            && var d := Retired(c, i, a);
            && d.pc == c.npc && IsTarget(d.npc, c.pc, disp)
            && FateOf(j.op, 0, d, InputsOf(d, j, a)).Retires? && IsSum(Retired(d, j, a).npc, c.pc, 8)
  {
    CallRetires(c, disp, a);
    Windows.PutGet(c.file, c.psr.cwp, 15, c.pc, 15);
    AlignedSum(c.pc, 8);
    TargetOf(c.pc, disp);
    PlusIsSum(c.pc, 8);
    JumpRetires(Retired(c, Insn(Call(disp), 0, 0, Windows.Imm(0)), a), 15, 8, a);
  }

  lemma CallRetires(c: Core, disp: Word, a: Access)
    requires CoreOk(c)
    ensures var i := Insn(Call(disp), 0, 0, Windows.Imm(0));
            && FateOf(i.op, 0, c, InputsOf(c, i, a)).Retires?
            && Retired(c, i, a)
               == c.(pc := c.npc, npc := Plus(c.pc, 4 * disp), file := Windows.Put(c.file, c.psr.cwp, 15, c.pc))
  {
  }

  lemma JumpRetires(c: Core, r: nat, imm: Word, a: Access)
    requires CoreOk(c) && r < 32 && Plus(Windows.Get(c.file, c.psr.cwp, r), imm) % 4 == 0
    ensures var i := Insn(Jmpl, 0, r, Windows.Imm(imm));
            && FateOf(i.op, 0, c, InputsOf(c, i, a)).Retires?
            && Retired(c, i, a).npc == Plus(Windows.Get(c.file, c.psr.cwp, r), imm)
  {
  }

  lemma AlignedSum(x: Word, y: nat)
    requires x % 4 == 0 && y % 4 == 0
    ensures Plus(x, y) % 4 == 0
  {
  }

  /** An instruction that reaches memory has an address that is a multiple of what it moves. */
  lemma AlignedAccesses(op: Opcode, rd: nat, c: Core, n: Inputs)
    requires OpcodeOk(op) && FateOf(op, rd, c, n).Retires?
    ensures (op.Load? || op.Store?) ==> n.ev % op.size == 0
    ensures op.LoadDouble? || op.StoreDouble? ==> n.ev % 8 == 0 && rd % 2 == 0
    ensures op.Swap? || op.SwapAlternate? || op.StoreAlternate? ==> n.ev % 4 == 0
    ensures op.Casa? ==> n.rs1 % 4 == 0
    ensures op.Jmpl? || op.Rett? ==> n.ev % 4 == 0
  {
  }

  /** And privileged ones are the supervisor's. */
  lemma PrivilegedRetire(op: Opcode, rd: nat, c: Core, n: Inputs)
    requires OpcodeOk(op) && FateOf(op, rd, c, n).Retires? && !c.psr.s
    ensures !op.Rett? && !op.LoadAlternate? && !op.StoreAlternate? && !op.SwapAlternate?
    ensures (op.ReadSpecial? || op.WriteSpecial?) ==> op.which.Y?
    ensures op.Casa? ==> op.asi == 0xA
  {
  }

  /** The trap types of the SPARC V8 manual, section 7. */
  predicate StandardTrap(op: Opcode, rd: nat, c: Core, n: Inputs, tn: nat)
    requires OpcodeOk(op)
  {
    match op
    case AddSub(_) => tn == 0x0A
    case Divide(_) => tn == 0x2A && n.ev == 0
    case Save => tn == 0x05
    case Restore => tn == 0x06
    case Jmpl => tn == 0x07
    case Ticc(_) => 0x80 <= tn < 0x100 && (tn - n.ev) % 0x80 == 0
    case ReadSpecial(_) => tn == 0x03
    case WriteSpecial(_) => tn == 0x02 || tn == 0x03
    case Float(_) => c.psr.ef || tn == 0x04
    case Load(size, _) => tn == if n.ev % size != 0 then 0x07 else 0x09
    case Store(size) => tn == if n.ev % size != 0 then 0x07 else 0x09
    case LoadDouble => tn == if rd % 2 != 0 then 0x02 else if n.ev % 8 != 0 then 0x07 else 0x09
    case StoreDouble => tn == if rd % 2 != 0 then 0x02 else if n.ev % 8 != 0 then 0x07 else 0x09
    case Swap => tn == if n.ev % 4 != 0 then 0x07 else 0x09
    case Ldstub => tn == 0x09
    case Casa(_) => tn == if !c.psr.s && op.asi != 0xA then 0x03 else if n.rs1 % 4 != 0 then 0x07 else 0x09
    case LoadAlternate(_) => tn == if !c.psr.s then 0x03 else 0x02
    case StoreAlternate(_) => tn == if !c.psr.s then 0x03 else if n.imm then 0x02 else 0x07
    case SwapAlternate(_) => tn == if !c.psr.s then 0x03 else if n.ev % 4 != 0 then 0x07 else 0x09
    case _ => true
  }

  lemma SoftwareTrap(x: Word)
    ensures var tn := TRAP_INSTRUCTION + x % 0x80; 0x80 <= tn < 0x100 && (tn - x) % 0x80 == 0
  {
    DivUnique(TRAP_INSTRUCTION + x % 0x80 - x, 0x80, 1 - x / 0x80, 0);
  }

  lemma RegisterTraps(op: Opcode, rd: nat, c: Core, n: Inputs)
    requires IsRegister(op) && RegisterFate(op, c, n).Traps?
    ensures StandardTrap(op, rd, c, n, RegisterFate(op, c, n).tn)
  {
    SoftwareTrap(n.ev);
  }

  /** Every trap has the type the architecture gives it, in its order of precedence. */
  lemma TrapNumbers(op: Opcode, rd: nat, c: Core, n: Inputs)
    requires OpcodeOk(op) && FateOf(op, rd, c, n).Traps?
    ensures StandardTrap(op, rd, c, n, FateOf(op, rd, c, n).tn)
  {
    if IsRegister(op) {
      RegisterTraps(op, rd, c, n);
    }
  }

  /** WRY, WRWIM and WRTBR followed by the read give the exclusive or of the operands, WIM its eight windows of it. */
  lemma SpecialRoundTrip(c: Core, which: Special, rs1: nat, src: Windows.Source, rd: nat, a: Access)
    requires CoreOk(c) && c.file.globals[0] == 0 && c.psr.s && !which.PSR? && rs1 < 32 && 0 < rd < 32
    requires src.Reg? ==> src.r < 32
    ensures var i, j := Insn(WriteSpecial(which), 0, rs1, src), Insn(ReadSpecial(which), rd, 0, Windows.Imm(0));
            var n := InputsOf(c, i, a);
            && FateOf(i.op, 0, c, n).Retires? && CoreOk(Retired(c, i, a))
            && var d := Retired(c, i, a);
            && FateOf(j.op, rd, d, InputsOf(d, j, a)).Retires?
            && Windows.Get(Retired(d, j, a).file, c.psr.cwp, rd)
               == if which.WIM? then Xor32(n.rs1, n.ev) % 0x100 else Xor32(n.rs1, n.ev)
  {
    var n := InputsOf(c, Insn(WriteSpecial(which), 0, rs1, src), a);
    var x := Xor32(n.rs1, n.ev);
    Windows.PutGet(c.file, c.psr.cwp, rd, if which.WIM? then x % 0x100 else x, rd);
  }
}
