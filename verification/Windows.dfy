/** The overlapping register windows: eight windows of eight locals and eight outs, where a window's ins
    are the next window's outs; and the unbounded stack of frames that SAVE and RESTORE present. */
module Windows {
  import opened Words

  /** The window SAVE and trap entry move to, and the one RESTORE and RETT move to. */
  function Prev(w: nat): nat {
    if w == 0 then 7 else w - 1
  }

  function Next(w: nat): nat {
    if w == 7 then 0 else w + 1
  }

  /* The register file */

  datatype File = File(globals: seq<Word>, locals: seq<Word>, outs: seq<Word>)

  predicate Shaped(f: File) {
    |f.globals| == 8 && |f.locals| == 64 && |f.outs| == 64
  }

  /** Register r as window w sees it. */
  function Get(f: File, w: nat, r: nat): Word
    requires Shaped(f) && w < 8 && r < 32
  {
    if r < 8 then f.globals[r]
    else if r < 16 then f.outs[8 * w + (r - 8)]
    else if r < 24 then f.locals[8 * w + (r - 16)]
    else f.outs[8 * Next(w) + (r - 24)]
  }

  /** Writing register r from window w; register 0 stays 0. */
  function Put(f: File, w: nat, r: nat, v: Word): (g: File)
    requires Shaped(f) && w < 8 && r < 32
    ensures Shaped(g)
  {
    if r < 8 then f.(globals := f.globals[r := v][0 := 0])
    else if r < 16 then f.(outs := f.outs[8 * w + (r - 8) := v])
    else if r < 24 then f.(locals := f.locals[8 * w + (r - 16) := v])
    else f.(outs := f.outs[8 * Next(w) + (r - 24) := v])
  }

  lemma PutGet(f: File, w: nat, r: nat, v: Word, s: nat)
    requires Shaped(f) && f.globals[0] == 0 && w < 8 && r < 32 && s < 32
    ensures Get(Put(f, w, r, v), w, s) == if s == r && r != 0 then v else Get(f, w, s)
  {
  }

  lemma PutZero(f: File, w: nat, v: Word)
    requires Shaped(f) && f.globals[0] == 0 && w < 8
    ensures Put(f, w, 0, v) == f
  {
    assert f.globals[0 := v][0 := 0] == f.globals;
  }

  /* A machine with only windows */

  datatype Source = Imm(value: Word) | Reg(r: nat)

  /** SAVE and RESTORE add r[rs1] and the source in the old window and write the sum to rd in the new one;
      Set is any instruction that writes a register, Look any that reads one. */
  datatype Op =
    | Save(rs1: nat, src: Source, rd: nat)
    | Restore(rs1: nat, src: Source, rd: nat)
    | Set(rd: nat, value: Word)
    | Look(r: nat)

  predicate OpOk(op: Op) {
    match op
    case Save(rs1, src, rd) => rs1 < 32 && rd < 32 && (src.Reg? ==> src.r < 32)
    case Restore(rs1, src, rd) => rs1 < 32 && rd < 32 && (src.Reg? ==> src.r < 32)
    case Set(rd, _) => rd < 32
    case Look(r) => r < 32
  }

  datatype Machine = Machine(file: File, cwp: nat)

  function Add(a: Word, b: Word): Word {
    (a + b) % 0x1_0000_0000
  }

  function Sum(m: Machine, rs1: nat, src: Source): Word
    requires Shaped(m.file) && m.cwp < 8 && rs1 < 32 && (src.Reg? ==> src.r < 32)
  {
    Add(Get(m.file, m.cwp, rs1), if src.Imm? then src.value else Get(m.file, m.cwp, src.r))
  }

  /** One step, None if it traps on an invalid window, and what it read. */
  function Step(m: Machine, wim: set<nat>, op: Op): (r: Option<(Machine, seq<Word>)>)
    requires Shaped(m.file) && m.cwp < 8 && OpOk(op)
    ensures r.Some? ==> Shaped(r.value.0.file) && r.value.0.cwp < 8
  {
    match op
    case Save(rs1, src, rd) =>
      if Prev(m.cwp) in wim then None
      else Some((Machine(Put(m.file, Prev(m.cwp), rd, Sum(m, rs1, src)), Prev(m.cwp)), []))
    case Restore(rs1, src, rd) =>
      if Next(m.cwp) in wim then None
      else Some((Machine(Put(m.file, Next(m.cwp), rd, Sum(m, rs1, src)), Next(m.cwp)), []))
    case Set(rd, value) => Some((m.(file := Put(m.file, m.cwp, rd, value)), []))
    case Look(r) => Some((m, [Get(m.file, m.cwp, r)]))
  }

  /* The stack of frames */

  /** An abstract register: None while nothing is promised about it. */
  type Cell = Option<Word>
  type Octet = s: seq<Cell> | |s| == 8 witness [None, None, None, None, None, None, None, None]

  const FRESH: Octet := [None, None, None, None, None, None, None, None]

  datatype Frame = Frame(locals: Octet, ins: Octet)

  /** The last frame is the current one; `outs` are its outs. */
  datatype Stack = Stack(globals: Octet, frames: seq<Frame>, outs: Octet)

  predicate StackOk(s: Stack) {
    |s.frames| > 0
  }

  function Top(s: Stack): Frame
    requires StackOk(s)
  {
    s.frames[|s.frames| - 1]
  }

  function WithTop(s: Stack, f: Frame): (t: Stack)
    requires StackOk(s)
    ensures StackOk(t)
  {
    s.(frames := s.frames[|s.frames| - 1 := f])
  }

  function AbsGet(s: Stack, r: nat): Cell
    requires StackOk(s) && r < 32
  {
    if r < 8 then s.globals[r]
    else if r < 16 then s.outs[r - 8]
    else if r < 24 then Top(s).locals[r - 16]
    else Top(s).ins[r - 24]
  }

  function AbsPut(s: Stack, r: nat, c: Cell): (t: Stack)
    requires StackOk(s) && r < 32
    ensures StackOk(t)
  {
    if r < 8 then s.(globals := s.globals[r := c][0 := Some(0)])
    else if r < 16 then s.(outs := s.outs[r - 8 := c])
    else if r < 24 then WithTop(s, Top(s).(locals := Top(s).locals[r - 16 := c]))
    else WithTop(s, Top(s).(ins := Top(s).ins[r - 24 := c]))
  }

  function AbsSum(s: Stack, rs1: nat, src: Source): Cell
    requires StackOk(s) && rs1 < 32 && (src.Reg? ==> src.r < 32)
  {
    var a := AbsGet(s, rs1);
    var b := if src.Imm? then Some(src.value) else AbsGet(s, src.r);
    if a.Some? && b.Some? then Some(Add(a.value, b.value)) else None
  }

  /** The caller's outs become the callee's ins; nothing is promised about its locals and outs. */
  function Pushed(s: Stack): (t: Stack)
    ensures StackOk(t)
  {
    Stack(s.globals, s.frames + [Frame(FRESH, s.outs)], FRESH)
  }

  /** The callee's ins become the caller's outs again. */
  function Popped(s: Stack): (t: Stack)
    requires |s.frames| > 1
    ensures StackOk(t)
  {
    Stack(s.globals, s.frames[..|s.frames| - 1], Top(s).ins)
  }

  /** None if there is no frame to return to. */
  function AbsStep(s: Stack, op: Op): (r: Option<(Stack, seq<Cell>)>)
    requires StackOk(s) && OpOk(op)
    ensures r.Some? ==> StackOk(r.value.0)
  {
    match op
    case Save(rs1, src, rd) => Some((AbsPut(Pushed(s), rd, AbsSum(s, rs1, src)), []))
    case Restore(rs1, src, rd) =>
      if |s.frames| == 1 then None else Some((AbsPut(Popped(s), rd, AbsSum(s, rs1, src)), []))
    case Set(rd, value) => Some((AbsPut(s, rd, Some(value)), []))
    case Look(r) => Some((s, [AbsGet(s, r)]))
  }

  /* Refinement */

  /** The window of the ith frame of a stack whose first frame is in window w. */
  function Win(w: nat, i: nat): nat {
    if i <= w then w - i else if i <= w + 8 then w + 8 - i else 0
  }

  lemma WinFacts(w: nat, i: nat, j: nat)
    requires w < 8 && i <= j < 8
    ensures Win(w, j) < 8 && Win(w, i) < 8 && (i < j ==> Win(w, i) != Win(w, j) && Next(Win(w, i)) != Next(Win(w, j)))
    ensures j < 7 ==> Next(Win(w, i)) != Win(w, j) && Prev(Win(w, j)) == Win(w, j + 1)
    ensures i < j ==> Next(Win(w, j)) == Win(w, j - 1)
    ensures Next(w) == Win(w, 7) && Win(w, 0) == w
  {
  }

  predicate Agrees(c: Cell, v: Word) {
    c.Some? ==> c.value == v
  }

  ghost predicate Block(regs: seq<Word>, w: nat, cells: Octet)
    requires |regs| == 64 && w < 8
  {
    forall j :: 0 <= j < 8 ==> Agrees(cells[j], regs[8 * w + j])
  }

  ghost predicate FrameAgrees(f: File, w: nat, fr: Frame)
    requires Shaped(f) && w < 8
  {
    Block(f.locals, w, fr.locals) && Block(f.outs, Next(w), fr.ins)
  }

  /** The windows hold a stack whose first frame is in window w. */
  ghost predicate Holds(m: Machine, w: nat, s: Stack) {
    && Shaped(m.file) && m.file.globals[0] == 0 && w < 8 && 1 <= |s.frames| <= 7
    && m.cwp == Win(w, |s.frames| - 1) && m.cwp < 8
    && (forall j :: 0 <= j < 8 ==> Agrees(s.globals[j], m.file.globals[j]))
    && (forall i :: 0 <= i < |s.frames| ==> Win(w, i) < 8 && FrameAgrees(m.file, Win(w, i), s.frames[i]))
    && Block(m.file.outs, m.cwp, s.outs)
  }

  lemma GetAgrees(m: Machine, w: nat, s: Stack, r: nat)
    requires Holds(m, w, s) && r < 32
    ensures Agrees(AbsGet(s, r), Get(m.file, m.cwp, r))
  {
    assert FrameAgrees(m.file, Win(w, |s.frames| - 1), s.frames[|s.frames| - 1]);
    if 16 <= r < 24 {
      assert Agrees(Top(s).locals[r - 16], m.file.locals[8 * m.cwp + (r - 16)]);
    } else if 24 <= r {
      assert Agrees(Top(s).ins[r - 24], m.file.outs[8 * Next(m.cwp) + (r - 24)]);
    } else if 8 <= r {
      assert Agrees(s.outs[r - 8], m.file.outs[8 * m.cwp + (r - 8)]);
    }
  }

  lemma BlockPut(regs: seq<Word>, w: nat, cells: Octet, u: nat, j: nat, v: Word, c: Cell)
    requires |regs| == 64 && w < 8 && u < 8 && j < 8 && Block(regs, w, cells) && Agrees(c, v)
    ensures u != w ==> Block(regs[8 * u + j := v], w, cells)
    ensures u == w ==> Block(regs[8 * u + j := v], w, cells[j := c])
  {
  }

  lemma PutOut(m: Machine, w: nat, s: Stack, r: nat, v: Word, c: Cell)
    requires Holds(m, w, s) && 8 <= r < 16 && Agrees(c, v)
    ensures Holds(m.(file := Put(m.file, m.cwp, r, v)), w, AbsPut(s, r, c))
  {
    BlockPut(m.file.outs, m.cwp, s.outs, m.cwp, r - 8, v, c);
    var f := Put(m.file, m.cwp, r, v);
    forall i | 0 <= i < |s.frames|
      ensures Win(w, i) < 8 && FrameAgrees(f, Win(w, i), s.frames[i])
    {
      WinFacts(w, i, |s.frames| - 1);
      BlockPut(m.file.outs, Next(Win(w, i)), s.frames[i].ins, m.cwp, r - 8, v, c);
    }
  }

  lemma PutLocal(m: Machine, w: nat, s: Stack, r: nat, v: Word, c: Cell)
    requires Holds(m, w, s) && 16 <= r < 24 && Agrees(c, v)
    ensures Holds(m.(file := Put(m.file, m.cwp, r, v)), w, AbsPut(s, r, c))
  {
    var f, t := Put(m.file, m.cwp, r, v), AbsPut(s, r, c);
    forall i | 0 <= i < |s.frames|
      ensures Win(w, i) < 8 && FrameAgrees(f, Win(w, i), t.frames[i])
    {
      WinFacts(w, i, |s.frames| - 1);
      assert FrameAgrees(m.file, Win(w, i), s.frames[i]);
      BlockPut(m.file.locals, Win(w, i), s.frames[i].locals, m.cwp, r - 16, v, c);
    }
  }

  lemma FramePutIn(m: Machine, w: nat, s: Stack, r: nat, v: Word, c: Cell, i: nat)
    requires Holds(m, w, s) && 24 <= r < 32 && Agrees(c, v) && i < |s.frames|
    ensures Win(w, i) < 8 && FrameAgrees(Put(m.file, m.cwp, r, v), Win(w, i), AbsPut(s, r, c).frames[i])
  {
    WinFacts(w, i, |s.frames| - 1);
    assert FrameAgrees(m.file, Win(w, i), s.frames[i]);
    BlockPut(m.file.outs, Next(Win(w, i)), s.frames[i].ins, Next(m.cwp), r - 24, v, c);
  }

  lemma PutIn(m: Machine, w: nat, s: Stack, r: nat, v: Word, c: Cell)
    requires Holds(m, w, s) && 24 <= r < 32 && Agrees(c, v)
    ensures Holds(m.(file := Put(m.file, m.cwp, r, v)), w, AbsPut(s, r, c))
  {
    BlockPut(m.file.outs, m.cwp, s.outs, Next(m.cwp), r - 24, v, c);
    var f, t := Put(m.file, m.cwp, r, v), AbsPut(s, r, c);
    forall i | 0 <= i < |s.frames|
      ensures Win(w, i) < 8 && FrameAgrees(f, Win(w, i), t.frames[i])
    {
      FramePutIn(m, w, s, r, v, c, i);
    }
  }

  /** A write to a register of the current window is a write to the current frame. */
  lemma PutHolds(m: Machine, w: nat, s: Stack, r: nat, v: Word, c: Cell)
    requires Holds(m, w, s) && r < 32 && Agrees(c, v)
    ensures Holds(m.(file := Put(m.file, m.cwp, r, v)), w, AbsPut(s, r, c))
  {
    if r >= 24 {
      PutIn(m, w, s, r, v, c);
    } else if r >= 16 {
      PutLocal(m, w, s, r, v, c);
    } else if r >= 8 {
      PutOut(m, w, s, r, v, c);
    } else {
      var f := Put(m.file, m.cwp, r, v);
      forall i | 0 <= i < |s.frames|
        ensures FrameAgrees(f, Win(w, i), s.frames[i])
      {
        assert FrameAgrees(m.file, Win(w, i), s.frames[i]);
      }
    }
  }

  /** A SAVE that does not trap has a window to move to. */
  lemma SaveHolds(m: Machine, w: nat, s: Stack, wim: set<nat>)
    requires Holds(m, w, s) && Next(w) in wim && Prev(m.cwp) !in wim
    ensures Holds(m.(cwp := Prev(m.cwp)), w, Pushed(s))
  {
    var top := |s.frames| - 1;
    WinFacts(w, top, top);
    WinFacts(w, top, top + 1);
    var t := Pushed(s);
    forall i | 0 <= i < |t.frames|
      ensures Win(w, i) < 8 && FrameAgrees(m.file, Win(w, i), t.frames[i])
    {
      if i <= top {
        assert FrameAgrees(m.file, Win(w, i), s.frames[i]);
      }
    }
  }

  /** A RESTORE that does not trap has a frame to return to. */
  lemma RestoreHolds(m: Machine, w: nat, s: Stack, wim: set<nat>)
    requires Holds(m, w, s) && Next(w) in wim && Next(m.cwp) !in wim
    ensures |s.frames| > 1 && Holds(m.(cwp := Next(m.cwp)), w, Popped(s))
  {
    var top := |s.frames| - 1;
    WinFacts(w, 0, top);
    assert FrameAgrees(m.file, Win(w, top), s.frames[top]);
    var t := Popped(s);
    forall i | 0 <= i < |t.frames|
      ensures Win(w, i) < 8 && FrameAgrees(m.file, Win(w, i), t.frames[i])
    {
      assert FrameAgrees(m.file, Win(w, i), s.frames[i]);
    }
  }

  ghost predicate AllAgree(cells: seq<Cell>, words: seq<Word>) {
    |cells| == |words| && forall i :: 0 <= i < |cells| ==> Agrees(cells[i], words[i])
  }

  /** One trap-free step of the windows is a step of the stack. */
  lemma StepRefines(m: Machine, wim: set<nat>, w: nat, s: Stack, op: Op)
    requires Holds(m, w, s) && Next(w) in wim && OpOk(op) && Step(m, wim, op).Some?
    ensures AbsStep(s, op).Some?
    ensures var (n, seen), (t, known) := Step(m, wim, op).value, AbsStep(s, op).value;
            Holds(n, w, t) && AllAgree(known, seen)
  {
    match op
    case Save(rs1, src, rd) =>
      SumAgrees(m, w, s, rs1, src);
      SaveHolds(m, w, s, wim);
      PutHolds(m.(cwp := Prev(m.cwp)), w, Pushed(s), rd, Sum(m, rs1, src), AbsSum(s, rs1, src));
    case Restore(rs1, src, rd) =>
      SumAgrees(m, w, s, rs1, src);
      RestoreHolds(m, w, s, wim);
      PutHolds(m.(cwp := Next(m.cwp)), w, Popped(s), rd, Sum(m, rs1, src), AbsSum(s, rs1, src));
    case Set(rd, value) => PutHolds(m, w, s, rd, value, Some(value));
    case Look(r) => GetAgrees(m, w, s, r);
  }

  lemma SumAgrees(m: Machine, w: nat, s: Stack, rs1: nat, src: Source)
    requires Holds(m, w, s) && rs1 < 32 && (src.Reg? ==> src.r < 32)
    ensures Agrees(AbsSum(s, rs1, src), Sum(m, rs1, src))
  {
    GetAgrees(m, w, s, rs1);
    if src.Reg? {
      GetAgrees(m, w, s, src.r);
    }
  }

  /* Whole runs */

  predicate OpsOk(ops: seq<Op>) {
    forall i :: 0 <= i < |ops| ==> OpOk(ops[i])
  }

  function Run(m: Machine, wim: set<nat>, ops: seq<Op>): (r: Option<(Machine, seq<Word>)>)
    requires Shaped(m.file) && m.cwp < 8 && OpsOk(ops)
    ensures r.Some? ==> Shaped(r.value.0.file) && r.value.0.cwp < 8
    decreases |ops|
  {
    if ops == [] then Some((m, []))
    else match Step(m, wim, ops[0])
         case None => None
         case Some((n, seen)) =>
           match Run(n, wim, ops[1..])
           case None => None
           case Some((last, more)) => Some((last, seen + more))
  }

  function AbsRun(s: Stack, ops: seq<Op>): (r: Option<(Stack, seq<Cell>)>)
    requires StackOk(s) && OpsOk(ops)
    ensures r.Some? ==> StackOk(r.value.0)
    decreases |ops|
  {
    if ops == [] then Some((s, []))
    else match AbsStep(s, ops[0])
         case None => None
         case Some((t, known)) =>
           match AbsRun(t, ops[1..])
           case None => None
           case Some((last, more)) => Some((last, known + more))
  }

  /** Every trap-free run of the windows is a run of the stack: whatever the stack promises about a
      register that is read is what is read. */
  lemma {:induction false} RunRefines(m: Machine, wim: set<nat>, w: nat, s: Stack, ops: seq<Op>)
    requires Holds(m, w, s) && Next(w) in wim && OpsOk(ops) && Run(m, wim, ops).Some?
    ensures AbsRun(s, ops).Some?
    ensures var (n, seen), (t, known) := Run(m, wim, ops).value, AbsRun(s, ops).value;
            Holds(n, w, t) && AllAgree(known, seen)
    decreases |ops|
  {
    if ops != [] {
      StepRefines(m, wim, w, s, ops[0]);
      RunRefines(Step(m, wim, ops[0]).value.0, wim, w, AbsStep(s, ops[0]).value.0, ops[1..]);
    }
  }

  /** A stack of one frame that promises all the registers of the current window. */
  function Snapshot(m: Machine): Stack
    requires Shaped(m.file) && m.cwp < 8
  {
    Stack(Cells(m.file, m.cwp, 0),
          [Frame(Cells(m.file, m.cwp, 16), Cells(m.file, m.cwp, 24))],
          Cells(m.file, m.cwp, 8))
  }

  /** The eight registers from r on. */
  function Cells(f: File, w: nat, r: nat): (c: Octet)
    requires Shaped(f) && w < 8 && r <= 24
    ensures forall j :: 0 <= j < 8 ==> c[j] == Some(Get(f, w, r + j))
  {
    Registers(f, w, r, 8)
  }

  function Registers(f: File, w: nat, r: nat, n: nat): (c: seq<Cell>)
    requires Shaped(f) && w < 8 && r + n <= 32
    ensures |c| == n && forall j :: 0 <= j < n ==> c[j] == Some(Get(f, w, r + j))
    decreases w, n
  {
    if n == 0 then [] else Registers(f, w, r, n - 1) + [Some(Get(f, w, r + n - 1))]
  }

  lemma SnapshotHolds(m: Machine)
    requires Shaped(m.file) && m.cwp < 8 && m.file.globals[0] == 0
    ensures Holds(m, m.cwp, Snapshot(m))
  {
    var s := Snapshot(m);
    assert Block(m.file.locals, m.cwp, s.frames[0].locals);
    assert Block(m.file.outs, Next(m.cwp), s.frames[0].ins);
    assert Block(m.file.outs, m.cwp, s.outs);
    assert forall j :: 0 <= j < 8 ==> Agrees(s.globals[j], m.file.globals[j]);
  }

  lemma SnapshotPromises(m: Machine, r: nat)
    requires Shaped(m.file) && m.cwp < 8 && r < 32
    ensures AbsGet(Snapshot(m), r) == Some(Get(m.file, m.cwp, r))
  {
  }

  /** The windows last exactly six nested calls: with only the window above the first frame marked
      invalid, SAVE traps from the seventh frame and RESTORE from the first, and nothing else does. */
  lemma TrapsAtTheEnds(m: Machine, w: nat, s: Stack, op: Op)
    requires Holds(m, w, s) && OpOk(op)
    ensures Step(m, {Next(w)}, op).None? <==> (op.Save? && |s.frames| == 7) || (op.Restore? && |s.frames| == 1)
  {
    WinFacts(w, 0, |s.frames| - 1);
  }

  /** The nesting after ops, starting at depth d; None if it would drop below 0. */
  function Depth(ops: seq<Op>, d: nat): Option<nat>
    decreases |ops|
  {
    if ops == [] then Some(d)
    else if ops[0].Save? then Depth(ops[1..], d + 1)
    else if ops[0].Restore? then if d == 0 then None else Depth(ops[1..], d - 1)
    else Depth(ops[1..], d)
  }

  lemma AbsPutKeeps(s: Stack, r: nat, c: Cell, k: nat)
    requires StackOk(s) && r < 32 && k < |s.frames|
    ensures |AbsPut(s, r, c).frames| == |s.frames| && AbsPut(s, r, c).frames[..k] == s.frames[..k]
  {
  }

  /** Frames below the current one change only when they are current again. */
  lemma {:induction false} BuriedFramesKept(s: Stack, ops: seq<Op>, k: nat, d: nat)
    requires OpsOk(ops) && |s.frames| == k + 1 + d && Depth(ops, d).Some?
    ensures AbsRun(s, ops).Some?
    ensures var t := AbsRun(s, ops).value.0; |t.frames| == k + 1 + Depth(ops, d).value && t.frames[..k] == s.frames[..k]
    decreases |ops|
  {
    if ops != [] {
      match ops[0]
      case Save(rs1, src, rd) =>
        AbsPutKeeps(Pushed(s), rd, AbsSum(s, rs1, src), k);
        BuriedFramesKept(AbsStep(s, ops[0]).value.0, ops[1..], k, d + 1);
      case Restore(rs1, src, rd) =>
        AbsPutKeeps(Popped(s), rd, AbsSum(s, rs1, src), k);
        BuriedFramesKept(AbsStep(s, ops[0]).value.0, ops[1..], k, d - 1);
      case Set(rd, value) =>
        AbsPutKeeps(s, rd, Some(value), k);
        BuriedFramesKept(AbsStep(s, ops[0]).value.0, ops[1..], k, d);
      case Look(_) =>
        BuriedFramesKept(s, ops[1..], k, d);
    }
  }

  /** A call: SAVE, a body that nests properly, RESTORE. If none of it traps, the caller is back in its
      window with its locals and ins as they were, except the register RESTORE names. */
  lemma CallKeepsFrame(m: Machine, wim: set<nat>, call: Op, body: seq<Op>, ret: Op, r: nat)
    requires Shaped(m.file) && m.cwp < 8 && m.file.globals[0] == 0 && Next(m.cwp) in wim
    requires call.Save? && ret.Restore? && OpOk(call) && OpOk(ret) && OpsOk(body) && Depth(body, 0) == Some(0)
    requires Step(m, wim, call).Some? && Run(Step(m, wim, call).value.0, wim, body).Some?
    requires Step(Run(Step(m, wim, call).value.0, wim, body).value.0, wim, ret).Some?
    requires 16 <= r < 32 && r != ret.rd
    ensures var last := Step(Run(Step(m, wim, call).value.0, wim, body).value.0, wim, ret).value.0;
            last.cwp == m.cwp && Get(last.file, last.cwp, r) == Get(m.file, m.cwp, r)
  {
    var w, s0 := m.cwp, Snapshot(m);
    SnapshotHolds(m);
    StepRefines(m, wim, w, s0, call);
    var m1, s1 := Step(m, wim, call).value.0, AbsStep(s0, call).value.0;
    AbsPutKeeps(Pushed(s0), call.rd, AbsSum(s0, call.rs1, call.src), 1);
    RunRefines(m1, wim, w, s1, body);
    BuriedFramesKept(s1, body, 1, 0);
    var m2, s2 := Run(m1, wim, body).value.0, AbsRun(s1, body).value.0;
    StepRefines(m2, wim, w, s2, ret);
    var m3, s3 := Step(m2, wim, ret).value.0, AbsStep(s2, ret).value.0;
    SnapshotPromises(m, r);
    ReturnedFrame(s0, s2, ret, r);
    GetAgrees(m3, w, s3, r);
  }

  lemma ReturnedFrame(s0: Stack, s2: Stack, ret: Op, r: nat)
    requires |s0.frames| == 1 && |s2.frames| == 2 && s2.frames[..1] == s0.frames[..1]
    requires ret.Restore? && OpOk(ret) && 16 <= r < 32 && r != ret.rd
    ensures AbsStep(s2, ret).Some?
    ensures var s3 := AbsStep(s2, ret).value.0; |s3.frames| == 1 && AbsGet(s3, r) == AbsGet(s0, r)
  {
    assert s2.frames[0] == s2.frames[..1][0] == s0.frames[..1][0] == s0.frames[0];
    assert Popped(s2).frames[0] == s0.frames[0];
  }
}
