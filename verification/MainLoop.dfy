/** The processor's main loop on values: a polled interrupt level, trap entry, fetch and one instruction per turn. */
module MainLoop {
  import opened Words
  import opened Isa
  import Windows

  /** What the instruction fetch gives: an instruction with memory's answers to it, or a fault. */
  datatype Fetched = Fetched(insn: Insn, a: Access) | Faulted(noFault: bool)

  /** What one turn takes in: an interrupt level if it is polled, and the fetch. */
  datatype Input = Input(hint: Option<nat>, fetched: Fetched)

  predicate HintOk(hint: Option<nat>) {
    hint.Some? ==> hint.value < 16
  }

  predicate InputOk(i: Input) {
    HintOk(i.hint) && (i.fetched.Fetched? ==> InsnOk(i.fetched.insn))
  }

  predicate InputsOk(inputs: seq<Input>) {
    forall i :: 0 <= i < |inputs| ==> InputOk(inputs[i])
  }

  /** The registers, the pending trap or 0, the interrupt level noted, and whether the emulator has stopped. */
  datatype Loop = Loop(core: Core, tt: nat, irl: nat, stopped: bool)

  predicate LoopOk(l: Loop) {
    CoreOk(l.core) && l.core.file.globals[0] == 0 && l.tt < 0x100 && l.irl < 16
  }

  /** The registers a trap handler starts with. */
  function Entered(c: Core, tn: nat): Core
    requires CoreOk(c) && tn < 0x100
  {
    var w := Windows.Prev(c.psr.cwp);
    var base: Word := c.tbr / 0x1000 * 0x1000 + tn * 0x10 + c.tbr % 0x10;
    Core(base, Plus(base, 4), c.psr.(et := false, ps := c.psr.s, s := true, cwp := w), c.y, c.wim, base,
         Windows.Put(Windows.Put(c.file, w, 17, c.pc), w, 18, c.npc))
  }

  /** A handler starts 16 bytes times the trap type into the trap table, with traps disabled, in supervisor mode and in
      the next window down. */
  lemma HandlerAddress(c: Core, tn: nat)
    requires CoreOk(c) && tn < 0x100
    ensures var e := Entered(c, tn);
            && e.pc / 0x1000 == c.tbr / 0x1000 && e.pc / 0x10 % 0x100 == tn && e.pc % 0x10 == c.tbr % 0x10
            && e.tbr == e.pc && IsSum(e.npc, e.pc, 4)
            && (c.tbr % 0x1000 == 0 ==> e.pc == c.tbr + 16 * tn)
            && !e.psr.et && e.psr.s && e.psr.ps == c.psr.s && e.psr.pil == c.psr.pil && e.psr.icc == c.psr.icc
            && e.psr.cwp == (c.psr.cwp + 7) % 8 && e.y == c.y && e.wim == c.wim
  {
    TableParts(c.tbr / 0x1000, tn, c.tbr % 0x10);
    TableBase(c.tbr);
  }

  lemma TableParts(top: nat, tn: nat, low: nat)
    requires tn < 0x100 && low < 0x10
    ensures var base := top * 0x1000 + tn * 0x10 + low;
            base / 0x1000 == top && base / 0x10 % 0x100 == tn && base % 0x10 == low
  {
    var base: int := top * 0x1000 + tn * 0x10 + low;
    DivUnique(base, 0x1000, top, tn * 0x10 + low);
    DivUnique(base, 0x10, top * 0x100 + tn, low);
    DivUnique(top * 0x100 + tn, 0x100, top, tn);
  }

  lemma TableBase(tbr: Word)
    ensures tbr % 0x1000 == 0 ==> tbr / 0x1000 * 0x1000 == tbr && tbr % 0x10 == 0
  {
    if tbr % 0x1000 == 0 {
      DivUnique(tbr, 0x10, tbr / 0x1000 * 0x100, 0);
    }
  }

  /** A polled level is noted if it is above the one noted and no trap is pending. */
  function Noted(l: Loop, hint: Option<nat>): nat {
    if hint.Some? && hint.value > l.irl && l.tt == 0 then hint.value else l.irl
  }

  /** The interrupt taken and acknowledged. */
  function Acked(l: Loop, hint: Option<nat>): Option<nat> {
    if l.tt == 0 && l.core.psr.et && Noted(l, hint) > l.core.psr.pil then Some(Noted(l, hint)) else None
  }

  /** The loop once an interrupt is taken and a trap entered. */
  function Begun(l: Loop, hint: Option<nat>): (r: Loop)
    requires LoopOk(l) && HintOk(hint)
    ensures LoopOk(r) && r.tt == 0
  {
    if Acked(l, hint).Some? then Loop(Entered(l.core, INTERRUPT + Noted(l, hint)), 0, 0, l.stopped)
    else if l.tt != 0 then Loop(Entered(l.core, l.tt), 0, Noted(l, hint), l.stopped)
    else l.(irl := Noted(l, hint))
  }

  /** A level above the processor's is taken: its handler is entered, with the interrupted PC and nPC saved, and the
      level is forgotten. One that is not above it is noted and nothing else happens. */
  lemma InterruptTaken(l: Loop, level: nat)
    requires LoopOk(l) && l.tt == 0 && l.core.psr.et && l.irl < level < 16
    ensures var b := Begun(l, Some(level));
            if level > l.core.psr.pil then
              && Acked(l, Some(level)) == Some(level) && b.irl == 0 && !b.core.psr.et
              && b.core.pc / 0x10 % 0x100 == 0x10 + level && b.core.pc / 0x1000 == l.core.tbr / 0x1000
              && Windows.Get(b.core.file, b.core.psr.cwp, 17) == l.core.pc
              && Windows.Get(b.core.file, b.core.psr.cwp, 18) == l.core.npc
            else Acked(l, Some(level)).None? && b == l.(irl := level)
  {
    if level > l.core.psr.pil {
      HandlerAddress(l.core, INTERRUPT + level);
      EnteredSaves(l.core, INTERRUPT + level);
    }
  }

  /** The trap is left pending, or stops the emulator if traps are disabled. */
  function Trapped(l: Loop, tn: nat): Loop {
    if l.core.psr.et then l.(tt := tn) else l.(stopped := true)
  }

  function Executed(l: Loop, i: Insn, a: Access): Loop
    requires LoopOk(l) && InsnOk(i)
  {
    match FateOf(i.op, i.rd, l.core, InputsOf(l.core, i, a))
    case Retires => l.(core := Retired(l.core, i, a))
    case Traps(tn) => Trapped(l, tn)
    case Stops => l.(core := Left(i.op, l.core), stopped := true)
  }

  function Turn(l: Loop, i: Input): Loop
    requires LoopOk(l) && InputOk(i)
  {
    if l.stopped then l
    else
      match i.fetched
      case Fetched(insn, a) => Executed(Begun(l, i.hint), insn, a)
      case Faulted(noFault) =>
        if noFault then Begun(l, i.hint).(stopped := true) else Trapped(Begun(l, i.hint), INSTRUCTION_ACCESS_EXCEPTION)
  }

  /** Retiring keeps %g0 at 0 and the window pointer in range. */
  lemma RetiredOk(c: Core, i: Insn, a: Access)
    requires CoreOk(c) && c.file.globals[0] == 0 && InsnOk(i) && FateOf(i.op, i.rd, c, InputsOf(c, i, a)).Retires?
    ensures CoreOk(Retired(c, i, a)) && Retired(c, i, a).file.globals[0] == 0
  {
    DoneIsOk(i.op, i.rd, c, InputsOf(c, i, a));
    DoneKeepsZero(i.op, i.rd, c, InputsOf(c, i, a));
  }

  /** Every turn keeps the window pointer in range and %g0 at 0. */
  lemma TurnOk(l: Loop, i: Input)
    requires LoopOk(l) && InputOk(i)
    ensures LoopOk(Turn(l, i))
  {
    if i.fetched.Fetched? && !l.stopped {
      var c, insn, a := Begun(l, i.hint).core, i.fetched.insn, i.fetched.a;
      FateInRange(insn.op, insn.rd, c, InputsOf(c, insn, a));
      if FateOf(insn.op, insn.rd, c, InputsOf(c, insn, a)).Retires? {
        RetiredOk(c, insn, a);
      }
    }
  }

  /** Any number of turns. */
  function Turns(l: Loop, inputs: seq<Input>): (r: Loop)
    requires LoopOk(l) && InputsOk(inputs)
    ensures LoopOk(r)
    decreases |inputs|
  {
    if inputs == [] then l
    else
      var before := Turns(l, inputs[..|inputs| - 1]);
      TurnOk(before, inputs[|inputs| - 1]);
      Turn(before, inputs[|inputs| - 1])
  }

  lemma TurnsLast(l: Loop, inputs: seq<Input>, n: nat)
    requires LoopOk(l) && InputsOk(inputs) && n < |inputs|
    ensures LoopOk(Turns(l, inputs[..n])) && Turns(l, inputs[..n + 1]) == Turn(Turns(l, inputs[..n]), inputs[n])
  {
    assert inputs[..n + 1][..n] == inputs[..n];
  }

  /** A stopped emulator takes no more turns. */
  lemma {:induction false} StoppedStays(l: Loop, inputs: seq<Input>, n: nat)
    requires LoopOk(l) && InputsOk(inputs) && n <= |inputs| && Turns(l, inputs[..n]).stopped
    ensures Turns(l, inputs) == Turns(l, inputs[..n])
    decreases |inputs| - n
  {
    if n < |inputs| {
      TurnsLast(l, inputs, n);
      StoppedStays(l, inputs, n + 1);
    } else {
      assert inputs[..n] == inputs;
    }
  }

  /* User programs */

  /** The turn enters a trap handler. */
  predicate Enters(l: Loop, i: Input) {
    !l.stopped && (l.tt != 0 || Acked(l, i.hint).Some?)
  }

  lemma UserTurn(l: Loop, i: Input)
    requires LoopOk(l) && InputOk(i) && !l.core.psr.s && !Enters(l, i)
    ensures SamePrivileges(l.core, Turn(l, i).core)
  {
    if !l.stopped && i.fetched.Fetched? {
      var insn, a := i.fetched.insn, i.fetched.a;
      if FateOf(insn.op, insn.rd, l.core, InputsOf(l.core, insn, a)).Retires? {
        UserConfined(l.core, insn, a);
      }
    }
  }

  /** No turn of the run does. */
  predicate NeverEnters(l: Loop, inputs: seq<Input>)
    requires LoopOk(l) && InputsOk(inputs)
    decreases |inputs|
  {
    inputs == [] || (var n := |inputs| - 1; NeverEnters(l, inputs[..n]) && !Enters(Turns(l, inputs[..n]), inputs[n]))
  }

  /** A user program stays one, and leaves the privileged state alone, through any run that enters no trap handler:
      supervisor mode is reached only through the trap table. */
  lemma {:induction false} UserStaysUser(l: Loop, inputs: seq<Input>)
    requires LoopOk(l) && InputsOk(inputs) && !l.core.psr.s && NeverEnters(l, inputs)
    ensures SamePrivileges(l.core, Turns(l, inputs).core)
    decreases |inputs|
  {
    if inputs != [] {
      var before := inputs[..|inputs| - 1];
      UserStaysUser(l, before);
      UserTurn(Turns(l, before), inputs[|inputs| - 1]);
    }
  }

  /* Restarting a trapped instruction */

  const JUMP_BACK: Insn := Insn(Jmpl, 0, 17, Windows.Imm(0))
  const RETURN: Insn := Insn(Rett, 0, 18, Windows.Imm(0))

  /** In a handler that has touched nothing: what the trap changed stays changed. */
  function Returned(c: Core, tn: nat): Core
    requires CoreOk(c) && tn < 0x100
  {
    var e := Entered(c, tn);
    c.(psr := c.psr.(ps := c.psr.s, et := true), tbr := e.tbr, file := e.file)
  }

  lemma EnteredSaves(c: Core, tn: nat)
    requires CoreOk(c) && c.file.globals[0] == 0 && tn < 0x100
    ensures var e := Entered(c, tn);
            && CoreOk(e) && e.file.globals[0] == 0 && Windows.Next(e.psr.cwp) == c.psr.cwp
            && Windows.Get(e.file, e.psr.cwp, 17) == c.pc && Windows.Get(e.file, e.psr.cwp, 18) == c.npc
  {
  }

  /** Trap entry touches no register its window can see. */
  lemma EnteredKeepsWindow(c: Core, tn: nat, r: nat)
    requires CoreOk(c) && c.file.globals[0] == 0 && tn < 0x100 && r < 32
    ensures Windows.Get(Entered(c, tn).file, c.psr.cwp, r) == Windows.Get(c.file, c.psr.cwp, r)
  {
  }

  /** The turn after a trap enters its handler and begins the return. */
  lemma JumpBackTurn(l: Loop, hint: Option<nat>)
    requires LoopOk(l) && !l.stopped && l.tt != 0 && HintOk(hint) && l.core.pc % 4 == 0
    ensures var e := Entered(l.core, l.tt);
            Turn(l, Input(hint, Fetched(JUMP_BACK, NO_ACCESS))) ==
                Loop(e.(pc := e.npc, npc := l.core.pc), 0, l.irl, false)
  {
    EnteredSaves(l.core, l.tt);
    JmplRetires(Entered(l.core, l.tt), 17, NO_ACCESS);
  }

  lemma ReturnTurn(l: Loop, hint: Option<nat>)
    requires LoopOk(l) && !l.stopped && l.tt == 0 && HintOk(hint) &&
             Windows.Get(l.core.file, l.core.psr.cwp, 18) % 4 == 0
    requires !l.core.psr.et && l.core.psr.s && !Bit(l.core.wim, Windows.Next(l.core.psr.cwp))
    ensures Turn(l, Input(hint, Fetched(RETURN, NO_ACCESS)))
         == Loop(l.core.(pc := l.core.npc, npc := Windows.Get(l.core.file, l.core.psr.cwp, 18),
                         psr := l.core.psr.(s := l.core.psr.ps, et := true, cwp := Windows.Next(l.core.psr.cwp))),
                 0, Noted(l, hint), false)
  {
    RettRetires(l.core, 18, NO_ACCESS);
  }

  /** A trapped instruction is restarted whatever interrupts are polled on the way: with traps disabled none is
      taken, and the levels polled when no trap was pending are still noted when the instruction comes round again. */
  lemma RestartAmidInterrupts(l: Loop, insn: Insn, a: Access, h: Option<nat>, h1: Option<nat>, h2: Option<nat>)
    requires LoopOk(l) && !l.stopped && l.tt == 0 && l.core.psr.et &&
             InsnOk(insn) && HintOk(h) && HintOk(h1) && HintOk(h2)
    requires Acked(l, h).None? && FateOf(insn.op, insn.rd, l.core, InputsOf(l.core, insn, a)).Traps?
    requires l.core.pc % 4 == 0 && l.core.npc % 4 == 0 && !Bit(l.core.wim, l.core.psr.cwp)
    ensures var tn := FateOf(insn.op, insn.rd, l.core, InputsOf(l.core, insn, a)).tn;
            var inputs := [Input(h, Fetched(insn, a)), Input(h1, Fetched(JUMP_BACK, NO_ACCESS)),
                           Input(h2, Fetched(RETURN, NO_ACCESS))];
            && tn < 0x100
            && Turns(l, inputs).core == Returned(l.core, tn) && Turns(l, inputs).tt == 0 && !Turns(l, inputs).stopped
            && Turns(l, inputs).irl == Max(Max(l.irl, Polled(h)), Polled(h2))
            && forall r :: 0 <= r < 32 ==>
                 Windows.Get(Turns(l, inputs).core.file, l.core.psr.cwp, r) ==
                     Windows.Get(l.core.file, l.core.psr.cwp, r)
  {
    FateInRange(insn.op, insn.rd, l.core, InputsOf(l.core, insn, a));
    var tn := FateOf(insn.op, insn.rd, l.core, InputsOf(l.core, insn, a)).tn;
    var inputs := [Input(h, Fetched(insn, a)), Input(h1, Fetched(JUMP_BACK, NO_ACCESS)),
                   Input(h2, Fetched(RETURN, NO_ACCESS))];
    var l1 := Loop(l.core, tn, Noted(l, h), false);
    assert Turn(l, inputs[0]) == l1;
    JumpBackTurn(l1, h1);
    var l2 := Turn(l1, inputs[1]);
    EnteredSaves(l.core, tn);
    ReturnTurn(l2, h2);
    ThreeTurns(l, inputs);
    forall r | 0 <= r < 32
      ensures Windows.Get(Returned(l.core, tn).file, l.core.psr.cwp, r) == Windows.Get(l.core.file, l.core.psr.cwp, r)
    {
      EnteredKeepsWindow(l.core, tn, r);
    }
  }

  function Polled(hint: Option<nat>): nat {
    if hint.Some? then hint.value else 0
  }

  function Max(a: nat, b: nat): nat {
    if a < b then b else a
  }

  lemma ThreeTurns(l: Loop, inputs: seq<Input>)
    requires LoopOk(l) && InputsOk(inputs) && |inputs| == 3
    ensures LoopOk(Turn(l, inputs[0])) && LoopOk(Turn(Turn(l, inputs[0]), inputs[1]))
    ensures Turns(l, inputs) == Turn(Turn(Turn(l, inputs[0]), inputs[1]), inputs[2])
  {
    TurnsLast(l, inputs, 0);
    TurnsLast(l, inputs, 1);
    TurnsLast(l, inputs, 2);
    assert inputs[..0] == [] && inputs[..3] == inputs;
  }
}
