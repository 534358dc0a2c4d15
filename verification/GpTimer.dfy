/** The general purpose timer unit: a prescaler driving two counters, ticked one bus clock at a time
    or advanced analytically by many. */
module GpTimer {
  import opened Words

  /** Control bits: enable, restart, interrupt enable, interrupt pending. */
  datatype Timer = Timer(count: Word, reload: Word, en: bool, rs: bool, ei: bool, ip: bool)

  /** One prescaler tick of a counter. */
  function Ticked(t: Timer): Timer {
    if t.count == 0 then
      var t' := t.(ip := t.ip || t.ei);
      if t.rs then t'.(count := t.reload) else t'.(count := 0xFFFF_FFFF, en := false)
    else t.(count := t.count - 1)
  }

  function TickedBy(t: Timer, p: nat): Timer {
    if p == 0 then t else Ticked(TickedBy(t, p - 1))
  }

  function TickedIfOn(t: Timer): Timer {
    if t.en then Ticked(t) else t
  }

  datatype State = State(scaler: Word, sreload: Word, t0: Timer, t1: Timer) {
    predicate Active() { t0.en || t1.en }
    function Top(): nat { sreload % 0x1_0000 }
  }

  /** The prescaler runs out: it reloads and ticks the enabled timers. */
  function Underflow(s: State): State {
    State(s.Top(), s.sreload, TickedIfOn(s.t0), TickedIfOn(s.t1))
  }

  /** One bus clock: the prescaler runs only while a timer is enabled. */
  function Tick(s: State): State {
    if !s.Active() then s
    else if s.scaler == 0 then Underflow(s)
    else s.(scaler := s.scaler - 1)
  }

  function TickN(s: State, n: nat): State {
    if n == 0 then s else Tick(TickN(s, n - 1))
  }

  /* The analytic advance */

  /** Prescaler ticks and final scaler value after n bus clocks; `SCALER + 1` is a 32-bit sum. */
  function Prescale(scaler: Word, top: nat, n: nat): (r: (nat, Word))
    requires top < 0x1_0000
  {
    if n == 0 then (0, scaler)
    else if scaler == 0 then Rest(1, top, n - 1)
    else if n <= scaler then (0, scaler - n)
    else Rest(1, top, n - (scaler + 1) % 0x1_0000_0000)
  }

  function Rest(p: nat, top: nat, n: nat): (r: (nat, Word))
    requires top < 0x1_0000
  {
    if n == 0 then (p, top) else (p + n / (top + 1), top - n % (top + 1))
  }

  function Cleared(t: Timer, clear: bool): Timer {
    if t.ip && clear then t.(ip := false) else t
  }

  function AdvancedTimer(t: Timer, p: nat, clear: bool): Timer {
    if t.en then Cleared(TickedBy(t, p), clear) else t
  }

  /** After p ticks an enabled timer is pending: it was, or it may interrupt and has passed 0. */
  predicate Fired(t: Timer, p: nat) {
    t.en && (t.ip || (t.ei && p > t.count))
  }

  /** Only passing 0 makes a timer pending. */
  lemma {:induction false} PendingAfter(t: Timer, p: nat)
    ensures TickedBy(t, p).ip <==> t.ip || (t.ei && p > t.count)
    ensures TickedBy(t, p).ei == t.ei && (p <= t.count ==> TickedBy(t, p).count == t.count - p)
  {
    if p > 0 {
      PendingAfter(t, p - 1);
    }
  }

  function Advanced(s: State, n: nat, clear: bool): State {
    if n == 0 || !s.Active() then s
    else
      var (p, scaler) := Prescale(s.scaler, s.Top(), n);
      State(scaler, s.sreload, AdvancedTimer(s.t0, p, clear), AdvancedTimer(s.t1, p, clear))
  }

  class GPTIMER {
    var SCALER: Word
    var SRELOAD: Word
    const timers: array<Timer>

    ghost predicate Valid()
      reads this
    {
      timers.Length == 2
    }

    constructor (prescaler: Word)
      ensures Valid() && fresh(timers)
      ensures var t := Timer(0x270F, 0x270F, false, true, false, false);
              S() == State(prescaler % 0x1_0000, prescaler % 0x1_0000, t, t)
    {
      timers := new Timer[2](_ => Timer(0x270F, 0x270F, false, true, false, false));
      SRELOAD := prescaler % 0x1_0000;
      SCALER := prescaler % 0x1_0000;
    }

    ghost function S(): State
      requires Valid()
      reads this, timers
    {
      State(SCALER, SRELOAD, timers[0], timers[1])
    }

    method TickOnce()
      requires Valid()
      modifies this, timers
      ensures S() == Tick(old(S()))
    {
      if timers[0].en || timers[1].en {
        if SCALER == 0 {
          if timers[0].en { timers[0] := Ticked(timers[0]); }
          if timers[1].en { timers[1] := Ticked(timers[1]); }
          SCALER := SRELOAD % 0x1_0000;
        } else {
          SCALER := SCALER - 1;
        }
      }
    }

    /** Applies p prescaler ticks to timer k. */
    method TickTimer(k: nat, p: nat)
      requires Valid() && k < 2
      modifies timers
      ensures timers[k] == TickedBy(old(timers[k]), p) && timers[1 - k] == old(timers[1 - k])
    {
      for i := 0 to p
        invariant timers[k] == TickedBy(old(timers[k]), i) && timers[1 - k] == old(timers[1 - k])
      {
        timers[k] := Ticked(timers[k]);
      }
    }

    /** Moves the prescaler by n bus clocks and returns the prescaler ticks produced. */
    method AdvanceScaler(n: nat) returns (p: nat)
      requires Valid() && n > 0
      modifies this`SCALER
      ensures (p, SCALER) == Prescale(old(SCALER), SRELOAD % 0x1_0000, n)
    {
      var sreload := SRELOAD % 0x1_0000;
      if SCALER == 0 {
        SCALER := sreload;
        p := FullPeriods(1, n - 1);
      } else if n <= SCALER {
        SCALER := SCALER - n;
        p := 0;
      } else {
        var left := n - (SCALER + 1) % 0x1_0000_0000;
        SCALER := sreload;
        p := FullPeriods(1, left);
      }
    }

    /** The periods that fit in what is left of the clocks, after `sofar` prescaler ticks. */
    method FullPeriods(sofar: nat, left: nat) returns (p: nat)
      requires Valid() && SCALER == SRELOAD % 0x1_0000
      modifies this`SCALER
      ensures (p, SCALER) == Rest(sofar, SRELOAD % 0x1_0000, left)
    {
      p := sofar;
      if left > 0 {
        var period := SCALER + 1;
        p := p + left / period;
        SCALER := SCALER - left % period;
      }
    }

    method AdvanceUnlocked(n: nat, clear: bool) returns (irq: bool)
      requires Valid()
      modifies this`SCALER, timers
      ensures S() == Advanced(old(S()), n, clear)
      ensures irq <==> n > 0 && var p := Prescale(old(SCALER), SRELOAD % 0x1_0000, n).0;
                               Fired(old(timers[0]), p) || Fired(old(timers[1]), p)
    {
      if n == 0 || !(timers[0].en || timers[1].en) {
        return false;
      }
      var p := AdvanceScaler(n);
      irq := false;
      for k := 0 to 2
        modifies timers
        invariant forall j :: 0 <= j < k ==> timers[j] == AdvancedTimer(old(timers[j]), p, clear)
        invariant forall j :: k <= j < 2 ==> timers[j] == old(timers[j])
        invariant irq <==> exists j :: 0 <= j < k && Fired(old(timers[j]), p)
      {
        if timers[k].en {
          PendingAfter(timers[k], p);
          TickTimer(k, p);
          if timers[k].ip {
            irq := true;
            if clear {
              timers[k] := timers[k].(ip := false);
            }
          }
        }
      }
    }
  }

  /* Single counters */

  predicate OneShot(t: Timer) { t.en && !t.rs }

  /** A one-shot timer counts down, underflows once and stops. */
  lemma {:induction false} OneShotRun(t: Timer, p: nat)
    requires OneShot(t) && p <= t.count + 1
    ensures p <= t.count ==> TickedBy(t, p) == t.(count := t.count - p)
    ensures p == t.count + 1 ==> TickedBy(t, p) == t.(count := 0xFFFF_FFFF, en := false, ip := t.ip || t.ei)
  {
    if p > 0 {
      OneShotRun(t, p - 1);
    }
  }

  /** Ticking it on regardless keeps decrementing. */
  lemma {:induction false} OneShotOverrun(t: Timer, e: nat)
    requires OneShot(t) && e < 0x1_0000_0000
    ensures TickedBy(t, t.count + 1 + e).count == 0xFFFF_FFFF - e
    ensures !TickedBy(t, t.count + 1 + e).rs
  {
    OneShotRun(t, t.count + 1);
    if e > 0 {
      OneShotOverrun(t, e - 1);
    }
  }

  lemma {:induction false} RestartRun(t: Timer, p: nat)
    ensures TickedBy(t, p).rs == t.rs && TickedBy(t, p).reload == t.reload && TickedBy(t, p).ei == t.ei
    ensures t.rs ==> TickedBy(t, p).en == t.en
  {
    if p > 0 {
      RestartRun(t, p - 1);
    }
  }

  /** Where a restart counter is after p ticks: on its first way down, or some way down from its reload value. */
  function RestartCount(t: Timer, p: nat): Word {
    if p <= t.count then t.count - p else t.reload - (p - t.count - 1) % (t.reload + 1)
  }

  /** A restart timer in closed form: it is periodic with reload + 1 ticks, and pending from the first time it passes 0,
      if it may interrupt. */
  lemma {:induction false} RestartClosed(t: Timer, p: nat)
    requires t.rs
    ensures TickedBy(t, p) == t.(count := RestartCount(t, p), ip := t.ip || (t.ei && p > t.count))
  {
    if p > 0 {
      RestartClosed(t, p - 1);
      RestartCountStep(t, p - 1);
    }
  }

  lemma RestartCountStep(t: Timer, p: nat)
    ensures RestartCount(t, p + 1) == if RestartCount(t, p) == 0 then t.reload else RestartCount(t, p) - 1
  {
    if p > t.count {
      DivStep(p - t.count - 1, t.reload + 1);
    } else if p == t.count {
      assert 0 % (t.reload + 1) == 0;
    }
  }

  /* The prescaler, tick by tick */

  lemma DivStep(m: nat, d: nat)
    requires d > 0
    ensures if m % d == d - 1 then (m + 1) / d == m / d + 1 && (m + 1) % d == 0
            else (m + 1) / d == m / d && (m + 1) % d == m % d + 1
  {
    var q, r := m / d, m % d;
    assert m == q * d + r;
    if r == d - 1 {
      assert (q + 1) * d == q * d + d;
      DivUnique(m + 1, d, q + 1, 0);
    } else {
      DivUnique(m + 1, d, q, r + 1);
    }
  }

  predicate NoWrap(scaler: Word, n: nat) {
    scaler < 0xFFFF_FFFF || n < 0x1_0000_0000
  }

  lemma PrescaleForm(scaler: Word, top: nat, n: nat)
    requires top < 0x1_0000 && NoWrap(scaler, n)
    ensures Prescale(scaler, top, n) ==
            if n <= scaler then (0, scaler - n)
            else (1 + (n - scaler - 1) / (top + 1), top - (n - scaler - 1) % (top + 1))
  {
    if n == scaler + 1 {
      assert 0 / (top + 1) == 0 && 0 % (top + 1) == 0;
    }
  }

  /** How often a prescaler at `scaler` that reloads with `top` runs out in n clocks. */
  function Underflows(scaler: Word, top: nat, n: nat): nat {
    if n <= scaler then 0 else 1 + (n - scaler - 1) / (top + 1)
  }

  lemma NotMoreThan(q: nat, d: nat)
    requires d > 0
    ensures q <= q * d
  {
    assert q * d == q * (d - 1) + q;
  }

  lemma DivLe(m: nat, d: nat)
    requires d > 0
    ensures m / d <= m
  {
    NotMoreThan(m / d, d);
  }

  /** The analytic prescaler moves like the single-step one as long as the 32-bit sum does not wrap. */
  lemma PrescaleStep(scaler: Word, top: nat, n: nat)
    requires top < 0x1_0000 && NoWrap(scaler, n + 1)
    ensures var (p, c) := Prescale(scaler, top, n);
            Prescale(scaler, top, n + 1) == if c == 0 then (p + 1, top) else (p, c - 1)
  {
    PrescaleForm(scaler, top, n);
    PrescaleForm(scaler, top, n + 1);
    if n > scaler {
      DivStep(n - scaler - 1, top + 1);
    } else {
      assert 0 / (top + 1) == 0 && 0 % (top + 1) == 0;
    }
  }

  lemma PrescaleBound(scaler: Word, top: nat, n: nat)
    requires top < 0x1_0000 && NoWrap(scaler, n)
    ensures Prescale(scaler, top, n).0 <= n
  {
    PrescaleForm(scaler, top, n);
    if n > scaler {
      DivLe(n - scaler - 1, top + 1);
    }
  }

  /* Closed form of n single ticks */

  /** How many of p prescaler ticks reach a timer that is ticked only while enabled. */
  function Reaching(t: Timer, p: nat): nat {
    if !t.en then 0 else if t.rs || p <= t.count then p else t.count + 1
  }

  predicate Expired(t: Timer, p: nat) {
    !t.en || (!t.rs && p > t.count)
  }

  /** Once every timer has expired the prescaler stands still at its reload value. */
  function Closed(s: State, n: nat): State {
    if !s.Active() then s
    else
      var (p, c) := Prescale(s.scaler, s.Top(), n);
      State(if Expired(s.t0, p) && Expired(s.t1, p) then s.Top() else c, s.sreload,
            TickedBy(s.t0, Reaching(s.t0, p)), TickedBy(s.t1, Reaching(s.t1, p)))
  }

  /** A timer that is ticked only while enabled follows `Reaching`. */
  lemma ReachingStep(t: Timer, p: nat)
    ensures var now := TickedBy(t, Reaching(t, p));
            now.en == !Expired(t, p) && TickedBy(t, Reaching(t, p + 1)) == if now.en then Ticked(now) else now
  {
    if OneShot(t) {
      OneShotRun(t, if p <= t.count then p else t.count + 1);
    } else {
      RestartRun(t, Reaching(t, p));
    }
  }

  lemma ClosedStep(s: State, n: nat)
    requires NoWrap(s.scaler, n + 1)
    ensures Closed(s, n + 1) == Tick(Closed(s, n))
  {
    if s.Active() {
      var (p, c) := Prescale(s.scaler, s.Top(), n);
      PrescaleStep(s.scaler, s.Top(), n);
      ReachingStep(s.t0, p);
      ReachingStep(s.t1, p);
    }
  }

  /** What starts at s and follows single clocks is n single clocks on at its nth place. */
  lemma {:induction false} TickNFollows(s: State, n: nat, f: nat -> State)
    requires f(0) == s && forall k: nat :: k < n ==> f(k + 1) == Tick(f(k))
    ensures TickN(s, n) == f(n)
  {
    if n > 0 {
      TickNFollows(s, n - 1, f);
      assert f(n - 1 + 1) == Tick(f(n - 1));
    }
  }

  lemma TickNClosed(s: State, n: nat)
    requires NoWrap(s.scaler, n)
    ensures TickN(s, n) == Closed(s, n)
  {
    var f := (k: nat) => Closed(s, k);
    forall k: nat | k < n ensures f(k + 1) == Tick(f(k)) {
      ClosedStep(s, k);
    }
    TickNFollows(s, n, f);
  }

  /* The two agree exactly when ... */

  /** No enabled one-shot timer is ticked past its underflow, and if all timers have run out, they did
      so on the very last clock. */
  predicate InTime(s: State, n: nat) {
    var (p, c) := Prescale(s.scaler, s.Top(), n);
    && (OneShot(s.t0) ==> p <= s.t0.count + 1)
    && (OneShot(s.t1) ==> p <= s.t1.count + 1)
    && (s.Active() && Expired(s.t0, p) && Expired(s.t1, p) ==> c == s.Top())
  }

  lemma TimerAgrees(t: Timer, p: nat)
    requires p < 0x1_0000_0000
    ensures AdvancedTimer(t, p, false) == TickedBy(t, Reaching(t, p)) <==> (OneShot(t) ==> p <= t.count + 1)
  {
    if OneShot(t) && p > t.count + 1 {
      OneShotRun(t, t.count + 1);
      OneShotOverrun(t, p - (t.count + 1));
    }
  }

  /** Advancing by n < 2^32 clocks is n single ticks if and only if no one-shot timer overruns. */
  lemma AdvanceExact(s: State, n: nat)
    requires n < 0x1_0000_0000
    ensures Advanced(s, n, false) == TickN(s, n) <==> InTime(s, n)
  {
    TickNClosed(s, n);
    var (p, c) := Prescale(s.scaler, s.Top(), n);
    PrescaleBound(s.scaler, s.Top(), n);
    TimerAgrees(s.t0, p);
    TimerAgrees(s.t1, p);
  }

  predicate AllRestart(s: State) {
    (s.t0.en ==> s.t0.rs) && (s.t1.en ==> s.t1.rs)
  }

  /** With the restart bit on every enabled timer the two always agree, also past 2^32 clocks unless
      the prescaler holds all ones. */
  lemma AdvanceIsTicks(s: State, n: nat)
    requires AllRestart(s) && NoWrap(s.scaler, n)
    ensures Advanced(s, n, false) == TickN(s, n)
  {
    TickNClosed(s, n);
  }

  lemma {:induction false} CountDown(t: Timer, p: nat)
    requires p <= t.count
    ensures TickedBy(t, p) == t.(count := t.count - p)
  {
    if p > 0 {
      CountDown(t, p - 1);
    }
  }

  /** The all-ones prescaler does wrap: after 2^32 clocks single ticks have reached the timer once,
      the analytic advance 65537 times. */
  lemma AllOnesPrescalerWraps(t: Timer)
    requires t.count == 0x2_0000 && t.en && t.rs
    ensures var s := State(0xFFFF_FFFF, 0xFFFF, t, t);
            && Advanced(s, 0x1_0000_0000, false).t0.count == 0x2_0000 - 0x1_0001
            && TickN(s, 0x1_0000_0000).t0.count == 0x2_0000 - 1
  {
    var s := State(0xFFFF_FFFF, 0xFFFF, t, t);
    TickNClosed(s, 0xFFFF_FFFF);
    CountDown(t, 0x1_0001);
  }

  /* Restart timers over any number of clocks */

  /** What an enabled restart timer is after n clocks of a running prescaler. */
  function After(s: State, t: Timer, n: nat): Timer {
    if !t.en then t
    else
      var p := Underflows(s.scaler, s.Top(), n);
      t.(count := RestartCount(t, p), ip := t.ip || (t.ei && p > t.count))
  }

  lemma AfterTicked(s: State, t: Timer, n: nat)
    requires t.en ==> t.rs
    ensures var p := Underflows(s.scaler, s.Top(), n);
            After(s, t, n) == TickedBy(t, Reaching(t, p)) && (Expired(t, p) <==> !t.en)
  {
    if t.en {
      RestartClosed(t, Underflows(s.scaler, s.Top(), n));
    }
  }

  /** With restart timers, n single clocks leave each counter where its period puts it, and pending exactly if it was or
      may interrupt and has passed 0 meanwhile. */
  lemma TickNRestart(s: State, n: nat)
    requires AllRestart(s)
    ensures TickN(s, n).t0 == After(s, s.t0, n) && TickN(s, n).t1 == After(s, s.t1, n)
  {
    if !s.Active() {
      Resting(s, n);
    } else if NoWrap(s.scaler, n) {
      TickNNoWrap(s, n);
    } else {
      var s' := Tick(s);
      TickNFirst(s, n - 1);
      TickNNoWrap(s', n - 1);
      OneLess(s.scaler, s.Top(), n);
    }
  }

  lemma {:induction false} Resting(s: State, n: nat)
    requires !s.Active()
    ensures TickN(s, n) == s
  {
    if n > 0 {
      Resting(s, n - 1);
    }
  }

  lemma TickNNoWrap(s: State, n: nat)
    requires AllRestart(s) && s.Active() && NoWrap(s.scaler, n)
    ensures TickN(s, n).t0 == After(s, s.t0, n) && TickN(s, n).t1 == After(s, s.t1, n)
  {
    TickNClosed(s, n);
    PrescaleForm(s.scaler, s.Top(), n);
    AfterTicked(s, s.t0, n);
    AfterTicked(s, s.t1, n);
  }

  lemma OneLess(scaler: Word, top: nat, n: nat)
    requires 0 < scaler && 0 < n
    ensures Underflows(scaler - 1, top, n - 1) == Underflows(scaler, top, n)
  {
  }

  lemma {:induction false} TickNFirst(s: State, n: nat)
    ensures TickN(s, n + 1) == TickN(Tick(s), n)
  {
    if n > 0 {
      TickNFirst(s, n - 1);
    }
  }
}
