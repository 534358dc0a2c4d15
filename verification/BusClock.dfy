/** The bus clock's batching loop: the clocks due since the last wake-up are handed to the timer in
    batches cut at the UART's divider. */
module BusClock {
  import opened Words
  import opened GpTimer

  /* Pending bits do not influence counting */

  function Bare(s: State): State {
    s.(t0 := s.t0.(ip := false), t1 := s.t1.(ip := false))
  }

  predicate Pending(s: State) {
    (s.t0.en && s.t0.ip) || (s.t1.en && s.t1.ip)
  }

  /** `u` is `r` with the extra pending bit `h`. */
  predicate Plus(h: bool, r: Timer, u: Timer) {
    u == r.(ip := h || r.ip)
  }

  predicate Superposed(s: State, r: State, u: State) {
    u.scaler == r.scaler && u.sreload == r.sreload && Plus(s.t0.ip, r.t0, u.t0) && Plus(s.t1.ip, r.t1, u.t1)
  }

  lemma PlusTicked(h: bool, r: Timer, u: Timer)
    requires Plus(h, r, u)
    ensures Plus(h, TickedIfOn(r), TickedIfOn(u))
  {
    if r.count == 0 {
      if r.rs {} else {}
    }
  }

  lemma UnderflowSuperposes(s: State, r: State, u: State)
    requires Superposed(s, r, u)
    ensures Superposed(s, Underflow(r), Underflow(u))
  {
    PlusTicked(s.t0.ip, r.t0, u.t0);
    PlusTicked(s.t1.ip, r.t1, u.t1);
  }

  lemma TickSuperposes(s: State, r: State, u: State)
    requires Superposed(s, r, u)
    ensures Superposed(s, Tick(r), Tick(u))
  {
    if r.Active() && r.scaler == 0 {
      UnderflowSuperposes(s, r, u);
    }
  }

  /** Pending bits only accumulate: a run from s is the bare run plus the bits s already had. */
  lemma {:induction false} RunSuperposes(s: State, n: nat)
    ensures Superposed(s, TickN(Bare(s), n), TickN(s, n))
  {
    if n > 0 {
      RunSuperposes(s, n - 1);
      TickSuperposes(s, TickN(Bare(s), n - 1), TickN(s, n - 1));
    }
  }

  lemma {:induction false} RestartForever(s: State, n: nat)
    requires AllRestart(s)
    ensures var u := TickN(s, n); AllRestart(u) && u.t0.en == s.t0.en && u.t1.en == s.t1.en
  {
    if n > 0 {
      RestartForever(s, n - 1);
    }
  }

  lemma {:induction false} TickNAdds(s: State, a: nat, b: nat)
    ensures TickN(TickN(s, a), b) == TickN(s, a + b)
    decreases b
  {
    if b > 0 {
      TickNAdds(s, a, b - 1);
    }
  }

  /** Same counters as u, and either untouched since s or cleared while u remembers what fired. */
  ghost predicate Follows(s: State, cur: State, u: State, done: nat, fires: nat) {
    && Bare(cur) == Bare(u) && AllRestart(u)
    && (done == 0 ==> cur == u && fires == 0)
    && (done > 0 ==> !Pending(cur) && (Pending(u) <==> fires > 0))
  }

  lemma AdvanceFires(cur: State, n: nat)
    requires AllRestart(cur) && 0 < n < 0x1_0000_0000
    ensures var p := Prescale(cur.scaler, cur.Top(), n).0; var after := Advanced(cur, n, true);
            && (Fired(cur.t0, p) || Fired(cur.t1, p) <==> Pending(TickN(cur, n)))
            && Bare(after) == Bare(TickN(cur, n)) && !Pending(after)
  {
    AdvanceIsTicks(cur, n);
    RestartForever(cur, n);
    var p := Prescale(cur.scaler, cur.Top(), n).0;
    PendingAfter(cur.t0, p);
    PendingAfter(cur.t1, p);
  }

  lemma BatchFollows(s: State, cur: State, u: State, done: nat, fires: nat, n: nat)
    requires Follows(s, cur, u, done, fires) && 0 < n < 0x1_0000_0000
    ensures var p := Prescale(cur.scaler, cur.Top(), n).0;
            Follows(s, Advanced(cur, n, true), TickN(u, n), done + n,
                    fires + (if Fired(cur.t0, p) || Fired(cur.t1, p) then 1 else 0))
  {
    AdvanceFires(cur, n);
    RestartForever(u, n);
    RunSuperposes(u, n);
    RunSuperposes(cur, n);
  }

  function Sum(xs: seq<nat>): nat {
    if xs == [] then 0 else Sum(xs[..|xs| - 1]) + xs[|xs| - 1]
  }

  /** Poll number i happens when divider start plus clocks make i+1 times the target. */
  ghost predicate OnSchedule(polls: seq<nat>, target: nat, start: nat) {
    forall i :: 0 <= i < |polls| ==> polls[i] == (i + 1) * target - start
  }

  /** After t clocks every poll due has been made, and the divider counts the clocks since the last. */
  ghost predicate OnTime(polls: seq<nat>, target: nat, start: nat, div: nat, t: nat) {
    div < target && start + t == |polls| * target + div && OnSchedule(polls, target, start)
  }

  lemma NextPoll(polls: seq<nat>, target: nat, start: nat, div: nat, t: nat, n: nat)
    requires OnTime(polls, target, start, div, t) && div + n == target
    ensures OnTime(polls + [t + n], target, start, 0, t + n)
  {
    assert |polls + [t + n]| * target == |polls| * target + target;
  }

  lemma AllPolled(polls: seq<nat>, target: nat, start: nat, div: nat, t: nat)
    requires OnTime(polls, target, start, div, t)
    ensures |polls| == (start + t) / target && div == (start + t) % target
  {
    DivUnique(start + t, target, |polls|, div);
  }

  lemma Idle(target: nat, start: nat)
    requires start < target
    ensures OnTime([], target, start, start, 0)
  {
  }

  /** In so many clocks the counters come to where their periods put them, and the interrupt fires exactly if a timer
      was pending or may interrupt and has passed 0. */
  ghost predicate Outcome(s: State, cur: State, due: nat, fires: nat) {
    var p := Underflows(s.scaler, s.Top(), due);
    && cur.t0.count == (if s.t0.en then RestartCount(s.t0, p) else s.t0.count)
    && cur.t1.count == (if s.t1.en then RestartCount(s.t1, p) else s.t1.count)
    && (due > 0 ==> (fires > 0 <==> Fired(s.t0, p) || Fired(s.t1, p)))
  }

  lemma DrivenOutcome(s: State, cur: State, due: nat, fires: nat)
    requires AllRestart(s) && Follows(s, cur, TickN(s, due), due, fires)
    ensures Outcome(s, cur, due, fires)
  {
    TickNRestart(s, due);
  }

  class Clock {
    const timer: GPTIMER
    var uartDiv: nat

    constructor (timer: GPTIMER)
      ensures this.timer == timer && uartDiv == 0
    {
      this.timer := timer;
      uartDiv := 0;
    }

    /** Hands the timer batches that add up to `due`; polls the UART at every multiple of the divider
        target, counted from the divider's starting value, and at no other clock; with restart timers
        the counters end as after `due` single ticks, and the timer interrupt fires at least once
        exactly when single ticks would have left it pending. */
    method Drive(due: nat, target: Word) returns (batches: seq<nat>, polls: seq<nat>, fires: nat)
      requires timer.Valid() && uartDiv < target
      modifies this, timer`SCALER, timer.timers
      ensures Sum(batches) == due && (forall i :: 0 <= i < |batches| ==> 0 < batches[i] <= target)
      ensures |polls| == (old(uartDiv) + due) / target && uartDiv == (old(uartDiv) + due) % target
      ensures OnSchedule(polls, target, old(uartDiv))
      ensures AllRestart(old(timer.S())) ==>
                && Bare(timer.S()) == Bare(TickN(old(timer.S()), due))
                && (due > 0 ==> (fires > 0 <==> Pending(TickN(old(timer.S()), due))))
      ensures AllRestart(old(timer.S())) ==> Outcome(old(timer.S()), timer.S(), due, fires)
    {
      var remaining := due;
      batches, polls, fires := [], [], 0;
      ghost var s, start := timer.S(), uartDiv;
      Idle(target, start);
      while remaining > 0
        invariant 0 <= remaining <= due && Sum(batches) == due - remaining
        invariant forall i :: 0 <= i < |batches| ==> 0 < batches[i] <= target
        invariant OnTime(polls, target, start, uartDiv, due - remaining)
        invariant AllRestart(s) ==> Follows(s, timer.S(), TickN(s, due - remaining), due - remaining, fires)
      {
        var toUart := target - uartDiv;
        var batch := if remaining < toUart then remaining else toUart;
        var fire := Advance(s, due - remaining, batch, fires);
        if batch == toUart {
          NextPoll(polls, target, start, uartDiv, due - remaining, batch);
        }
        uartDiv := uartDiv + batch;
        remaining := remaining - batch;
        batches := batches + [batch];
        if fire {
          fires := fires + 1;
        }
        if uartDiv >= target {
          uartDiv := 0;
          polls := polls + [due - remaining];
        }
      }
      AllPolled(polls, target, start, uartDiv, due);
      if AllRestart(s) {
        DrivenOutcome(s, timer.S(), due, fires);
      }
    }

    /** One batch, `done` clocks into a run that started in state s. */
    method Advance(ghost s: State, ghost done: nat, batch: nat, ghost fires: nat) returns (fire: bool)
      requires timer.Valid() && 0 < batch < 0x1_0000_0000
      requires AllRestart(s) ==> Follows(s, timer.S(), TickN(s, done), done, fires)
      modifies timer`SCALER, timer.timers
      ensures AllRestart(s) ==>
                Follows(s, timer.S(), TickN(s, done + batch), done + batch, fires + (if fire then 1 else 0))
    {
      if AllRestart(s) {
        BatchFollows(s, timer.S(), TickN(s, done), done, fires, batch);
        TickNAdds(s, done, batch);
      }
      fire := timer.AdvanceUnlocked(batch, true);
    }
  }
}
