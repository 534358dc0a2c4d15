/** The debugger's stop-the-world protocol. Worker threads, debugger and requesters interleave at the
    granularity of the controller's critical sections. */
module StopController {

  datatype StopState = Running | StopRequested | Stopped

  /** Where a worker thread is: outside the checkpoint, between seeing a stop and taking the lock, or
      asleep on the condition variable with the epoch it noted. */
  datatype Phase = Outside | Entering | Waiting(epoch: nat)

  datatype Ctl = Ctl(state: StopState, flags: map<nat, bool>, nextId: nat, expected: nat, count: nat, epoch: nat,
                     phases: map<nat, Phase>)

  datatype Event = Register | RequestStop | Resume | See(w: nat) | Park(w: nat) | Leave(w: nat)

  const INIT: Ctl := Ctl(Running, map[], 1, 0, 0, 0, map[])

  /** When the worker's wait predicate lets it go. */
  predicate MayLeave(s: Ctl, w: nat) {
    w in s.phases && s.phases[w].Waiting? && s.state.Running? && s.epoch != s.phases[w].epoch
  }

  function Parked(s: Ctl, w: nat): Ctl {
    var s1 := if w in s.flags && !s.flags[w] then
                s.(flags := s.flags[w := true], count := s.count + 1,
                   state := if s.count + 1 == s.expected then Stopped else s.state)
              else s;
    s1.(phases := s1.phases[w := Waiting(s1.epoch)])
  }

  /** One atomic step. An event that is not enabled changes nothing; a wake-up whose predicate is
      false goes back to sleep. */
  function Step(s: Ctl, e: Event): Ctl {
    match e
    case Register =>
      s.(flags := s.flags[s.nextId := false], phases := s.phases[s.nextId := Outside], nextId := s.nextId + 1,
         expected := |s.flags.Keys + {s.nextId}|)
    case RequestStop => if s.state.Running? then s.(state := StopRequested, epoch := s.epoch + 1) else s
    case Resume => s.(flags := map w | w in s.flags :: false, count := 0, state := Running, epoch := s.epoch + 1)
    case See(w) =>
      if w in s.phases && s.phases[w].Outside? && !s.state.Running? then s.(phases := s.phases[w := Entering]) else s
    case Park(w) => if w in s.phases && s.phases[w].Entering? then Parked(s, w) else s
    case Leave(w) => if MayLeave(s, w) then s.(phases := s.phases[w := Outside]) else s
  }

  function Run(s: Ctl, es: seq<Event>): Ctl
    decreases |es|
  {
    if es == [] then s else Run(Step(s, es[0]), es[1..])
  }

  /** The condition on which the debugger's wait returns. */
  predicate AllStopped(s: Ctl) {
    s.state.Stopped? && s.count == s.expected
  }

  function Flagged(s: Ctl): set<nat> {
    set w | w in s.flags && s.flags[w]
  }

  /* Safety */

  ghost predicate Inv(s: Ctl) {
    && s.phases.Keys == s.flags.Keys && (forall w :: w in s.flags ==> w < s.nextId)
    && s.expected == |s.flags.Keys|
    && s.count == |Flagged(s)|
    && (forall w :: w in s.flags && s.flags[w] ==> s.phases[w].Waiting?)
    && (forall w :: w in s.flags && s.flags[w] && s.state.Running? ==> s.phases[w].epoch == s.epoch)
    && (forall w :: w in s.phases && s.phases[w].Waiting? ==> s.phases[w].epoch <= s.epoch)
  }

  lemma RegisterInv(s: Ctl)
    requires Inv(s)
    ensures Inv(Step(s, Register))
  {
    var s' := Step(s, Register);
    assert s'.flags.Keys == s.flags.Keys + {s.nextId};
    assert Flagged(s') == Flagged(s);
  }

  lemma ResumeInv(s: Ctl)
    requires Inv(s)
    ensures Inv(Step(s, Resume))
  {
    var s' := Step(s, Resume);
    assert s'.flags.Keys == s.flags.Keys;
    assert Flagged(s') == {};
  }

  lemma ParkInv(s: Ctl, w: nat)
    requires Inv(s) && w in s.phases && s.phases[w].Entering?
    ensures Inv(Parked(s, w))
  {
    var s' := Parked(s, w);
    assert Flagged(s') == Flagged(s) + {w};
    assert s'.flags.Keys == s.flags.Keys && s'.phases.Keys == s.phases.Keys;
  }

  /** Steps that touch no flag. */
  lemma QuietInv(s: Ctl, e: Event)
    requires Inv(s) && (e.RequestStop? || e.See? || e.Leave?)
    ensures Inv(Step(s, e))
  {
    assert Flagged(Step(s, e)) == Flagged(s);
  }

  lemma StepInv(s: Ctl, e: Event)
    requires Inv(s)
    ensures Inv(Step(s, e))
  {
    match e {
      case Register => RegisterInv(s);
      case Resume => ResumeInv(s);
      case Park(w) => if w in s.phases && s.phases[w].Entering? { ParkInv(s, w); }
      case RequestStop => QuietInv(s, e);
      case See(_) => QuietInv(s, e);
      case Leave(_) => QuietInv(s, e);
    }
  }

  lemma {:induction false} RunKeepsInv(s: Ctl, es: seq<Event>)
    requires Inv(s)
    ensures Inv(Run(s, es))
    decreases |es|
  {
    if es != [] {
      StepInv(s, es[0]);
      RunKeepsInv(Step(s, es[0]), es[1..]);
    }
  }

  /** In every run a flagged worker is parked and the counter counts the flags. */
  lemma RunInv(es: seq<Event>)
    ensures Inv(Run(INIT, es))
  {
    assert Flagged(INIT) == {};
    RunKeepsInv(INIT, es);
  }

  ghost predicate AllParked(s: Ctl, ws: set<nat>) {
    forall w :: w in ws ==> w in s.phases && s.phases[w].Waiting?
  }

  lemma {:induction false} SameSizeSubset(a: set<nat>, b: set<nat>)
    requires a <= b && |a| == |b|
    ensures a == b
  {
    assert |b - a| == |b| - |a|;
  }

  lemma ParkedStep(s: Ctl, e: Event, w: nat)
    requires Inv(s) && !s.state.Running? && !e.Resume? && w in s.phases && s.phases[w].Waiting?
    ensures var s' := Step(s, e); !s'.state.Running? && w in s'.phases && s'.phases[w] == s.phases[w]
    ensures w in Step(s, e).flags && Step(s, e).flags[w] == s.flags[w]
  {
  }

  /** Until the next resume a parked worker stays as it is. */
  lemma {:induction false} ParkedStays(s: Ctl, es: seq<Event>, w: nat)
    requires Inv(s) && !s.state.Running? && Resume !in es && w in s.phases && s.phases[w].Waiting?
    ensures var s' := Run(s, es);
            && !s'.state.Running? && w in s'.phases && s'.phases[w] == s.phases[w]
            && w in s'.flags && s'.flags[w] == s.flags[w]
    decreases |es|
  {
    if es != [] {
      ParkedStep(s, es[0], w);
      StepInv(s, es[0]);
      ParkedStays(Step(s, es[0]), es[1..], w);
    }
  }

  /** When the debugger's wait returns, every registered worker is parked, and stays parked through any
      further steps that contain no resume. */
  lemma StopTheWorld(es: seq<Event>, more: seq<Event>)
    requires AllStopped(Run(INIT, es)) && Resume !in more
    ensures var s := Run(INIT, es);
            AllParked(s, s.flags.Keys) && AllParked(Run(s, more), s.flags.Keys)
  {
    var s := Run(INIT, es);
    RunInv(es);
    SameSizeSubset(Flagged(s), s.flags.Keys);
    assert AllParked(s, s.flags.Keys);
    forall w | w in s.flags.Keys
      ensures w in Run(s, more).phases && Run(s, more).phases[w].Waiting?
    {
      ParkedStays(s, more, w);
    }
  }

  /** A resume lets every parked worker go. */
  lemma ResumeReleases(es: seq<Event>, w: nat)
    requires var s := Run(INIT, es); w in s.phases && s.phases[w].Waiting?
    ensures MayLeave(Step(Run(INIT, es), Resume), w)
  {
    RunInv(es);
  }

  /* What the protocol does not give */

  /** A worker still asleep from an earlier stop is parked but not counted, and while it sleeps a new
      stop cannot complete. */
  lemma SleeperBlocksStop(s: Ctl, w: nat, es: seq<Event>)
    requires Inv(s) && !s.state.Running? && Resume !in es
    requires w in s.flags && !s.flags[w] && s.phases[w].Waiting?
    ensures !AllStopped(Run(s, es))
  {
    ParkedStays(s, es, w);
    RunKeepsInv(s, es);
    var s' := Run(s, es);
    FewerFlags(Flagged(s'), s'.flags.Keys, w);
  }

  lemma {:induction false} FewerFlags(a: set<nat>, b: set<nat>, w: nat)
    requires a <= b - {w} && w in b
    ensures |a| < |b|
  {
    assert |b - {w}| == |b| - 1;
    assert |b - {w} - a| == |b - {w}| - |a|;
  }

  /** Such a state is reached by one worker and two quick stops. */
  lemma SleeperReachable()
    ensures var s := Run(INIT, [Register, RequestStop, See(1), Park(1), Resume, RequestStop]);
            Inv(s) && s.state.StopRequested? && 1 in s.flags && !s.flags[1] && s.phases[1].Waiting?
  {
    var es := [Register, RequestStop, See(1), Park(1), Resume, RequestStop];
    RunInv(es);
    var s1 := Step(INIT, Register);
    assert s1.flags == map[1 := false] && s1.phases == map[1 := Outside] && s1.expected == 1;
    var s4 := Step(Step(Step(s1, RequestStop), See(1)), Park(1));
    assert s4.state == Stopped && s4.phases == map[1 := Waiting(1)];
    assert Run(INIT, es) == Run(s1, es[1..]);
    assert Run(s1, es[1..]) == Run(s4, es[4..]) by {
      assert es[1..][1..] == es[2..] && es[2..][1..] == es[3..] && es[3..][1..] == es[4..];
    }
    assert es[4..][1..] == es[5..] && es[5..][1..] == [];
  }

  /* The stop request taken as two steps: the state swap, and the epoch bump under the lock */

  datatype Fine = Fine(ctl: Ctl, owed: nat)

  datatype FineEvent = Swap | Bump | Atomic(e: Event)

  function FineStep(f: Fine, e: FineEvent): Fine {
    match e
    case Swap => if f.ctl.state.Running? then Fine(f.ctl.(state := StopRequested), f.owed + 1) else f
    case Bump => if f.owed > 0 then Fine(f.ctl.(epoch := f.ctl.epoch + 1), f.owed - 1) else f
    case Atomic(e) => f.(ctl := Step(f.ctl, e))
  }

  function FineRun(f: Fine, es: seq<FineEvent>): Fine
    decreases |es|
  {
    if es == [] then f else FineRun(FineStep(f, es[0]), es[1..])
  }

  /** A bump that comes late: a resume has already set the controller running again, and a worker that saw
      the stop has parked since. */
  ghost predicate LateBump(f: Fine, e: FineEvent) {
    e == Bump && f.owed > 0 && f.ctl.state.Running? && Flagged(f.ctl) != {}
  }

  /** No bump of the run is late. */
  ghost predicate Prompt(f: Fine, es: seq<FineEvent>)
    decreases |es|
  {
    es == [] || (!LateBump(f, es[0]) && Prompt(FineStep(f, es[0]), es[1..]))
  }

  /** Also, unless all have stopped, flags mean that some worker has none. */
  ghost predicate FineInv(f: Fine) {
    Inv(f.ctl) && (!f.ctl.state.Stopped? && f.ctl.count > 0 ==> f.ctl.count < f.ctl.expected)
  }

  /** A step keeps the invariant exactly when it is not a late bump; a late bump lets a flagged worker go. */
  lemma FineStepInv(f: Fine, e: FineEvent)
    requires FineInv(f)
    ensures Inv(FineStep(f, e).ctl) <==> !LateBump(f, e)
    ensures !LateBump(f, e) ==> FineInv(FineStep(f, e))
    ensures LateBump(f, e) ==> forall w :: w in Flagged(f.ctl) ==> MayLeave(FineStep(f, e).ctl, w)
  {
    match e {
      case Atomic(a) => AtomicInv(f, a);
      case Swap => SwapInv(f);
      case Bump => BumpInv(f);
    }
  }

  lemma AtomicInv(f: Fine, e: Event)
    requires FineInv(f)
    ensures FineInv(FineStep(f, Atomic(e)))
  {
    StepInv(f.ctl, e);
    if e.Register? {
      assert f.ctl.flags.Keys <= Step(f.ctl, e).flags.Keys;
      assert |f.ctl.flags.Keys + {f.ctl.nextId}| == |f.ctl.flags.Keys| + 1;
    }
  }

  lemma SwapInv(f: Fine)
    requires FineInv(f)
    ensures FineInv(FineStep(f, Swap))
  {
    assert Flagged(FineStep(f, Swap).ctl) == Flagged(f.ctl);
  }

  lemma BumpInv(f: Fine)
    requires FineInv(f)
    ensures Inv(FineStep(f, Bump).ctl) <==> !LateBump(f, Bump)
    ensures !LateBump(f, Bump) ==> FineInv(FineStep(f, Bump))
    ensures LateBump(f, Bump) ==> forall w :: w in Flagged(f.ctl) ==> MayLeave(FineStep(f, Bump).ctl, w)
  {
    var s := FineStep(f, Bump).ctl;
    assert Flagged(s) == Flagged(f.ctl);
    if LateBump(f, Bump) {
      var w :| w in Flagged(f.ctl);
      assert s.flags[w] && s.phases[w].epoch != s.epoch;
    } else if f.owed > 0 {
      assert f.ctl.state.Running? ==> forall w :: w in f.ctl.flags ==> w !in Flagged(f.ctl);
    }
  }

  ghost predicate Safe(s: Ctl) {
    AllStopped(s) ==> AllParked(s, s.flags.Keys)
  }

  /** Safety at the finer grain: a run without a late bump keeps the invariant, so that whenever the
      debugger's wait returns every registered worker is parked. */
  lemma {:induction false} FineSafety(f: Fine, es: seq<FineEvent>)
    requires FineInv(f) && Prompt(f, es)
    ensures FineInv(FineRun(f, es)) && Safe(FineRun(f, es).ctl)
    decreases |es|
  {
    if es != [] {
      FineStepInv(f, es[0]);
      FineSafety(FineStep(f, es[0]), es[1..]);
    } else if AllStopped(f.ctl) {
      SameSizeSubset(Flagged(f.ctl), f.ctl.flags.Keys);
    }
  }

  /** And until the next resume a parked worker stays parked, whatever swaps and bumps come. */
  lemma {:induction false} FineParkedStays(f: Fine, es: seq<FineEvent>, w: nat)
    requires !f.ctl.state.Running? && w in f.ctl.phases && f.ctl.phases[w].Waiting? &&
             w < f.ctl.nextId && Atomic(Resume) !in es
    ensures var s := FineRun(f, es).ctl; !s.state.Running? && w in s.phases && s.phases[w] == f.ctl.phases[w]
    decreases |es|
  {
    if es != [] {
      FineParkedStays(FineStep(f, es[0]), es[1..], w);
    }
  }

  /** When the wait returns in a prompt run, every registered worker is parked, and stays parked through any
      further steps that contain no resume. */
  lemma FineStopTheWorld(es: seq<FineEvent>, more: seq<FineEvent>)
    requires Prompt(Fine(INIT, 0), es) && AllStopped(FineRun(Fine(INIT, 0), es).ctl) && Atomic(Resume) !in more
    ensures var f := FineRun(Fine(INIT, 0), es);
            AllParked(f.ctl, f.ctl.flags.Keys) && AllParked(FineRun(f, more).ctl, f.ctl.flags.Keys)
  {
    FineStart();
    FineSafety(Fine(INIT, 0), es);
    var f := FineRun(Fine(INIT, 0), es);
    forall w | w in f.ctl.flags.Keys
      ensures w in FineRun(f, more).ctl.phases && FineRun(f, more).ctl.phases[w].Waiting?
    {
      FineParkedStays(f, more, w);
    }
  }

  lemma FineStart()
    ensures FineInv(Fine(INIT, 0))
  {
    assert Flagged(INIT) == {};
  }

  /* What a late bump leads to */

  ghost predicate Counted(s: Ctl) {
    s.phases.Keys == s.flags.Keys && s.expected == |s.flags.Keys| && s.count == |Flagged(s)|
  }

  function Asleep(s: Ctl): set<nat> {
    set w | w in s.phases && s.phases[w].Waiting?
  }

  function Unflagged(s: Ctl): set<nat> {
    set w | w in s.flags && !s.flags[w]
  }

  lemma NoneUnflagged(s: Ctl)
    requires Unflagged(s) == {}
    ensures Flagged(s) == s.flags.Keys
  {
    assert forall w :: w in s.flags ==> w !in Unflagged(s);
  }

  /** No unflagged worker sleeps. */
  ghost predicate Awake(s: Ctl) {
    forall w :: w in s.flags && w in s.phases && !s.flags[w] ==> !s.phases[w].Waiting?
  }

  lemma Consed(f: Fine, e: FineEvent, rest: seq<FineEvent>)
    ensures FineRun(f, [e] + rest) == FineRun(FineStep(f, e), rest)
  {
    assert ([e] + rest)[1..] == rest;
  }

  /** All sleepers whose epoch has passed leave. */
  lemma LeaveAll(f: Fine) returns (es: seq<FineEvent>)
    requires Counted(f.ctl) && f.ctl.state.Running?
    requires forall w :: w in Asleep(f.ctl) ==> f.ctl.phases[w].epoch != f.ctl.epoch
    ensures Bump !in es
    ensures var g := FineRun(f, es);
            && g == f.(ctl := f.ctl.(phases := g.ctl.phases)) && g.ctl.phases.Keys == f.ctl.phases.Keys
            && forall w :: w in f.ctl.phases ==> g.ctl.phases[w] == if f.ctl.phases[w].Waiting? then Outside
               else f.ctl.phases[w]
    decreases |Asleep(f.ctl)|
  {
    if Asleep(f.ctl) == {} {
      es := [];
      assert forall w :: w in f.ctl.phases ==> w !in Asleep(f.ctl);
    } else {
      var w :| w in Asleep(f.ctl);
      var g := FineStep(f, Atomic(Leave(w)));
      assert Asleep(g.ctl) == Asleep(f.ctl) - {w};
      assert Flagged(g.ctl) == Flagged(f.ctl);
      var rest := LeaveAll(g);
      Consed(f, Atomic(Leave(w)), rest);
      es := [Atomic(Leave(w))] + rest;
    }
  }

  /** One unflagged worker that is awake parks. */
  lemma ParkOne(f: Fine, u: nat) returns (es: seq<FineEvent>)
    requires Counted(f.ctl) && !f.ctl.state.Running? && Awake(f.ctl) && u in Unflagged(f.ctl)
    ensures Bump !in es
    ensures var g := FineRun(f, es);
            && Counted(g.ctl) && !g.ctl.state.Running? && Awake(g.ctl)
            && Unflagged(g.ctl) == Unflagged(f.ctl) - {u} && (g.ctl.count == g.ctl.expected ==> g.ctl.state.Stopped?)
            && g.ctl.expected == f.ctl.expected && g.ctl.flags.Keys == f.ctl.flags.Keys
            && forall w :: w in f.ctl.phases && w != u ==> w in g.ctl.phases && g.ctl.phases[w] == f.ctl.phases[w]
  {
    if f.ctl.phases[u].Outside? {
      var h := FineStep(f, Atomic(See(u)));
      Consed(h, Atomic(Park(u)), []);
      Consed(f, Atomic(See(u)), [Atomic(Park(u))]);
      es := [Atomic(See(u))] + [Atomic(Park(u))];
      assert Flagged(h.ctl) == Flagged(f.ctl) && h.ctl.phases.Keys == f.ctl.phases.Keys;
      ParkedOne(h, u);
    } else {
      Consed(f, Atomic(Park(u)), []);
      es := [Atomic(Park(u))] + [];
      ParkedOne(f, u);
    }
  }

  lemma ParkedOne(h: Fine, u: nat)
    requires Counted(h.ctl) && !h.ctl.state.Running? && Awake(h.ctl)
    requires u in Unflagged(h.ctl) && u in h.ctl.phases && h.ctl.phases[u].Entering?
    ensures var g := FineStep(h, Atomic(Park(u)));
            && Counted(g.ctl) && !g.ctl.state.Running? && Awake(g.ctl)
            && Unflagged(g.ctl) == Unflagged(h.ctl) - {u} && (g.ctl.count == g.ctl.expected ==> g.ctl.state.Stopped?)
            && g.ctl.expected == h.ctl.expected && g.ctl.flags.Keys == h.ctl.flags.Keys
            && forall w :: w in h.ctl.phases && w != u ==> w in g.ctl.phases && g.ctl.phases[w] == h.ctl.phases[w]
  {
    var g := FineStep(h, Atomic(Park(u)));
    assert Flagged(g.ctl) == Flagged(h.ctl) + {u};
    assert g.ctl.flags.Keys == h.ctl.flags.Keys && g.ctl.phases.Keys == h.ctl.phases.Keys;
    assert Unflagged(g.ctl) == Unflagged(h.ctl) - {u};
  }

  /** All unflagged workers park, and the stop completes. */
  lemma ParkAll(f: Fine) returns (es: seq<FineEvent>)
    requires Counted(f.ctl) && !f.ctl.state.Running? && Awake(f.ctl)
    requires Unflagged(f.ctl) != {} || AllStopped(f.ctl)
    ensures Bump !in es
    ensures var g := FineRun(f, es);
            && AllStopped(g.ctl) && g.ctl.flags.Keys == f.ctl.flags.Keys
            && forall w :: w in f.ctl.phases && w !in Unflagged(f.ctl) ==>
               w in g.ctl.phases && g.ctl.phases[w] == f.ctl.phases[w]
    decreases |Unflagged(f.ctl)|
  {
    if Unflagged(f.ctl) == {} {
      es := [];
    } else {
      var u :| u in Unflagged(f.ctl);
      var first := ParkOne(f, u);
      var g := FineRun(f, first);
      if Unflagged(g.ctl) == {} {
        NoneUnflagged(g.ctl);
      }
      var rest := ParkAll(g);
      Joined(f, first, rest);
      es := first + rest;
    }
  }

  lemma {:induction false} Joined(f: Fine, es: seq<FineEvent>, more: seq<FineEvent>)
    ensures FineRun(f, es + more) == FineRun(FineRun(f, es), more)
    decreases |es|
  {
    if es == [] {
      assert es + more == more;
    } else {
      assert (es + more)[1..] == es[1..] + more;
      Joined(FineStep(f, es[0]), es[1..], more);
    }
  }

  /** From any reachable late bump the flagged workers can leave, the next stop can be requested and the others
      can park, so that the wait returns while a worker runs. */
  lemma LateBumpBreaks(f: Fine) returns (es: seq<FineEvent>)
    requires FineInv(f) && LateBump(f, Bump)
    ensures Bump !in es && !Safe(FineRun(FineStep(f, Bump), es).ctl)
  {
    var b := FineStep(f, Bump);
    assert Flagged(b.ctl) == Flagged(f.ctl);
    var leave := LeaveAll(b);
    var g := FineRun(b, leave);
    var h := FineStep(g, Swap);
    assert Flagged(h.ctl) == Flagged(f.ctl) && h.ctl.flags == f.ctl.flags;
    var w :| w in Flagged(f.ctl);
    if Unflagged(h.ctl) == {} {
      NoneUnflagged(h.ctl);
    }
    var park := ParkAll(h);
    Consed(g, Swap, park);
    Joined(b, leave, [Swap] + park);
    es := leave + ([Swap] + park);
    assert w !in Unflagged(h.ctl) && h.ctl.phases[w] == Outside;
  }

  lemma {:induction false} PromptJoined(f: Fine, es: seq<FineEvent>, more: seq<FineEvent>)
    requires Prompt(f, es) && Bump !in more
    ensures Prompt(f, es + more)
    decreases |es| + |more|
  {
    if es == [] {
      assert es + more == more;
      if more != [] {
        assert [] + more[1..] == more[1..];
        PromptJoined(FineStep(f, more[0]), [], more[1..]);
      }
    } else {
      assert (es + more)[1..] == es[1..] + more;
      PromptJoined(FineStep(f, es[0]), es[1..], more);
    }
  }

  lemma {:induction false} PromptPrefix(f: Fine, es: seq<FineEvent>, k: nat)
    requires Prompt(f, es) && k <= |es|
    ensures Prompt(f, es[..k])
    decreases |es|
  {
    if k > 0 {
      assert es[..k][1..] == es[1..][..k - 1];
      PromptPrefix(FineStep(f, es[0]), es[1..], k - 1);
    }
  }

  /** Somewhere along the run there is a continuation without bumps that ends with the wait returning while a
      registered worker is not parked. */
  ghost predicate Unsafe(f: Fine, es: seq<FineEvent>) {
    exists k, more :: 0 <= k <= |es| && Bump !in more && !Safe(FineRun(FineRun(f, es[..k]), more).ctl)
  }

  lemma UnsafeHere(f: Fine, es: seq<FineEvent>)
    requires FineInv(f) && es != [] && LateBump(f, es[0])
    ensures Unsafe(f, es)
  {
    var more := LateBumpBreaks(f);
    assert es[..1] == [Bump] == [Bump] + [];
    Consed(f, Bump, []);
    assert !Safe(FineRun(FineRun(f, es[..1]), more).ctl);
  }

  lemma UnsafeLater(f: Fine, es: seq<FineEvent>)
    requires es != [] && Unsafe(FineStep(f, es[0]), es[1..])
    ensures Unsafe(f, es)
  {
    var g, rest := FineStep(f, es[0]), es[1..];
    var k, more :| 0 <= k <= |rest| && Bump !in more && !Safe(FineRun(FineRun(g, rest[..k]), more).ctl);
    assert es[..k + 1] == [es[0]] + rest[..k];
    Consed(f, es[0], rest[..k]);
    assert !Safe(FineRun(FineRun(f, es[..k + 1]), more).ctl);
  }

  lemma {:induction false} LateMeansUnsafe(f: Fine, es: seq<FineEvent>)
    requires FineInv(f) && !Prompt(f, es)
    ensures Unsafe(f, es)
    decreases |es|
  {
    if LateBump(f, es[0]) {
      UnsafeHere(f, es);
    } else {
      FineStepInv(f, es[0]);
      LateMeansUnsafe(FineStep(f, es[0]), es[1..]);
      UnsafeLater(f, es);
    }
  }

  /** The exact condition: a run is safe, together with everything that can still happen from any point of it
      without further bumps, if and only if none of its bumps is late. */
  lemma SafetyExact(es: seq<FineEvent>)
    ensures !Unsafe(Fine(INIT, 0), es) <==> Prompt(Fine(INIT, 0), es)
  {
    var f := Fine(INIT, 0);
    FineStart();
    if Prompt(f, es) {
      forall k, more | 0 <= k <= |es| && Bump !in more
        ensures Safe(FineRun(FineRun(f, es[..k]), more).ctl)
      {
        PromptPrefix(f, es, k);
        PromptJoined(f, es[..k], more);
        FineSafety(f, es[..k] + more);
        Joined(f, es[..k], more);
      }
    } else {
      LateMeansUnsafe(f, es);
    }
  }

  /** Two workers; the first stop's bump comes after a resume and after worker 1 parked again. */
  predicate EarlyResume(es: seq<FineEvent>) {
    && |es| == 11
    && es[0] == Atomic(Register) && es[1] == Atomic(Register) && es[2] == Swap && es[3] == Atomic(See(1))
    && es[4] == Atomic(Resume) && es[5] == Atomic(Park(1)) && es[6] == Bump && es[7] == Atomic(Leave(1))
    && es[8] == Swap && es[9] == Atomic(See(2)) && es[10] == Atomic(Park(2))
  }

  lemma RunFrom(f: Fine, es: seq<FineEvent>, i: nat)
    requires i < |es|
    ensures FineRun(f, es[i..]) == FineRun(FineStep(f, es[i]), es[i + 1..])
  {
    assert es[i..][1..] == es[i + 1..];
  }

  function Pair<T>(a: T, b: T): map<nat, T> { map[1 := a, 2 := b] }

  lemma PairUpdates<T>(a: T, b: T, c: T)
    ensures Pair(a, b)[1 := c] == Pair(c, b) && Pair(a, b)[2 := c] == Pair(a, c)
  {
  }

  function TwoWorkers(state: StopState, f1: bool, count: nat, epoch: nat, p1: Phase, p2: Phase, owed: nat): Fine {
    Fine(Ctl(state, Pair(f1, false), 3, 2, count, epoch, Pair(p1, p2)), owed)
  }

  lemma EarlyRegister(es: seq<FineEvent>)
    requires EarlyResume(es)
    ensures FineRun(Fine(INIT, 0), es) == FineRun(TwoWorkers(Running, false, 0, 0, Outside, Outside, 0), es[2..])
  {
    assert es == es[0..];
    RunFrom(Fine(INIT, 0), es, 0);
    var s1 := Step(INIT, Register);
    assert s1 == Ctl(Running, map[1 := false], 2, 1, 0, 0, map[1 := Outside]);
    RunFrom(Fine(s1, 0), es, 1);
    assert s1.flags.Keys + {2} == {1, 2};
  }

  lemma SeePair(state: StopState, f1: bool, count: nat, epoch: nat, p1: Phase, p2: Phase, owed: nat, w: nat)
    requires !state.Running? && ((w == 1 && p1.Outside?) || (w == 2 && p2.Outside?))
    ensures FineStep(TwoWorkers(state, f1, count, epoch, p1, p2, owed), Atomic(See(w)))
            == if w == 1 then TwoWorkers(state, f1, count, epoch, Entering, p2, owed)
               else TwoWorkers(state, f1, count, epoch, p1, Entering, owed)
  {
    PairUpdates(p1, p2, Entering);
  }

  lemma ResumePair()
    ensures FineStep(TwoWorkers(StopRequested, false, 0, 0, Entering, Outside, 1), Atomic(Resume))
            == TwoWorkers(Running, false, 0, 1, Entering, Outside, 1)
  {
    assert (map w | w in Pair(false, false) :: false) == Pair(false, false);
  }

  lemma ParkPair()
    ensures FineStep(TwoWorkers(Running, false, 0, 1, Entering, Outside, 1), Atomic(Park(1)))
            == TwoWorkers(Running, true, 1, 1, Waiting(1), Outside, 1)
  {
    PairUpdates(false, false, true);
    PairUpdates(Entering, Outside, Waiting(1));
  }

  lemma EarlyPark(es: seq<FineEvent>)
    requires EarlyResume(es)
    ensures FineRun(TwoWorkers(Running, false, 0, 0, Outside, Outside, 0), es[2..])
            == FineRun(TwoWorkers(Running, true, 1, 1, Waiting(1), Outside, 1), es[6..])
  {
    RunFrom(TwoWorkers(Running, false, 0, 0, Outside, Outside, 0), es, 2);
    RunFrom(TwoWorkers(StopRequested, false, 0, 0, Outside, Outside, 1), es, 3);
    SeePair(StopRequested, false, 0, 0, Outside, Outside, 1, 1);
    RunFrom(TwoWorkers(StopRequested, false, 0, 0, Entering, Outside, 1), es, 4);
    ResumePair();
    RunFrom(TwoWorkers(Running, false, 0, 1, Entering, Outside, 1), es, 5);
    ParkPair();
  }

  lemma EarlyLeave(es: seq<FineEvent>)
    requires EarlyResume(es)
    ensures FineRun(TwoWorkers(Running, true, 1, 1, Waiting(1), Outside, 1), es[6..])
            == FineRun(TwoWorkers(StopRequested, true, 1, 2, Outside, Entering, 1), es[10..])
  {
    RunFrom(TwoWorkers(Running, true, 1, 1, Waiting(1), Outside, 1), es, 6);
    RunFrom(TwoWorkers(Running, true, 1, 2, Waiting(1), Outside, 0), es, 7);
    PairUpdates(Waiting(1), Outside, Outside);
    RunFrom(TwoWorkers(Running, true, 1, 2, Outside, Outside, 0), es, 8);
    RunFrom(TwoWorkers(StopRequested, true, 1, 2, Outside, Outside, 1), es, 9);
    SeePair(StopRequested, true, 1, 2, Outside, Outside, 1, 2);
  }

  /** A run with a late bump in which the wait returns while worker 1 is running. */
  lemma EarlyResumeBreaksSafety(es: seq<FineEvent>)
    requires EarlyResume(es)
    ensures var s := FineRun(Fine(INIT, 0), es).ctl;
            AllStopped(s) && 1 in s.phases && s.phases[1] == Outside
  {
    EarlyRegister(es);
    EarlyPark(es);
    EarlyLeave(es);
    RunFrom(TwoWorkers(StopRequested, true, 1, 2, Outside, Entering, 1), es, 10);
  }

  /** The controller itself: each method is one critical section. The ghost phases say where the worker
      threads are. */
  class DebugStopController {
    var state: StopState
    var workers: map<nat, bool>
    var nextId: nat
    var expectedWorkers: nat
    var stoppedCount: nat
    var stopEpoch: nat
    ghost var phases: map<nat, Phase>

    ghost function View(): Ctl
      reads this
    {
      Ctl(state, workers, nextId, expectedWorkers, stoppedCount, stopEpoch, phases)
    }

    constructor ()
      ensures View() == INIT && Inv(View())
    {
      state, workers, nextId, expectedWorkers, stoppedCount, stopEpoch := Running, map[], 1, 0, 0, 0;
      phases := map[];
      assert Flagged(INIT) == {};
    }

    method RegisterWorker() returns (id: nat)
      requires Inv(View())
      modifies this
      ensures View() == Step(old(View()), Register) && Inv(View())
      ensures id in workers && id !in old(workers)
    {
      RegisterInv(View());
      id := nextId;
      assert (workers[id := false]).Keys == workers.Keys + {id};
      nextId := nextId + 1;
      workers := workers[id := false];
      phases := phases[id := Outside];
      expectedWorkers := |workers.Keys|;
    }

    /** Returns true if this call moved the controller from running to stop-requested. */
    method RequestStopNow() returns (first: bool)
      requires Inv(View())
      modifies this
      ensures View() == Step(old(View()), RequestStop) && Inv(View())
      ensures first == old(state).Running?
    {
      QuietInv(View(), RequestStop);
      if !state.Running? {
        return false;
      }
      state := StopRequested;
      stopEpoch := stopEpoch + 1;
      return true;
    }

    method ResumeAll()
      requires Inv(View())
      modifies this
      ensures View() == Step(old(View()), Resume) && Inv(View())
    {
      ResumeInv(View());
      workers := map w | w in workers :: false;
      stoppedCount := 0;
      state := Running;
      stopEpoch := stopEpoch + 1;
    }

    /** The locked part of the slow path up to the wait. */
    method CheckpointSlow(w: nat)
      requires Inv(View()) && w in phases && phases[w].Entering?
      modifies this
      ensures View() == Step(old(View()), Park(w)) && Inv(View())
      ensures workers[w] && phases[w].Waiting?
    {
      ParkInv(View(), w);
      if !workers[w] {
        workers := workers[w := true];
        stoppedCount := stoppedCount + 1;
        if stoppedCount == expectedWorkers {
          state := Stopped;
        }
      }
      phases := phases[w := Waiting(stopEpoch)];
    }

    /** What the debugger learns when its wait predicate holds. */
    method PollAllStopped() returns (done: bool)
      requires Inv(View())
      ensures done <==> AllStopped(View())
      ensures done ==> AllParked(View(), workers.Keys)
    {
      done := state == Stopped && stoppedCount == expectedWorkers;
      if done {
        SameSizeSubset(Flagged(View()), workers.Keys);
      }
    }
  }
}
