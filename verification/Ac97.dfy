/** The playback DMA engine of the AC'97 controller: a ring of 32 buffer descriptors in guest memory,
    played from the current index (CIV) to the last valid index (LVI). */
module Ac97 {
  import opened Words

  type Half = x: int | 0 <= x < 0x1_0000

  type Positive = n: nat | n > 0 witness 1

  /* The ring: what its 32 buffers hold */

  /** The samples left in a buffer and its control word; Bad if it is empty or cannot be read. */
  datatype Buffer = Bad | Buffer(samples: seq<int>, ctl: Half) {
    /** Whether completing it is to be flagged. */
    predicate Ioc() {
      Buffer? && ctl / 0x8000 % 2 == 1
    }
    function Samples(): seq<int> {
      match this
      case Bad => []
      case Buffer(s, _) => s
    }
  }

  type Tape = t: seq<Buffer> | |t| == 32 witness seq(32, _ => Bad)

  /** The following ring index, as masking with 0x1F gives it. */
  function Next(k: nat): nat {
    if k < 31 then k + 1 else 0
  }

  function Along(k: nat, n: nat): nat
    decreases n
  {
    if n == 0 then k else Along(Next(k), n - 1)
  }

  lemma {:induction false} AlongIsModular(k: nat, n: nat)
    requires k < 32
    ensures Along(k, n) == (k + n) % 32
    decreases n
  {
    if n > 0 {
      AlongIsModular(Next(k), n - 1);
    }
  }

  lemma {:induction false} AlongNext(k: nat, n: nat)
    ensures Along(k, n + 1) == Next(Along(k, n))
    decreases n
  {
    if n > 0 {
      AlongNext(Next(k), n - 1);
    }
  }

  /** How many buffers follow index k up to index l. */
  function Gap(k: nat, l: nat): (g: nat)
    requires k < 32 && l < 32
    ensures g == (l - k) % 32
  {
    if k <= l then l - k else l + 32 - k
  }

  lemma AlongGap(k: nat, l: nat)
    requires k < 32 && l < 32
    ensures Along(Next(k), Gap(k, l)) == Next(l)
  {
    AlongIsModular(Next(k), Gap(k, l));
  }

  predicate ReelGood(t: Tape, k: nat, n: nat)
    requires k < 32
    decreases n
  {
    n == 0 || (t[k].Buffer? && ReelGood(t, Next(k), n - 1))
  }

  /** The samples of n buffers of the ring from index k on. */
  function Reel(t: Tape, k: nat, n: nat): seq<int>
    requires k < 32
    decreases n
  {
    if n == 0 then [] else t[k].Samples() + Reel(t, Next(k), n - 1)
  }

  /** All 32 buffers can be played. */
  predicate AllGood(t: Tape) {
    GoodTo(t, |t|)
  }

  predicate GoodTo(t: Tape, n: nat)
    requires n <= |t|
  {
    n == 0 || (t[n - 1].Buffer? && GoodTo(t, n - 1))
  }

  lemma {:induction false} GoodAt(t: Tape, n: nat, k: nat)
    requires k < n <= |t| && GoodTo(t, n)
    ensures t[k].Buffer?
  {
    if k < n - 1 {
      GoodAt(t, n - 1, k);
    }
  }

  lemma {:induction false} AnyReelGood(t: Tape, k: nat, n: nat)
    requires k < 32 && AllGood(t)
    ensures ReelGood(t, k, n)
    decreases n
  {
    if n > 0 {
      GoodAt(t, |t|, k);
      AnyReelGood(t, Next(k), n - 1);
    }
  }

  lemma {:induction false} ReelAppends(t: Tape, k: nat, a: nat, b: nat)
    requires k < 32
    ensures Along(k, a) < 32 && Reel(t, k, a + b) == Reel(t, k, a) + Reel(t, Along(k, a), b)
    decreases a
  {
    if a > 0 {
      ReelAppends(t, Next(k), a - 1, b);
    }
  }

  /* The engine as its registers and the host see it */

  /** The playback status register: DMA halted, current index at last valid, last valid buffer
      completed, buffer completed. */
  datatype Status = Status(dch: bool, cip: bool, lvbci: bool, bcis: bool)

  /** The playback control register; its reset bit clears itself. */
  datatype Control = Control(run: bool, lvbie: bool, feie: bool, ioce: bool)

  /** `cur` is what is left of the buffer at CIV, None if it is not loaded. */
  datatype Engine = Engine(running: bool, resumable: bool, civ: nat, lvi: nat, cur: Option<Buffer>,
                           status: Status, ioce: bool, point: bool, stream: seq<int>)

  predicate InRing(e: Engine) {
    e.civ < 32 && e.lvi < 32
  }

  /** Whatever a running engine has still to play can be read. */
  predicate Ready(t: Tape, e: Engine)
    requires InRing(e)
  {
    e.running && Current(t, e).Buffer? && ReelGood(t, Next(e.civ), Gap(e.civ, e.lvi))
  }

  /** The rest of the buffer at CIV. */
  function Current(t: Tape, e: Engine): Buffer
    requires InRing(e)
  {
    match e.cur
    case None => t[e.civ]
    case Some(b) => b
  }

  /** What a running engine has still to play: the rest of the buffer at CIV, then the buffers up to LVI. */
  function Remaining(t: Tape, e: Engine): seq<int>
    requires InRing(e)
  {
    if e.running then Current(t, e).Samples() + Reel(t, Next(e.civ), Gap(e.civ, e.lvi)) else []
  }

  /** An engine at the beginning of a buffer has the ring from CIV to LVI to play. */
  lemma FreshRemaining(t: Tape, e: Engine)
    requires InRing(e) && e.running && (e.cur.None? || e.cur.value == t[e.civ])
    ensures Remaining(t, e) == Reel(t, e.civ, (e.lvi - e.civ) % 32 + 1)
  {
    assert Gap(e.civ, e.lvi) == (e.lvi - e.civ) % 32;
  }

  /** Stopped past LVI by the engine itself, so that a new LVI resumes it. */
  predicate Stalled(e: Engine) {
    !e.running && e.resumable && e.cur.None? && e.status.dch && !e.status.cip && e.civ == Next(e.lvi)
  }

  predicate Halted(e: Engine) {
    Stalled(e) && e.status.lvbci
  }

  /** What a tick of a ready engine does. Within a buffer exactly `frames` stereo frames are handed over;
      at its end the rest of it is, completion is flagged, CIV moves on by one, and past LVI the
      engine halts. */
  predicate Played(t: Tape, e: Engine, f: Engine, frames: nat)
    requires InRing(e) && InRing(f)
  {
    && f.lvi == e.lvi && f.ioce == e.ioce && Current(t, e).Buffer?
    && if 2 * frames < |Current(t, e).samples| then Within(t, e, f, 2 * frames) else Past(t, e, f)
  }

  predicate Within(t: Tape, e: Engine, f: Engine, n: nat)
    requires InRing(e) && InRing(f) && Current(t, e).Buffer? && n < |Current(t, e).samples|
  {
    var b := Current(t, e);
    f == e.(cur := Some(b.(samples := b.samples[n..])), stream := e.stream + b.samples[..n])
  }

  predicate Past(t: Tape, e: Engine, f: Engine)
    requires InRing(e) && InRing(f) && Current(t, e).Buffer?
  {
    && f.stream == e.stream + Current(t, e).samples
    && f.civ == Next(e.civ) && (f.status.bcis <==> e.status.bcis || Current(t, e).Ioc())
    && (f.point <==> e.point || ((f.status.lvbci || f.status.bcis) && f.ioce))
    && if e.civ == e.lvi then Halted(f)
       else
         && f.running && f.status == e.status.(bcis := f.status.bcis)
         && f.resumable == e.resumable && f.cur == Some(t[f.civ])
  }

  /** A tick that hands over the rest of a buffer and then moves past it. */
  lemma PushThenPast(t: Tape, e: Engine, mid: Engine, f: Engine, frames: nat)
    requires InRing(e) && InRing(f) && Ready(t, e) && e.cur.Some? && f.lvi == e.lvi && f.ioce == e.ioce
    requires |e.cur.value.samples| <= 2 * frames
    requires mid == e.(stream := e.stream + e.cur.value.samples, cur := Some(e.cur.value.(samples := [])))
    requires Past(t, mid, f)
    ensures Played(t, e, f, frames)
  {
    assert mid.stream + [] == mid.stream;
  }

  /* Whole runs */

  /** A tick moves samples from what remains to the stream. */
  lemma TickConserves(t: Tape, e: Engine, f: Engine, frames: nat)
    requires InRing(e) && InRing(f) && Ready(t, e) && Played(t, e, f, frames)
    ensures f.running <==> f.civ == e.civ || e.civ != e.lvi
    ensures f.running ==> Ready(t, f)
    ensures f.stream + Remaining(t, f) == e.stream + Remaining(t, e)
  {
    if f.civ != e.civ && e.civ != e.lvi {
      assert Gap(e.civ, e.lvi) == Gap(f.civ, f.lvi) + 1;
    }
  }

  /** Part of the way through the buffers from e0 on. */
  predicate Midway(t: Tape, e0: Engine, e: Engine, played: seq<nat>) {
    && InRing(e0) && InRing(e) && Ready(t, e0) && e.lvi == e0.lvi
    && (if e.running then Ready(t, e) else Halted(e))
    && e.stream + Remaining(t, e) == e0.stream + Remaining(t, e0)
    && |played| + (if e.running then Gap(e.civ, e.lvi) + 1 else 0) == Gap(e0.civ, e0.lvi) + 1
    && e.civ == Along(e0.civ, |played|)
    && forall i :: 0 <= i < |played| ==> played[i] == Along(e0.civ, i)
  }

  /** What a tick of at least one frame brings closer to the end of a buffer. */
  function Ahead(t: Tape, e: Engine): nat
    requires InRing(e)
  {
    match Current(t, e)
    case Bad => 0
    case Buffer(s, _) => |s|
  }

  /** Each tick of at least one frame brings the end closer. */
  lemma MidwayStep(t: Tape, e0: Engine, e: Engine, f: Engine, frames: Positive, played: seq<nat>)
    requires Midway(t, e0, e, played) && e.running && InRing(f) && Played(t, e, f, frames)
    ensures Midway(t, e0, f, if f.civ == e.civ then played else played + [e.civ])
    ensures f.running && f.civ == e.civ ==> Ahead(t, f) < Ahead(t, e)
    ensures f.running && f.civ != e.civ ==> Gap(f.civ, f.lvi) < Gap(e.civ, e.lvi)
  {
    TickConserves(t, e, f, frames);
    AlongNext(e0.civ, |played|);
  }

  /** Whether one of the first n buffers from where e0 stands is to be flagged on completion. */
  predicate Flags(t: Tape, e0: Engine, n: nat)
    requires InRing(e0)
  {
    n > 0 && (Flags(t, e0, n - 1) || Starts(t, e0, n - 1).Ioc())
  }

  /** What is played nth from where e0 stands, 0 being what is left of the buffer at CIV. */
  function Starts(t: Tape, e0: Engine, n: nat): Buffer
    requires InRing(e0)
  {
    AlongIsModular(e0.civ, n);
    if n == 0 then Current(t, e0) else t[Along(e0.civ, n)]
  }

  /** Completion is flagged if a buffer that asks for it has been played, and the interrupt goes up only if enabled, and
      does so at the end. */
  predicate Signalled(t: Tape, e0: Engine, e: Engine, n: nat)
    requires InRing(e0) && InRing(e)
  {
    && e.ioce == e0.ioce && (e.running ==> (Current(t, e).Ioc() <==> Starts(t, e0, n).Ioc()))
    && (e.status.bcis <==> e0.status.bcis || Flags(t, e0, n))
    && (e0.point ==> e.point) && (e.point ==> e0.point || e0.ioce)
    && (!e.running ==> (e.point <==> e0.point || e0.ioce))
  }

  lemma SignalledStep(t: Tape, e0: Engine, e: Engine, f: Engine, frames: nat, n: nat)
    requires InRing(e0) && InRing(e) && InRing(f) && Signalled(t, e0, e, n) && Ready(t, e) && Played(t, e, f, frames)
    requires e.civ == Along(e0.civ, n)
    ensures Signalled(t, e0, f, if f.civ == e.civ then n else n + 1)
  {
    AlongNext(e0.civ, n);
  }

  lemma MidwayEnd(t: Tape, e0: Engine, e: Engine, played: seq<nat>)
    requires Midway(t, e0, e, played) && !e.running
    ensures e.stream == e0.stream + Remaining(t, e0) && |played| == (e0.lvi - e0.civ) % 32 + 1
    ensures forall i :: 0 <= i < |played| ==> played[i] == (e0.civ + i) % 32
  {
    forall i | 0 <= i < |played|
      ensures played[i] == (e0.civ + i) % 32
    {
      AlongIsModular(e0.civ, i);
    }
  }

  predicate OnCourse(t: Tape, e0: Engine, e: Engine, played: seq<nat>) {
    Midway(t, e0, e, played) && Signalled(t, e0, e, |played|)
  }

  lemma OnCourseStart(t: Tape, e: Engine)
    requires InRing(e) && Ready(t, e)
    ensures OnCourse(t, e, e, [])
  {
  }

  lemma OnCourseStep(t: Tape, e0: Engine, e: Engine, f: Engine, frames: Positive, played: seq<nat>)
    requires OnCourse(t, e0, e, played) && e.running && InRing(f) && Played(t, e, f, frames)
    ensures OnCourse(t, e0, f, if f.civ == e.civ then played else played + [e.civ])
    ensures f.running && f.civ == e.civ ==> Ahead(t, f) < Ahead(t, e)
    ensures f.running && f.civ != e.civ ==> Gap(f.civ, f.lvi) < Gap(e.civ, e.lvi)
  {
    MidwayStep(t, e0, e, f, frames, played);
    SignalledOn(t, e0, e, f, frames, played);
  }

  lemma SignalledOn(t: Tape, e0: Engine, e: Engine, f: Engine, frames: nat, played: seq<nat>)
    requires OnCourse(t, e0, e, played) && e.running && InRing(f) && Played(t, e, f, frames)
    ensures InRing(e0) && Signalled(t, e0, f, |if f.civ == e.civ then played else played + [e.civ]|)
  {
    SignalledStep(t, e0, e, f, frames, |played|);
  }

  /** What the whole course comes to. */
  predicate Finished(t: Tape, e0: Engine, e: Engine, played: seq<nat>)
    requires InRing(e0)
  {
    && Halted(e) && e.stream == e0.stream + Remaining(t, e0)
    && |played| == (e0.lvi - e0.civ) % 32 + 1
    && (forall i :: 0 <= i < |played| ==> played[i] == (e0.civ + i) % 32)
    && (e.status.bcis <==> e0.status.bcis || Flags(t, e0, |played|)) && (e.point <==> e0.point || e0.ioce)
  }

  lemma OnCourseEnd(t: Tape, e0: Engine, e: Engine, played: seq<nat>)
    requires OnCourse(t, e0, e, played) && !e.running
    ensures InRing(e0) && Finished(t, e0, e, played)
  {
    MidwayEnd(t, e0, e, played);
  }

  /** Some way round the ring with LVI kept at the same distance, still running. */
  predicate Circling(t: Tape, e0: Engine, e: Engine, done: nat) {
    && InRing(e0) && InRing(e) && AllGood(t)
    && e.running && Current(t, e).Buffer?
    && e.civ == Along(e0.civ, done) && Gap(e.civ, e.lvi) == Gap(e0.civ, e0.lvi) > 0
    && e.stream + Current(t, e).Samples() == e0.stream + Current(t, e0).Samples() + Reel(t, Next(e0.civ), done)
  }

  lemma CirclingReady(t: Tape, e0: Engine, e: Engine, done: nat)
    requires Circling(t, e0, e, done)
    ensures Ready(t, e)
  {
    AnyReelGood(t, Next(e.civ), Gap(e.civ, e.lvi));
  }

  lemma CirclingStep(t: Tape, e0: Engine, e: Engine, f: Engine, frames: nat, done: nat)
    requires Circling(t, e0, e, done) && InRing(f) && Played(t, e, f, frames)
    ensures f.civ == e.civ ==> Circling(t, e0, f, done)
    ensures f.civ != e.civ ==> Circling(t, e0, f.(lvi := Next(f.lvi)), done + 1)
  {
    if f.civ != e.civ {
      GoodAt(t, |t|, f.civ);
      ReelAppends(t, Next(e0.civ), done, 1);
      AlongNext(e0.civ, done);
    }
  }

  /** Buffers opened up by moving LVI from l through the given values. */
  function Opened(l: nat, lvis: seq<nat>): nat
    requires l < 32 && forall i :: 0 <= i < |lvis| ==> lvis[i] < 32
    decreases |lvis|
  {
    if lvis == [] then 0 else Gap(l, lvis[0]) + Opened(lvis[0], lvis[1..])
  }

  /** Playing up to l and then n more is playing on from where l was reached. */
  lemma ReelGap(t: Tape, k: nat, l: nat, n: nat)
    requires k < 32 && l < 32
    ensures Reel(t, Next(k), Gap(k, l) + n) == Reel(t, Next(k), Gap(k, l)) + Reel(t, Next(l), n)
  {
    ReelAppends(t, Next(k), Gap(k, l), n);
    AlongGap(k, l);
  }

  lemma Rejoined(s0: seq<int>, s1: seq<int>, s2: seq<int>, a: seq<int>, b: seq<int>)
    requires s1 == s0 + a && s2 == s1 + b
    ensures s2 == s0 + (a + b)
  {
  }

  lemma ReelOn(t: Tape, l: nat, l': nat, n: nat, s0: seq<int>, s1: seq<int>, s2: seq<int>)
    requires l < 32 && l' < 32
    requires s1 == s0 + Reel(t, Next(l), Gap(l, l'))
    requires s2 == s1 + Reel(t, Next(l'), n)
    ensures s2 == s0 + Reel(t, Next(l), Gap(l, l') + n)
  {
    Rejoined(s0, s1, s2, Reel(t, Next(l), Gap(l, l')), Reel(t, Next(l'), n));
    ReelGap(t, l, l', n);
  }

  lemma OpenedFirst(t: Tape, l: nat, lvis: seq<nat>, s0: seq<int>, s1: seq<int>, s2: seq<int>)
    requires l < 32 && lvis != [] && forall i :: 0 <= i < |lvis| ==> lvis[i] < 32
    requires s1 == s0 + Reel(t, Next(l), Gap(l, lvis[0]))
    requires s2 == s1 + Reel(t, Next(lvis[0]), Opened(lvis[0], lvis[1..]))
    ensures s2 == s0 + Reel(t, Next(l), Opened(l, lvis))
  {
    var n := Opened(lvis[0], lvis[1..]);
    ReelOn(t, l, lvis[0], n, s0, s1, s2);
  }

  /** An engine stalled after l that is given another last valid index has what lies between to play. */
  lemma ResumedPlays(t: Tape, e: Engine, l: nat)
    requires InRing(e) && l < 32 && AllGood(t) && e.running && e.cur.None? && e.civ == Next(l) && e.lvi != l
    ensures Ready(t, e) && Remaining(t, e) == Reel(t, e.civ, Gap(l, e.lvi))
  {
    GoodAt(t, |t|, e.civ);
    AnyReelGood(t, Next(e.civ), Gap(e.civ, e.lvi));
    assert Gap(l, e.lvi) == Gap(e.civ, e.lvi) + 1;
  }

  /* Guest memory */

  /** What a 32-bit and a 16-bit read of each mapped guest address yield, in the engine's byte order. */
  datatype Memory = Memory(words: map<Word, Word>, halves: map<Word, Half>)

  /** Addresses wrap at 2^32. */
  function At(a: nat): Word {
    a % 0x1_0000_0000
  }

  /** A sample as the signed 16-bit value handed to the host. */
  function Sample(h: Half): int {
    if h < 0x8000 then h else h - 0x1_0000
  }

  predicate Mapped(m: Memory, a: nat, n: nat) {
    n == 0 || (Mapped(m, a, n - 1) && At(a + 2 * (n - 1)) in m.halves)
  }

  function Samples(m: Memory, a: nat, n: nat): (r: seq<int>)
    requires Mapped(m, a, n)
    ensures |r| == n
  {
    if n == 0 then [] else Samples(m, a, n - 1) + [Sample(m.halves[At(a + 2 * (n - 1))])]
  }

  lemma {:induction false} MappedPrefix(m: Memory, a: nat, n: nat, k: nat)
    requires k <= n && Mapped(m, a, n)
    ensures Mapped(m, a, k)
  {
    if k < n {
      MappedPrefix(m, a, n - 1, k);
    }
  }

  /** Reading some samples and then the rest is reading them all. */
  lemma {:induction false} SamplesSplit(m: Memory, a: nat, k: nat, n: nat)
    requires Mapped(m, a, k + n)
    ensures Mapped(m, a, k) && Mapped(m, a + 2 * k, n)
    ensures Samples(m, a, k + n) == Samples(m, a, k) + Samples(m, a + 2 * k, n)
  {
    if n > 0 {
      SamplesSplit(m, a, k, n - 1);
      assert a + 2 * (k + n - 1) == a + 2 * k + 2 * (n - 1);
    }
  }

  function BufferAt(m: Memory, a: nat, frames: nat, ctl: Half): Buffer {
    if Mapped(m, a, 2 * frames) then Buffer(Samples(m, a, 2 * frames), ctl) else Bad
  }

  lemma BufferSplit(m: Memory, a: nat, frames: nat, todo: nat, ctl: Half)
    requires todo <= frames
    ensures var b := BufferAt(m, a, frames, ctl);
            b.Buffer? ==>
              && Mapped(m, a, 2 * todo) && Samples(m, a, 2 * todo) == b.samples[..2 * todo]
              && BufferAt(m, a + 4 * todo, frames - todo, ctl) == b.(samples := b.samples[2 * todo..])
  {
    if Mapped(m, a, 2 * frames) {
      SamplesSplit(m, a, 2 * todo, 2 * (frames - todo));
    }
  }

  datatype Descriptor = Descriptor(ptr: Word, len: Half, ctl: Half) {
    predicate Empty() {
      ptr == 0 || len == 0
    }
  }

  function Fetch(m: Memory, bdbar: Word, k: nat): Option<Descriptor> {
    var a := bdbar + 8 * k;
    if At(a) in m.words && At(a + 4) in m.halves && At(a + 6) in m.halves then
      Some(Descriptor(m.words[At(a)], m.halves[At(a + 4)], m.halves[At(a + 6)]))
    else None
  }

  /** A descriptor of length n holds n/2 stereo frames. */
  function Described(m: Memory, bdbar: Word, k: nat): Buffer {
    match Fetch(m, bdbar, k)
    case None => Bad
    case Some(d) => if d.Empty() then Bad else BufferAt(m, d.ptr, d.len / 2, d.ctl)
  }

  /** The ring at bdbar, and its first n buffers. */
  function TapeAt(m: Memory, bdbar: Word): Tape {
    Buffers(m, bdbar, 32)
  }

  function Buffers(m: Memory, bdbar: Word, n: nat): (r: seq<Buffer>)
    ensures |r| == n
    decreases bdbar, n
  {
    if n == 0 then [] else Buffers(m, bdbar, n - 1) + [Described(m, bdbar, n - 1)]
  }

  lemma {:induction false} BufferIs(m: Memory, bdbar: Word, n: nat, k: nat)
    requires k < n
    ensures Buffers(m, bdbar, n)[k] == Described(m, bdbar, k)
  {
    if k < n - 1 {
      BufferIs(m, bdbar, n - 1, k);
    }
  }

  /* What software puts in memory is what is played */

  /** A descriptor as software writes it. */
  datatype Clip = Clip(ptr: Word, len: Half, ctl: Half) {
    /** Its whole stereo frames, as single samples. */
    function Count(): nat {
      2 * (len / 2)
    }
  }

  /** Memory holds the clip as descriptor k: its address, length and control word at +0, +4 and +6, and its samples. */
  ghost predicate Recorded(m: Memory, bdbar: Word, k: nat, c: Clip) {
    var a := bdbar + 8 * k;
    && c.ptr != 0 && c.len != 0
    && At(a) in m.words && m.words[At(a)] == c.ptr
    && At(a + 4) in m.halves && m.halves[At(a + 4)] == c.len
    && At(a + 6) in m.halves && m.halves[At(a + 6)] == c.ctl
    && forall i :: 0 <= i < c.Count() ==> At(c.ptr + 2 * i) in m.halves
  }

  /** The signed number with the bits of h. */
  predicate IsSample(v: int, h: Half) {
    -0x8000 <= v < 0x8000 && (v == h || v == h - 0x1_0000)
  }

  /** The samples of a clip in order. */
  ghost predicate IsClip(m: Memory, c: Clip, samples: seq<int>) {
    && |samples| == c.Count()
    && forall i :: 0 <= i < c.Count() ==>
         At(c.ptr + 2 * i) in m.halves && IsSample(samples[i], m.halves[At(c.ptr + 2 * i)])
  }

  lemma {:induction false} SamplesAt(m: Memory, a: nat, n: nat)
    requires forall i :: 0 <= i < n ==> At(a + 2 * i) in m.halves
    ensures Mapped(m, a, n)
    ensures forall i :: 0 <= i < n ==> IsSample(Samples(m, a, n)[i], m.halves[At(a + 2 * i)])
  {
    if n > 0 {
      SamplesAt(m, a, n - 1);
    }
  }

  /** A buffer with the samples of a clip, flagged if its control word has the top bit. */
  ghost predicate Plays(m: Memory, c: Clip, b: Buffer) {
    b.Buffer? && b.ctl == c.ctl && IsClip(m, c, b.samples) && (b.Ioc() <==> c.ctl >= 0x8000)
  }

  lemma DescribedBuffer(m: Memory, bdbar: Word, k: nat, c: Clip)
    requires Recorded(m, bdbar, k, c) && Mapped(m, c.ptr, c.Count())
    ensures Described(m, bdbar, k) == Buffer(Samples(m, c.ptr, c.Count()), c.ctl)
  {
  }

  lemma DescribedClip(m: Memory, bdbar: Word, k: nat, c: Clip)
    requires Recorded(m, bdbar, k, c)
    ensures Plays(m, c, Described(m, bdbar, k))
  {
    ClipSamples(m, bdbar, k, c);
    DescribedBuffer(m, bdbar, k, c);
    TopBit(c.ctl);
  }

  lemma ClipSamples(m: Memory, bdbar: Word, k: nat, c: Clip)
    requires Recorded(m, bdbar, k, c)
    ensures Mapped(m, c.ptr, c.Count()) && IsClip(m, c, Samples(m, c.ptr, c.Count()))
  {
    SamplesAt(m, c.ptr, c.Count());
  }

  lemma TopBit(h: Half)
    ensures h / 0x8000 % 2 == 1 <==> h >= 0x8000
  {
  }

  /** The tape is what the descriptors describe. */
  ghost predicate IsTape(m: Memory, bdbar: Word, t: Tape) {
    forall k :: 0 <= k < 32 ==> t[k] == Described(m, bdbar, k)
  }

  lemma TapeIs(m: Memory, bdbar: Word)
    ensures IsTape(m, bdbar, TapeAt(m, bdbar))
  {
    forall k | 0 <= k < 32
      ensures TapeAt(m, bdbar)[k] == Described(m, bdbar, k)
    {
      BufferIs(m, bdbar, 32, k);
    }
  }

  /** Entry k of the ring is the clip recorded there. */
  lemma ClipPlays(m: Memory, bdbar: Word, t: Tape, k: nat, c: Clip)
    requires k < 32 && IsTape(m, bdbar, t) && Recorded(m, bdbar, k, c)
    ensures Plays(m, c, t[k])
  {
    DescribedClip(m, bdbar, k, c);
  }

  /** The clips one after another. */
  ghost predicate Sequence(m: Memory, clips: seq<Clip>, samples: seq<int>)
    decreases |clips|
  {
    if clips == [] then samples == []
    else
      && clips[0].Count() <= |samples| && IsClip(m, clips[0], samples[..clips[0].Count()])
      && Sequence(m, clips[1..], samples[clips[0].Count()..])
  }

  /** The ring from k on holds the clips. */
  ghost predicate Ring(m: Memory, bdbar: Word, k: nat, clips: seq<Clip>)
    requires k < 32
    decreases |clips|
  {
    clips == [] || (Recorded(m, bdbar, k, clips[0]) && Ring(m, bdbar, Next(k), clips[1..]))
  }

  lemma FirstOf(m: Memory, c: Clip, rest: seq<Clip>, s: seq<int>, more: seq<int>)
    requires IsClip(m, c, s) && Sequence(m, rest, more)
    ensures Sequence(m, [c] + rest, s + more)
  {
    assert (s + more)[..|s|] == s && (s + more)[|s|..] == more;
    assert ([c] + rest)[1..] == rest;
  }

  lemma {:induction false} RingReel(m: Memory, bdbar: Word, t: Tape, k: nat, clips: seq<Clip>)
    requires k < 32 && IsTape(m, bdbar, t) && Ring(m, bdbar, k, clips)
    ensures ReelGood(t, k, |clips|) && Sequence(m, clips, Reel(t, k, |clips|))
    decreases |clips|
  {
    if clips != [] {
      ClipPlays(m, bdbar, t, k, clips[0]);
      RingReel(m, bdbar, t, Next(k), clips[1..]);
      FirstOf(m, clips[0], clips[1..], t[k].Samples(), Reel(t, Next(k), |clips| - 1));
      assert [clips[0]] + clips[1..] == clips;
    }
  }

  ghost predicate AnyFlagged(clips: seq<Clip>, n: nat)
    requires n <= |clips|
  {
    exists i :: 0 <= i < n && clips[i].ctl >= 0x8000
  }

  lemma {:induction false} RingAt(m: Memory, bdbar: Word, k: nat, clips: seq<Clip>, i: nat)
    requires k < 32 && Ring(m, bdbar, k, clips) && i < |clips|
    ensures Along(k, i) < 32 && Recorded(m, bdbar, Along(k, i), clips[i])
    decreases i
  {
    if i > 0 {
      RingAt(m, bdbar, Next(k), clips[1..], i - 1);
    }
  }

  lemma RingStarts(m: Memory, bdbar: Word, t: Tape, e0: Engine, clips: seq<Clip>, n: nat)
    requires IsTape(m, bdbar, t) && InRing(e0) && Ring(m, bdbar, e0.civ, clips) && n < |clips| && e0.cur.None?
    ensures Starts(t, e0, n).Ioc() <==> clips[n].ctl >= 0x8000
  {
    RingAt(m, bdbar, e0.civ, clips, n);
    ClipPlays(m, bdbar, t, Along(e0.civ, n), clips[n]);
  }

  lemma {:induction false} RingFlags(m: Memory, bdbar: Word, t: Tape, e0: Engine, clips: seq<Clip>, n: nat)
    requires IsTape(m, bdbar, t) && InRing(e0) && Ring(m, bdbar, e0.civ, clips) && n <= |clips| && e0.cur.None?
    ensures Flags(t, e0, n) <==> AnyFlagged(clips, n)
  {
    if n > 0 {
      RingFlags(m, bdbar, t, e0, clips, n - 1);
      RingStarts(m, bdbar, t, e0, clips, n - 1);
    }
  }

  /** An engine about to start on the first clip is ready to play them all. */
  lemma RingReady(m: Memory, bdbar: Word, t: Tape, e0: Engine, clips: seq<Clip>)
    requires IsTape(m, bdbar, t) && InRing(e0) && e0.running && e0.cur.None?
    requires |clips| == Gap(e0.civ, e0.lvi) + 1 && Ring(m, bdbar, e0.civ, clips)
    ensures Ready(t, e0) && Sequence(m, clips, Remaining(t, e0))
    ensures Flags(t, e0, |clips|) <==> AnyFlagged(clips, |clips|)
  {
    RingReel(m, bdbar, t, e0.civ, clips);
    RingFlags(m, bdbar, t, e0, clips, |clips|);
    FreshRemaining(t, e0);
  }

  /** The host has got the clips, in order, and completion is flagged if one of them asks for it. */
  ghost predicate Heard(m: Memory, clips: seq<Clip>, e0: Engine, e: Engine, heard: seq<int>) {
    && Halted(e) && e.stream == e0.stream + heard && Sequence(m, clips, heard)
    && (e.status.bcis <==> e0.status.bcis || AnyFlagged(clips, |clips|))
  }

  lemma RingHeard(m: Memory, t: Tape, e0: Engine, e: Engine, clips: seq<Clip>, played: seq<nat>)
    requires InRing(e0) && Finished(t, e0, e, played) && Sequence(m, clips, Remaining(t, e0))
    requires |clips| == Gap(e0.civ, e0.lvi) + 1 && (Flags(t, e0, |clips|) <==> AnyFlagged(clips, |clips|))
    ensures Heard(m, clips, e0, e, Remaining(t, e0))
  {
  }

  /** A tick of so many frames, or a write to one of the engine's registers. */
  datatype Op =
    | Play(frames: nat)
    | SetControl(value: Control, reset: bool)
    | SetLvi(index: Byte)
    | ClearStatus(ones: Status)
    | SetBdbar(base: Word)
    | SetGlobal(cold: bool, warm: bool)
    | ClearGlobal(clear: bool)

  /** The list is mapped and its kth descriptor can be read and is not empty. */
  predicate Startable(m: Memory, bdbar: Word, k: nat) {
    bdbar in m.words && Fetch(m, bdbar, k).Some? && !Fetch(m, bdbar, k).value.Empty()
  }

  class Playback {
    var running: bool
    var lvbciHalted: bool
    var civ: nat
    var lvi: nat
    var picb: nat
    var curPtr: Word
    var curLen: Half
    var curCtl: Half
    var offset: nat
    var status: Status
    var control: Control
    var bdbar: Word
    var cntCold: bool
    var cntWarm: bool
    var point: bool
    /** Everything handed to the host audio output so far. */
    var stream: seq<int>

    /** A loaded descriptor is accounted for to the frame, a running engine is not reported halted, an
        engine that may resume by itself has no descriptor loaded, and reset requests clear themselves. */
    ghost predicate Valid()
      reads this
    {
      && civ < 32 && lvi < 32
      && (curLen != 0 ==> offset + 4 * picb == 4 * (curLen / 2))
      && (running ==> !status.dch)
      && (lvbciHalted && !running ==> curLen == 0)
      && !cntCold && !cntWarm
    }

    ghost function Cur(m: Memory): Option<Buffer>
      reads this
    {
      if curLen == 0 then None else Some(BufferAt(m, curPtr + offset, picb, curCtl))
    }

    ghost function E(m: Memory): Engine
      reads this
    {
      Engine(running, lvbciHalted, civ, lvi, Cur(m), status, control.ioce, point, stream)
    }

    constructor ()
      ensures Valid() && !running && !lvbciHalted &&
              civ == lvi == picb == curLen == bdbar == 0 && !point && stream == []
      ensures status == Status(false, false, false, false) && control == Control(false, false, false, false)
    {
      running, lvbciHalted, point := false, false, false;
      civ, lvi, picb, curPtr, curLen, curCtl, offset := 0, 0, 0, 0, 0, 0, 0;
      status, control := Status(false, false, false, false), Control(false, false, false, false);
      cntCold, cntWarm, bdbar, stream := false, false, 0, [];
    }

    method SetCurrent(d: Descriptor)
      requires !d.Empty()
      modifies this`curPtr, this`curLen, this`curCtl, this`offset, this`picb
      ensures Descriptor(curPtr, curLen, curCtl) == d && offset == 0 && picb == curLen / 2
    {
      curPtr, curLen, curCtl := d.ptr, d.len, d.ctl;
      offset, picb := 0, d.len / 2;
    }

    /** Loads the descriptor at CIV, or stops the engine if it is empty. Fails, changing nothing, where
        the emulator's memory read throws. */
    method Load(m: Memory) returns (ok: bool)
      requires Valid() && running
      modifies this`running, this`status, this`curPtr, this`curLen, this`curCtl, this`offset, this`picb
      ensures Valid() && (ok <==> Fetch(m, bdbar, civ).Some?)
      ensures !ok ==> E(m) == old(E(m))
      ensures ok && Fetch(m, bdbar, civ).value.Empty() ==>
                !running && curLen == 0 && status == old(status).(cip := false, dch := true)
      ensures ok && !Fetch(m, bdbar, civ).value.Empty() ==>
                E(m) == old(E(m)).(cur := Some(Described(m, bdbar, civ))) && curLen != 0
    {
      var d := Fetch(m, bdbar, civ);
      if d.None? {
        return false;
      }
      ok := true;
      if d.value.Empty() {
        running, curLen := false, 0;
        status := status.(cip := false, dch := true);
        return;
      }
      SetCurrent(d.value);
    }

    /** Collects the next frames of the current descriptor and hands them to the host. */
    method Push(m: Memory, todo: nat) returns (ok: bool)
      requires Valid() && curLen != 0 && todo <= picb
      modifies this`stream, this`offset, this`picb
      ensures Valid() && (ok <==> Mapped(m, old(curPtr + offset), 2 * todo))
      ensures !ok ==> unchanged(this)
      ensures ok ==>
                && stream == old(stream) + Samples(m, old(curPtr + offset), 2 * todo)
                && offset == old(offset) + 4 * todo && picb == old(picb) - todo
    {
      var samples: seq<int> := [];
      var base := curPtr + offset;
      var i := 0;
      while i < 2 * todo
        invariant i <= 2 * todo && Mapped(m, base, i) && samples == Samples(m, base, i)
      {
        if At(base + 2 * i) !in m.halves {
          ok := false;
          if Mapped(m, base, 2 * todo) {
            MappedPrefix(m, base, 2 * todo, i + 1);
          }
          return;
        }
        samples := samples + [Sample(m.halves[At(base + 2 * i)])];
        i := i + 1;
      }
      stream := stream + samples;
      offset, picb := offset + 4 * todo, picb - todo;
      ok := true;
    }

    /** Raises the playback interrupt if a completion is flagged and enabled. */
    method Signal()
      modifies this`point
      ensures point <==> old(point) || ((status.lvbci || status.bcis) && control.ioce)
    {
      if (status.lvbci || status.bcis) && control.ioce {
        point := true;
      }
    }

    /** A finished descriptor flags BCIS if it asks to, and CIV moves on; past LVI the engine halts. */
    method Complete(m: Memory)
      requires Valid() && running && curLen != 0
      modifies this`running, this`lvbciHalted, this`civ, this`status, this`point, this`curLen
      ensures Valid() && civ == Next(old(civ))
      ensures status.bcis <==> old(status).bcis || curCtl / 0x8000 % 2 == 1
      ensures if old(civ) == lvi then Halted(E(m))
              else
                && running && lvbciHalted == old(lvbciHalted) && curLen == old(curLen)
                && status == old(status).(bcis := status.bcis)
      ensures point <==> old(point) || ((status.lvbci || status.bcis) && control.ioce)
    {
      if curCtl / 0x8000 % 2 == 1 {
        status := status.(bcis := true);
      }
      civ := Next(civ);
      if civ == Next(lvi) {
        status := status.(lvbci := true, cip := false, dch := true);
        running, lvbciHalted, curLen := false, true, 0;
      }
      Signal();
    }

    /** After the last frame of a descriptor the next one is loaded at once, unless the engine halts. */
    method Finish(m: Memory) returns (ok: bool)
      requires Valid() && running && curLen != 0 && picb == 0
      modifies this`running, this`lvbciHalted, this`civ, this`status, this`point,
               this`curPtr, this`curLen, this`curCtl, this`offset, this`picb
      ensures Valid()
      ensures old(civ) == lvi || TapeAt(m, bdbar)[Next(old(civ))].Buffer? ==>
              ok && Past(TapeAt(m, bdbar), old(E(m)), E(m))
    {
      ok := true;
      Complete(m);
      if running {
        BufferIs(m, bdbar, 32, civ);
        ok := Load(m);
      }
    }

    /** Hands over the next frames of a buffer. */
    method Hand(m: Memory, todo: nat) returns (ok: bool)
      requires Valid() && curLen != 0 && todo <= picb
      modifies this`stream, this`offset, this`picb
      ensures Valid() && picb == if ok then old(picb) - todo else old(picb)
      ensures old(Cur(m)).value.Buffer? ==>
                var b := old(Cur(m)).value;
                && ok && |b.samples| == 2 * old(picb)
                && E(m) == old(E(m)).(stream := old(stream) + b.samples[..2 * todo],
                                      cur := Some(b.(samples := b.samples[2 * todo..])))
    {
      BufferSplit(m, curPtr + offset, picb, todo, curCtl);
      ok := Push(m, todo);
    }

    /** Plays at most `frames` frames of the loaded descriptor. */
    method PlayLoaded(m: Memory, frames: nat) returns (ok: bool)
      requires Valid() && running && curLen != 0
      modifies this`running, this`lvbciHalted, this`civ, this`status, this`point, this`stream,
               this`curPtr, this`curLen, this`curCtl, this`offset, this`picb
      ensures Valid()
      ensures old(Ready(TapeAt(m, bdbar), E(m))) ==> ok && Played(TapeAt(m, bdbar), old(E(m)), E(m), frames)
    {
      var todo := if frames < picb then frames else picb;
      ghost var t, e := TapeAt(m, bdbar), E(m);
      ok := Hand(m, todo);
      if !ok || picb > 0 {
        return;
      }
      ghost var mid := E(m);
      ok := Finish(m);
      if Ready(t, e) {
        PushThenPast(t, e, mid, E(m), frames);
      }
    }

    /** One tick of at most `frames` frames. Fails where a memory read of the emulator throws. */
    method Tick(m: Memory, frames: nat) returns (ok: bool)
      requires Valid()
      modifies this`running, this`lvbciHalted, this`civ, this`status, this`point, this`stream,
               this`curPtr, this`curLen, this`curCtl, this`offset, this`picb
      ensures Valid()
      ensures !old(running) || bdbar == 0 ==> ok && unchanged(this)
      ensures bdbar != 0 && old(Ready(TapeAt(m, bdbar), E(m))) ==>
                ok && Played(TapeAt(m, bdbar), old(E(m)), E(m), frames)
    {
      ok := true;
      if !running || bdbar == 0 {
        return;
      }
      if curLen == 0 {
        BufferIs(m, bdbar, 32, civ);
        ok := Load(m);
        if !ok || !running {
          return;
        }
      }
      ok := PlayLoaded(m, frames);
    }

    /* Register writes */

    method ResetEngine()
      modifies this`running, this`lvbciHalted, this`civ, this`status,
               this`curPtr, this`curLen, this`curCtl, this`offset, this`picb
      ensures !running && !lvbciHalted && civ == curPtr == curLen == curCtl == offset == picb == 0
      ensures status == Status(true, false, false, false)
    {
      running, lvbciHalted, civ := false, false, 0;
      curPtr, curLen, curCtl, picb, offset := 0, 0, 0, 0, 0;
      status := Status(true, false, false, false);
    }

    /** RUN written to a stopped engine starts it at the beginning of the descriptor at CIV, if that is
        mapped and not empty. Fails where the emulator's memory read throws. */
    method Start(m: Memory) returns (ok: bool)
      requires Valid() && !running
      modifies this`running, this`status, this`curPtr, this`curLen, this`curCtl, this`offset, this`picb
      ensures Valid()
      ensures running <==> bdbar != 0 && Startable(m, bdbar, civ)
      ensures ok <==> (bdbar != 0 && bdbar in m.words ==> Fetch(m, bdbar, civ).Some?)
      ensures status == if ok then old(status).(dch := !running) else old(status)
      ensures if running then Cur(m) == Some(Described(m, bdbar, civ)) else Cur(m) == old(Cur(m))
    {
      ok := true;
      if bdbar == 0 || bdbar !in m.words {
        status := status.(dch := true);
        return;
      }
      var d := Fetch(m, bdbar, civ);
      if d.None? {
        return false;
      }
      if d.value.Empty() {
        status := status.(dch := true);
        return;
      }
      running := true;
      status := status.(dch := false);
      SetCurrent(d.value);
    }

    /** A control write resets, stops or starts the engine. */
    method WriteControl(m: Memory, value: Control, reset: bool) returns (ok: bool)
      requires Valid()
      modifies this`running, this`lvbciHalted, this`civ, this`status, this`control,
               this`curPtr, this`curLen, this`curCtl, this`offset, this`picb
      ensures Valid() && control == value
      ensures reset ==>
                && ok && !running && !lvbciHalted && status == Status(true, false, false, false)
                && civ == curPtr == curLen == curCtl == offset == picb == 0
      ensures !reset ==> civ == old(civ)
      ensures !reset && !value.run ==>
                && ok && !running && !lvbciHalted && Cur(m) == old(Cur(m))
                && status == old(status).(dch := true, lvbci := false, bcis := false)
      ensures !reset && value.run ==> lvbciHalted == old(lvbciHalted)
      ensures !reset && value.run && old(running) ==>
                ok && running && status == old(status) && Cur(m) == old(Cur(m))
      ensures !reset && value.run && !old(running) ==>
                && (running <==> bdbar != 0 && Startable(m, bdbar, civ))
                && (ok <==> (bdbar != 0 && bdbar in m.words ==> Fetch(m, bdbar, civ).Some?))
                && status == (if ok then old(status).(dch := !running) else old(status))
                && if running then Cur(m) == Some(Described(m, bdbar, civ)) else Cur(m) == old(Cur(m))
    {
      control, ok := value, true;
      if reset {
        ResetEngine();
        return;
      }
      if !value.run {
        running, lvbciHalted := false, false;
        status := status.(dch := true, lvbci := false, bcis := false);
        return;
      }
      if running {
        return;
      }
      ok := Start(m);
    }

    /** A new last valid index resumes an engine that halted by itself, unless CIV already is just past
        the new index. */
    method WriteLvi(value: Byte)
      requires Valid()
      modifies this`lvi, this`running, this`lvbciHalted, this`status
      ensures Valid() && lvi == value % 32
      ensures running <==> old(running) || (old(lvbciHalted) && civ != Next(lvi))
      ensures running == old(running) ==> lvbciHalted == old(lvbciHalted) && status == old(status)
      ensures running && !old(running) ==>
                !lvbciHalted && status == old(status).(dch := false, cip := true) && curLen == 0
    {
      lvi := value % 32;
      var extended := lvi != (civ + 31) % 32;
      if !running && lvbciHalted && extended {
        running, lvbciHalted := true, false;
        status := status.(dch := false, cip := true);
      }
    }

    /** Writing ones clears every status bit but the halted bit. */
    method WriteStatus(ones: Status)
      requires Valid()
      modifies this`status
      ensures Valid()
      ensures status == Status(old(status).dch, old(status).cip && !ones.cip,
                               old(status).lvbci && !ones.lvbci, old(status).bcis && !ones.bcis)
    {
      status := Status(status.dch, status.cip && !ones.cip, status.lvbci && !ones.lvbci, status.bcis && !ones.bcis);
    }

    method WriteBdbar(value: Word)
      requires Valid()
      modifies this`bdbar
      ensures Valid() && bdbar == value
    {
      bdbar := value;
    }

    method ColdReset()
      modifies this`running, this`lvbciHalted, this`civ, this`status,
               this`curPtr, this`curLen, this`curCtl, this`offset,
               this`picb, this`bdbar, this`control, this`point, this`cntCold, this`cntWarm
      ensures !running && !lvbciHalted && civ == curPtr == curLen == curCtl == offset == picb == bdbar == 0
      ensures status == Status(true, false, false, false) && control == Control(false, false, false, false)
      ensures !point && !cntCold && !cntWarm
    {
      ResetEngine();
      bdbar, control, point := 0, Control(false, false, false, false), false;
      cntCold, cntWarm := false, false;
    }

    /** A cold reset stops the engine and forgets its registers; a warm reset only clears the status. */
    method WriteGlobalControl(cold: bool, warm: bool)
      requires Valid()
      modifies this
      ensures Valid() && lvi == old(lvi) && stream == old(stream)
      ensures cold ==>
                && !running && !lvbciHalted && civ == curPtr == curLen == curCtl == offset == picb == bdbar == 0
                && control == Control(false, false, false, false) && !point &&
                   status == Status(!warm, false, false, false)
      ensures !cold ==>
                && running == old(running) && lvbciHalted == old(lvbciHalted) && civ == old(civ) && bdbar == old(bdbar)
                && curPtr == old(curPtr) && curLen == old(curLen) && curCtl == old(curCtl) && offset == old(offset)
                && picb == old(picb) && control == old(control) && point == old(point)
                && status == if warm then Status(false, false, false, false) else old(status)
    {
      var oldCold, oldWarm := cntCold, cntWarm;
      cntCold, cntWarm := cold, warm;
      if !oldCold && cold {
        ColdReset();
      }
      if !oldWarm && warm {
        status := Status(false, false, false, false);
        cntWarm := false;
      }
    }

    /** Writing a one to the global status register clears the playback interrupt. */
    method WriteGlobalStatus(clear: bool)
      requires Valid()
      modifies this`point
      ensures Valid() && point == (old(point) && !clear)
    {
      point := point && !clear;
    }

    /* Whole runs */

    method Perform(m: Memory, op: Op)
      requires Valid()
      modifies this
      ensures Valid()
    {
      match op
      case Play(frames) => var _ := Tick(m, frames);
      case SetControl(value, reset) => var _ := WriteControl(m, value, reset);
      case SetLvi(value) => WriteLvi(value);
      case ClearStatus(ones) => WriteStatus(ones);
      case SetBdbar(value) => WriteBdbar(value);
      case SetGlobal(cold, warm) => WriteGlobalControl(cold, warm);
      case ClearGlobal(clear) => WriteGlobalStatus(clear);
    }

    /** Whatever software writes, and however guest memory changes in between, the accounts of the engine stay
        right: a loaded descriptor has offset + 4 * PICB = 4 * (length / 2), a running engine is not flagged as
        halted, and one that may resume has no descriptor loaded. */
    method Operate(ops: seq<(Memory, Op)>)
      requires Valid()
      modifies this
      ensures Valid()
    {
      for i := 0 to |ops|
        invariant Valid()
      {
        Perform(ops[i].0, ops[i].1);
      }
    }

    method TickOn(m: Memory, frames: Positive, ghost e0: Engine, played: seq<nat>) returns (now: seq<nat>)
      requires Valid() && bdbar != 0 && running && OnCourse(TapeAt(m, bdbar), e0, E(m), played)
      modifies this`running, this`lvbciHalted, this`civ, this`status, this`point, this`stream,
               this`curPtr, this`curLen, this`curCtl, this`offset, this`picb
      ensures Valid() && OnCourse(TapeAt(m, bdbar), e0, E(m), now)
      ensures running && civ == old(civ) ==> Ahead(TapeAt(m, bdbar), E(m)) < old(Ahead(TapeAt(m, bdbar), E(m)))
      ensures running && civ != old(civ) ==> Gap(civ, lvi) < old(Gap(civ, lvi))
    {
      ghost var t, e := TapeAt(m, bdbar), E(m);
      var was := civ;
      var _ := Tick(m, frames);
      OnCourseStep(t, e0, e, E(m), frames, played);
      now := if civ != was then played + [was] else played;
    }

    /** However the frames are cut into ticks, a ready engine plays every buffer from CIV to LVI, in ring
        order, and then halts. Completion is flagged if one of the buffers asks for it. */
    method PlayOut(m: Memory, size: nat -> Positive) returns (played: seq<nat>)
      requires Valid() && bdbar != 0 && Ready(TapeAt(m, bdbar), E(m))
      modifies this`running, this`lvbciHalted, this`civ, this`status, this`point, this`stream,
               this`curPtr, this`curLen, this`curCtl, this`offset, this`picb
      ensures Valid() && Finished(TapeAt(m, bdbar), old(E(m)), E(m), played)
    {
      ghost var t, e0 := TapeAt(m, bdbar), E(m);
      OnCourseStart(t, e0);
      var n := 0;
      played := [];
      while running
        invariant Valid() && OnCourse(t, e0, E(m), played)
        decreases if running then Gap(civ, lvi) + 1 else 0, Ahead(t, E(m))
      {
        played := TickOn(m, size(n), e0, played);
        n := n + 1;
      }
      OnCourseEnd(t, e0, E(m), played);
    }

    /** What software recorded in the ring from CIV to LVI is what the host gets to hear, in order and to the last whole
        frame; completion is flagged if a descriptor asks for it. */
    method PlayRecorded(m: Memory, size: nat -> Positive, ghost clips: seq<Clip>) returns (ghost heard: seq<int>)
      requires Valid() && running && curLen == 0 && bdbar != 0
      requires |clips| == Gap(civ, lvi) + 1 && Ring(m, bdbar, civ, clips)
      modifies this`running, this`lvbciHalted, this`civ, this`status, this`point, this`stream,
               this`curPtr, this`curLen, this`curCtl, this`offset, this`picb
      ensures Valid() && Heard(m, clips, old(E(m)), E(m), heard)
    {
      ghost var t, e0 := TapeAt(m, bdbar), E(m);
      TapeIs(m, bdbar);
      RingReady(m, bdbar, t, e0, clips);
      var played := PlayOut(m, size);
      heard := Remaining(t, e0);
      RingHeard(m, t, e0, E(m), clips, played);
    }

    /** If software moves LVI on by one whenever a buffer completes, and CIV was not at LVI, the engine
        plays round the ring without end: after any number of ticks it is still running. */
    method Sustain(m: Memory, size: nat -> Positive, ticks: nat) returns (done: nat)
      requires Valid() && running && civ != lvi && bdbar != 0
      requires AllGood(TapeAt(m, bdbar)) && Current(TapeAt(m, bdbar), E(m)).Buffer?
      modifies this`running, this`lvbciHalted, this`civ, this`lvi, this`status, this`point, this`stream,
               this`curPtr, this`curLen, this`curCtl, this`offset, this`picb
      ensures Valid() && running && Circling(TapeAt(m, bdbar), old(E(m)), E(m), done)
    {
      ghost var e0 := E(m);
      done := 0;
      for n := 0 to ticks
        invariant Valid() && Circling(TapeAt(m, bdbar), e0, E(m), done)
      {
        done := TickAndFeed(m, size(n), e0, done);
      }
    }

    /** A tick, after which software moves LVI on if CIV moved. */
    method TickAndFeed(m: Memory, frames: Positive, ghost e0: Engine, done: nat) returns (now: nat)
      requires Valid() && bdbar != 0 && Circling(TapeAt(m, bdbar), e0, E(m), done)
      modifies this`running, this`lvbciHalted, this`civ, this`lvi, this`status, this`point, this`stream,
               this`curPtr, this`curLen, this`curCtl, this`offset, this`picb
      ensures Valid() && Circling(TapeAt(m, bdbar), e0, E(m), now)
    {
      ghost var e := E(m);
      var was := civ;
      now := done;
      CirclingReady(TapeAt(m, bdbar), e0, e, done);
      var _ := Tick(m, frames);
      CirclingStep(TapeAt(m, bdbar), e0, e, E(m), frames, done);
      if civ != was {
        Feed(m);
        now := done + 1;
      }
    }

    method Feed(m: Memory)
      requires Valid() && running
      modifies this`lvi, this`running, this`lvbciHalted, this`status
      ensures Valid() && E(m) == old(E(m)).(lvi := Next(old(lvi)))
    {
      WriteLvi(Next(lvi));
    }

    /** Each LVI written to a halted engine, after clearing its status bits, makes it play just the
        buffers the new value opens up. */
    method Extend(m: Memory, size: nat -> Positive, lvis: seq<nat>, ones: Status)
      requires Valid() && Stalled(E(m)) && bdbar != 0 && AllGood(TapeAt(m, bdbar))
      requires forall i :: 0 <= i < |lvis| ==> lvis[i] < 32
      modifies this`running, this`lvbciHalted, this`civ, this`lvi, this`status, this`point, this`stream,
               this`curPtr, this`curLen, this`curCtl, this`offset, this`picb
      ensures Valid() && Stalled(E(m))
      ensures stream == old(stream) + Reel(TapeAt(m, bdbar), old(civ), Opened(old(lvi), lvis))
      decreases |lvis|
    {
      if lvis == [] {
        return;
      }
      ghost var s0 := stream;
      ExtendOnce(m, size, lvis[0], ones);
      ghost var s1 := stream;
      Extend(m, size, lvis[1..], ones);
      OpenedFirst(TapeAt(m, bdbar), old(lvi), lvis, s0, s1, stream);
    }

    method ExtendOnce(m: Memory, size: nat -> Positive, value: nat, ones: Status)
      requires Valid() && Stalled(E(m)) && bdbar != 0 && AllGood(TapeAt(m, bdbar)) && value < 32
      modifies this`running, this`lvbciHalted, this`civ, this`lvi, this`status, this`point, this`stream,
               this`curPtr, this`curLen, this`curCtl, this`offset, this`picb
      ensures Valid() && Stalled(E(m)) && lvi == value
      ensures stream == old(stream) + Reel(TapeAt(m, bdbar), old(civ), Gap(old(lvi), value))
    {
      Resume(m, value, ones);
      if running {
        var _ := PlayOut(m, size);
      }
    }

    method Extended(m: Memory, value: nat, ones: Status)
      requires Valid() && Stalled(E(m)) && value < 32
      modifies this`running, this`lvbciHalted, this`lvi, this`status
      ensures Valid() && lvi == value && E(m).cur.None? && civ == Next(old(lvi))
      ensures if value != old(lvi) then running else Stalled(E(m))
    {
      WriteStatus(ones);
      WriteLvi(value);
    }

    /** Software clears status bits and then writes LVI. */
    method Resume(m: Memory, value: nat, ones: Status)
      requires Valid() && Stalled(E(m)) && AllGood(TapeAt(m, bdbar)) && value < 32
      modifies this`running, this`lvbciHalted, this`lvi, this`status
      ensures Valid() && lvi == value && (running <==> value != old(lvi))
      ensures if running then
                Ready(TapeAt(m, bdbar), E(m)) &&
                    Remaining(TapeAt(m, bdbar), E(m)) == Reel(TapeAt(m, bdbar), civ, Gap(old(lvi), value))
              else Stalled(E(m))
    {
      ghost var t := TapeAt(m, bdbar);
      Extended(m, value, ones);
      if running {
        ResumedPlays(t, E(m), old(lvi));
      }
    }
  }
}
