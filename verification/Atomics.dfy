/** Atomic read-modify-write on shared RAM. Each operation takes the mutex of its page shard, reads,
    writes and releases; CPUs interleave freely between those steps. Memory is its aligned words, by
    word index. */
module Atomics {
  import opened Words

  /** A word as its four bytes, most significant first. */
  type Cell = b: seq<Byte> | |b| == 4 witness [0, 0, 0, 0]

  /* One operation on one word */

  /** LDSTUB of byte k, SWAP, and CASA. `mayStore` is the outcome of the store permission check that
      CASA makes after it has compared. */
  datatype Op =
    | Ldstub(a: nat, k: nat)
    | Swap(a: nat, value: Cell)
    | Casa(a: nat, expected: Cell, desired: Cell, mayStore: bool)

  datatype Reply = Reply(ok: bool, was: Cell)

  /** Byte k, as the word a byte load puts in a register. */
  function Single(w: Cell, k: nat): Cell {
    [0, 0, 0, w[k % 4]]
  }

  function WithOnes(w: Cell, k: nat): Cell {
    w[k % 4 := 0xFF]
  }

  /** What an operation alone answers on word w, and the word it leaves. */
  function Answer(op: Op, w: Cell): Reply {
    match op
    case Ldstub(_, k) => Reply(true, Single(w, k))
    case Swap(_, _) => Reply(true, w)
    case Casa(_, expected, _, mayStore) => Reply(w == expected ==> mayStore, w)
  }

  function Leaves(op: Op, w: Cell): Cell {
    match op
    case Ldstub(_, k) => WithOnes(w, k)
    case Swap(_, value) => value
    case Casa(_, expected, desired, mayStore) => if w == expected && mayStore then desired else w
  }

  /* The serial machine: one operation after another */

  datatype Entry = Entry(cpu: nat, op: Op)

  ghost predicate InMemory(log: seq<Entry>, size: nat) {
    forall i :: 0 <= i < |log| ==> log[i].op.a < size
  }

  function SerialMemory(mem: seq<Cell>, log: seq<Entry>): (r: seq<Cell>)
    ensures |r| == |mem|
  {
    if log == [] then mem
    else
      var m := SerialMemory(mem, log[..|log| - 1]);
      var op := log[|log| - 1].op;
      if op.a < |m| then m[op.a := Leaves(op, m[op.a])] else m
  }

  function SerialReplies(mem: seq<Cell>, log: seq<Entry>): (r: seq<Reply>)
    ensures |r| == |log|
  {
    if log == [] then []
    else
      var before := log[..|log| - 1];
      var op := log[|log| - 1].op;
      var reply := if op.a < |mem| then Answer(op, SerialMemory(mem, before)[op.a]) else Reply(false, [0, 0, 0, 0]);
      SerialReplies(mem, before) + [reply]
  }

  lemma SerialAppend(mem: seq<Cell>, log: seq<Entry>, e: Entry)
    requires e.op.a < |mem|
    ensures var m := SerialMemory(mem, log);
            && SerialMemory(mem, log + [e]) == m[e.op.a := Leaves(e.op, m[e.op.a])]
            && SerialReplies(mem, log + [e]) == SerialReplies(mem, log) + [Answer(e.op, m[e.op.a])]
  {
    assert (log + [e])[..|log|] == log;
  }

  /* The interleaved machine */

  /** Where a CPU is in its operation. `ticket` is its place in the order of acquisitions. */
  datatype Phase =
    | Idle
    | Locked(op: Op, ticket: nat)
    | Loaded(op: Op, ticket: nat, read: Cell)
    | Stored(op: Op, ticket: nat, reply: Reply)

  /** `shard` is the mutex of each word. `log` lists the acquisitions in order and `done` the replies
      delivered so far, by ticket. */
  datatype Sys = Sys(mem: seq<Cell>, shard: seq<nat>, owner: seq<Option<nat>>, phase: seq<Phase>, regs: seq<Cell>,
                     log: seq<Entry>, done: map<nat, Reply>)

  /** `Other` is any other instruction that sets a CPU's register. */
  datatype Event =
    | Lock(cpu: nat, op: Op)
    | Load(cpu: nat)
    | Store(cpu: nat)
    | Unlock(cpu: nat)
    | Other(cpu: nat, value: Cell)

  predicate Shaped(s: Sys) {
    && |s.shard| == |s.mem| && |s.regs| == |s.phase|
    && forall a :: 0 <= a < |s.shard| ==> s.shard[a] < |s.owner|
  }

  /** All mutexes free, all CPUs idle. */
  function Initial(mem: seq<Cell>, shard: seq<nat>, mutexes: nat, regs: seq<Cell>): Sys {
    Sys(mem, shard, seq(mutexes, _ => None), seq(|regs|, _ => Idle), regs, [], map[])
  }

  predicate Enabled(s: Sys, e: Event)
    requires Shaped(s)
  {
    && e.cpu < |s.phase|
    && match e
       case Lock(c, op) => s.phase[c].Idle? && op.a < |s.mem| && s.owner[s.shard[op.a]].None?
       case Load(c) => s.phase[c].Locked? && s.phase[c].op.a < |s.mem|
       case Store(c) => s.phase[c].Loaded? && s.phase[c].op.a < |s.mem|
       case Unlock(c) => s.phase[c].Stored? && s.phase[c].op.a < |s.mem|
       case Other(c, _) => s.phase[c].Idle?
  }

  /** LDSTUB reads one byte, the others the word. */
  function Read(op: Op, w: Cell): Cell {
    if op.Ldstub? then Single(w, op.k) else w
  }

  /** The write, and the reply made of what was read: LDSTUB writes one byte of the word as it now is;
      CASA writes only if what it read is what it expects. */
  function Written(op: Op, read: Cell, now: Cell): Cell {
    match op
    case Ldstub(_, k) => WithOnes(now, k)
    case Swap(_, value) => value
    case Casa(_, expected, desired, mayStore) => if read == expected && mayStore then desired else now
  }

  function Replied(op: Op, read: Cell): Reply {
    Reply(op.Casa? && read == op.expected ==> op.mayStore, read)
  }

  /** One step of one CPU; an event that is not enabled changes nothing. */
  function Step(s: Sys, e: Event): (r: Sys)
    requires Shaped(s)
    ensures Shaped(r)
  {
    if !Enabled(s, e) then s
    else match e
         case Lock(c, op) =>
           s.(owner := s.owner[s.shard[op.a] := Some(c)], phase := s.phase[c := Locked(op, |s.log|)],
              log := s.log + [Entry(c, op)])
         case Load(c) =>
           var p := s.phase[c];
           s.(phase := s.phase[c := Loaded(p.op, p.ticket, Read(p.op, s.mem[p.op.a]))])
         case Store(c) =>
           var p := s.phase[c];
           s.(mem := s.mem[p.op.a := Written(p.op, p.read, s.mem[p.op.a])],
              phase := s.phase[c := Stored(p.op, p.ticket, Replied(p.op, p.read))])
         case Unlock(c) =>
           var p := s.phase[c];
           s.(owner := s.owner[s.shard[p.op.a] := None], phase := s.phase[c := Idle],
              regs := s.regs[c := p.reply.was], done := s.done[p.ticket := p.reply])
         case Other(c, value) => s.(regs := s.regs[c := value])
  }

  function Run(s: Sys, events: seq<Event>): (r: Sys)
    requires Shaped(s)
    ensures Shaped(r)
    decreases |events|
  {
    if events == [] then s else Run(Step(s, events[0]), events[1..])
  }

  /* The serial order of acquisition explains every interleaving */

  /** The word as it will be when the operation in flight on it, if any, has stored. */
  function Settled(s: Sys, a: nat): Cell
    requires Shaped(s) && a < |s.mem|
  {
    match s.owner[s.shard[a]]
    case None => s.mem[a]
    case Some(c) =>
      if c < |s.phase| && (s.phase[c].Locked? || s.phase[c].Loaded?) && s.phase[c].op.a == a then
        Leaves(s.phase[c].op, s.mem[a])
      else s.mem[a]
  }

  /** A CPU in an operation owns its shard and is going to give the serial reply. */
  ghost predicate CpuInv(s: Sys, replies: seq<Reply>, c: nat)
    requires Shaped(s) && c < |s.phase|
  {
    var p := s.phase[c];
    p.Idle? ||
    (&& p.op.a < |s.mem| && s.owner[s.shard[p.op.a]] == Some(c)
     && p.ticket < |s.log| && p.ticket < |replies| && s.log[p.ticket] == Entry(c, p.op)
     && match p
        case Idle => true
        case Locked(op, ticket) => replies[ticket] == Answer(op, s.mem[op.a])
        case Loaded(op, ticket, read) => replies[ticket] == Answer(op, s.mem[op.a]) && read == Read(op, s.mem[op.a])
        case Stored(op, ticket, reply) => replies[ticket] == reply)
  }

  /** A shard's owner is in an operation on that shard. */
  ghost predicate OwnerInv(s: Sys, g: nat)
    requires Shaped(s) && g < |s.owner|
  {
    match s.owner[g]
    case None => true
    case Some(c) => c < |s.phase| && !s.phase[c].Idle? && s.phase[c].op.a < |s.shard| && s.shard[s.phase[c].op.a] == g
  }

  /** An acquisition has been answered, with the serial reply, or its CPU is still at it. */
  ghost predicate TicketInv(s: Sys, replies: seq<Reply>, i: nat)
    requires Shaped(s) && i < |s.log| && i < |replies|
  {
    if i in s.done then s.done[i] == replies[i]
    else
      var c := s.log[i].cpu;
      c < |s.phase| && !s.phase[c].Idle? && s.phase[c].ticket == i
  }

  ghost predicate Inv(mem: seq<Cell>, s: Sys) {
    && Shaped(s) && |s.mem| == |mem| && InMemory(s.log, |mem|) && (forall i :: i in s.done ==> i < |s.log|)
    && (forall c :: 0 <= c < |s.phase| ==> CpuInv(s, SerialReplies(mem, s.log), c))
    && (forall g :: 0 <= g < |s.owner| ==> OwnerInv(s, g))
    && (forall i :: 0 <= i < |s.log| ==> TicketInv(s, SerialReplies(mem, s.log), i))
    && (forall a :: 0 <= a < |mem| ==> SerialMemory(mem, s.log)[a] == Settled(s, a))
  }

  lemma InitialInv(mem: seq<Cell>, shard: seq<nat>, mutexes: nat, regs: seq<Cell>)
    requires |shard| == |mem| && forall a :: 0 <= a < |shard| ==> shard[a] < mutexes
    ensures Inv(mem, Initial(mem, shard, mutexes, regs))
  {
  }

  /** Two CPUs in operations are in different shards. */
  lemma Exclusive(mem: seq<Cell>, s: Sys, c: nat, d: nat)
    requires Inv(mem, s) && c < |s.phase| && d < |s.phase| && c != d && !s.phase[c].Idle? && !s.phase[d].Idle?
    ensures s.phase[c].op.a < |s.mem| && s.phase[d].op.a < |s.mem|
    ensures s.shard[s.phase[c].op.a] != s.shard[s.phase[d].op.a]
  {
    assert CpuInv(s, SerialReplies(mem, s.log), c) && CpuInv(s, SerialReplies(mem, s.log), d);
  }

  lemma LockCpu(mem: seq<Cell>, s: Sys, c: nat, op: Op, d: nat)
    requires Inv(mem, s) && Enabled(s, Lock(c, op)) && d < |s.phase|
    ensures CpuInv(Step(s, Lock(c, op)), SerialReplies(mem, s.log + [Entry(c, op)]), d)
  {
    SerialAppend(mem, s.log, Entry(c, op));
    assert Settled(s, op.a) == s.mem[op.a];
    assert CpuInv(s, SerialReplies(mem, s.log), d);
  }

  lemma LockTicket(mem: seq<Cell>, s: Sys, c: nat, op: Op, i: nat)
    requires Inv(mem, s) && Enabled(s, Lock(c, op)) && i <= |s.log|
    ensures TicketInv(Step(s, Lock(c, op)), SerialReplies(mem, s.log + [Entry(c, op)]), i)
  {
    SerialAppend(mem, s.log, Entry(c, op));
    assert i < |s.log| ==> TicketInv(s, SerialReplies(mem, s.log), i);
  }

  /** Taking the mutex settles what its operation will leave in its word and nothing else. */
  lemma LockSettles(s: Sys, c: nat, op: Op, a: nat)
    requires Shaped(s) && Enabled(s, Lock(c, op)) && a < |s.mem| && OwnerInv(s, s.shard[a])
    ensures Settled(s, op.a) == s.mem[op.a]
    ensures Settled(Step(s, Lock(c, op)), a) == if a == op.a then Leaves(op, s.mem[a]) else Settled(s, a)
  {
  }

  lemma LockWord(mem: seq<Cell>, s: Sys, c: nat, op: Op, a: nat)
    requires Inv(mem, s) && Enabled(s, Lock(c, op)) && a < |mem|
    ensures SerialMemory(mem, s.log + [Entry(c, op)])[a] == Settled(Step(s, Lock(c, op)), a)
  {
    SerialAppend(mem, s.log, Entry(c, op));
    LockSettles(s, c, op, a);
    assert SerialMemory(mem, s.log)[a] == Settled(s, a) && SerialMemory(mem, s.log)[op.a] == Settled(s, op.a);
  }

  /** The shard is free, so the word already is what the serial machine would read. */
  lemma LockInv(mem: seq<Cell>, s: Sys, c: nat, op: Op)
    requires Inv(mem, s) && Enabled(s, Lock(c, op))
    ensures Inv(mem, Step(s, Lock(c, op)))
  {
    var r := Step(s, Lock(c, op));
    var replies := SerialReplies(mem, r.log);
    forall d | 0 <= d < |r.phase|
      ensures CpuInv(r, replies, d)
    {
      LockCpu(mem, s, c, op, d);
    }
    forall g | 0 <= g < |r.owner|
      ensures OwnerInv(r, g)
    {
      assert OwnerInv(s, g);
    }
    forall i | 0 <= i < |r.log|
      ensures TicketInv(r, replies, i)
    {
      LockTicket(mem, s, c, op, i);
    }
    forall a | 0 <= a < |mem|
      ensures SerialMemory(mem, r.log)[a] == Settled(r, a)
    {
      LockWord(mem, s, c, op, a);
    }
  }

  lemma LoadInv(mem: seq<Cell>, s: Sys, c: nat)
    requires Inv(mem, s) && Enabled(s, Load(c))
    ensures Inv(mem, Step(s, Load(c)))
  {
    var r, replies := Step(s, Load(c)), SerialReplies(mem, s.log);
    forall d | 0 <= d < |r.phase|
      ensures CpuInv(r, replies, d)
    {
      assert CpuInv(s, replies, d);
    }
    forall g | 0 <= g < |r.owner|
      ensures OwnerInv(r, g)
    {
      assert OwnerInv(s, g);
    }
    forall i | 0 <= i < |r.log|
      ensures TicketInv(r, replies, i)
    {
      assert TicketInv(s, replies, i);
    }
    forall a | 0 <= a < |mem|
      ensures SerialMemory(mem, r.log)[a] == Settled(r, a)
    {
      assert SerialMemory(mem, s.log)[a] == Settled(s, a);
    }
  }

  lemma StoreInv(mem: seq<Cell>, s: Sys, c: nat)
    requires Inv(mem, s) && Enabled(s, Store(c))
    ensures Inv(mem, Step(s, Store(c)))
  {
    var r, replies := Step(s, Store(c)), SerialReplies(mem, s.log);
    assert CpuInv(s, replies, c);
    forall d | 0 <= d < |r.phase|
      ensures CpuInv(r, replies, d)
    {
      assert CpuInv(s, replies, d);
    }
    forall g | 0 <= g < |r.owner|
      ensures OwnerInv(r, g)
    {
      assert OwnerInv(s, g);
    }
    forall i | 0 <= i < |r.log|
      ensures TicketInv(r, replies, i)
    {
      assert TicketInv(s, replies, i);
    }
    forall a | 0 <= a < |mem|
      ensures SerialMemory(mem, r.log)[a] == Settled(r, a)
    {
      assert SerialMemory(mem, s.log)[a] == Settled(s, a);
    }
  }

  lemma UnlockInv(mem: seq<Cell>, s: Sys, c: nat)
    requires Inv(mem, s) && Enabled(s, Unlock(c))
    ensures Inv(mem, Step(s, Unlock(c)))
  {
    var r, replies := Step(s, Unlock(c)), SerialReplies(mem, s.log);
    assert CpuInv(s, replies, c);
    forall d | 0 <= d < |r.phase|
      ensures CpuInv(r, replies, d)
    {
      assert CpuInv(s, replies, d);
    }
    forall g | 0 <= g < |r.owner|
      ensures OwnerInv(r, g)
    {
      assert OwnerInv(s, g);
    }
    forall i | 0 <= i < |r.log|
      ensures TicketInv(r, replies, i)
    {
      assert TicketInv(s, replies, i);
    }
    forall a | 0 <= a < |mem|
      ensures SerialMemory(mem, r.log)[a] == Settled(r, a)
    {
      assert SerialMemory(mem, s.log)[a] == Settled(s, a);
    }
  }

  lemma StepInv(mem: seq<Cell>, s: Sys, e: Event)
    requires Inv(mem, s)
    ensures Inv(mem, Step(s, e))
  {
    if Enabled(s, e) {
      match e
      case Lock(c, op) => LockInv(mem, s, c, op);
      case Load(c) => LoadInv(mem, s, c);
      case Store(c) => StoreInv(mem, s, c);
      case Unlock(c) => UnlockInv(mem, s, c);
      case Other(c, value) => OtherInv(mem, s, c, value);
    }
  }

  lemma OtherInv(mem: seq<Cell>, s: Sys, c: nat, value: Cell)
    requires Inv(mem, s) && Enabled(s, Other(c, value))
    ensures Inv(mem, Step(s, Other(c, value)))
  {
    var r, replies := Step(s, Other(c, value)), SerialReplies(mem, s.log);
    assert forall d :: 0 <= d < |r.phase| ==> CpuInv(s, replies, d) ==> CpuInv(r, replies, d);
    assert forall g :: 0 <= g < |r.owner| ==> OwnerInv(s, g) ==> OwnerInv(r, g);
    assert forall i :: 0 <= i < |r.log| ==> TicketInv(s, replies, i) ==> TicketInv(r, replies, i);
    assert forall a :: 0 <= a < |mem| ==> Settled(r, a) == Settled(s, a);
  }

  lemma {:induction false} RunInv(mem: seq<Cell>, s: Sys, events: seq<Event>)
    requires Inv(mem, s)
    ensures Inv(mem, Run(s, events))
    decreases |events|
  {
    if events != [] {
      StepInv(mem, s, events[0]);
      RunInv(mem, Step(s, events[0]), events[1..]);
    }
  }

  /** Whatever the interleaving, every reply delivered is the one the operation gets when all of them are
      run one at a time in the order in which they took their mutexes; and once no operation is in
      progress, every one has been answered and memory is what that serial run leaves. */
  lemma Serializable(mem: seq<Cell>, shard: seq<nat>, mutexes: nat, regs: seq<Cell>, events: seq<Event>)
    requires |shard| == |mem| && forall a :: 0 <= a < |shard| ==> shard[a] < mutexes
    ensures var s := Run(Initial(mem, shard, mutexes, regs), events);
            && (forall i :: i in s.done ==> i < |s.log| && s.done[i] == SerialReplies(mem, s.log)[i])
            && ((forall c :: 0 <= c < |s.phase| ==> s.phase[c].Idle?) ==>
                  && s.mem == SerialMemory(mem, s.log)
                  && forall i :: 0 <= i < |s.log| ==> i in s.done)
  {
    InitialInv(mem, shard, mutexes, regs);
    RunInv(mem, Initial(mem, shard, mutexes, regs), events);
    var s := Run(Initial(mem, shard, mutexes, regs), events);
    Quiet(mem, s);
  }

  /** RAM's own sharding: by page number modulo 64. */
  function PageShards(base: Word, size: nat): (r: seq<nat>)
    ensures |r| == size && forall a :: 0 <= a < size ==> r[a] < 64
  {
    seq(size, (a: nat) => (base + 4 * a) / 0x1000 % 64)
  }

  /** Words share a mutex exactly if their pages are a multiple of 64 pages apart. */
  lemma ShardsByPage(base: Word, size: nat, a: nat, b: nat)
    requires a < size && b < size && base % 0x1000 == 0
    ensures var s := PageShards(base, size);
            s[a] == s[b] <==> (base / 0x1000 + a / 0x400) % 64 == (base / 0x1000 + b / 0x400) % 64
  {
    WordPage(base, a);
    WordPage(base, b);
  }

  lemma WordPage(base: Word, a: nat)
    requires base % 0x1000 == 0
    ensures (base + 4 * a) / 0x1000 == base / 0x1000 + a / 0x400
  {
    DivUnique(base + 4 * a, 0x1000, base / 0x1000 + a / 0x400, 4 * (a % 0x400));
  }

  lemma RamSerializable(mem: seq<Cell>, base: Word, regs: seq<Cell>, events: seq<Event>)
    ensures var s := Run(Initial(mem, PageShards(base, |mem|), 64, regs), events);
            && (forall i :: i in s.done ==> i < |s.log| && s.done[i] == SerialReplies(mem, s.log)[i])
            && ((forall c :: 0 <= c < |s.phase| ==> s.phase[c].Idle?) ==>
                  && s.mem == SerialMemory(mem, s.log)
                  && forall i :: 0 <= i < |s.log| ==> i in s.done)
  {
    Serializable(mem, PageShards(base, |mem|), 64, regs, events);
  }

  lemma Quiet(mem: seq<Cell>, s: Sys)
    requires Inv(mem, s)
    ensures forall i :: i in s.done ==> i < |s.log| && s.done[i] == SerialReplies(mem, s.log)[i]
    ensures (forall c :: 0 <= c < |s.phase| ==> s.phase[c].Idle?) ==>
              && s.mem == SerialMemory(mem, s.log)
              && forall i :: 0 <= i < |s.log| ==> i in s.done
  {
    forall i | i in s.done
      ensures s.done[i] == SerialReplies(mem, s.log)[i]
    {
      assert TicketInv(s, SerialReplies(mem, s.log), i);
    }
    if forall c :: 0 <= c < |s.phase| ==> s.phase[c].Idle? {
      forall a | 0 <= a < |mem|
        ensures s.mem[a] == SerialMemory(mem, s.log)[a]
      {
        assert OwnerInv(s, s.shard[a]);
      }
      forall i | 0 <= i < |s.log|
        ensures i in s.done
      {
        assert TicketInv(s, SerialReplies(mem, s.log), i);
      }
    }
  }

  /* SWAP only moves values */

  /** The values the CPUs hold: a CPU that has stored holds what it is about to put in its register. */
  function Held(s: Sys): (h: seq<Cell>)
    requires Shaped(s)
    ensures |h| == |s.phase|
  {
    seq(|s.phase|, (c: nat) requires c < |s.phase| && c < |s.regs| =>
      if s.phase[c].Stored? then s.phase[c].reply.was else s.regs[c])
  }

  /** Every operation in progress is a SWAP of the CPU's register. */
  ghost predicate Swapping(s: Sys)
    requires Shaped(s)
  {
    forall c :: 0 <= c < |s.phase| ==>
      match s.phase[c]
      case Idle => true
      case Locked(op, _) => op == Swap(op.a, s.regs[c])
      case Loaded(op, _, _) => op == Swap(op.a, s.regs[c])
      case Stored(op, _, _) => op.Swap?
  }

  /** A run in which every operation that starts is a SWAP of the CPU's register, and nothing else
      changes registers. */
  ghost predicate SwapRun(s: Sys, events: seq<Event>)
    requires Shaped(s)
    decreases |events|
  {
    events == [] ||
    (&& !(events[0].Other? && Enabled(s, events[0]))
     && (events[0].Lock? && Enabled(s, events[0]) ==> events[0].op == Swap(events[0].op.a, s.regs[events[0].cpu]))
     && SwapRun(Step(s, events[0]), events[1..]))
  }

  lemma Exchange<T>(m: seq<T>, h: seq<T>, a: nat, c: nat)
    requires a < |m| && c < |h|
    ensures multiset(m[a := h[c]]) + multiset(h[c := m[a]]) == multiset(m) + multiset(h)
  {
    assert multiset(m[a := h[c]]) == multiset(m) - multiset{m[a]} + multiset{h[c]};
    assert multiset(h[c := m[a]]) == multiset(h) - multiset{h[c]} + multiset{m[a]};
  }

  lemma SwapStep(mem: seq<Cell>, s: Sys, e: Event)
    requires Inv(mem, s) && Swapping(s) && Enabled(s, e) && !e.Other?
    requires e.Lock? ==> e.op == Swap(e.op.a, s.regs[e.cpu])
    ensures Swapping(Step(s, e))
    ensures multiset(Step(s, e).mem) + multiset(Held(Step(s, e))) == multiset(s.mem) + multiset(Held(s))
  {
    var r := Step(s, e);
    if e.Store? {
      var p := s.phase[e.cpu];
      assert CpuInv(s, SerialReplies(mem, s.log), e.cpu);
      assert Held(r) == Held(s)[e.cpu := s.mem[p.op.a]];
      Exchange(s.mem, Held(s), p.op.a, e.cpu);
    } else {
      assert Held(r) == Held(s);
    }
  }

  /** In a run of SWAPs no value is lost or duplicated: at every point, memory and the CPUs between them
      hold the values they started with. */
  lemma {:induction false} SwapsConserve(mem: seq<Cell>, s: Sys, events: seq<Event>)
    requires Inv(mem, s) && Swapping(s) && SwapRun(s, events)
    ensures var r := Run(s, events);
            multiset(r.mem) + multiset(Held(r)) == multiset(s.mem) + multiset(Held(s))
    decreases |events|
  {
    if events != [] {
      StepInv(mem, s, events[0]);
      if Enabled(s, events[0]) {
        SwapStep(mem, s, events[0]);
      }
      SwapsConserve(mem, Step(s, events[0]), events[1..]);
    }
  }

  lemma SwapsConserveFromStart(mem: seq<Cell>, shard: seq<nat>, mutexes: nat, regs: seq<Cell>, events: seq<Event>)
    requires |shard| == |mem| && forall a :: 0 <= a < |shard| ==> shard[a] < mutexes
    requires SwapRun(Initial(mem, shard, mutexes, regs), events)
    ensures var r := Run(Initial(mem, shard, mutexes, regs), events);
            multiset(r.mem) + multiset(Held(r)) == multiset(mem) + multiset(regs)
  {
    var s := Initial(mem, shard, mutexes, regs);
    InitialInv(mem, shard, mutexes, regs);
    SwapsConserve(mem, s, events);
    assert Held(s) == regs;
  }

  /* Operations on one word answer one another */

  /** The word as operation i of the serial run finds it. */
  function Found(mem: seq<Cell>, log: seq<Entry>, i: nat): Cell
    requires i < |log| && log[i].op.a < |mem|
  {
    SerialMemory(mem, log[..i])[log[i].op.a]
  }

  lemma {:induction false} ReplyFromFound(mem: seq<Cell>, log: seq<Entry>, i: nat)
    requires i < |log| && log[i].op.a < |mem|
    ensures SerialReplies(mem, log)[i] == Answer(log[i].op, Found(mem, log, i))
  {
    var before := log[..|log| - 1];
    if i < |log| - 1 {
      ReplyFromFound(mem, before, i);
      assert before[..i] == log[..i];
    }
  }

  lemma LeavesAfter(mem: seq<Cell>, log: seq<Entry>, i: nat)
    requires i < |log| && log[i].op.a < |mem|
    ensures SerialMemory(mem, log[..i + 1])[log[i].op.a] == Leaves(log[i].op, Found(mem, log, i))
  {
    assert log[..i + 1][..i] == log[..i];
  }

  ghost predicate NoneOn(log: seq<Entry>, a: nat, i: nat, j: nat) {
    forall m :: i <= m < j && m < |log| ==> log[m].op.a != a
  }

  lemma {:induction false} Untouched(mem: seq<Cell>, log: seq<Entry>, a: nat, i: nat, j: nat)
    requires i <= j <= |log| && a < |mem| && NoneOn(log, a, i, j)
    ensures SerialMemory(mem, log[..j])[a] == SerialMemory(mem, log[..i])[a]
    decreases j
  {
    if i < j {
      assert log[..j][..j - 1] == log[..j - 1];
      Untouched(mem, log, a, i, j - 1);
    }
  }

  /** Acquisitions i and j are on the same word with none on it between them. */
  ghost predicate NextOn(log: seq<Entry>, i: nat, j: nat) {
    i < j < |log| && log[j].op.a == log[i].op.a && NoneOn(log, log[i].op.a, i + 1, j)
  }

  lemma NextFinds(mem: seq<Cell>, log: seq<Entry>, i: nat, j: nat)
    requires NextOn(log, i, j) && log[i].op.a < |mem|
    ensures Found(mem, log, j) == Leaves(log[i].op, Found(mem, log, i))
  {
    LeavesAfter(mem, log, i);
    Untouched(mem, log, log[i].op.a, i + 1, j);
  }

  /** No later acquisition is on the shard of an operation in progress. */
  ghost predicate Latest(s: Sys) {
    && Shaped(s)
    && forall c, i :: (&& 0 <= c < |s.phase| && !s.phase[c].Idle? && s.phase[c].ticket < i < |s.log|
                       && s.log[i].op.a < |s.shard| && s.phase[c].op.a < |s.shard|) ==>
         s.shard[s.log[i].op.a] != s.shard[s.phase[c].op.a]
  }

  lemma StepLatest(mem: seq<Cell>, s: Sys, e: Event)
    requires Inv(mem, s) && Latest(s)
    ensures Latest(Step(s, e))
  {
    if e.Lock? && Enabled(s, e) {
      var r := Step(s, e);
      forall c, i | 0 <= c < |r.phase| && !r.phase[c].Idle? && r.phase[c].ticket < i < |r.log|
                    && r.log[i].op.a < |r.shard| && r.phase[c].op.a < |r.shard|
        ensures r.shard[r.log[i].op.a] != r.shard[r.phase[c].op.a]
      {
        assert CpuInv(s, SerialReplies(mem, s.log), c);
      }
    }
  }

  lemma {:induction false} RunLatest(mem: seq<Cell>, s: Sys, events: seq<Event>)
    requires Inv(mem, s) && Latest(s)
    ensures Latest(Run(s, events))
    decreases |events|
  {
    if events != [] {
      StepInv(mem, s, events[0]);
      StepLatest(mem, s, events[0]);
      RunLatest(mem, Step(s, events[0]), events[1..]);
    }
  }

  /** A state some run leads to from memory `mem`. */
  ghost predicate Reached(mem: seq<Cell>, s: Sys) {
    exists shard: seq<nat>, mutexes: nat, regs: seq<Cell>, events: seq<Event> ::
      && |shard| == |mem| && (forall a :: 0 <= a < |shard| ==> shard[a] < mutexes)
      && s == Run(Initial(mem, shard, mutexes, regs), events)
  }

  lemma ReachedInv(mem: seq<Cell>, s: Sys)
    requires Reached(mem, s)
    ensures Inv(mem, s) && Latest(s)
  {
    var shard: seq<nat>, mutexes: nat, regs: seq<Cell>, events: seq<Event> :|
      && |shard| == |mem| && (forall a :: 0 <= a < |shard| ==> shard[a] < mutexes)
      && s == Run(Initial(mem, shard, mutexes, regs), events);
    InitialInv(mem, shard, mutexes, regs);
    RunInv(mem, Initial(mem, shard, mutexes, regs), events);
    RunLatest(mem, Initial(mem, shard, mutexes, regs), events);
  }

  /** An operation is not answered before those that took its mutex earlier. */
  lemma AnsweredInOrder(mem: seq<Cell>, s: Sys, i: nat, j: nat)
    requires Reached(mem, s) && i < j < |s.log| && s.log[i].op.a == s.log[j].op.a && j in s.done
    ensures i in s.done
  {
    ReachedInv(mem, s);
    assert TicketInv(s, SerialReplies(mem, s.log), i);
    assert s.log[i].cpu < |s.phase| ==> CpuInv(s, SerialReplies(mem, s.log), s.log[i].cpu);
  }

  lemma DoneFromFound(mem: seq<Cell>, s: Sys, i: nat)
    requires Reached(mem, s) && i in s.done
    ensures i < |s.log| && s.log[i].op.a < |mem| && s.done[i] == Answer(s.log[i].op, Found(mem, s.log, i))
  {
    ReachedInv(mem, s);
    assert TicketInv(s, SerialReplies(mem, s.log), i);
    ReplyFromFound(mem, s.log, i);
  }

  /** In every run, with any mix of operations: each operation on a word is answered from what the one before it
      on that word left. */
  lemma AnsweredInTurn(mem: seq<Cell>, s: Sys, i: nat, j: nat)
    requires Reached(mem, s) && NextOn(s.log, i, j) && j in s.done
    ensures i in s.done && s.log[i].op.a < |mem|
    ensures var v := Found(mem, s.log, i);
            s.done[i] == Answer(s.log[i].op, v) && s.done[j] == Answer(s.log[j].op, Leaves(s.log[i].op, v))
  {
    AnsweredInOrder(mem, s, i, j);
    DoneFromFound(mem, s, i);
    DoneFromFound(mem, s, j);
    NextFinds(mem, s.log, i, j);
  }

  /* No CASA update is lost */

  /** A CASA that reports success and the value it expected has stored. */
  predicate Succeeded(op: Op, reply: Reply) {
    op.Casa? && reply.ok && reply.was == op.expected
  }

  /** Whatever operation comes next on the word of a successful CASA is answered from the value the CASA
      stored. */
  lemma NoLostUpdate(mem: seq<Cell>, s: Sys, i: nat, j: nat)
    requires Reached(mem, s) && NextOn(s.log, i, j) && j in s.done
    ensures i in s.done && (Succeeded(s.log[i].op, s.done[i]) ==> s.done[j] == Answer(s.log[j].op, s.log[i].op.desired))
  {
    AnsweredInTurn(mem, s, i, j);
  }

  /** And if none comes, once no operation is in progress the word holds that value. */
  lemma LastUpdateStands(mem: seq<Cell>, s: Sys, i: nat)
    requires Reached(mem, s) && i in s.done && i < |s.log| && NoneOn(s.log, s.log[i].op.a, i + 1, |s.log|)
    requires forall c :: 0 <= c < |s.phase| ==> s.phase[c].Idle?
    ensures Succeeded(s.log[i].op, s.done[i]) ==> s.log[i].op.a < |s.mem| && s.mem[s.log[i].op.a] == s.log[i].op.desired
  {
    ReachedInv(mem, s);
    Quiet(mem, s);
    DoneFromFound(mem, s, i);
    LeavesAfter(mem, s.log, i);
    Untouched(mem, s.log, s.log[i].op.a, i + 1, |s.log|);
    assert s.log[..|s.log|] == s.log;
  }

  /* LDSTUB takes a lock once */

  /** Operation m stores nothing but bytes of ones: an LDSTUB, or a CASA that did not succeed. */
  ghost predicate Spares(s: Sys, m: nat) {
    m < |s.log| && m in s.done && (s.log[m].op.Ldstub? || (s.log[m].op.Casa? && !Succeeded(s.log[m].op, s.done[m])))
  }

  lemma {:induction false} StaysOnes(mem: seq<Cell>, s: Sys, i: nat, j: nat)
    requires Reached(mem, s) && i < j <= |s.log| && i in s.done && s.log[i].op.Ldstub?
    requires forall m :: i < m < j && s.log[m].op.a == s.log[i].op.a ==> Spares(s, m)
    ensures s.log[i].op.a < |mem|
    ensures SerialMemory(mem, s.log[..j])[s.log[i].op.a][s.log[i].op.k % 4] == 0xFF
    decreases j
  {
    DoneFromFound(mem, s, i);
    var m := j - 1;
    if m == i {
      LeavesAfter(mem, s.log, i);
    } else {
      StaysOnes(mem, s, i, m);
      if s.log[m].op.a == s.log[i].op.a {
        DoneFromFound(mem, s, m);
        LeavesAfter(mem, s.log, m);
      } else {
        Untouched(mem, s.log, s.log[i].op.a, m, j);
      }
    }
  }

  /** Of two LDSTUBs on one byte the later sees 0xFF, unless a SWAP or a successful CASA came between them: only
      one of any number of competitors sees the byte free. */
  lemma OneWinner(mem: seq<Cell>, s: Sys, i: nat, j: nat)
    requires Reached(mem, s) && i < j < |s.log| && j in s.done && s.log[i].op.Ldstub? && s.log[j].op == s.log[i].op
    requires forall m :: i < m < j && s.log[m].op.a == s.log[i].op.a ==> Spares(s, m)
    ensures s.done[j] == Reply(true, [0, 0, 0, 0xFF])
  {
    AnsweredInOrder(mem, s, i, j);
    StaysOnes(mem, s, i, j);
    DoneFromFound(mem, s, j);
  }

  /* Operations leave alone what they do not name */

  /** Operation m leaves byte k of its word alone: an LDSTUB of another byte, or a CASA that did not succeed. */
  ghost predicate Passes(s: Sys, m: nat, k: nat) {
    && m < |s.log| && m in s.done
    && ((s.log[m].op.Ldstub? && s.log[m].op.k % 4 != k) || (s.log[m].op.Casa? && !Succeeded(s.log[m].op, s.done[m])))
  }

  lemma {:induction false} ByteKept(mem: seq<Cell>, s: Sys, a: nat, k: nat, n: nat)
    requires Reached(mem, s) && a < |mem| && k < 4 && n <= |s.log|
    requires forall m :: 0 <= m < n && s.log[m].op.a == a ==> Passes(s, m, k)
    ensures SerialMemory(mem, s.log[..n])[a][k] == mem[a][k]
    decreases n
  {
    if n > 0 {
      var m := n - 1;
      ByteKept(mem, s, a, k, m);
      if s.log[m].op.a == a {
        assert Passes(s, m, k);
        DoneFromFound(mem, s, m);
        LeavesAfter(mem, s.log, m);
      } else {
        Untouched(mem, s.log, a, m, n);
      }
    }
  }

  /** In every run: a byte that only LDSTUBs of other bytes and CASAs without success came near holds, once no
      operation is in progress, what it held at the start. */
  lemma UntouchedByte(mem: seq<Cell>, s: Sys, a: nat, k: nat)
    requires Reached(mem, s) && a < |mem| && k < 4
    requires forall c :: 0 <= c < |s.phase| ==> s.phase[c].Idle?
    requires forall m :: 0 <= m < |s.log| && s.log[m].op.a == a ==> Passes(s, m, k)
    ensures a < |s.mem| && s.mem[a][k] == mem[a][k]
  {
    ReachedInv(mem, s);
    Quiet(mem, s);
    ByteKept(mem, s, a, k, |s.log|);
    assert s.log[..|s.log|] == s.log;
  }

  /** And the first LDSTUB of it is answered with that. */
  lemma FirstSees(mem: seq<Cell>, s: Sys, i: nat)
    requires Reached(mem, s) && i in s.done && i < |s.log| && s.log[i].op.Ldstub?
    requires forall m :: 0 <= m < i && s.log[m].op.a == s.log[i].op.a ==> Passes(s, m, s.log[i].op.k % 4)
    ensures s.log[i].op.a < |mem| && s.done[i] == Reply(true, [0, 0, 0, mem[s.log[i].op.a][s.log[i].op.k % 4]])
  {
    DoneFromFound(mem, s, i);
    ByteKept(mem, s, s.log[i].op.a, s.log[i].op.k % 4, i);
  }

  /** The last operation on a word decides what it holds: an LDSTUB leaves ones in its byte, a SWAP its value. */
  lemma LastStoreStands(mem: seq<Cell>, s: Sys, i: nat)
    requires Reached(mem, s) && i in s.done && i < |s.log| && NoneOn(s.log, s.log[i].op.a, i + 1, |s.log|)
    requires forall c :: 0 <= c < |s.phase| ==> s.phase[c].Idle?
    ensures s.log[i].op.a < |s.mem|
    ensures s.log[i].op.Swap? ==> s.mem[s.log[i].op.a] == s.log[i].op.value
    ensures s.log[i].op.Ldstub? ==> s.mem[s.log[i].op.a][s.log[i].op.k % 4] == 0xFF
  {
    ReachedInv(mem, s);
    Quiet(mem, s);
    DoneFromFound(mem, s, i);
    LeavesAfter(mem, s.log, i);
    Untouched(mem, s.log, s.log[i].op.a, i + 1, |s.log|);
    assert s.log[..|s.log|] == s.log;
  }

  /** The first operation on a word, if it is a SWAP or a CASA, is answered with what the word held; only a CASA that
      compares equal is ever refused. */
  lemma AnswersWord(mem: seq<Cell>, s: Sys, i: nat)
    requires Reached(mem, s) && i in s.done && i < |s.log| && !s.log[i].op.Ldstub?
    requires NoneOn(s.log, s.log[i].op.a, 0, i)
    ensures s.log[i].op.a < |mem| && s.done[i].was == mem[s.log[i].op.a]
    ensures s.log[i].op.Swap? ==> s.done[i].ok
    ensures s.log[i].op.Casa? && !s.done[i].ok ==> s.done[i].was == s.log[i].op.expected && !s.log[i].op.mayStore
  {
    DoneFromFound(mem, s, i);
    Untouched(mem, s.log, s.log[i].op.a, 0, i);
    assert s.log[..0] == [];
  }
}
