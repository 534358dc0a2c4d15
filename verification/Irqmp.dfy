/** The multiprocessor interrupt controller. A 32-bit register is the set of its bit positions; lines 1
    to 15 are interrupt lines. */
module Irqmp {
  import opened Words

  type Lines = set<nat>

  /* Priority */

  /** The highest line not above k, or 0. */
  function Highest(s: Lines, k: nat): (h: nat)
    ensures h <= k && (h > 0 ==> h in s) && (forall i :: h < i <= k ==> i !in s)
  {
    if k == 0 then 0 else if k in s then k else Highest(s, k - 1)
  }

  /** What a CPU should see: the highest unmasked forced line, else the highest unmasked pending line. */
  function Hint(force: Lines, mask: Lines, pend: Lines): nat {
    if Highest(force * mask, 15) != 0 then Highest(force * mask, 15) else Highest(pend * mask, 15)
  }

  /** The hint is the highest unmasked line of either kind if and only if no line is forced or no pending line is
      above the highest forced one. */
  lemma HintIsHighest(force: Lines, mask: Lines, pend: Lines)
    ensures Hint(force, mask, pend) == Highest((force + pend) * mask, 15) <==>
            Highest(force * mask, 15) == 0 || Highest(pend * mask, 15) <= Highest(force * mask, 15)
  {
    HighestOfUnion(force, mask, pend, 15);
  }

  lemma {:induction false} HighestOfUnion(force: Lines, mask: Lines, pend: Lines, k: nat)
    ensures var f, p := Highest(force * mask, k), Highest(pend * mask, k);
            Highest((force + pend) * mask, k) == if f < p then p else f
  {
    if k > 0 && k !in (force + pend) * mask {
      HighestOfUnion(force, mask, pend, k - 1);
    }
  }

  /** A forced line 1 hides a pending line 15. */
  lemma ForcedHidesHigher()
    ensures Hint({1}, {1, 15}, {15}) == 1 && Highest(({1} + {15}) * {1, 15}, 15) == 15
  {
    var f: Lines, p: Lines := {1} * {1, 15}, ({1} + {15}) * {1, 15};
    OnlyLine(f, 15);
    assert 15 in p;
  }

  lemma {:induction false} OnlyLine(f: Lines, k: nat)
    requires k > 0 && 1 in f && forall i :: i in f ==> i == 1
    ensures Highest(f, k) == 1
  {
    if k > 1 {
      OnlyLine(f, k - 1);
    }
  }

  /** The priority scan of one source register, from line 15 down. */
  method ScanLines(source: Lines, mask: Lines) returns (h: nat)
    ensures h <= 15 && (h > 0 ==> h in source && h in mask)
    ensures forall i :: h < i <= 15 ==> !(i in source && i in mask)
    ensures h == Highest(source * mask, 15)
  {
    h := 15;
    while h > 0
      invariant h <= 15
      invariant forall i :: h < i <= 15 ==> !(i in source && i in mask)
    {
      if h in source && h in mask {
        assert h in source * mask;
        return;
      }
      h := h - 1;
    }
  }

  /* Register writes */

  datatype Regs = Regs(ilevel: Lines, ipend: Lines, iforce: Lines, iclear: Lines, brdcst: Lines, errstat: Lines,
                       piforce: seq<Lines>, pimask: seq<Lines>)

  const CPUS: nat := 8

  /** Bits 1 to 15: the interrupt lines. */
  const LINES: Lines := set i: nat | 1 <= i <= 15

  /** The effect of a register write, None where the emulator throws. */
  function Written(r: Regs, offset: nat, value: Lines): Option<Regs>
    requires |r.piforce| == CPUS && |r.pimask| == CPUS
  {
    if 0x40 <= offset < 0x60 then Some(r.(pimask := r.pimask[(offset - 0x40) / 4 := value]))
    else if 0x80 <= offset < 0xA0 then
      var n := (offset - 0x80) / 4;
      Some(r.(piforce := r.piforce[n := r.piforce[n] + value]))
    else if offset == 0x00 then Some(r.(ilevel := value))
    else if offset == 0x04 then Some(r.(ipend := value))
    else if offset == 0x08 then Some(r.(iforce := r.iforce + value))
    else if offset == 0x0C then Some(r.(iclear := value, ipend := r.ipend - value * LINES))
    else if offset == 0x10 then Some(r)
    else if offset == 0x14 then Some(r.(brdcst := value * LINES))
    else if offset == 0x18 then Some(r.(errstat := value))
    else None
  }

  /** A broadcast line is forced on every CPU that has it unmasked; any other line becomes pending. */
  function Triggered(r: Regs, n: nat, irl: nat): Regs
    requires |r.piforce| == CPUS && |r.pimask| == CPUS && 1 <= n <= CPUS
  {
    if irl in r.brdcst then
      r.(piforce := seq(CPUS, (i: nat) requires i < CPUS =>
                                if i < n && irl in r.pimask[i] then r.piforce[i] + {irl} else r.piforce[i]),
         iforce := if n == 1 && irl in r.pimask[0] then r.iforce + {irl} else r.iforce)
    else r.(ipend := r.ipend + {irl})
  }

  /** An acknowledge clears the forced bit if there is one, else the pending bit. */
  function Acked(r: Regs, irl: nat, cpu: nat): Regs
    requires cpu < |r.piforce|
  {
    if irl in r.piforce[cpu] then r.(piforce := r.piforce[cpu := r.piforce[cpu] - {irl}])
    else r.(ipend := r.ipend - {irl})
  }

  /* Acknowledging */

  /** The lines of s not above k, in descending order. */
  function Descending(s: Lines, k: nat): (r: seq<nat>)
    ensures forall i :: i in r <==> i in s && 1 <= i <= k
  {
    if k == 0 then [] else if k in s then [k] + Descending(s, k - 1) else Descending(s, k - 1)
  }

  lemma {:induction false} DescendingDescends(s: Lines, k: nat, i: nat, j: nat)
    requires i < j < |Descending(s, k)|
    ensures Descending(s, k)[i] > Descending(s, k)[j]
  {
    var rest := Descending(s, k - 1);
    if k !in s {
      DescendingDescends(s, k - 1, i, j);
    } else if i > 0 {
      DescendingDescends(s, k - 1, i - 1, j - 1);
    } else {
      assert rest[j - 1] in rest;
    }
  }

  /** As many entries as there are lines. */
  lemma {:induction false} DescendingCounts(s: Lines, k: nat, t: Lines)
    requires forall i :: i in t <==> i in s && 1 <= i <= k
    ensures |Descending(s, k)| == |t|
  {
    if k > 0 {
      DescendingCounts(s, k - 1, t - {k});
    }
  }

  /** Taking the highest line off a set takes the head off its descending list. */
  lemma {:induction false} HeadIsHighest(s: Lines, k: nat)
    ensures Highest(s, k) == 0 <==> Descending(s, k) == []
    ensures var h := Highest(s, k); h != 0 ==> Descending(s, k) == [h] + Descending(s - {h}, k)
  {
    if k > 0 {
      if k in s {
        SameBelow(s, s - {k}, k - 1);
      } else {
        HeadIsHighest(s, k - 1);
      }
    }
  }

  lemma {:induction false} SameBelow(s: Lines, t: Lines, k: nat)
    requires forall i :: 1 <= i <= k ==> (i in s <==> i in t)
    ensures Descending(s, k) == Descending(t, k)
  {
    if k > 0 {
      SameBelow(s, t, k - 1);
    }
  }

  /** What acknowledging hints until none is left delivers to a CPU. */
  function Due(r: Regs, cpu: nat): seq<nat>
    requires cpu < |r.piforce| && cpu < |r.pimask|
  {
    Descending(r.piforce[cpu] * r.pimask[cpu], 15) + Descending(r.ipend * r.pimask[cpu], 15)
  }

  /** One acknowledgement for each unmasked forced line and one for each unmasked pending line. */
  lemma DueCounts(r: Regs, cpu: nat)
    requires cpu < |r.piforce| && cpu < |r.pimask|
    ensures |Due(r, cpu)| == |r.piforce[cpu] * r.pimask[cpu] * LINES| + |r.ipend * r.pimask[cpu] * LINES|
  {
    DescendingCounts(r.piforce[cpu] * r.pimask[cpu], 15, r.piforce[cpu] * r.pimask[cpu] * LINES);
    DescendingCounts(r.ipend * r.pimask[cpu], 15, r.ipend * r.pimask[cpu] * LINES);
  }

  /** Acknowledging the hint delivers the head of what is due and leaves the tail due. */
  lemma AckDelivers(r: Regs, cpu: nat)
    requires |r.piforce| == CPUS && |r.pimask| == CPUS && cpu < CPUS
    ensures var h := Hint(r.piforce[cpu], r.pimask[cpu], r.ipend);
            && (h == 0 <==> Due(r, cpu) == [])
            && (h != 0 ==> Due(r, cpu) == [h] + Due(Acked(r, h, cpu), cpu))
  {
    var f, p, m := r.piforce[cpu], r.ipend, r.pimask[cpu];
    HeadIsHighest(f * m, 15);
    HeadIsHighest(p * m, 15);
    var h := Highest(f * m, 15);
    if h != 0 {
      assert (f - {h}) * m == f * m - {h};
    } else {
      var g := Highest(p * m, 15);
      assert (p - {g}) * m == p * m - {g};
      assert g != 0 ==> g in p * m && g !in f * m;
    }
  }

  /* Who gets an interrupt */

  ghost predicate RegsOk(r: Regs) {
    |r.piforce| == CPUS && |r.pimask| == CPUS
  }

  /** Line l is due to the CPU because it is forced there, or because it is pending. */
  ghost predicate ForcedDue(r: Regs, cpu: nat, l: nat)
    requires RegsOk(r) && cpu < CPUS
  {
    1 <= l <= 15 && l in r.piforce[cpu] && l in r.pimask[cpu]
  }

  ghost predicate PendingDue(r: Regs, cpu: nat, l: nat)
    requires RegsOk(r) && cpu < CPUS
  {
    1 <= l <= 15 && l in r.ipend && l in r.pimask[cpu]
  }

  lemma DueIs(r: Regs, cpu: nat, l: nat)
    requires RegsOk(r) && cpu < CPUS
    ensures l in Due(r, cpu) <==> ForcedDue(r, cpu, l) || PendingDue(r, cpu, l)
  {
    assert l in r.piforce[cpu] * r.pimask[cpu] <==> l in r.piforce[cpu] && l in r.pimask[cpu];
    assert l in r.ipend * r.pimask[cpu] <==> l in r.ipend && l in r.pimask[cpu];
  }

  /** A line that is triggered becomes due to every CPU that has it unmasked, a broadcast one only among the CPUs there
      are; nothing else does. */
  lemma TriggerDelivers(r: Regs, n: nat, irl: nat, cpu: nat, l: nat)
    requires RegsOk(r) && 1 <= n <= CPUS && 1 <= irl <= 15 && cpu < CPUS
    ensures RegsOk(Triggered(r, n, irl))
    ensures l in Due(Triggered(r, n, irl), cpu) <==>
            || l in Due(r, cpu)
            || (l == irl && irl in r.pimask[cpu] && (irl in r.brdcst ==> cpu < n))
  {
    DueIs(r, cpu, l);
    DueIs(Triggered(r, n, irl), cpu, l);
  }

  /** A broadcast line that one CPU has acknowledged is still due to the others. */
  lemma BroadcastReachesAll(r: Regs, n: nat, irl: nat, a: nat, b: nat)
    requires RegsOk(r) && 1 <= n <= CPUS && 1 <= irl <= 15 && a < n && b < n && a != b
    requires irl in r.brdcst && irl in r.pimask[a] && irl in r.pimask[b]
    ensures var t := Acked(Triggered(r, n, irl), irl, a); RegsOk(t) && irl in Due(t, b)
  {
    DueIs(Acked(Triggered(r, n, irl), irl, a), b, irl);
  }

  /** Any other line is taken once: after one acknowledgement it is due to no CPU on which it is not forced. */
  lemma SharedTakenOnce(r: Regs, n: nat, irl: nat, a: nat, b: nat)
    requires RegsOk(r) && 1 <= n <= CPUS && 1 <= irl <= 15 && a < CPUS && b < CPUS
    requires irl !in r.brdcst && irl !in r.piforce[a] && irl !in r.piforce[b]
    ensures var t := Acked(Triggered(r, n, irl), irl, a); RegsOk(t) && irl !in Due(t, b)
  {
    DueIs(Acked(Triggered(r, n, irl), irl, a), b, irl);
  }

  /** What each register write makes due, by CPU and line: mask and force registers by CPU from 0x40 and 0x80
      on, pending lines at 0x04, and the clear register at 0x0C, which takes back pending lines only. */
  lemma WriteDelivers(r: Regs, offset: nat, value: Lines, cpu: nat, l: nat)
    requires RegsOk(r) && cpu < CPUS && Written(r, offset, value).Some?
    ensures var w := Written(r, offset, value).value;
            && RegsOk(w)
            && (ForcedDue(w, cpu, l) <==>
                  if offset / 4 == 0x10 + cpu then 1 <= l <= 15 && l in r.piforce[cpu] && l in value
                  else ForcedDue(r, cpu, l)
                       || (offset / 4 == 0x20 + cpu && 1 <= l <= 15 && l in value && l in r.pimask[cpu]))
            && (PendingDue(w, cpu, l) <==>
                  if offset / 4 == 0x10 + cpu then 1 <= l <= 15 && l in r.ipend && l in value
                  else if offset == 0x04 then 1 <= l <= 15 && l in value && l in r.pimask[cpu]
                  else PendingDue(r, cpu, l) && (offset == 0x0C ==> l !in value))
  {
  }

  /** The broadcast register decides, for the lines 1 to 15, which kind a line is. */
  lemma WriteBroadcasts(r: Regs, value: Lines, l: nat)
    requires RegsOk(r)
    ensures var w := Written(r, 0x14, value); w.Some? && (l in w.value.brdcst <==> 1 <= l <= 15 && l in value)
  {
  }

  lemma HintIsLine(f: Lines, m: Lines, p: Lines)
    ensures var h := Hint(f, m, p); h != 0 ==> h in m * LINES && h < 16
  {
  }

  lemma Remainder(before: Lines, after: Lines, l: Lines)
    requires after <= before && before - after <= l && after * l == {}
    ensures after == before - l
  {
    forall i | i in after
      ensures i !in l
    {
      assert i !in after * l;
    }
  }

  lemma NothingLeft(f: Lines, m: Lines, p: Lines)
    requires Hint(f, m, p) == 0
    ensures f * (m * LINES) == {} && p * (m * LINES) == {}
  {
    forall i | i in LINES && i in m
      ensures i !in f && i !in p
    {
      assert i !in f * m && i !in p * m;
    }
  }

  class IRQMP {
    const numCpus: nat
    var ilevel: Lines
    var ipend: Lines
    var iforce: Lines
    var iclear: Lines
    var brdcst: Lines
    var errstat: Lines
    const piforce: array<Lines>
    const pimask: array<Lines>
    const irqHint: array<nat>

    ghost predicate Shaped()
      reads this
    {
      && 1 <= numCpus <= CPUS
      && piforce.Length == CPUS && pimask.Length == CPUS && irqHint.Length == CPUS && piforce != pimask
    }

    ghost function R(): Regs
      requires Shaped()
      reads this, piforce, pimask
    {
      Regs(ilevel, ipend, iforce, iclear, brdcst, errstat, piforce[..], pimask[..])
    }

    /** Every CPU's lock-free hint tracks the registers. */
    ghost predicate Valid()
      reads this, piforce, pimask, irqHint
    {
      && Shaped()
      && forall c :: 0 <= c < numCpus ==> irqHint[c] == Hint(piforce[c], pimask[c], ipend)
    }

    constructor (numCpus: nat)
      requires 1 <= numCpus <= CPUS
      ensures Valid() && this.numCpus == numCpus && fresh(piforce) && fresh(pimask) && fresh(irqHint)
      ensures R() == Regs({}, {}, {}, {}, {}, {}, seq(CPUS, _ => {}), seq(CPUS, _ => {}))
    {
      this.numCpus := numCpus;
      ilevel, ipend, iforce, iclear, brdcst, errstat := {}, {}, {}, {}, {}, {};
      piforce := new Lines[CPUS](_ => {});
      pimask := new Lines[CPUS](_ => {});
      irqHint := new nat[CPUS](_ => 0);
    }

    method UpdateHints()
      requires Shaped()
      modifies irqHint
      ensures Valid()
    {
      for c := 0 to numCpus
        invariant forall j :: 0 <= j < c ==> irqHint[j] == Hint(piforce[j], pimask[j], ipend)
      {
        var h := ScanLines(piforce[c], pimask[c]);
        if h == 0 {
          h := ScanLines(ipend, pimask[c]);
        }
        irqHint[c] := h;
      }
    }

    method Reset()
      requires Shaped()
      modifies piforce, pimask, irqHint
      ensures Valid()
      ensures R() == old(R()).(piforce := seq(CPUS, _ => {}), pimask := seq(CPUS, _ => {}))
    {
      for i := 0 to CPUS
        invariant forall j :: 0 <= j < i ==> piforce[j] == {} && pimask[j] == {} && irqHint[j] == 0
      {
        pimask[i] := {};
        piforce[i] := {};
        irqHint[i] := 0;
      }
      assert forall j :: 0 <= j < numCpus ==> Hint(piforce[j], pimask[j], ipend) == 0;
    }

    /** Raises a line and returns the CPUs to wake. A CPU whose hint changes is among them. */
    method TriggerIrq(IRL: Word) returns (woken: set<nat>)
      requires Valid()
      modifies this, piforce, irqHint
      ensures Valid()
      ensures R() == Triggered(old(R()), numCpus, IRL % 16)
      ensures woken == set c: nat | c < numCpus && IRL % 16 in pimask[c]
      ensures forall c :: 0 <= c < numCpus && irqHint[c] != old(irqHint[c]) ==> c in woken
    {
      var irl := IRL % 16;
      if irl in brdcst {
        if numCpus > 1 {
          for i := 0 to numCpus
            invariant forall j :: 0 <= j < CPUS ==>
                        piforce[j] == if j < i && irl in pimask[j] then old(piforce[j]) + {irl} else old(piforce[j])
            modifies piforce
          {
            if irl in pimask[i] {
              piforce[i] := piforce[i] + {irl};
            }
          }
        } else if irl in pimask[0] {
          piforce[0] := piforce[0] + {irl};
          iforce := iforce + {irl};
        }
      } else {
        ipend := ipend + {irl};
      }
      UpdateHints();
      woken := set c: nat | c < numCpus && irl in pimask[c];
      forall c | 0 <= c < numCpus && c !in woken
        ensures irqHint[c] == old(irqHint[c])
      {
        assert piforce[c] * pimask[c] == old(piforce[c]) * pimask[c];
        assert ipend * pimask[c] == old(ipend) * pimask[c];
      }
    }

    method ClearIrq(IRL: Word, cpuId: Byte)
      requires Valid()
      modifies this, piforce, irqHint
      ensures Valid()
      ensures R() == Acked(old(R()), IRL % 16, cpuId % 8)
    {
      var irl, cpu := IRL % 16, cpuId % 8;
      if irl in piforce[cpu] {
        piforce[cpu] := piforce[cpu] - {irl};
      } else {
        ipend := ipend - {irl};
      }
      UpdateHints();
    }

    /** A register write keeps the hints true, and fails where the emulator throws. */
    method Write(offset: Word, value: Lines) returns (ok: bool)
      requires Valid()
      modifies this, piforce, pimask, irqHint
      ensures Valid()
      ensures ok <==> Written(old(R()), offset, value).Some?
      ensures R() == if ok then Written(old(R()), offset, value).value else old(R())
    {
      ok := true;
      if 0x40 <= offset < 0x60 {
        pimask[(offset - 0x40) / 4] := value;
        UpdateHints();
      } else if 0x80 <= offset < 0xA0 {
        var n := (offset - 0x80) / 4;
        piforce[n] := piforce[n] + value;
        UpdateHints();
      } else if offset == 0x00 {
        ilevel := value;
      } else if offset == 0x04 {
        ipend := value;
        UpdateHints();
      } else if offset == 0x08 {
        iforce := iforce + value;
        UpdateHints();
      } else if offset == 0x0C {
        iclear := value;
        ipend := ipend - value * LINES;
        UpdateHints();
      } else if offset == 0x10 {
      } else if offset == 0x14 {
        brdcst := value * LINES;
      } else if offset == 0x18 {
        errstat := value;
      } else {
        ok := false;
      }
    }

    /** Acknowledging a hint delivers the first line due and clears a bit of that line only. */
    method AckHint(cpu: nat) returns (h: nat)
      requires Valid() && cpu < numCpus && irqHint[cpu] != 0
      modifies this, piforce, irqHint
      ensures Valid() && old(Due(R(), cpu)) == [h] + Due(R(), cpu) && h in pimask[cpu] * LINES
      ensures brdcst == old(brdcst) && forall c :: 0 <= c < CPUS && c != cpu ==> piforce[c] == old(piforce[c])
      ensures old(piforce[cpu]) - {h} <= piforce[cpu] <= old(piforce[cpu]) && old(ipend) - {h} <= ipend <= old(ipend)
    {
      h := irqHint[cpu];
      AckDelivers(R(), cpu);
      HintIsLine(piforce[cpu], pimask[cpu], ipend);
      ClearIrq(h, cpu);
    }

    /** Acknowledging one CPU's hint until it is 0 delivers each unmasked forced line and then each
        unmasked pending line, both in descending order, and clears exactly those bits. */
    method Drain(cpu: nat) returns (delivered: seq<nat>)
      requires Valid() && cpu < numCpus
      modifies this, piforce, irqHint
      ensures Valid() && irqHint[cpu] == 0
      ensures delivered == old(Due(R(), cpu))
      ensures pimask[..] == old(pimask[..]) && brdcst == old(brdcst)
      ensures forall c :: 0 <= c < CPUS && c != cpu ==> piforce[c] == old(piforce[c])
      ensures piforce[cpu] == old(piforce[cpu]) - pimask[cpu] * LINES && ipend == old(ipend) - pimask[cpu] * LINES
    {
      delivered := [];
      ghost var all := Due(R(), cpu);
      while irqHint[cpu] != 0
        invariant Valid()
        invariant all == delivered + Due(R(), cpu)
        invariant brdcst == old(brdcst)
        invariant forall c :: 0 <= c < CPUS && c != cpu ==> piforce[c] == old(piforce[c])
        invariant piforce[cpu] <= old(piforce[cpu]) && old(piforce[cpu]) - piforce[cpu] <= pimask[cpu] * LINES
        invariant ipend <= old(ipend) && old(ipend) - ipend <= pimask[cpu] * LINES
        decreases |Due(R(), cpu)|
      {
        var h := AckHint(cpu);
        delivered := delivered + [h];
      }
      AckDelivers(R(), cpu);
      NothingLeft(piforce[cpu], pimask[cpu], ipend);
      Remainder(old(piforce[cpu]), piforce[cpu], pimask[cpu] * LINES);
      Remainder(old(ipend), ipend, pimask[cpu] * LINES);
    }
  }
}
