/** The memory controller's bank lookup, with the thread-local cache of the last bank found. */
module BankCache {
  import opened Words
  import opened Banks

  /** One thread's cache. `b` is a position in the owner's bank list, where the emulator keeps a
      pointer; both mean something only while owner and generation match. */
  class Cache {
    var ownerId: nat
    var gen: nat
    var b: Option<nat>
    var start: Word
    var size: nat

    constructor ()
      ensures ownerId == 0
    {
      ownerId, gen, b, start, size := 0, 0, None, 0, 0;
    }
  }

  class Controller {
    const id: nat
    var banks: seq<Bank>
    var generation: nat

    constructor (id: nat)
      ensures this.id == id && banks == []
    {
      this.id := id;
      banks, generation := [], 1;
    }

    /** What the cache must satisfy with respect to this controller, whoever owns it now. The cached
        size is the bank's size truncated to 32 bits. */
    ghost predicate Sound(c: Cache)
      reads this, c
    {
      c.ownerId == id ==>
        && c.gen <= generation
        && (c.gen == generation && c.b.Some? ==>
              && c.b.value < |banks|
              && c.start == banks[c.b.value].base
              && c.size == banks[c.b.value].size % 0x1_0000_0000)
    }

    /** Attaching fails (the emulator throws) exactly when the new range overlaps an attached one. */
    method AttachBank(bank: Bank) returns (ok: bool)
      requires PairwiseDisjoint(banks)
      modifies this
      ensures PairwiseDisjoint(banks)
      ensures ok <==> forall i :: 0 <= i < |old(banks)| ==> !bank.Overlaps(old(banks)[i])
      ensures banks == if ok then old(banks) + [bank] else old(banks)
      ensures generation == if ok then old(generation) + 1 else old(generation)
    {
      for i := 0 to |banks|
        invariant forall j :: 0 <= j < i ==> !bank.Overlaps(banks[j])
      {
        if bank.Overlaps(banks[i]) {
          return false;
        }
      }
      banks := banks + [bank];
      generation := generation + 1;
      return true;
    }

    method ClearBanks()
      modifies this
      ensures banks == [] && generation == old(generation) + 1
    {
      banks := [];
      generation := generation + 1;
    }

    /** The cached lookup is the linear scan, and leaves the cache sound for every other controller. */
    method FindBankOrNull(c: Cache, addr: Word) returns (r: Option<nat>)
      requires PairwiseDisjoint(banks) && Sound(c)
      modifies c
      ensures r == Scan(banks, addr)
      ensures Sound(c) && c.ownerId == id
    {
      if c.ownerId != id || c.gen != generation {
        c.ownerId, c.gen, c.b, c.start, c.size := id, generation, None, 0, 0;
      }
      if c.b.Some? && addr >= c.start && addr - c.start < c.size {
        UniqueBank(banks, addr, c.b.value);
        return c.b;
      }
      for i := 0 to |banks|
        invariant forall j :: 0 <= j < i ==> !banks[j].Contains(addr)
        invariant Sound(c) && c.ownerId == id && c.gen == generation
      {
        if banks[i].Contains(addr) {
          c.b, c.start, c.size := Some(i), banks[i].base, banks[i].size % 0x1_0000_0000;
          UniqueBank(banks, addr, i);
          return Some(i);
        }
      }
      c.b, c.start, c.size := None, 0, 0;
      return None;
    }
  }

  /* Runs over many controllers on one thread */

  datatype Op = Create | Attach(k: nat, bank: Bank) | Clear(k: nat) | Lookup(k: nat, addr: Word)

  datatype Result = Created | Attached(ok: bool) | Cleared | Found(r: Option<nat>) | NoController

  /** The same operations with no cache: a list of bank lists. */
  function PlainStep(cs: seq<seq<Bank>>, op: Op): (seq<seq<Bank>>, Result) {
    match op
    case Create => (cs + [[]], Created)
    case Attach(k, bank) =>
      if k >= |cs| then (cs, NoController)
      else if exists i :: 0 <= i < |cs[k]| && bank.Overlaps(cs[k][i]) then (cs, Attached(false))
      else (cs[k := cs[k] + [bank]], Attached(true))
    case Clear(k) => if k >= |cs| then (cs, NoController) else (cs[k := []], Cleared)
    case Lookup(k, addr) => if k >= |cs| then (cs, NoController) else (cs, Found(Scan(cs[k], addr)))
  }

  function PlainRun(cs: seq<seq<Bank>>, ops: seq<Op>): (seq<seq<Bank>>, seq<Result>)
    decreases |ops|
  {
    if ops == [] then (cs, [])
    else
      var (cs1, r) := PlainStep(cs, ops[0]);
      var (cs2, rs) := PlainRun(cs1, ops[1..]);
      (cs2, [r] + rs)
  }

  class Thread {
    const cache: Cache
    var ctrls: seq<Controller>
    ghost var view: seq<seq<Bank>>

    ghost predicate Valid()
      reads this, cache, ctrls
    {
      && |view| == |ctrls| && cache.ownerId <= |ctrls|
      && (forall k :: 0 <= k < |ctrls| ==>
            ctrls[k].id == k + 1 && ctrls[k].banks == view[k] && PairwiseDisjoint(view[k]) && ctrls[k].Sound(cache))
    }

    constructor ()
      ensures Valid() && view == [] && fresh(cache) && ctrls == []
    {
      cache := new Cache();
      ctrls := [];
      view := [];
    }

    method CreateController()
      requires Valid()
      modifies this
      ensures Valid() && view == old(view) + [[]]
      ensures |ctrls| == |old(ctrls)| + 1 && ctrls[..|old(ctrls)|] == old(ctrls) && fresh(ctrls[|old(ctrls)|])
    {
      var c := new Controller(|ctrls| + 1);
      ctrls := ctrls + [c];
      view := view + [[]];
      assert c.Sound(cache);
    }

    method AttachTo(k: nat, bank: Bank) returns (ok: bool)
      requires Valid() && k < |ctrls|
      modifies this`view, ctrls[k]
      ensures Valid()
      ensures ok <==> forall i :: 0 <= i < |old(view)[k]| ==> !bank.Overlaps(old(view)[k][i])
      ensures view == if ok then old(view)[k := old(view)[k] + [bank]] else old(view)
    {
      ok := ctrls[k].AttachBank(bank);
      if ok {
        view := view[k := view[k] + [bank]];
      }
    }

    method ClearAt(k: nat)
      requires Valid() && k < |ctrls|
      modifies this`view, ctrls[k]
      ensures Valid() && view == old(view)[k := []]
    {
      ctrls[k].ClearBanks();
      view := view[k := []];
    }

    method LookupAt(k: nat, addr: Word) returns (r: Option<nat>)
      requires Valid() && k < |ctrls|
      modifies cache
      ensures Valid() && r == Scan(view[k], addr)
    {
      r := ctrls[k].FindBankOrNull(cache, addr);
    }

    method Perform(op: Op) returns (r: Result)
      requires Valid()
      modifies this, cache, ctrls
      ensures Valid() && fresh(set c | c in ctrls && c !in old(ctrls))
      ensures (view, r) == PlainStep(old(view), op)
    {
      if !op.Create? && op.k >= |ctrls| {
        return NoController;
      }
      match op {
        case Create =>
          CreateController();
          assert forall c :: c in ctrls ==> c in old(ctrls) || c == ctrls[|old(ctrls)|];
          r := Created;
        case Attach(k, bank) =>
          var ok := AttachTo(k, bank);
          r := Attached(ok);
        case Clear(k) =>
          ClearAt(k);
          r := Cleared;
        case Lookup(k, addr) =>
          var f := LookupAt(k, addr);
          r := Found(f);
      }
    }

    /** Any interleaving of creations, attachments, clears and lookups returns what linear scans
        return; banks stay pairwise disjoint throughout. */
    method RunAll(ops: seq<Op>) returns (rs: seq<Result>)
      requires Valid()
      modifies this, cache, ctrls
      ensures Valid() && fresh(set c | c in ctrls && c !in old(ctrls))
      ensures (view, rs) == PlainRun(old(view), ops)
      ensures forall k :: 0 <= k < |view| ==> PairwiseDisjoint(view[k])
      decreases |ops|
    {
      if ops == [] {
        return [];
      }
      var r := Perform(ops[0]);
      rs := RunAll(ops[1..]);
      rs := [r] + rs;
    }
  }
}
