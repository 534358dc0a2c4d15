/** The 16-entry translation look-aside buffer with its one-entry micro-cache. */
module Tlb {
  import opened Words
  import opened Srmmu

  const TLB_ENTRIES: nat := 16

  /** The context tag that marks the micro-cache as empty. */
  const NO_CONTEXT: Word := 0xFFFF_FFFF

  datatype Entry = Entry(tag: Word, mask: Word, pte: Word, context: Word, level: nat) {
    predicate Hits(c: Word, va: Word) {
      context == c && BitAnd(va, mask) == tag
    }
    predicate Live() {
      IsPte(pte)
    }
  }

  const BLANK: Entry := Entry(0, 0, 0, 0, 0)

  /** The micro-cache before its first use. */
  const UNUSED: Entry := BLANK.(context := NO_CONTEXT)

  /** The entry without its PTE, if it is live and matches. */
  function Killed(e: Entry, c: Word, va: Word): Entry {
    if e.Live() && e.Hits(c, va) then e.(pte := 0) else e
  }

  ghost predicate LiveHit(entries: seq<Entry>, c: Word, va: Word) {
    exists i :: 0 <= i < |entries| && entries[i].Live() && entries[i].Hits(c, va)
  }

  class Buffer {
    const entries: array<Entry>
    var nextVictim: nat
    var mc: Entry

    /** A micro-cache that is in use is a copy of a live entry. */
    ghost predicate Valid()
      reads this, entries
    {
      && entries.Length == TLB_ENTRIES && nextVictim < TLB_ENTRIES
      && (mc.context != NO_CONTEXT ==> mc.Live() && mc in entries[..])
    }

    constructor ()
      ensures Valid() && fresh(entries)
      ensures forall i :: 0 <= i < TLB_ENTRIES ==> entries[i] == BLANK
      ensures mc == UNUSED
    {
      entries := new Entry[TLB_ENTRIES](_ => BLANK);
      nextVictim := 0;
      mc := UNUSED;
    }

    /** A hit names a live matching entry and a miss means there is none, unless the caller asks for
        the context that marks an empty micro-cache. */
    method Lookup(c: Word, va: Word) returns (found: bool, pte: Word, level: nat)
      requires Valid()
      modifies this`mc
      ensures Valid()
      ensures found <==> old(mc).Hits(c, va) || LiveHit(entries[..], c, va)
      ensures found && c != NO_CONTEXT ==>
                exists i :: 0 <= i < TLB_ENTRIES && entries[i].Live() && entries[i].Hits(c, va)
                            && pte == entries[i].pte && level == entries[i].level
      ensures old(mc).Hits(c, va) ==> pte == old(mc).pte && level == old(mc).level
      ensures !found ==> pte == 0 && level == 0 && mc == old(mc)
    {
      if mc.Hits(c, va) {
        return true, mc.pte, mc.level;
      }
      for i := 0 to TLB_ENTRIES
        invariant Valid() && mc == old(mc)
        invariant forall j :: 0 <= j < i ==> !(entries[j].Live() && entries[j].Hits(c, va))
      {
        if entries[i].Live() && entries[i].Hits(c, va) {
          mc := entries[i];
          return true, entries[i].pte, entries[i].level;
        }
      }
      return false, 0, 0;
    }

    /** Replaces the next victim and warms the micro-cache. Fails (the emulator throws) on a level
        that has no page mask. */
    method Insert(c: Word, va: Word, level: nat, pte: Word) returns (ok: bool)
      requires Valid()
      modifies this`nextVictim, this`mc, entries
      ensures Valid()
      ensures ok <==> !IsPte(pte) || 1 <= level <= 3
      ensures !ok || !IsPte(pte) ==> entries[..] == old(entries[..]) && mc == old(mc) && nextVictim == old(nextVictim)
      ensures ok && IsPte(pte) ==>
                var e := Entry(BitAnd(va, LevelMask(level)), LevelMask(level), pte, c, level);
                && entries[..] == old(entries[..])[old(nextVictim) := e] && mc == e
                && nextVictim == (old(nextVictim) + 1) % TLB_ENTRIES
    {
      if !IsPte(pte) {
        return true;
      }
      if level < 1 || level > 3 {
        return false;
      }
      var e := Entry(BitAnd(va, LevelMask(level)), LevelMask(level), pte, c, level);
      entries[nextVictim] := e;
      assert entries[nextVictim] in entries[..];
      nextVictim := (nextVictim + 1) % TLB_ENTRIES;
      mc := e;
      return true;
    }

    /** Kills exactly the live entries that match, and empties the micro-cache. */
    method InvalidateStrict(c: Word, va: Word)
      requires Valid()
      modifies this`mc, entries
      ensures Valid() && mc.context == NO_CONTEXT && nextVictim == old(nextVictim)
      ensures !LiveHit(entries[..], c, va)
      ensures forall i :: 0 <= i < TLB_ENTRIES ==>
                entries[i] == Killed(old(entries[i]), c, va)
    {
      for i := 0 to TLB_ENTRIES
        modifies entries
        invariant forall j :: 0 <= j < i ==>
                    entries[j] == Killed(old(entries[j]), c, va)
        invariant forall j :: i <= j < TLB_ENTRIES ==> entries[j] == old(entries[j])
      {
        if entries[i].Live() && entries[i].Hits(c, va) {
          entries[i] := entries[i].(pte := 0);
        }
      }
      mc := mc.(context := NO_CONTEXT);
    }

    method Flush()
      requires Valid()
      modifies this, entries
      ensures Valid() && mc.context == NO_CONTEXT && nextVictim == 0
      ensures forall i :: 0 <= i < TLB_ENTRIES ==> entries[i] == BLANK
    {
      forall i | 0 <= i < TLB_ENTRIES {
        entries[i] := BLANK;
      }
      nextVictim := 0;
      mc := mc.(context := NO_CONTEXT);
    }
  }
}
